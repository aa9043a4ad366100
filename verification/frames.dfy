/**
 * The generator's frontier stack (source/generator/generator.cxx:53-78): a fixed
 * array of (row, col) slots and an index that push increments and pop
 * decrements. A slot is written or read only while the index is non-negative.
 */
module Frames {
  import opened Wrappers
  import opened Geometry

  datatype FrameStack = FrameStack(slots: seq<Cell>, index: int)

  /** The stack the generator allocates for a maze of logical size L: 100*L*L slots, index 0. */
  function NewStack(L: nat, filler: Cell): (s: FrameStack)
    ensures 0 <= s.index <= |s.slots| && Contents(s) == []
    ensures Capacity(s) == 100 * L * L
  {
    FrameStack(seq(100 * L * L, _ => filler), 0)
  }

  function Capacity(s: FrameStack): nat {
    |s.slots|
  }

  /** The entries below the index, bottom first. */
  function Contents(s: FrameStack): seq<Cell>
    requires 0 <= s.index <= |s.slots|
  {
    s.slots[..s.index]
  }

  /** push: store at the index when it is non-negative, then advance the index. */
  function Push(s: FrameStack, c: Cell): (r: FrameStack)
    requires s.index < |s.slots|
    ensures |r.slots| == |s.slots| && r.index == s.index + 1
    ensures s.index >= 0 ==> Contents(r) == Contents(s) + [c]
    ensures s.index < 0 ==> r.slots == s.slots
  {
    if s.index >= 0 then FrameStack(s.slots[s.index := c], s.index + 1)
    else FrameStack(s.slots, s.index + 1)
  }

  /** pop: retreat the index, then read the slot there when it is non-negative. */
  function Pop(s: FrameStack): (r: (FrameStack, Option<Cell>))
    requires s.index <= |s.slots|
    ensures r.0.slots == s.slots && r.0.index == s.index - 1
    ensures r.1.Some? <==> s.index >= 1
    ensures s.index >= 1 ==> Contents(s) == Contents(r.0) + [r.1.value]
  {
    var i := s.index - 1;
    (FrameStack(s.slots, i), if i >= 0 then Some(s.slots[i]) else None)
  }

  /** A pop undoes a push while the index is non-negative: the stack is last-in, first-out. */
  lemma PushThenPop(s: FrameStack, c: Cell)
    requires 0 <= s.index < |s.slots|
    ensures Pop(Push(s, c)).1 == Some(c)
    ensures Contents(Pop(Push(s, c)).0) == Contents(s)
  {
    assert Contents(Push(s, c)) == Contents(s) + [c];
  }

  /** Pushing at index -1 writes nothing and brings the index back to 0: the stack reads as empty. */
  lemma PushAtMinusOne(s: FrameStack, c: Cell)
    requires s.index == -1 && 0 < |s.slots|
    ensures Contents(Push(s, c)) == []
  {
  }

  /**
   * One carving step as the loop performs it: pop the active cell (line 96),
   * push it back and push the chosen neighbour n (lines 140-141).
   */
  function MoveFrames(s: FrameStack, n: Cell): (r: FrameStack)
    requires 1 <= s.index < |s.slots|
    ensures |r.slots| == |s.slots| && 0 <= r.index <= |r.slots|
    ensures Contents(r) == Contents(s) + [n]
  {
    var (below, a) := Pop(s);
    Push(Push(below, a.value), n)
  }

  /**
   * One dead end as the loop performs it: pop the active cell (line 96), pop the
   * cell beneath (line 153) and push that back (line 161). When the popped
   * cell was the last one, the second pop reads no slot and the push writes
   * `stale`, the neighbour last probed, at no slot.
   */
  function BacktrackFrames(s: FrameStack, stale: Cell): (r: FrameStack)
    requires 1 <= s.index <= |s.slots|
    ensures |r.slots| == |s.slots| && 0 <= r.index <= |r.slots|
    ensures Contents(r) == Contents(s)[..s.index - 1]
  {
    var (once, _) := Pop(s);
    var (twice, b) := Pop(once);
    Push(twice, if b.Some? then b.value else stale)
  }
}
