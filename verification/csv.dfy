/**
 * The CSV payload of Mapper::save (source/mapper/mapper.cxx:142-149): every
 * entry of the maze, row by row, written with std::to_string and followed by
 * a comma, with the last comma dropped.
 *
 * The partner definitions below read such a payload back (Split, ParseInt,
 * Decode), so the layout is pinned down by a round trip rather than by
 * restating the loop.
 */
module Csv {
  import opened Grids

  // ---------------------------------------------------------------------------
  // std::to_string and its inverse

  predicate IsDigit(ch: char) {
    '0' <= ch <= '9'
  }

  function DigitChar(d: int): (ch: char)
    requires 0 <= d < 10
    ensures IsDigit(ch)
  {
    "0123456789"[d]
  }

  function DigitValue(ch: char): int {
    ch as int - '0' as int
  }

  /** The decimal digits of n, most significant first, with no leading zero. */
  function Digits(n: nat): (s: string)
    ensures |s| >= 1
    ensures forall i | 0 <= i < |s| :: IsDigit(s[i])
    ensures n > 0 ==> s[0] != '0'
    decreases n
  {
    if n < 10 then [DigitChar(n)] else Digits(n / 10) + [DigitChar(n % 10)]
  }

  /** std::to_string of an int: a minus sign for negative values, then the digits. */
  function IntToString(v: int): (s: string)
    ensures |s| >= 1 && ',' !in s
  {
    if v < 0 then "-" + Digits(-v) else Digits(v)
  }

  /** The value of a string of decimal digits, read from the back. */
  function ParseNat(s: string): nat {
    if |s| == 0 then 0
    else
      var d := DigitValue(s[|s| - 1]);
      ParseNat(s[..|s| - 1]) * 10 + (if 0 <= d < 10 then d else 0)
  }

  /** An optionally signed decimal integer. */
  function ParseInt(s: string): int {
    var negative := |s| > 0 && s[0] == '-';
    var n := ParseNat(if negative then s[1..] else s);
    if negative then -(n as int) else n
  }

  lemma DigitRoundTrip(d: int)
    requires 0 <= d < 10
    ensures DigitValue(DigitChar(d)) == d
  {
  }

  /** Appending a digit shifts the value one decimal place and adds the digit. */
  lemma ParseSnoc(s: string, d: int)
    requires 0 <= d < 10
    ensures ParseNat(s + [DigitChar(d)]) == ParseNat(s) * 10 + d
  {
    assert (s + [DigitChar(d)])[..|s|] == s;
    DigitRoundTrip(d);
  }

  lemma {:induction false} ParseDigits(n: nat)
    ensures ParseNat(Digits(n)) == n
    decreases n
  {
    if n >= 10 {
      ParseDigits(n / 10);
      ParseSnoc(Digits(n / 10), n % 10);
    } else {
      DigitRoundTrip(n);
    }
  }

  /** A leading minus sign negates the digits after it. */
  lemma ParseSigned(d: string, n: nat)
    requires ParseNat(d) == n
    ensures ParseInt("-" + d) == -(n as int)
  {
    assert ("-" + d)[1..] == d;
  }

  lemma ParseNegative(v: int)
    requires v < 0
    ensures ParseInt(IntToString(v)) == v
  {
    ParseDigits(-v);
    ParseSigned(Digits(-v), -v);
  }

  lemma ParseNonNegative(v: int)
    requires v >= 0
    ensures ParseInt(IntToString(v)) == v
  {
    var d := Digits(v);
    assert IntToString(v) == d;
    assert IsDigit(d[0]);
    ParseDigits(v);
  }

  /** Reading back what std::to_string wrote gives the value again. */
  lemma ParseIntToString(v: int)
    ensures ParseInt(IntToString(v)) == v
  {
    if v < 0 {
      ParseNegative(v);
    } else {
      ParseNonNegative(v);
    }
  }

  // ---------------------------------------------------------------------------
  // Row-major order

  /** The entries of g, row by row. */
  function Flatten(g: seq<seq<int>>): seq<int> {
    if |g| == 0 then [] else Flatten(g[..|g| - 1]) + g[|g| - 1]
  }

  /** Where row i starts in the flattening of rows of width w. */
  function Offset(i: nat, w: nat): nat {
    if i == 0 then 0 else Offset(i - 1, w) + w
  }

  lemma {:induction false} OffsetIsProduct(i: nat, w: nat)
    ensures Offset(i, w) == i * w
  {
    if i > 0 {
      OffsetIsProduct(i - 1, w);
    }
  }

  /** The first n rows of a dims-wide grid flatten to Offset(n, dims) entries. */
  lemma {:induction false} FlattenLength(g: Grid, dims: nat, n: nat)
    requires IsSquare(g, dims) && n <= dims
    ensures |Flatten(g[..n])| == Offset(n, dims)
  {
    if n > 0 {
      FlattenLength(g, dims, n - 1);
      FlattenSnoc(g, n - 1);
    } else {
      assert g[..n] == [];
    }
  }

  /** Flattening the first n rows of a dims-wide grid puts entry (i, j) at Offset(i, dims) + j. */
  lemma {:induction false} FlattenEntry(g: Grid, dims: nat, n: nat, i: nat, j: nat)
    requires IsSquare(g, dims) && i < n <= dims && j < dims
    ensures Offset(i, dims) + j < |Flatten(g[..n])|
    ensures Flatten(g[..n])[Offset(i, dims) + j] == g[i][j]
    decreases n
  {
    FlattenLength(g, dims, n - 1);
    FlattenLength(g, dims, n);
    FlattenSnoc(g, n - 1);
    if i < n - 1 {
      FlattenEntry(g, dims, n - 1, i, j);
    }
  }

  /** The flattened grid has dims * dims entries. */
  lemma FlattenSize(g: Grid, dims: nat)
    requires IsSquare(g, dims)
    ensures |Flatten(g)| == dims * dims
  {
    FlattenLength(g, dims, dims);
    assert g[..dims] == g;
    OffsetIsProduct(dims, dims);
  }

  /** vals lists the entries of the dims-wide grid g in row-major order: entry (i, j) at index i * dims + j. */
  predicate RowMajor(vals: seq<int>, g: Grid, dims: nat)
    requires IsSquare(g, dims)
  {
    forall i, j | 0 <= i < dims && 0 <= j < dims ::
      i * dims + j < |vals| && vals[i * dims + j] == g[i][j]
  }

  /** Entry (i, j) of the grid is entry i * dims + j of its flattening. */
  lemma FlattenIndex(g: Grid, dims: nat)
    requires IsSquare(g, dims)
    ensures RowMajor(Flatten(g), g, dims)
  {
    forall i, j | 0 <= i < dims && 0 <= j < dims
      ensures i * dims + j < |Flatten(g)| && Flatten(g)[i * dims + j] == g[i][j]
    {
      FlattenAt(g, dims, i, j);
    }
  }

  lemma FlattenAt(g: Grid, dims: nat, i: nat, j: nat)
    requires IsSquare(g, dims) && i < dims && j < dims
    ensures i * dims + j < |Flatten(g)| && Flatten(g)[i * dims + j] == g[i][j]
  {
    assert g[..dims] == g;
    OffsetIsProduct(i, dims);
    FlattenEntry(g, dims, dims, i, j);
  }

  lemma FlattenSnoc(g: seq<seq<int>>, i: int)
    requires 0 <= i < |g|
    ensures Flatten(g[..i + 1]) == Flatten(g[..i]) + g[i]
  {
    assert g[..i + 1][..i] == g[..i];
  }

  // ---------------------------------------------------------------------------
  // Joining and splitting at commas

  /** fields separated by commas. */
  function Join(fields: seq<string>): string
    requires |fields| >= 1
  {
    if |fields| == 1 then fields[0] else Join(fields[..|fields| - 1]) + "," + fields[|fields| - 1]
  }

  /** The index of the last comma of s, or -1 when there is none. */
  function LastComma(s: string): (i: int)
    ensures -1 <= i < |s|
    ensures i >= 0 ==> s[i] == ',' && ',' !in s[i + 1..]
    ensures i == -1 ==> ',' !in s
  {
    if |s| == 0 then -1
    else if s[|s| - 1] == ',' then |s| - 1
    else
      var i := LastComma(s[..|s| - 1]);
      assert s == s[..|s| - 1] + [s[|s| - 1]];
      i
  }

  /** The comma-separated fields of s (one field when s has no comma). */
  function Split(s: string): (parts: seq<string>)
    ensures |parts| >= 1
    decreases |s|
  {
    var i := LastComma(s);
    if i < 0 then [s] else Split(s[..i]) + [s[i + 1..]]
  }

  /** Each value written with std::to_string. */
  function Fields(vals: seq<int>): (fs: seq<string>)
    ensures |fs| == |vals|
    ensures forall i | 0 <= i < |vals| :: fs[i] == IntToString(vals[i])
  {
    seq(|vals|, i requires 0 <= i < |vals| => IntToString(vals[i]))
  }

  /** Read a payload back: split at commas and parse each field. */
  function Decode(s: string): (vals: seq<int>)
    ensures |vals| == |Split(s)|
  {
    var parts := Split(s);
    seq(|parts|, i requires 0 <= i < |parts| => ParseInt(parts[i]))
  }

  /** The number of commas in s. */
  function Commas(s: string): nat {
    if |s| == 0 then 0 else Commas(s[..|s| - 1]) + (if s[|s| - 1] == ',' then 1 else 0)
  }

  lemma {:induction false} LastCommaAfter(a: string, b: string)
    requires ',' !in b
    ensures LastComma(a + "," + b) == |a|
    decreases |b|
  {
    var s := a + "," + b;
    if |b| > 0 {
      assert s[..|s| - 1] == a + "," + b[..|b| - 1];
      LastCommaAfter(a, b[..|b| - 1]);
    }
  }

  /** Splitting a join of comma-free fields gives the fields back. */
  lemma {:induction false} SplitJoin(fields: seq<string>)
    requires |fields| >= 1
    requires forall i | 0 <= i < |fields| :: ',' !in fields[i]
    ensures Split(Join(fields)) == fields
    decreases |fields|
  {
    if |fields| > 1 {
      var init := fields[..|fields| - 1];
      var last := fields[|fields| - 1];
      var s := Join(init) + "," + last;
      LastCommaAfter(Join(init), last);
      assert s[..|Join(init)|] == Join(init);
      assert s[|Join(init)| + 1..] == last;
      SplitJoin(init);
      assert fields == init + [last];
    }
  }

  lemma {:induction false} CommasConcat(a: string, b: string)
    ensures Commas(a + b) == Commas(a) + Commas(b)
    decreases |b|
  {
    if |b| > 0 {
      assert (a + b)[..|a + b| - 1] == a + b[..|b| - 1];
      CommasConcat(a, b[..|b| - 1]);
    } else {
      assert a + b == a;
    }
  }

  lemma {:induction false} NoCommas(s: string)
    requires ',' !in s
    ensures Commas(s) == 0
    decreases |s|
  {
    if |s| > 0 {
      assert s[|s| - 1] in s;
      NoCommas(s[..|s| - 1]);
    }
  }

  /** A join of comma-free fields has one comma fewer than it has fields. */
  lemma {:induction false} CommasInJoin(fields: seq<string>)
    requires |fields| >= 1
    requires forall i | 0 <= i < |fields| :: ',' !in fields[i]
    ensures Commas(Join(fields)) == |fields| - 1
    decreases |fields|
  {
    var last := fields[|fields| - 1];
    NoCommas(last);
    if |fields| > 1 {
      var init := fields[..|fields| - 1];
      CommasInJoin(init);
      CommasConcat(Join(init), ",");
      CommasConcat(Join(init) + ",", last);
      assert Commas(",") == 1 by {
        assert ","[..0] == "";
      }
    }
  }

  /** Values written back to back, each followed by a comma. */
  function Terminated(vals: seq<int>): string {
    if |vals| == 0 then "" else Terminated(vals[..|vals| - 1]) + IntToString(vals[|vals| - 1]) + ","
  }

  /** Dropping the last value drops the last field. */
  lemma FieldsInit(vals: seq<int>)
    requires |vals| >= 1
    ensures Fields(vals)[..|vals| - 1] == Fields(vals[..|vals| - 1])
  {
  }

  /** Writing each value with a trailing comma is the comma-separated join plus one comma. */
  lemma {:induction false} TerminatedJoin(vals: seq<int>)
    requires |vals| >= 1
    ensures Terminated(vals) == Join(Fields(vals)) + ","
    decreases |vals|
  {
    var n := |vals|;
    if n > 1 {
      var init := vals[..n - 1];
      TerminatedJoin(init);
      FieldsInit(vals);
      assert Join(Fields(vals)) == Join(Fields(init)) + "," + IntToString(vals[n - 1]);
    } else {
      assert Terminated(vals) == Terminated([]) + IntToString(vals[0]) + ",";
    }
  }


  /**
   * The encoding round-trips: splitting the joined fields gives the fields
   * back, and decoding them gives the values back.
   */
  lemma DecodeJoin(vals: seq<int>)
    requires |vals| >= 1
    ensures Split(Join(Fields(vals))) == Fields(vals)
    ensures Decode(Join(Fields(vals))) == vals
  {
    var fs := Fields(vals);
    SplitJoin(fs);
    forall i | 0 <= i < |vals|
      ensures Decode(Join(fs))[i] == vals[i]
    {
      ParseIntToString(vals[i]);
    }
  }

  // ---------------------------------------------------------------------------
  // The loop of Mapper::save

  lemma {:induction false} MulMono(a: int, b: int, c: nat)
    requires a <= b
    ensures a * c <= b * c
    decreases b - a
  {
    if a < b {
      MulMono(a, b - 1, c);
      assert b * c == (b - 1) * c + c;
    }
  }

  lemma SnocSlice(a: seq<int>, row: seq<int>, jj: int)
    requires 0 <= jj < |row|
    ensures a + row[..jj + 1] == (a + row[..jj]) + [row[jj]]
  {
  }

  lemma TerminatedAppend(vals: seq<int>, v: int)
    ensures Terminated(vals + [v]) == Terminated(vals) + IntToString(v) + ","
  {
    assert (vals + [v])[..|vals|] == vals;
  }

  /** The inner loop of Mapper::save: each entry of one row, followed by a comma, appended to the stream. */
  method WriteRow(stream: string, ghost written: seq<int>, row: seq<int>) returns (out: string)
    requires stream == Terminated(written)
    ensures out == Terminated(written + row)
  {
    out := stream;
    var jj := 0;
    assert written + row[..0] == written;
    while jj < |row|
      invariant 0 <= jj <= |row|
      invariant out == Terminated(written + row[..jj])
    {
      SnocSlice(written, row, jj);
      TerminatedAppend(written + row[..jj], row[jj]);
      out := out + IntToString(row[jj]) + ",";
      jj := jj + 1;
    }
    assert row[..jj] == row;
  }

  /** The nested loop of Mapper::save: every entry, row by row, followed by a comma. */
  method WriteEntries(maze: Grid, dims: int) returns (stream: string)
    requires IsSquare(maze, dims) && dims >= 0
    ensures stream == Terminated(Flatten(maze))
  {
    stream := "";
    var ii := 0;
    assert maze[..0] == [];
    while ii < dims
      invariant 0 <= ii <= dims
      invariant stream == Terminated(Flatten(maze[..ii]))
    {
      stream := WriteRow(stream, Flatten(maze[..ii]), maze[ii]);
      FlattenSnoc(maze, ii);
      ii := ii + 1;
    }
    assert maze[..dims] == maze;
  }

  /**
   * The data string Mapper::save builds: the stream after the nested loop,
   * with the trailing comma popped. The stream never holds whitespace, so
   * `ss >> data` reads all of it. A grid with no entries would make pop_back
   * act on an empty string, hence dims >= 1.
   */
  method SaveData(maze: Grid, dims: int) returns (data: string)
    requires IsSquare(maze, dims) && dims >= 1
    ensures data == Join(Fields(Flatten(maze)))
    ensures Split(data) == Fields(Flatten(maze))
    ensures Decode(data) == Flatten(maze)
    ensures |Decode(data)| == dims * dims
    ensures RowMajor(Decode(data), maze, dims)
    ensures Commas(data) == dims * dims - 1
  {
    var stream := WriteEntries(maze, dims);
    ghost var vals := Flatten(maze);
    FlattenSize(maze, dims);
    FlattenIndex(maze, dims);
    MulMono(1, dims, dims);
    TerminatedJoin(vals);
    data := stream[..|stream| - 1];
    assert data == Join(Fields(vals));
    DecodeJoin(vals);
    CommasInJoin(Fields(vals));
  }
}
