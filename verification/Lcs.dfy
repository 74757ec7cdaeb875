/** The longest-common-subsequence table and the walk that turns it into an edit script. */
module Lcs {
  import opened Text

  /** The largest table the diff builds. */
  const MAX_CELLS: nat := 1_000_000

  datatype Op = Equal(text: string) | Delete(text: string) | Insert(text: string)

  /** `c` can be read in `a` from left to right, skipping lines. */
  ghost predicate Subsequence(c: seq<string>, a: seq<string>) {
    c == [] || (a != [] && ((c[0] == a[0] && Subsequence(c[1..], a[1..])) || Subsequence(c, a[1..])))
  }

  /** The length of the longest common subsequence. */
  function Length(a: seq<string>, b: seq<string>): nat
    decreases |a| + |b|
  {
    if a == [] || b == [] then 0
    else if a[0] == b[0] then 1 + Length(a[1..], b[1..])
    else Max(Length(a[1..], b), Length(a, b[1..]))
  }

  function Max(x: nat, y: nat): nat { if x < y then y else x }

  lemma {:induction false} SubsequenceRest(c: seq<string>, a: seq<string>)
    requires c != [] && Subsequence(c, a)
    ensures a != [] && Subsequence(c[1..], a[1..])
  {
    if !(c[0] == a[0] && Subsequence(c[1..], a[1..])) {
      SubsequenceRest(c, a[1..]);
    }
  }

  /** No common subsequence is longer. */
  lemma {:induction false} NoneLonger(c: seq<string>, a: seq<string>, b: seq<string>)
    requires Subsequence(c, a) && Subsequence(c, b)
    ensures |c| <= Length(a, b)
    decreases |a| + |b|
  {
    if c != [] {
      SubsequenceRest(c, a);
      SubsequenceRest(c, b);
      if a[0] == b[0] {
        NoneLonger(c[1..], a[1..], b[1..]);
      } else if c[0] != a[0] {
        NoneLonger(c, a[1..], b);
      } else {
        NoneLonger(c, a, b[1..]);
      }
    }
  }

  /** One common subsequence is that long. */
  lemma {:induction false} Attained(a: seq<string>, b: seq<string>) returns (c: seq<string>)
    ensures Subsequence(c, a) && Subsequence(c, b) && |c| == Length(a, b)
    decreases |a| + |b|
  {
    if a == [] || b == [] {
      c := [];
    } else if a[0] == b[0] {
      var rest := Attained(a[1..], b[1..]);
      c := [a[0]] + rest;
      assert c[1..] == rest;
    } else if Length(a, b[1..]) <= Length(a[1..], b) {
      c := Attained(a[1..], b);
    } else {
      c := Attained(a, b[1..]);
    }
  }

  /** Where row `i` begins in the flat table. */
  function Row(i: nat, width: nat): nat { if i == 0 then 0 else Row(i - 1, width) + width }

  /** Where row `i`, column `j` lies. */
  function Cell(i: nat, j: nat, width: nat): nat { Row(i, width) + j }

  /** That is at `i * width + j`. */
  lemma {:induction false} CellIsIndex(i: nat, j: nat, width: nat)
    ensures Cell(i, j, width) == i * width + j
  {
    if i != 0 {
      CellIsIndex(i - 1, j, width);
      assert i * width == (i - 1) * width + width;
    }
  }

  /** Rows do not overlap. */
  lemma {:induction false} RowsApart(i: nat, r: nat, width: nat)
    requires i < r
    ensures Row(i, width) + width <= Row(r, width)
  {
    if i + 1 < r {
      RowsApart(i, r - 1, width);
    }
  }

  lemma CellWithin(i: nat, j: nat, rows: nat, width: nat)
    requires i < rows && j < width
    ensures Cell(i, j, width) < Row(rows, width)
  {
    RowsApart(i, rows, width);
  }

  lemma CellsDiffer(i: nat, j: nat, r: nat, c: nat, width: nat)
    requires j < width && c < width && (i != r || j != c)
    ensures Cell(i, j, width) != Cell(r, c, width)
  {
    if i < r {
      RowsApart(i, r, width);
    } else if r < i {
      RowsApart(r, i, width);
    }
  }

  /** Row `i`, column `j` of the table holds the length it should. */
  ghost predicate Right(table: seq<nat>, olds: seq<string>, news: seq<string>, i: nat, j: nat)
    requires i <= |olds| && j <= |news|
  {
    var at := Cell(i, j, |news| + 1);
    at < |table| && table[at] == Length(olds[i..], news[j..])
  }

  /** Row `i` of the table is right from column `from` on. */
  ghost predicate RowFrom(table: seq<nat>, olds: seq<string>, news: seq<string>, i: nat, from: nat)
    requires i <= |olds|
  {
    forall j: nat :: from <= j <= |news| ==> Right(table, olds, news, i, j)
  }

  /** The rows from row `i` on are right. */
  ghost predicate RowsFrom(table: seq<nat>, olds: seq<string>, news: seq<string>, i: nat) {
    forall r: nat :: i <= r <= |olds| ==> RowFrom(table, olds, news, r, 0)
  }

  /** The last column is right: nothing is common with an empty rest. */
  ghost predicate LastColumn(table: seq<nat>, olds: seq<string>, news: seq<string>) {
    forall r: nat :: r <= |olds| ==> Right(table, olds, news, r, |news|)
  }

  lemma TailStep(s: seq<string>, i: nat)
    requires i < |s|
    ensures s[i..] != [] && s[i..][0] == s[i] && s[i..][1..] == s[i + 1..]
  {
  }

  /** Writing the right value into a cell makes that cell right and leaves every other one alone. */
  lemma WriteCell(table: seq<nat>, olds: seq<string>, news: seq<string>, i: nat, j: nat, r: nat, c: nat)
    requires |table| == Row(|olds| + 1, |news| + 1) && i <= |olds| && j <= |news| && r <= |olds| && c <= |news|
    ensures Cell(i, j, |news| + 1) < |table|
    ensures var next := table[Cell(i, j, |news| + 1) := Length(olds[i..], news[j..])];
            Right(next, olds, news, r, c) <== (i == r && j == c) || Right(table, olds, news, r, c)
  {
    CellWithin(i, j, |olds| + 1, |news| + 1);
    CellWithin(r, c, |olds| + 1, |news| + 1);
    if i != r || j != c {
      CellsDiffer(i, j, r, c, |news| + 1);
    }
  }

  lemma WriteRow(table: seq<nat>, olds: seq<string>, news: seq<string>, i: nat, j: nat)
    requires |table| == Row(|olds| + 1, |news| + 1) && i < |olds| && j < |news|
    requires RowFrom(table, olds, news, i, j + 1) && RowsFrom(table, olds, news, i + 1) && LastColumn(table, olds, news)
    ensures Cell(i, j, |news| + 1) < |table|
    ensures var next := table[Cell(i, j, |news| + 1) := Length(olds[i..], news[j..])];
            RowFrom(next, olds, news, i, j) && RowsFrom(next, olds, news, i + 1) && LastColumn(next, olds, news)
  {
    CellWithin(i, j, |olds| + 1, |news| + 1);
    var next := table[Cell(i, j, |news| + 1) := Length(olds[i..], news[j..])];
    forall r: nat, c: nat | r <= |olds| && c <= |news| && (Right(table, olds, news, r, c) || (i == r && j == c))
      ensures Right(next, olds, news, r, c)
    {
      WriteCell(table, olds, news, i, j, r, c);
    }
    forall r: nat | i + 1 <= r <= |olds| ensures RowFrom(next, olds, news, r, 0) {
      assert RowFrom(table, olds, news, r, 0);
    }
  }

  /** A table of zeros is right in its last row and its last column. */
  lemma ZeroTable(table: seq<nat>, olds: seq<string>, news: seq<string>)
    requires |table| == Row(|olds| + 1, |news| + 1)
    requires forall k :: 0 <= k < |table| ==> table[k] == 0
    ensures RowsFrom(table, olds, news, |olds|) && LastColumn(table, olds, news)
  {
    forall r: nat, c: nat | r <= |olds| && c <= |news| && (r == |olds| || c == |news|)
      ensures Right(table, olds, news, r, c)
    {
      CellWithin(r, c, |olds| + 1, |news| + 1);
    }
  }

  /**
   The table, or `None` when the input is too large: entry (i, j) is the length of the longest common
   subsequence of what is left from old line `i` and new line `j` on.
   */
  method LcsTable(olds: seq<string>, news: seq<string>) returns (r: Option<array<nat>>)
    ensures r.None? <==> MAX_CELLS < |olds| * (|news| + 1)
    ensures r.Some? ==> r.value.Length == Row(|olds| + 1, |news| + 1) && RowsFrom(r.value[..], olds, news, 0)
  {
    var width := |news| + 1;
    if MAX_CELLS < |olds| * width {
      return None;
    }
    CellIsIndex(|olds| + 1, 0, width);
    var table := new nat[(|olds| + 1) * width](_ => 0);
    ZeroTable(table[..], olds, news);
    var i: nat := |olds|;
    while 0 < i
      invariant i <= |olds|
      invariant RowsFrom(table[..], olds, news, i) && LastColumn(table[..], olds, news)
    {
      i := i - 1;
      FillRow(table, olds, news, i);
    }
    return Some(table);
  }

  /** Row `i`, from right to left. */
  method FillRow(table: array<nat>, olds: seq<string>, news: seq<string>, i: nat)
    requires i < |olds| && table.Length == Row(|olds| + 1, |news| + 1)
    requires RowsFrom(table[..], olds, news, i + 1) && LastColumn(table[..], olds, news)
    modifies table
    ensures RowsFrom(table[..], olds, news, i) && LastColumn(table[..], olds, news)
  {
    var j: nat := |news|;
    while 0 < j
      invariant j <= |news|
      invariant RowFrom(table[..], olds, news, i, j) && RowsFrom(table[..], olds, news, i + 1)
      invariant LastColumn(table[..], olds, news)
    {
      j := j - 1;
      ghost var was := table[..];
      WriteRow(was, olds, news, i, j);
      FillCell(table, olds, news, i, j);
    }
  }

  /** One cell, from its neighbours below and to the right. */
  method FillCell(table: array<nat>, olds: seq<string>, news: seq<string>, i: nat, j: nat)
    requires i < |olds| && j < |news| && table.Length == Row(|olds| + 1, |news| + 1)
    requires RowFrom(table[..], olds, news, i, j + 1) && RowFrom(table[..], olds, news, i + 1, 0)
    modifies table
    ensures Cell(i, j, |news| + 1) < |old(table[..])|
    ensures table[..] == old(table[..])[Cell(i, j, |news| + 1) := Length(olds[i..], news[j..])]
  {
    var width := |news| + 1;
    CellWithin(i, j, |olds| + 1, width);
    assert Right(table[..], olds, news, i + 1, j) && Right(table[..], olds, news, i + 1, j + 1);
    assert Right(table[..], olds, news, i, j + 1);
    table[Cell(i, j, width)] :=
      if olds[i] == news[j] then table[Cell(i + 1, j + 1, width)] + 1
      else Max(table[Cell(i + 1, j, width)], table[Cell(i, j + 1, width)]);
  }

  /** The walk down the table: keep equal lines, else drop the side that leaves more in common. */
  function Walk(olds: seq<string>, news: seq<string>): seq<Op>
    decreases |olds| + |news|
  {
    if olds == [] then Inserts(news)
    else if news == [] then Deletes(olds)
    else if olds[0] == news[0] then [Equal(olds[0])] + Walk(olds[1..], news[1..])
    else if Length(olds, news[1..]) <= Length(olds[1..], news) then [Delete(olds[0])] + Walk(olds[1..], news)
    else [Insert(news[0])] + Walk(olds, news[1..])
  }

  function Deletes(lines: seq<string>): seq<Op> { seq(|lines|, k requires 0 <= k < |lines| => Delete(lines[k])) }

  function Inserts(lines: seq<string>): seq<Op> { seq(|lines|, k requires 0 <= k < |lines| => Insert(lines[k])) }

  /** The edit script of two line lists. */
  function Script(olds: seq<string>, news: seq<string>): seq<Op> {
    if MAX_CELLS < |olds| * (|news| + 1) then Deletes(olds) + Inserts(news) else Walk(olds, news)
  }

  /** One step of the walk, as the loop takes it. */
  lemma WalkStep(done: seq<Op>, olds: seq<string>, news: seq<string>, i: nat, j: nat)
    requires i < |olds| && j < |news|
    ensures var all := done + Walk(olds[i..], news[j..]);
            if olds[i] == news[j] then all == done + [Equal(olds[i])] + Walk(olds[i + 1..], news[j + 1..])
            else if Length(olds[i..], news[j + 1..]) <= Length(olds[i + 1..], news[j..]) then
              all == done + [Delete(olds[i])] + Walk(olds[i + 1..], news[j..])
            else all == done + [Insert(news[j])] + Walk(olds[i..], news[j + 1..])
  {
    TailStep(olds, i);
    TailStep(news, j);
    Assoc(done, [Equal(olds[i])], Walk(olds[i + 1..], news[j + 1..]));
    Assoc(done, [Delete(olds[i])], Walk(olds[i + 1..], news[j..]));
    Assoc(done, [Insert(news[j])], Walk(olds[i..], news[j + 1..]));
  }

  /** The part of the walk that has lines left on both sides. */
  method WalkTable(table: array<nat>, olds: seq<string>, news: seq<string>) returns (ops: seq<Op>, i: nat, j: nat)
    requires RowsFrom(table[..], olds, news, 0)
    ensures i <= |olds| && j <= |news| && (i == |olds| || j == |news|)
    ensures ops + Walk(olds[i..], news[j..]) == Walk(olds, news)
  {
    ops, i, j := [], 0, 0;
    var width := |news| + 1;
    while i < |olds| && j < |news|
      invariant i <= |olds| && j <= |news|
      invariant ops + Walk(olds[i..], news[j..]) == Walk(olds, news)
      decreases |olds| + |news| - i - j
    {
      WalkStep(ops, olds, news, i, j);
      assert RowFrom(table[..], olds, news, i, 0) && RowFrom(table[..], olds, news, i + 1, 0);
      assert Right(table[..], olds, news, i + 1, j) && Right(table[..], olds, news, i, j + 1);
      if olds[i] == news[j] {
        ops := ops + [Equal(olds[i])];
        i := i + 1;
        j := j + 1;
      } else if table[Cell(i + 1, j, width)] >= table[Cell(i, j + 1, width)] {
        ops := ops + [Delete(olds[i])];
        i := i + 1;
      } else {
        ops := ops + [Insert(news[j])];
        j := j + 1;
      }
    }
  }

  /** No edit script of the same two texts has fewer changes. */
  ghost predicate Minimal(ops: seq<Op>) {
    forall other :: OldOf(other) == OldOf(ops) && NewOf(other) == NewOf(ops) ==> Changes(ops) <= Changes(other)
  }

  /** Of the lines changed between two kept ones, the old ones come first. */
  ghost predicate DeletesFirst(ops: seq<Op>) {
    forall k :: 0 <= k < |ops| - 1 && ops[k].Insert? ==> !ops[k + 1].Delete?
  }

  /** A line is kept as soon as it is next on both sides. */
  ghost predicate KeepsEarly(ops: seq<Op>) { forall k :: 0 <= k < |ops| && !ops[k].Equal? ==> Differ(ops, k) }

  ghost predicate Differ(ops: seq<Op>, k: nat)
    requires k <= |ops|
  {
    var olds, news := OldOf(ops[k..]), NewOf(ops[k..]);
    olds == [] || news == [] || olds[0] != news[0]
  }

  /** Turn two line lists into a sequence of operations: a minimal script, or all lines replaced. */
  method DiffOps(olds: seq<string>, news: seq<string>) returns (ops: seq<Op>)
    ensures OldOf(ops) == olds && NewOf(ops) == news
    ensures |olds| * (|news| + 1) <= 1_000_000 ==> Minimal(ops) && DeletesFirst(ops) && KeepsEarly(ops)
    ensures 1_000_000 < |olds| * (|news| + 1) ==> ops == Deletes(olds) + Inserts(news)
    ensures ops == Script(olds, news)
  {
    ScriptProjects(olds, news);
    WalkMinimal(olds, news);
    WalkInOrder(olds, news);
    var table := LcsTable(olds, news);
    if table.None? {
      return Deletes(olds) + Inserts(news);
    }
    var i, j;
    ops, i, j := WalkTable(table.value, olds, news);
    ops := TakeRest(olds, news, ops, i, j);
  }

  /** What is left on one side when the other is used up. */
  method TakeRest(olds: seq<string>, news: seq<string>, done: seq<Op>, from: nat, to: nat) returns (ops: seq<Op>)
    requires from <= |olds| && to <= |news| && (from == |olds| || to == |news|)
    ensures ops == done + Walk(olds[from..], news[to..])
  {
    ops := done;
    var i, j := from, to;
    while i < |olds|
      invariant i <= |olds| && (i == |olds| || j == |news|) && j <= |news|
      invariant ops + Walk(olds[i..], news[j..]) == done + Walk(olds[from..], news[to..])
    {
      DeleteStep(ops, olds, news, i, j);
      ops := ops + [Delete(olds[i])];
      i := i + 1;
    }
    while j < |news|
      invariant i == |olds| && j <= |news|
      invariant ops + Walk(olds[i..], news[j..]) == done + Walk(olds[from..], news[to..])
    {
      InsertStep(ops, olds, news, j);
      ops := ops + [Insert(news[j])];
      j := j + 1;
    }
    assert ops + [] == ops;
  }

  lemma DeleteStep(done: seq<Op>, olds: seq<string>, news: seq<string>, i: nat, j: nat)
    requires i < |olds| && j == |news|
    ensures done + Walk(olds[i..], news[j..]) == done + [Delete(olds[i])] + Walk(olds[i + 1..], news[j..])
  {
    assert Deletes(olds[i..]) == [Delete(olds[i])] + Deletes(olds[i + 1..]);
    Assoc(done, [Delete(olds[i])], Deletes(olds[i + 1..]));
  }

  lemma InsertStep(done: seq<Op>, olds: seq<string>, news: seq<string>, j: nat)
    requires j < |news|
    ensures done + Walk(olds[|olds|..], news[j..]) == done + [Insert(news[j])] + Walk(olds[|olds|..], news[j + 1..])
  {
    assert Inserts(news[j..]) == [Insert(news[j])] + Inserts(news[j + 1..]);
    Assoc(done, [Insert(news[j])], Inserts(news[j + 1..]));
  }

  // What an edit script says about its two texts.

  function OldOf(ops: seq<Op>): seq<string> {
    if ops == [] then [] else (if ops[0].Insert? then [] else [ops[0].text]) + OldOf(ops[1..])
  }

  function NewOf(ops: seq<Op>): seq<string> {
    if ops == [] then [] else (if ops[0].Delete? then [] else [ops[0].text]) + NewOf(ops[1..])
  }

  function KeptOf(ops: seq<Op>): seq<string> {
    if ops == [] then [] else (if ops[0].Equal? then [ops[0].text] else []) + KeptOf(ops[1..])
  }

  function Changes(ops: seq<Op>): nat {
    if ops == [] then 0 else (if ops[0].Equal? then 0 else 1) + Changes(ops[1..])
  }

  lemma {:induction false} DeletesHold(lines: seq<string>)
    ensures OldOf(Deletes(lines)) == lines && NewOf(Deletes(lines)) == [] && KeptOf(Deletes(lines)) == []
  {
    if lines != [] {
      DeletesHold(lines[1..]);
      assert Deletes(lines)[1..] == Deletes(lines[1..]);
    }
  }

  lemma {:induction false} InsertsHold(lines: seq<string>)
    ensures NewOf(Inserts(lines)) == lines && OldOf(Inserts(lines)) == [] && KeptOf(Inserts(lines)) == []
  {
    if lines != [] {
      InsertsHold(lines[1..]);
      assert Inserts(lines)[1..] == Inserts(lines[1..]);
    }
  }

  lemma {:induction false} OpsAppend(a: seq<Op>, b: seq<Op>)
    ensures OldOf(a + b) == OldOf(a) + OldOf(b) && NewOf(a + b) == NewOf(a) + NewOf(b)
  {
    if a == [] {
      assert a + b == b;
    } else {
      OpsAppend(a[1..], b);
      assert (a + b)[1..] == a[1..] + b;
      Assoc(if a[0].Insert? then [] else [a[0].text], OldOf(a[1..]), OldOf(b));
      Assoc(if a[0].Delete? then [] else [a[0].text], NewOf(a[1..]), NewOf(b));
    }
  }

  /** The walk is an edit script of exactly its two inputs, and keeps a longest common subsequence. */
  lemma {:induction false} WalkHolds(olds: seq<string>, news: seq<string>)
    ensures OldOf(Walk(olds, news)) == olds && NewOf(Walk(olds, news)) == news
    ensures |KeptOf(Walk(olds, news))| == Length(olds, news)
    decreases |olds| + |news|
  {
    DeletesHold(olds);
    InsertsHold(news);
    if olds != [] && news != [] {
      var ops := Walk(olds, news);
      if olds[0] == news[0] {
        WalkHolds(olds[1..], news[1..]);
        assert ops[1..] == Walk(olds[1..], news[1..]);
      } else if Length(olds, news[1..]) <= Length(olds[1..], news) {
        WalkHolds(olds[1..], news);
        assert ops[1..] == Walk(olds[1..], news);
      } else {
        WalkHolds(olds, news[1..]);
        assert ops[1..] == Walk(olds, news[1..]);
      }
    }
  }

  /** Both branches give a script of exactly the two texts. */
  lemma ScriptProjects(olds: seq<string>, news: seq<string>)
    ensures OldOf(Script(olds, news)) == olds && NewOf(Script(olds, news)) == news
  {
    WalkHolds(olds, news);
    DeletesHold(olds);
    InsertsHold(news);
    OpsAppend(Deletes(olds), Inserts(news));
  }

  lemma {:induction false} KeptIsCommon(ops: seq<Op>)
    ensures Subsequence(KeptOf(ops), OldOf(ops)) && Subsequence(KeptOf(ops), NewOf(ops))
    ensures Changes(ops) + 2 * |KeptOf(ops)| == |OldOf(ops)| + |NewOf(ops)|
  {
    if ops != [] {
      KeptIsCommon(ops[1..]);
      var kept, olds, news := KeptOf(ops), OldOf(ops), NewOf(ops);
      if ops[0].Equal? {
        assert kept[1..] == KeptOf(ops[1..]) && olds[1..] == OldOf(ops[1..]) && news[1..] == NewOf(ops[1..]);
      } else if ops[0].Delete? {
        assert kept == KeptOf(ops[1..]) && olds[1..] == OldOf(ops[1..]) && news == NewOf(ops[1..]);
      } else {
        assert kept == KeptOf(ops[1..]) && olds == OldOf(ops[1..]) && news[1..] == NewOf(ops[1..]);
      }
    }
  }

  /** With the table, no script between the two texts has fewer changes. */
  lemma WalkIsMinimal(olds: seq<string>, news: seq<string>, other: seq<Op>)
    requires OldOf(other) == olds && NewOf(other) == news
    ensures Changes(Walk(olds, news)) <= Changes(other)
  {
    WalkHolds(olds, news);
    KeptIsCommon(Walk(olds, news));
    KeptIsCommon(other);
    NoneLonger(KeptOf(other), olds, news);
  }

  lemma WalkMinimal(olds: seq<string>, news: seq<string>)
    ensures Minimal(Walk(olds, news))
  {
    WalkHolds(olds, news);
    forall other | OldOf(other) == olds && NewOf(other) == news ensures Changes(Walk(olds, news)) <= Changes(other) {
      WalkIsMinimal(olds, news, other);
    }
  }

  lemma {:induction false} ChangesAppend(a: seq<Op>, b: seq<Op>)
    ensures Changes(a + b) == Changes(a) + Changes(b)
  {
    if a == [] {
      assert a + b == b;
    } else {
      ChangesAppend(a[1..], b);
      assert (a + b)[1..] == a[1..] + b;
    }
  }

  // The order of the walk.

  lemma {:induction false} SubsequenceMore(c: seq<string>, first: string, a: seq<string>, all: seq<string>)
    requires Subsequence(c, a) && all == [first] + a
    ensures Subsequence(c, all)
  {
    assert all[1..] == a;
  }

  /** More lines have no less in common. */
  lemma LengthGrows(a: seq<string>, b: seq<string>)
    requires b != []
    ensures Length(a, b[1..]) <= Length(a, b)
  {
    var c := Attained(a, b[1..]);
    SubsequenceMore(c, b[0], b[1..], b);
    NoneLonger(c, a, b);
  }

  lemma Behind(first: Op, rest: seq<Op>, ops: seq<Op>)
    requires ops == [first] + rest && DeletesFirst(rest) && KeepsEarly(rest)
    requires first.Insert? && rest != [] ==> !rest[0].Delete?
    requires !first.Equal? ==> OldOf(ops) == [] || NewOf(ops) == [] || OldOf(ops)[0] != NewOf(ops)[0]
    ensures DeletesFirst(ops) && KeepsEarly(ops)
  {
    forall k | 0 <= k < |ops| - 1 && ops[k].Insert? ensures !ops[k + 1].Delete? {
      assert 0 < k ==> ops[k] == rest[k - 1] && ops[k + 1] == rest[k];
    }
    forall k | 0 <= k < |ops| && !ops[k].Equal? ensures Differ(ops, k) {
      if 0 < k {
        assert ops[k..] == rest[k - 1..] && Differ(rest, k - 1);
      } else {
        assert ops[0..] == ops;
      }
    }
  }

  lemma {:induction false} OneSided(lines: seq<string>)
    ensures DeletesFirst(Deletes(lines)) && KeepsEarly(Deletes(lines))
    ensures DeletesFirst(Inserts(lines)) && KeepsEarly(Inserts(lines))
  {
    if lines != [] {
      OneSided(lines[1..]);
      DeletesHold(lines);
      InsertsHold(lines);
      Behind(Delete(lines[0]), Deletes(lines[1..]), Deletes(lines));
      Behind(Insert(lines[0]), Inserts(lines[1..]), Inserts(lines));
    }
  }

  /** Once a new line is inserted, no old one is dropped before the next line that is kept. */
  lemma InsertGoesOn(olds: seq<string>, news: seq<string>)
    requires olds != [] && news != [] && Length(olds[1..], news) < Length(olds, news[1..])
    ensures var rest := Walk(olds, news[1..]);
            rest != [] ==> !rest[0].Delete?
  {
    var more := news[1..];
    if more != [] && olds[0] != more[0] {
      LengthGrows(olds[1..], news);
    }
  }

  lemma {:induction false} WalkInOrder(olds: seq<string>, news: seq<string>)
    ensures DeletesFirst(Walk(olds, news)) && KeepsEarly(Walk(olds, news))
    decreases |olds| + |news|
  {
    var ops := Walk(olds, news);
    WalkHolds(olds, news);
    if olds == [] {
      OneSided(news);
    } else if news == [] {
      OneSided(olds);
    } else if olds[0] == news[0] {
      WalkInOrder(olds[1..], news[1..]);
      Behind(Equal(olds[0]), Walk(olds[1..], news[1..]), ops);
    } else if Length(olds, news[1..]) <= Length(olds[1..], news) {
      WalkInOrder(olds[1..], news);
      Behind(Delete(olds[0]), Walk(olds[1..], news), ops);
    } else {
      WalkInOrder(olds, news[1..]);
      InsertGoesOn(olds, news);
      Behind(Insert(news[0]), Walk(olds, news[1..]), ops);
    }
  }
}
