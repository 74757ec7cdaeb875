/**
 Splicing MASK over the byte ranges of a line (`apply_ranges`).

 `Splice` says it without blocks: walk the line, keep a byte that no range covers, and write one mask
 where a covered stretch begins. The loops do it with blocks: sort the ranges, merge those that overlap
 or touch, copy the gaps between the merged blocks and write one mask for each. Both give the same
 line, whatever order the ranges come in and however they overlap.
 */
module Ranges {
  import opened Text
  import Orders

  datatype Range = Range(start: nat, len: nat) {
    function End(): nat { start + len }

    predicate Within(line: string) { 0 < len && End() <= |line| }
  }

  /** A merged range, from its first byte to just past its last. */
  datatype Block = Block(start: nat, end: nat)

  predicate RangeLe(a: Range, b: Range) {
    a.start < b.start || (a.start == b.start && a.len <= b.len)
  }

  ghost predicate Covered(ranges: seq<Range>, i: int) {
    exists r :: r in ranges && r.start <= i < r.End()
  }

  ghost predicate InBlocks(blocks: seq<Block>, i: int) {
    exists b :: b in blocks && b.start <= i < b.end
  }

  /**
   What splicing means, byte by byte: a byte outside every range is kept, and a maximal run of
   covered bytes becomes one MASK, written where the run begins.
   */
  ghost function Splice(line: string, ranges: seq<Range>, i: nat): string
    requires i <= |line|
    decreases |line| - i
  {
    if i == |line| then ""
    else if !Covered(ranges, i) then [line[i]] + Splice(line, ranges, i + 1)
    else (if 0 < i && Covered(ranges, i - 1) then "" else MASK) + Splice(line, ranges, i + 1)
  }

  lemma {:induction false} SpliceGap(line: string, ranges: seq<Range>, i: nat, j: nat)
    requires i <= j <= |line|
    requires forall k :: i <= k < j ==> !Covered(ranges, k)
    ensures Splice(line, ranges, i) == line[i..j] + Splice(line, ranges, j)
    decreases j - i
  {
    if i < j {
      SpliceGap(line, ranges, i + 1, j);
      Assoc([line[i]], line[i + 1..j], Splice(line, ranges, j));
      assert line[i..j] == [line[i]] + line[i + 1..j];
    }
  }

  lemma {:induction false} NothingSpliced(line: string, i: nat)
    requires i <= |line|
    ensures Splice(line, [], i) == line[i..]
    decreases |line| - i
  {
    if i < |line| {
      NothingSpliced(line, i + 1);
      assert line[i..] == [line[i]] + line[i + 1..];
    }
  }

  lemma {:induction false} SpliceInside(line: string, ranges: seq<Range>, i: nat, j: nat)
    requires 0 < i <= j <= |line|
    requires forall k :: i - 1 <= k < j ==> Covered(ranges, k)
    ensures Splice(line, ranges, i) == Splice(line, ranges, j)
    decreases j - i
  {
    if i < j {
      SpliceInside(line, ranges, i + 1, j);
    }
  }

  lemma SpliceBlock(line: string, ranges: seq<Range>, i: nat, j: nat)
    requires i < j <= |line|
    requires forall k :: i <= k < j ==> Covered(ranges, k)
    requires i == 0 || !Covered(ranges, i - 1)
    ensures Splice(line, ranges, i) == MASK + Splice(line, ranges, j)
  {
    SpliceInside(line, ranges, i + 1, j);
  }

  /** A line no range touches is left alone. */
  lemma SpliceNothing(line: string, ranges: seq<Range>)
    requires forall k :: 0 <= k < |line| ==> !Covered(ranges, k)
    ensures Splice(line, ranges, 0) == line
  {
    SpliceGap(line, ranges, 0, |line|);
    assert line[0..|line|] == line;
  }

  /** `blocks` are in order, and between two of them at least one byte stays uncovered. */
  ghost predicate Separated(blocks: seq<Block>) {
    && (forall k :: 0 <= k < |blocks| ==> blocks[k].start < blocks[k].end)
    && (forall k, l :: 0 <= k < l < |blocks| ==> blocks[k].end < blocks[l].start)
  }

  lemma CoveredPush(ranges: seq<Range>, r: Range)
    ensures forall i :: Covered(ranges + [r], i) <==> (Covered(ranges, i) || r.start <= i < r.End())
  {
    assert r in ranges + [r];
  }

  /** The block that grows by a range it overlaps or touches. */
  function Grow(blocks: seq<Block>, end: nat): seq<Block>
    requires blocks != []
  {
    var last := blocks[|blocks| - 1];
    blocks[..|blocks| - 1] + [Block(last.start, if last.end < end then end else last.end)]
  }

  lemma BlockGrow(blocks: seq<Block>, start: nat, end: nat)
    requires blocks != [] && Separated(blocks) && start < end
    requires blocks[|blocks| - 1].start <= start <= blocks[|blocks| - 1].end
    ensures Separated(Grow(blocks, end))
    ensures forall i :: InBlocks(Grow(blocks, end), i) <==> (InBlocks(blocks, i) || start <= i < end)
  {
    var last := blocks[|blocks| - 1];
    var init := blocks[..|blocks| - 1];
    assert blocks == init + [last];
  }

  /** Merge ranges that overlap or touch; `ranges` are in order. */
  method MergeRanges(ranges: seq<Range>) returns (merged: seq<Block>)
    requires Orders.Sorted(RangeLe, ranges)
    requires forall r :: r in ranges ==> 0 < r.len
    ensures Separated(merged)
    ensures forall i :: InBlocks(merged, i) <==> Covered(ranges, i)
  {
    merged := [];
    for n := 0 to |ranges|
      invariant Separated(merged)
      invariant forall i :: InBlocks(merged, i) <==> Covered(ranges[..n], i)
      invariant merged != [] ==> 0 < n && merged[|merged| - 1].start <= ranges[n - 1].start
    {
      var r := ranges[n];
      assert 0 < n ==> RangeLe(ranges[n - 1], r);
      assert ranges[..n + 1] == ranges[..n] + [r];
      CoveredPush(ranges[..n], r);
      if merged != [] && r.start <= merged[|merged| - 1].end {
        BlockGrow(merged, r.start, r.End());
        merged := Grow(merged, r.End());
      } else {
        merged := merged + [Block(r.start, r.End())];
      }
    }
    assert ranges[..|ranges|] == ranges;
  }

  /** The merged blocks stay inside the line. */
  lemma BlocksWithin(line: string, ranges: seq<Range>, blocks: seq<Block>)
    requires forall r :: r in ranges ==> r.Within(line)
    requires Separated(blocks)
    requires forall i :: InBlocks(blocks, i) <==> Covered(ranges, i)
    ensures forall b :: b in blocks ==> b.start < b.end <= |line|
  {
    forall b | b in blocks ensures b.start < b.end <= |line| {
      var k :| 0 <= k < |blocks| && blocks[k] == b;
      assert InBlocks(blocks, b.end - 1);
    }
  }

  /** Between block `n - 1` and block `n` nothing is covered, the byte after the last gap included. */
  lemma Uncovered(blocks: seq<Block>, n: nat)
    requires Separated(blocks) && n <= |blocks|
    ensures var from := if n == 0 then 0 else blocks[n - 1].end;
            && (n < |blocks| ==> (n == 0 || from < blocks[n].start))
            && forall k :: from <= k && (n < |blocks| ==> k < blocks[n].start) ==> !InBlocks(blocks, k)
  {
    var from := if n == 0 then 0 else blocks[n - 1].end;
    forall k | from <= k && (n < |blocks| ==> k < blocks[n].start) ensures !InBlocks(blocks, k) {
      forall b | b in blocks ensures !(b.start <= k < b.end) {
        var m :| 0 <= m < |blocks| && blocks[m] == b;
        if m < n - 1 {
          assert blocks[m].end < blocks[n - 1].start;
        } else if n < m {
          assert blocks[n].end < blocks[m].start;
        }
      }
    }
  }

  /** One round of the splice: the gap before block `n`, then MASK for the block itself. */
  lemma SpliceRound(line: string, ranges: seq<Range>, blocks: seq<Block>, n: nat)
    requires Separated(blocks) && n < |blocks|
    requires forall i :: InBlocks(blocks, i) <==> Covered(ranges, i)
    requires forall b :: b in blocks ==> b.start < b.end <= |line|
    ensures var from := if n == 0 then 0 else blocks[n - 1].end;
            && from <= blocks[n].start < blocks[n].end <= |line|
            && Splice(line, ranges, from)
               == line[from..blocks[n].start] + MASK + Splice(line, ranges, blocks[n].end)
  {
    var from := if n == 0 then 0 else blocks[n - 1].end;
    var b := blocks[n];
    Uncovered(blocks, n);
    SpliceGap(line, ranges, from, b.start);
    forall k | b.start <= k < b.end ensures Covered(ranges, k) {
      assert b in blocks;
      assert InBlocks(blocks, k);
    }
    assert 0 < b.start ==> !InBlocks(blocks, b.start - 1);
    SpliceBlock(line, ranges, b.start, b.end);
  }

  /** What is left once the last block is written. */
  lemma SpliceLast(line: string, ranges: seq<Range>, blocks: seq<Block>)
    requires Separated(blocks)
    requires forall i :: InBlocks(blocks, i) <==> Covered(ranges, i)
    requires forall b :: b in blocks ==> b.start < b.end <= |line|
    ensures var from := if |blocks| == 0 then 0 else blocks[|blocks| - 1].end;
            from <= |line| && Splice(line, ranges, from) == line[from..]
  {
    var from := if |blocks| == 0 then 0 else blocks[|blocks| - 1].end;
    Uncovered(blocks, |blocks|);
    SpliceGap(line, ranges, from, |line|);
    assert line[from..|line|] == line[from..];
  }

  /** Copy the gaps of `line` and write MASK for every merged block. */
  method WriteBlocks(line: string, ghost ranges: seq<Range>, merged: seq<Block>) returns (out: string)
    requires Separated(merged)
    requires forall i :: InBlocks(merged, i) <==> Covered(ranges, i)
    requires forall b :: b in merged ==> b.start < b.end <= |line|
    ensures out == Splice(line, ranges, 0)
  {
    out := "";
    var cursor := 0;
    for n := 0 to |merged|
      invariant cursor == if n == 0 then 0 else merged[n - 1].end
      invariant cursor <= |line|
      invariant out + Splice(line, ranges, cursor) == Splice(line, ranges, 0)
    {
      var start, end := merged[n].start, merged[n].end;
      SpliceRound(line, ranges, merged, n);
      Regroup(out, line[cursor..start], MASK, Splice(line, ranges, end));
      if cursor <= start <= |line| {
        out := out + line[cursor..start];
      }
      out := out + MASK;
      cursor := if cursor < end then end else cursor;
    }
    SpliceLast(line, ranges, merged);
    out := out + line[cursor..];
  }

  /** Replace the ranges of `line` with MASK; they may overlap and come in any order. */
  method ApplyRanges(line: string, ranges: seq<Range>) returns (out: string)
    requires forall r :: r in ranges ==> r.Within(line)
    ensures out == Splice(line, ranges, 0)
  {
    if ranges == [] {
      SpliceNothing(line, ranges);
      return line;
    }
    var sorted := SortRanges(ranges);
    var merged := MergeRanges(sorted);
    BlocksWithin(line, ranges, merged);
    out := WriteBlocks(line, ranges, merged);
  }

  function SortRanges(ranges: seq<Range>): (sorted: seq<Range>)
    ensures Orders.Sorted(RangeLe, sorted)
    ensures forall r :: r in sorted <==> r in ranges
    ensures forall i :: Covered(sorted, i) <==> Covered(ranges, i)
  {
    Orders.SortSorted(RangeLe, ranges);
    Orders.SortElements(RangeLe, ranges);
    Orders.Sort(RangeLe, ranges)
  }
}
