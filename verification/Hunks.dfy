/** Grouping an edit script into hunks with context, and what applying the hunks does. */
module Hunks {
  import opened Text
  import opened Lcs

  /** How many unchanged lines are shown around each change. */
  const CONTEXT: nat := 3

  /** The operations `start` to `end`, both included. */
  datatype Span = Span(start: nat, end: nat)

  /** `@@ -oldStart,oldCount +newStart,newCount @@` and the marked lines below it. */
  datatype Hunk = Hunk(oldStart: nat, oldCount: nat, newStart: nat, newCount: nat, lines: seq<string>)

  predicate Changed(ops: seq<Op>, i: int) { 0 <= i < |ops| && !ops[i].Equal? }

  /** The positions of the changes among the first `n` operations. */
  function ChangedUpTo(ops: seq<Op>, n: nat): seq<nat>
    requires n <= |ops|
  {
    if n == 0 then [] else ChangedUpTo(ops, n - 1) + if Changed(ops, n - 1) then [n - 1] else []
  }

  lemma {:induction false} ChangedUpToHolds(ops: seq<Op>, n: nat)
    requires n <= |ops|
    ensures forall i: nat :: i in ChangedUpTo(ops, n) <==> i < n && Changed(ops, i)
    ensures forall k, l :: 0 <= k < l < |ChangedUpTo(ops, n)| ==> ChangedUpTo(ops, n)[k] < ChangedUpTo(ops, n)[l]
  {
    if 0 < n {
      ChangedUpToHolds(ops, n - 1);
      var was := ChangedUpTo(ops, n - 1);
      assert forall k :: 0 <= k < |was| ==> was[k] in was;
    }
  }

  /** The lines a change at `i` shows. */
  function Around(ops: seq<Op>, i: nat): Span
    requires i < |ops|
  {
    Span(if i < CONTEXT then 0 else i - CONTEXT, if i + CONTEXT < |ops| then i + CONTEXT else |ops| - 1)
  }

  ghost predicate InSpans(spans: seq<Span>, k: int) { exists s :: s in spans && s.start <= k <= s.end }

  /** In order, inside the script, and with at least one operation between two of them. */
  ghost predicate Apart(spans: seq<Span>, n: nat) {
    && (forall s :: s in spans ==> s.start <= s.end < n)
    && (forall k, l :: 0 <= k < l < |spans| ==> spans[k].end + 1 < spans[l].start)
  }

  /** Operation `k` is a change, or at most three operations away from one among the first `n`. */
  ghost predicate NearChange(ops: seq<Op>, n: nat, k: int) {
    exists i: nat :: i < n && Changed(ops, i) && i - 3 <= k <= i + 3
  }

  lemma SpanPush(spans: seq<Span>, s: Span)
    ensures forall k :: InSpans(spans + [s], k) <==> InSpans(spans, k) || s.start <= k <= s.end
  {
    assert s in spans + [s];
  }

  function Grow(spans: seq<Span>, end: nat): seq<Span>
    requires spans != []
  {
    var last := spans[|spans| - 1];
    spans[..|spans| - 1] + [Span(last.start, Max(last.end, end))]
  }

  lemma SpanGrow(spans: seq<Span>, start: nat, end: nat, n: nat)
    requires spans != [] && Apart(spans, n) && start <= end < n
    requires spans[|spans| - 1].start <= start <= spans[|spans| - 1].end + 1
    ensures Apart(Grow(spans, end), n)
    ensures forall k :: InSpans(Grow(spans, end), k) <==> InSpans(spans, k) || start <= k <= end
  {
    var last := spans[|spans| - 1];
    var init := spans[..|spans| - 1];
    assert spans == init + [last];
    SpanPush(init, last);
    SpanPush(init, Span(last.start, Max(last.end, end)));
  }

  function Arounds(ops: seq<Op>, changed: seq<nat>): (spans: seq<Span>)
    requires forall i :: i in changed ==> i < |ops|
    ensures |spans| == |changed|
  {
    seq(|changed|, m requires 0 <= m < |changed| => assert changed[m] in changed; Around(ops, changed[m]))
  }

  /** The contexts of all changes are the operations near a change. */
  lemma AroundsAreNear(ops: seq<Op>, changed: seq<nat>)
    requires forall i: nat :: i in changed <==> i < |ops| && Changed(ops, i)
    ensures forall k :: InSpans(Arounds(ops, changed), k) <==> 0 <= k < |ops| && NearChange(ops, |ops|, k)
  {
    var arounds := Arounds(ops, changed);
    forall k ensures InSpans(arounds, k) <==> 0 <= k < |ops| && NearChange(ops, |ops|, k) {
      if InSpans(arounds, k) {
        var s :| s in arounds && s.start <= k <= s.end;
        var m :| 0 <= m < |arounds| && arounds[m] == s;
        assert changed[m] in changed;
      }
      if 0 <= k < |ops| && NearChange(ops, |ops|, k) {
        var i: nat :| i < |ops| && Changed(ops, i) && i - 3 <= k <= i + 3;
        var m :| 0 <= m < |changed| && changed[m] == i;
        assert arounds[m] in arounds;
      }
    }
  }

  /** Merge the changes into ranges that share context. */
  method MergeContexts(ops: seq<Op>) returns (spans: seq<Span>)
    ensures Apart(spans, |ops|)
    ensures forall k :: InSpans(spans, k) <==> 0 <= k < |ops| && NearChange(ops, |ops|, k)
  {
    var changed := ChangedUpTo(ops, |ops|);
    ChangedUpToHolds(ops, |ops|);
    AroundsAreNear(ops, changed);
    var arounds := Arounds(ops, changed);
    AroundsInOrder(ops, changed);
    spans := MergeSpans(arounds, |ops|);
  }

  lemma AroundsInOrder(ops: seq<Op>, changed: seq<nat>)
    requires forall i :: i in changed ==> i < |ops|
    requires forall k, l :: 0 <= k < l < |changed| ==> changed[k] < changed[l]
    ensures var spans := Arounds(ops, changed);
            && (forall m :: 0 <= m < |spans| ==> spans[m].start <= spans[m].end < |ops|)
            && forall m :: 1 <= m < |spans| ==> spans[m - 1].start <= spans[m].start
  {
    forall m | 0 <= m < |changed| ensures changed[m] < |ops| {
      assert changed[m] in changed;
    }
  }

  method MergeSpans(arounds: seq<Span>, ghost n: nat) returns (spans: seq<Span>)
    requires forall m :: 0 <= m < |arounds| ==> arounds[m].start <= arounds[m].end < n
    requires forall m :: 1 <= m < |arounds| ==> arounds[m - 1].start <= arounds[m].start
    ensures Apart(spans, n)
    ensures forall k :: InSpans(spans, k) <==> InSpans(arounds, k)
  {
    spans := [];
    for m := 0 to |arounds|
      invariant Apart(spans, n)
      invariant forall k :: InSpans(spans, k) <==> InSpans(arounds[..m], k)
      invariant spans != [] ==> 0 < m && spans[|spans| - 1].start <= arounds[m - 1].start
    {
      var around := arounds[m];
      SpanPush(arounds[..m], around);
      assert arounds[..m + 1] == arounds[..m] + [around];
      if spans != [] && around.start <= spans[|spans| - 1].end + 1 {
        SpanGrow(spans, around.start, around.end, n);
        spans := Grow(spans, around.end);
      } else {
        SpanPush(spans, around);
        spans := spans + [around];
      }
    }
    assert arounds[..|arounds|] == arounds;
  }

  /** An operation as a patch line. */
  function Rendered(op: Op): string {
    (match op case Equal(_) => " " case Delete(_) => "-" case Insert(_) => "+") + op.text
  }

  function Body(ops: seq<Op>): seq<string> { seq(|ops|, k requires 0 <= k < |ops| => Rendered(ops[k])) }

  /** The hunk of one range: its header counts the lines before it and in it, on each side. */
  function HunkOf(ops: seq<Op>, s: Span): Hunk
    requires s.start <= s.end < |ops|
  {
    var within := ops[s.start..s.end + 1];
    Hunk(|OldOf(ops[..s.start])| + 1, |OldOf(within)|, |NewOf(ops[..s.start])| + 1, |NewOf(within)|, Body(within))
  }

  function HunksOf(ops: seq<Op>, spans: seq<Span>): seq<Hunk>
    requires forall s :: s in spans ==> s.start <= s.end < |ops|
  {
    seq(|spans|, k requires 0 <= k < |spans| => assert spans[k] in spans; HunkOf(ops, spans[k]))
  }

  /** `spans` are exactly the changes and their context, as separate as they can be. */
  ghost predicate Groups(ops: seq<Op>, spans: seq<Span>) {
    Apart(spans, |ops|) && forall k :: InSpans(spans, k) <==> 0 <= k < |ops| && NearChange(ops, |ops|, k)
  }

  lemma CountStep(ops: seq<Op>, from: nat, i: nat)
    requires from <= i < |ops|
    ensures |OldOf(ops[from..i + 1])| == |OldOf(ops[from..i])| + (if ops[i].Insert? then 0 else 1)
    ensures |NewOf(ops[from..i + 1])| == |NewOf(ops[from..i])| + (if ops[i].Delete? then 0 else 1)
  {
    assert ops[from..i + 1] == ops[from..i] + [ops[i]];
    OpsAppend(ops[from..i], [ops[i]]);
    assert [ops[i]][1..] == [];
  }

  /** The running line counters, moved over the operations from `cursor` up to `start`. */
  method Advance(ops: seq<Op>, cursor: nat, start: nat, oldLine: nat, newLine: nat) returns (o: nat, n: nat)
    requires cursor <= start <= |ops|
    requires oldLine == |OldOf(ops[..cursor])| + 1 && newLine == |NewOf(ops[..cursor])| + 1
    ensures o == |OldOf(ops[..start])| + 1 && n == |NewOf(ops[..start])| + 1
  {
    var at: nat := cursor;
    o, n := oldLine, newLine;
    while at < start
      invariant cursor <= at <= start
      invariant o == |OldOf(ops[..at])| + 1 && n == |NewOf(ops[..at])| + 1
    {
      CountStep(ops, 0, at);
      assert ops[0..at] == ops[..at] && ops[0..at + 1] == ops[..at + 1];
      match ops[at] {
        case Equal(_) =>
          o := o + 1;
          n := n + 1;
        case Delete(_) => o := o + 1;
        case Insert(_) => n := n + 1;
      }
      at := at + 1;
    }
  }

  lemma BodyStep(ops: seq<Op>, from: nat, i: nat)
    requires from <= i < |ops|
    ensures Body(ops[from..i + 1]) == Body(ops[from..i]) + [Rendered(ops[i])]
  {
    assert ops[from..i + 1] == ops[from..i] + [ops[i]];
  }

  /** The marked lines of one range, counted as they are written. */
  method Collect(ops: seq<Op>, s: Span) returns (lines: seq<string>, oldCount: nat, newCount: nat)
    requires s.start <= s.end < |ops|
    ensures lines == Body(ops[s.start..s.end + 1])
    ensures oldCount == |OldOf(ops[s.start..s.end + 1])| && newCount == |NewOf(ops[s.start..s.end + 1])|
  {
    lines, oldCount, newCount := [], 0, 0;
    var idx := s.start;
    while idx <= s.end
      invariant s.start <= idx <= s.end + 1
      invariant lines == Body(ops[s.start..idx])
      invariant oldCount == |OldOf(ops[s.start..idx])| && newCount == |NewOf(ops[s.start..idx])|
    {
      CountStep(ops, s.start, idx);
      BodyStep(ops, s.start, idx);
      match ops[idx] {
        case Equal(text) =>
          lines := lines + [" " + text];
          oldCount := oldCount + 1;
          newCount := newCount + 1;
        case Delete(text) =>
          lines := lines + ["-" + text];
          oldCount := oldCount + 1;
        case Insert(text) =>
          lines := lines + ["+" + text];
          newCount := newCount + 1;
      }
      idx := idx + 1;
    }
  }

  lemma CountsJoin(ops: seq<Op>, s: Span)
    requires s.start <= s.end < |ops|
    ensures |OldOf(ops[..s.end + 1])| == |OldOf(ops[..s.start])| + |OldOf(ops[s.start..s.end + 1])|
    ensures |NewOf(ops[..s.end + 1])| == |NewOf(ops[..s.start])| + |NewOf(ops[s.start..s.end + 1])|
  {
    assert ops[..s.end + 1] == ops[..s.start] + ops[s.start..s.end + 1];
    OpsAppend(ops[..s.start], ops[s.start..s.end + 1]);
  }

  /** Group the operations into hunks with context. */
  method MakeHunks(ops: seq<Op>) returns (hunks: seq<Hunk>)
    ensures exists spans :: Groups(ops, spans) && hunks == HunksOf(ops, spans)
  {
    var ranges := MergeContexts(ops);
    hunks := [];
    var oldLine, newLine, cursor := 1, 1, 0;
    for k := 0 to |ranges|
      invariant cursor == if k == 0 then 0 else ranges[k - 1].end + 1
      invariant cursor <= |ops|
      invariant oldLine == |OldOf(ops[..cursor])| + 1 && newLine == |NewOf(ops[..cursor])| + 1
      invariant hunks == HunksOf(ops, ranges)[..k]
    {
      assert ranges[k] in ranges;
      var hunk;
      hunk, oldLine, newLine := NextHunk(ops, ranges[k], cursor, oldLine, newLine);
      hunks := hunks + [hunk];
      cursor := ranges[k].end + 1;
    }
  }

  /** The hunk of one range, and the line counters past it. */
  method NextHunk(ops: seq<Op>, s: Span, cursor: nat, oldLine: nat, newLine: nat) returns (hunk: Hunk, o: nat, n: nat)
    requires cursor <= s.start <= s.end < |ops|
    requires oldLine == |OldOf(ops[..cursor])| + 1 && newLine == |NewOf(ops[..cursor])| + 1
    ensures hunk == HunkOf(ops, s)
    ensures o == |OldOf(ops[..s.end + 1])| + 1 && n == |NewOf(ops[..s.end + 1])| + 1
  {
    o, n := Advance(ops, cursor, s.start, oldLine, newLine);
    var lines, oldCount, newCount := Collect(ops, s);
    hunk := Hunk(o, oldCount, n, newCount, lines);
    CountsJoin(ops, s);
    o := o + oldCount;
    n := n + newCount;
  }

  // Applying a patch. A start is read as one more than the lines before the hunk, for an empty range too.

  /** What a hunk's body makes of the old lines it starts at, and how many of them it uses. */
  datatype Applied = Applied(written: seq<string>, used: nat)

  function ApplyBody(lines: seq<string>, olds: seq<string>): Option<Applied> {
    if lines == [] then Some(Applied([], 0))
    else if lines[0] == "" then None
    else
      var mark, text := lines[0][0], lines[0][1..];
      if mark == '+' then
        match ApplyBody(lines[1..], olds)
        case None => None
        case Some(a) => Some(Applied([text] + a.written, a.used))
      else if (mark == ' ' || mark == '-') && olds != [] && olds[0] == text then
        match ApplyBody(lines[1..], olds[1..])
        case None => None
        case Some(a) => Some(Applied((if mark == ' ' then [text] else []) + a.written, a.used + 1))
      else None
  }

  /**
   The new lines from old line `at` on, `written` new lines being out already; a header that does not
   fit where it stands, or a body line that is not there, fails the patch.
   */
  function ApplyHunks(hunks: seq<Hunk>, olds: seq<string>, at: nat, written: nat): Option<seq<string>>
    requires at <= |olds|
  {
    if hunks == [] then Some(olds[at..])
    else
      var h := hunks[0];
      if !(at < h.oldStart <= |olds| + 1) then None
      else
        var from := h.oldStart - 1;
        match ApplyBody(h.lines, olds[from..])
        case None => None
        case Some(a) =>
          if a.used != h.oldCount || |a.written| != h.newCount || written + (from - at) + 1 != h.newStart
             || |olds| < from + a.used then None
          else
            match ApplyHunks(hunks[1..], olds, from + a.used, written + (from - at) + |a.written|)
            case None => None
            case Some(rest) => Some(olds[at..from] + a.written + rest)
  }

  lemma OneApplies(op: Op, more: seq<string>, olds: seq<string>, a: Applied)
    requires ApplyBody(more, olds) == Some(a)
    ensures ApplyBody([Rendered(op)] + more, if op.Insert? then olds else [op.text] + olds)
         == Some(Applied((if op.Delete? then [] else [op.text]) + a.written, a.used + if op.Insert? then 0 else 1))
  {
    var lines := [Rendered(op)] + more;
    assert lines[1..] == more && lines[0][1..] == op.text;
    assert ([op.text] + olds)[1..] == olds;
  }

  lemma FirstBody(ops: seq<Op>)
    requires ops != []
    ensures Body(ops) == [Rendered(ops[0])] + Body(ops[1..])
    ensures OldOf(ops) == if ops[0].Insert? then OldOf(ops[1..]) else [ops[0].text] + OldOf(ops[1..])
    ensures NewOf(ops) == (if ops[0].Delete? then [] else [ops[0].text]) + NewOf(ops[1..])
  {
  }

  lemma {:induction false} BodyApplies(ops: seq<Op>, rest: seq<string>)
    ensures ApplyBody(Body(ops), OldOf(ops) + rest) == Some(Applied(NewOf(ops), |OldOf(ops)|))
  {
    if ops != [] {
      var op, more := ops[0], ops[1..];
      BodyApplies(more, rest);
      OneApplies(op, Body(more), OldOf(more) + rest, Applied(NewOf(more), |OldOf(more)|));
      FirstBody(ops);
      Assoc([op.text], OldOf(more), rest);
    }
  }

  /** Operations that change nothing are the same lines on both sides. */
  lemma {:induction false} UnchangedSides(ops: seq<Op>)
    requires forall k :: 0 <= k < |ops| ==> ops[k].Equal?
    ensures OldOf(ops) == NewOf(ops)
  {
    if ops != [] {
      UnchangedSides(ops[1..]);
    }
  }

  lemma SplitOps(ops: seq<Op>, p: nat, q: nat)
    requires p <= q <= |ops|
    ensures OldOf(ops) == OldOf(ops[..p]) + OldOf(ops[p..q]) + OldOf(ops[q..])
    ensures NewOf(ops[p..]) == NewOf(ops[p..q]) + NewOf(ops[q..])
    ensures |OldOf(ops[..q])| == |OldOf(ops[..p])| + |OldOf(ops[p..q])|
    ensures |NewOf(ops[..q])| == |NewOf(ops[..p])| + |NewOf(ops[p..q])|
  {
    assert ops[p..] == ops[p..q] + ops[q..];
    assert ops[..q] == ops[..p] + ops[p..q];
    assert ops == ops[..q] + ops[q..];
    OpsAppend(ops[p..q], ops[q..]);
    OpsAppend(ops[..p], ops[p..q]);
    OpsAppend(ops[..q], ops[q..]);
  }

  /** The hunk fits at old line `from`, with `gap` in front of it, and `a` is what its body comes to. */
  ghost predicate Fits(h: Hunk, olds: seq<string>, at: nat, written: nat, from: nat, gap: seq<string>, a: Applied) {
    && at <= from && from + a.used <= |olds| && gap == olds[at..from]
    && h.oldStart == from + 1 && h.newStart == written + (from - at) + 1
    && ApplyBody(h.lines, olds[from..]) == Some(a) && a.used == h.oldCount && |a.written| == h.newCount
  }

  /** One hunk that fits, followed by hunks that apply. */
  lemma HunkApplies(hunks: seq<Hunk>, olds: seq<string>, at: nat, written: nat, from: nat, gap: seq<string>,
                    a: Applied, rest: seq<string>)
    requires hunks != [] && Fits(hunks[0], olds, at, written, from, gap, a)
    requires ApplyHunks(hunks[1..], olds, from + a.used, written + (from - at) + |a.written|) == Some(rest)
    ensures ApplyHunks(hunks, olds, at, written) == Some(gap + a.written + rest)
  {
  }

  /** Between two hunks both sides are the same lines. */
  lemma GapSame(ops: seq<Op>, p: nat, q: nat)
    requires p <= q <= |ops| && forall k :: p <= k < q ==> ops[k].Equal?
    ensures |OldOf(ops[..p])| <= |OldOf(ops[..q])| <= |OldOf(ops)|
    ensures OldOf(ops)[|OldOf(ops[..p])|..|OldOf(ops[..q])|] == NewOf(ops[p..q])
    ensures |NewOf(ops[..q])| - |NewOf(ops[..p])| == |OldOf(ops[..q])| - |OldOf(ops[..p])|
  {
    SplitOps(ops, p, q);
    UnchangedSides(ops[p..q]);
    OldSlices(OldOf(ops[..p]), OldOf(ops[p..q]), OldOf(ops[q..]));
  }

  /** A hunk fits where its header says, uses the lines it counts, and writes its new lines. */
  lemma SpanApplies(ops: seq<Op>, s: Span)
    requires s.start <= s.end < |ops|
    ensures var h, from, written := HunkOf(ops, s), HunkOf(ops, s).oldStart - 1, NewOf(ops[s.start..s.end + 1]);
            && from + h.oldCount == |OldOf(ops[..s.end + 1])| <= |OldOf(ops)|
            && h.newStart - 1 + h.newCount == |NewOf(ops[..s.end + 1])| && |written| == h.newCount
            && ApplyBody(h.lines, OldOf(ops)[from..]) == Some(Applied(written, h.oldCount))
  {
    var q, r := s.start, s.end + 1;
    SplitOps(ops, q, r);
    BodyApplies(ops[q..r], OldOf(ops[r..]));
    OldSlices(OldOf(ops[..q]), OldOf(ops[q..r]), OldOf(ops[r..]));
  }

  lemma LastGap(ops: seq<Op>, p: nat)
    requires p <= |ops| && forall k :: p <= k < |ops| ==> ops[k].Equal?
    ensures |OldOf(ops[..p])| <= |OldOf(ops)| && OldOf(ops)[|OldOf(ops[..p])|..] == NewOf(ops[p..])
  {
    assert ops[p..] == ops[p..|ops|];
    assert ops[..|ops|] == ops;
    GapSame(ops, p, |ops|);
  }

  /** From operation `p` on: the hunks of the spans still to come rebuild the new lines still to come. */
  lemma {:induction false} PatchFrom(ops: seq<Op>, spans: seq<Span>, p: nat)
    requires p <= |ops| && Apart(spans, |ops|)
    requires spans != [] ==> p <= spans[0].start
    requires forall k :: p <= k < |ops| && Changed(ops, k) ==> InSpans(spans, k)
    ensures |OldOf(ops[..p])| <= |OldOf(ops)|
    ensures ApplyHunks(HunksOf(ops, spans), OldOf(ops), |OldOf(ops[..p])|, |NewOf(ops[..p])|) == Some(NewOf(ops[p..]))
    decreases |spans|
  {
    if spans == [] {
      forall k | p <= k < |ops| ensures ops[k].Equal? {
        assert !InSpans(spans, k);
        assert !Changed(ops, k);
      }
      LastGap(ops, p);
    } else {
      var s := spans[0];
      assert s in spans;
      RestCovers(ops, spans, p);
      PatchFrom(ops, spans[1..], s.end + 1);
      PatchTurn(ops, spans, s, p);
    }
  }

  lemma PatchTurn(ops: seq<Op>, spans: seq<Span>, s: Span, p: nat)
    requires spans != [] && s == spans[0] && forall t :: t in spans ==> t.start <= t.end < |ops|
    requires p <= s.start <= s.end < |ops| && forall k :: p <= k < s.start ==> ops[k].Equal?
    requires |OldOf(ops[..s.end + 1])| <= |OldOf(ops)|
    requires ApplyHunks(HunksOf(ops, spans[1..]), OldOf(ops), |OldOf(ops[..s.end + 1])|, |NewOf(ops[..s.end + 1])|)
          == Some(NewOf(ops[s.end + 1..]))
    ensures |OldOf(ops[..p])| <= |OldOf(ops)|
    ensures ApplyHunks(HunksOf(ops, spans), OldOf(ops), |OldOf(ops[..p])|, |NewOf(ops[..p])|) == Some(NewOf(ops[p..]))
  {
    HunksBehind(ops, spans);
    JoinNew(ops, p, s.start, s.end + 1);
    var rest := NewOf(ops[s.end + 1..]);
    HunkThenRest(ops, s, HunksOf(ops, spans), p, rest);
  }

  lemma HunksBehind(ops: seq<Op>, spans: seq<Span>)
    requires spans != [] && forall s :: s in spans ==> s.start <= s.end < |ops|
    ensures HunksOf(ops, spans)[0] == HunkOf(ops, spans[0]) && HunksOf(ops, spans)[1..] == HunksOf(ops, spans[1..])
  {
  }

  lemma HunkThenRest(ops: seq<Op>, s: Span, hunks: seq<Hunk>, p: nat, rest: seq<string>)
    requires p <= s.start <= s.end < |ops| && hunks != [] && hunks[0] == HunkOf(ops, s)
    requires forall k :: p <= k < s.start ==> ops[k].Equal?
    requires |OldOf(ops[..s.end + 1])| <= |OldOf(ops)|
    requires ApplyHunks(hunks[1..], OldOf(ops), |OldOf(ops[..s.end + 1])|, |NewOf(ops[..s.end + 1])|) == Some(rest)
    ensures |OldOf(ops[..p])| <= |OldOf(ops)|
    ensures ApplyHunks(hunks, OldOf(ops), |OldOf(ops[..p])|, |NewOf(ops[..p])|)
         == Some(NewOf(ops[p..s.start]) + NewOf(ops[s.start..s.end + 1]) + rest)
  {
    HunkFits(ops, s, p);
    var from, gap := hunks[0].oldStart - 1, NewOf(ops[p..s.start]);
    HunkApplies(hunks, OldOf(ops), |OldOf(ops[..p])|, |NewOf(ops[..p])|, from, gap, WithinOf(ops, s), rest);
  }

  function WithinOf(ops: seq<Op>, s: Span): Applied
    requires s.start <= s.end < |ops|
  {
    Applied(NewOf(ops[s.start..s.end + 1]), |OldOf(ops[s.start..s.end + 1])|)
  }

  lemma HunkFits(ops: seq<Op>, s: Span, p: nat)
    requires p <= s.start <= s.end < |ops| && forall k :: p <= k < s.start ==> ops[k].Equal?
    ensures |OldOf(ops[..p])| <= |OldOf(ops)|
    ensures var h, a, at, written := HunkOf(ops, s), WithinOf(ops, s), |OldOf(ops[..p])|, |NewOf(ops[..p])|;
            && Fits(h, OldOf(ops), at, written, h.oldStart - 1, NewOf(ops[p..s.start]), a)
            && h.oldStart - 1 + a.used == |OldOf(ops[..s.end + 1])|
            && written + (h.oldStart - 1 - at) + |a.written| == |NewOf(ops[..s.end + 1])|
  {
    GapBefore(ops, s, p);
    SpanApplies(ops, s);
  }

  lemma GapBefore(ops: seq<Op>, s: Span, p: nat)
    requires p <= s.start <= s.end < |ops| && forall k :: p <= k < s.start ==> ops[k].Equal?
    ensures var h, at := HunkOf(ops, s), |OldOf(ops[..p])|;
            && at <= h.oldStart - 1 <= |OldOf(ops)|
            && OldOf(ops)[at..h.oldStart - 1] == NewOf(ops[p..s.start])
            && |NewOf(ops[..p])| + (h.oldStart - 1 - at) + 1 == h.newStart
  {
    GapSame(ops, p, s.start);
  }

  lemma JoinNew(ops: seq<Op>, p: nat, q: nat, r: nat)
    requires p <= q <= r <= |ops|
    ensures NewOf(ops[p..]) == NewOf(ops[p..q]) + NewOf(ops[q..r]) + NewOf(ops[r..])
  {
    SplitOps(ops, p, q);
    SplitOps(ops, q, r);
    Assoc(NewOf(ops[p..q]), NewOf(ops[q..r]), NewOf(ops[r..]));
  }

  lemma OldSlices(a: seq<string>, b: seq<string>, c: seq<string>)
    ensures (a + b + c)[|a|..|a| + |b|] == b
    ensures (a + b + c)[|a|..] == b + c
  {
  }

  lemma RestCovers(ops: seq<Op>, spans: seq<Span>, p: nat)
    requires spans != [] && Apart(spans, |ops|) && p <= spans[0].start
    requires forall k :: p <= k < |ops| && Changed(ops, k) ==> InSpans(spans, k)
    ensures forall k :: p <= k < spans[0].start ==> ops[k].Equal?
    ensures forall k :: spans[0].end + 1 <= k < |ops| && Changed(ops, k) ==> InSpans(spans[1..], k)
    ensures Apart(spans[1..], |ops|) && (spans[1..] != [] ==> spans[0].end + 1 <= spans[1].start)
  {
    assert spans[0] in spans;
    assert spans == [spans[0]] + spans[1..];
    forall k | p <= k < spans[0].start ensures ops[k].Equal? {
      assert !Changed(ops, k);
    }
  }

  /** The hunks of an edit script are a correct patch: applied to its old text they give its new text. */
  lemma PatchIsCorrect(ops: seq<Op>, spans: seq<Span>)
    requires Groups(ops, spans)
    ensures ApplyHunks(HunksOf(ops, spans), OldOf(ops), 0, 0) == Some(NewOf(ops))
  {
    forall k | 0 <= k < |ops| && Changed(ops, k) ensures InSpans(spans, k) {
      assert NearChange(ops, |ops|, k);
    }
    PatchFrom(ops, spans, 0);
    assert ops[..0] == [] && ops[0..] == ops;
  }

  // The unified format, where the start of an empty range is the line before it.

  /** A hunk read by the format, as `ApplyHunks` reads one. */
  function FromFormat(h: Hunk): Hunk {
    h.(oldStart := if h.oldCount == 0 then h.oldStart + 1 else h.oldStart,
       newStart := if h.newCount == 0 then h.newStart + 1 else h.newStart)
  }

  function AllFromFormat(hunks: seq<Hunk>): seq<Hunk> {
    seq(|hunks|, k requires 0 <= k < |hunks| => FromFormat(hunks[k]))
  }

  lemma {:induction false} EmptySides(ops: seq<Op>)
    ensures OldOf(ops) == [] <==> forall k :: 0 <= k < |ops| ==> ops[k].Insert?
    ensures NewOf(ops) == [] <==> forall k :: 0 <= k < |ops| ==> ops[k].Delete?
  {
    if ops != [] {
      EmptySides(ops[1..]);
      assert forall k :: 1 <= k < |ops| ==> ops[k] == ops[1..][k - 1];
    }
  }

  /** Changes alone have no context around them, so that they are the whole script. */
  lemma AllChangedIsWhole(ops: seq<Op>, spans: seq<Span>, s: Span)
    requires Groups(ops, spans) && s in spans && forall k :: s.start <= k <= s.end ==> Changed(ops, k)
    ensures s.start == 0 && s.end + 1 == |ops| && spans[0] == s
  {
    var m :| 0 <= m < |spans| && spans[m] == s;
    assert Changed(ops, s.start) && Changed(ops, s.end);
    assert s.start - CONTEXT <= s.start - 1 <= s.start + CONTEXT && s.end - CONTEXT <= s.end + 1 <= s.end + CONTEXT;
    assert NearChange(ops, |ops|, s.start - 1) && NearChange(ops, |ops|, s.end + 1);
    BesideIsFree(spans, |ops|, m, s.start - 1);
    BesideIsFree(spans, |ops|, m, s.end + 1);
    FirstAtTop(spans, |ops|, m);
  }

  lemma FirstAtTop(spans: seq<Span>, n: nat, m: nat)
    requires Apart(spans, n) && m < |spans| && spans[m].start == 0
    ensures m == 0
  {
    assert spans[0] in spans;
  }

  /** The operation beside a span is in no other. */
  lemma BesideIsFree(spans: seq<Span>, n: nat, m: nat, k: int)
    requires Apart(spans, n) && m < |spans| && (k == spans[m].start - 1 || k == spans[m].end + 1)
    ensures !InSpans(spans, k)
  {
    assert spans[m] in spans;
    forall t | t in spans ensures !(t.start <= k <= t.end) {
      var l :| 0 <= l < |spans| && spans[l] == t;
      assert l < m ==> spans[l].end + 1 < spans[m].start;
      assert m < l ==> spans[m].end + 1 < spans[l].start;
    }
  }

  lemma WithinEmpty(ops: seq<Op>, s: Span)
    requires s.start <= s.end < |ops|
    ensures HunkOf(ops, s).oldCount == 0 <==> forall k :: s.start <= k <= s.end ==> ops[k].Insert?
    ensures HunkOf(ops, s).newCount == 0 <==> forall k :: s.start <= k <= s.end ==> ops[k].Delete?
  {
    var within := ops[s.start..s.end + 1];
    EmptySides(within);
    assert forall k :: s.start <= k <= s.end ==> ops[k] == within[k - s.start];
    assert forall k :: 0 <= k < |within| ==> within[k] == ops[k + s.start];
  }

  lemma OneKindIsWhole(ops: seq<Op>, spans: seq<Span>, s: Span)
    requires Groups(ops, spans) && s in spans
    ensures (forall k :: s.start <= k <= s.end ==> ops[k].Insert?) <==> forall k :: 0 <= k < |ops| ==> ops[k].Insert?
    ensures (forall k :: s.start <= k <= s.end ==> ops[k].Delete?) <==> forall k :: 0 <= k < |ops| ==> ops[k].Delete?
  {
    if forall k :: s.start <= k <= s.end ==> Changed(ops, k) {
      AllChangedIsWhole(ops, spans, s);
    } else {
      var k :| s.start <= k <= s.end && !Changed(ops, k);
      assert ops[k].Equal?;
    }
  }

  /** Exactly when a hunk has no line on a side: when the whole text on that side has none. */
  lemma EmptyRangeIff(ops: seq<Op>, spans: seq<Span>, s: Span)
    requires Groups(ops, spans) && s in spans
    ensures HunkOf(ops, s).oldCount == 0 <==> OldOf(ops) == []
    ensures HunkOf(ops, s).newCount == 0 <==> NewOf(ops) == []
  {
    OneKindIsWhole(ops, spans, s);
    EmptySides(ops);
    WithinEmpty(ops, s);
  }

  /** Exactly when a reader of the format gets the new text: when nothing changed, or both texts have lines. */
  lemma FormatReadsIff(ops: seq<Op>, spans: seq<Span>)
    requires Groups(ops, spans)
    ensures ApplyHunks(AllFromFormat(HunksOf(ops, spans)), OldOf(ops), 0, 0) == Some(NewOf(ops))
            <==> spans == [] || (OldOf(ops) != [] && NewOf(ops) != [])
  {
    var hunks := HunksOf(ops, spans);
    PatchIsCorrect(ops, spans);
    forall s | s in spans
      ensures HunkOf(ops, s).oldCount == 0 <==> OldOf(ops) == []
      ensures HunkOf(ops, s).newCount == 0 <==> NewOf(ops) == []
    {
      EmptyRangeIff(ops, spans, s);
    }
    assert forall k :: 0 <= k < |spans| ==> spans[k] in spans && hunks[k] == HunkOf(ops, spans[k]);
    if spans == [] || (OldOf(ops) != [] && NewOf(ops) != []) {
      assert AllFromFormat(hunks) == hunks;
    } else {
      EmptySideFails(ops, spans);
    }
  }

  lemma EmptySideFails(ops: seq<Op>, spans: seq<Span>)
    requires Groups(ops, spans) && spans != [] && (OldOf(ops) == [] || NewOf(ops) == [])
    ensures ApplyHunks(AllFromFormat(HunksOf(ops, spans)), OldOf(ops), 0, 0) == None
  {
    var s := spans[0];
    assert s in spans;
    EmptySides(ops);
    AllChangedIsWhole(ops, spans, s);
    EmptyRangeIff(ops, spans, s);
    assert ops[..0] == [];
    var h := FromFormat(HunkOf(ops, s));
    assert AllFromFormat(HunksOf(ops, spans))[0] == h;
    assert OldOf(ops) == [] ==> h.oldStart == 2;
    assert NewOf(ops) == [] ==> h.newStart == 2;
  }

  /** No hunk means no change. */
  lemma NoHunksNoChange(ops: seq<Op>, spans: seq<Span>)
    requires Groups(ops, spans)
    ensures spans == [] <==> forall k :: 0 <= k < |ops| ==> ops[k].Equal?
  {
    forall k | Changed(ops, k) ensures InSpans(spans, k) {
      assert NearChange(ops, |ops|, k);
    }
    if spans != [] {
      assert spans[0] in spans;
      assert InSpans(spans, spans[0].start);
      assert exists i: nat :: Changed(ops, i);
    } else {
      assert forall k :: !InSpans(spans, k);
    }
    assert forall k :: 0 <= k < |ops| ==> (ops[k].Equal? <==> !Changed(ops, k));
  }

  // How much a patch changes.

  /** The lines of a hunk's body that are added or removed. */
  function MarkedLines(lines: seq<string>): nat {
    if lines == [] then 0
    else (if lines[0] != "" && (lines[0][0] == '+' || lines[0][0] == '-') then 1 else 0) + MarkedLines(lines[1..])
  }

  function MarkedIn(hunks: seq<Hunk>): nat {
    if hunks == [] then 0 else MarkedLines(hunks[0].lines) + MarkedIn(hunks[1..])
  }

  lemma {:induction false} BodyMarks(ops: seq<Op>)
    ensures MarkedLines(Body(ops)) == Changes(ops)
  {
    if ops != [] {
      BodyMarks(ops[1..]);
      assert Body(ops)[1..] == Body(ops[1..]);
    }
  }

  lemma {:induction false} UnchangedNone(ops: seq<Op>)
    requires forall k :: 0 <= k < |ops| ==> ops[k].Equal?
    ensures Changes(ops) == 0
  {
    if ops != [] {
      UnchangedNone(ops[1..]);
    }
  }

  lemma SpanChanges(ops: seq<Op>, p: nat, q: nat, r: nat)
    requires p <= q <= r <= |ops| && forall k :: p <= k < q ==> ops[k].Equal?
    ensures Changes(ops[p..]) == Changes(ops[q..r]) + Changes(ops[r..])
  {
    assert ops[p..] == ops[p..q] + (ops[q..r] + ops[r..]);
    UnchangedNone(ops[p..q]);
    ChangesAppend(ops[p..q], ops[q..r] + ops[r..]);
    ChangesAppend(ops[q..r], ops[r..]);
  }

  /** The hunks of the spans still to come mark the changes still to come. */
  lemma {:induction false} PatchMarks(ops: seq<Op>, spans: seq<Span>, p: nat)
    requires p <= |ops| && Apart(spans, |ops|)
    requires spans != [] ==> p <= spans[0].start
    requires forall k :: p <= k < |ops| && Changed(ops, k) ==> InSpans(spans, k)
    ensures MarkedIn(HunksOf(ops, spans)) == Changes(ops[p..])
    decreases |spans|
  {
    if spans == [] {
      forall k | p <= k < |ops| ensures ops[k].Equal? {
        assert !InSpans(spans, k);
        assert !Changed(ops, k);
      }
      UnchangedNone(ops[p..]);
    } else {
      var s := spans[0];
      assert s in spans;
      RestCovers(ops, spans, p);
      PatchMarks(ops, spans[1..], s.end + 1);
      MarksTurn(ops, spans, s, p);
    }
  }

  lemma MarksTurn(ops: seq<Op>, spans: seq<Span>, s: Span, p: nat)
    requires spans != [] && s == spans[0] && forall t :: t in spans ==> t.start <= t.end < |ops|
    requires p <= s.start <= s.end < |ops| && forall k :: p <= k < s.start ==> ops[k].Equal?
    ensures MarkedIn(HunksOf(ops, spans)) - MarkedIn(HunksOf(ops, spans[1..]))
         == Changes(ops[p..]) - Changes(ops[s.end + 1..])
  {
    HunksBehind(ops, spans);
    BodyMarks(ops[s.start..s.end + 1]);
    SpanChanges(ops, p, s.start, s.end + 1);
  }

  /** The edit script that a hunk's body stands for. */
  lemma {:induction false} BodyScript(lines: seq<string>, olds: seq<string>) returns (ops: seq<Op>)
    requires ApplyBody(lines, olds).Some?
    ensures var a := ApplyBody(lines, olds).value;
            && a.used <= |olds| && OldOf(ops) == olds[..a.used] && NewOf(ops) == a.written
            && Changes(ops) == MarkedLines(lines)
    decreases |lines|
  {
    ops := [];
    if lines != [] {
      var mark, text := lines[0][0], lines[0][1..];
      if mark == '+' {
        var rest := BodyScript(lines[1..], olds);
        ops := [Insert(text)] + rest;
        assert ops[1..] == rest;
      } else {
        var rest := BodyScript(lines[1..], olds[1..]);
        ops := [if mark == ' ' then Equal(text) else Delete(text)] + rest;
        assert ops[1..] == rest;
        assert olds[..ApplyBody(lines, olds).value.used] == [olds[0]] + OldOf(rest);
      }
    }
  }

  function Equals(lines: seq<string>): seq<Op> { seq(|lines|, k requires 0 <= k < |lines| => Equal(lines[k])) }

  lemma {:induction false} EqualsHold(lines: seq<string>)
    ensures OldOf(Equals(lines)) == lines && NewOf(Equals(lines)) == lines && Changes(Equals(lines)) == 0
  {
    if lines != [] {
      EqualsHold(lines[1..]);
      assert Equals(lines)[1..] == Equals(lines[1..]);
    }
  }

  lemma JoinScripts(a: seq<Op>, b: seq<Op>, c: seq<Op>)
    ensures OldOf(a + b + c) == OldOf(a) + OldOf(b) + OldOf(c) && NewOf(a + b + c) == NewOf(a) + NewOf(b) + NewOf(c)
    ensures Changes(a + b + c) == Changes(a) + Changes(b) + Changes(c)
  {
    OpsAppend(a, b);
    OpsAppend(a + b, c);
    ChangesAppend(a, b);
    ChangesAppend(a + b, c);
  }

  /** What applying the first hunk comes to. */
  lemma FirstApplied(hunks: seq<Hunk>, olds: seq<string>, at: nat, written: nat)
    returns (from: nat, a: Applied, next: nat)
    requires hunks != [] && at <= |olds| && ApplyHunks(hunks, olds, at, written).Some?
    ensures at <= from && from + a.used <= |olds| && ApplyBody(hunks[0].lines, olds[from..]) == Some(a)
    ensures var rest := ApplyHunks(hunks[1..], olds, from + a.used, next);
            rest.Some? && ApplyHunks(hunks, olds, at, written).value == olds[at..from] + a.written + rest.value
  {
    from := hunks[0].oldStart - 1;
    a := ApplyBody(hunks[0].lines, olds[from..]).value;
    next := written + (from - at) + |a.written|;
  }

  /** The edit script that a whole patch stands for. */
  lemma {:induction false} PatchScript(hunks: seq<Hunk>, olds: seq<string>, at: nat, written: nat)
    returns (ops: seq<Op>)
    requires at <= |olds| && ApplyHunks(hunks, olds, at, written).Some?
    ensures OldOf(ops) == olds[at..] && NewOf(ops) == ApplyHunks(hunks, olds, at, written).value
    ensures Changes(ops) == MarkedIn(hunks)
    decreases |hunks|
  {
    if hunks == [] {
      ops := Equals(olds[at..]);
      EqualsHold(olds[at..]);
    } else {
      var from, a, next := FirstApplied(hunks, olds, at, written);
      var gap := Equals(olds[at..from]);
      var body := BodyScript(hunks[0].lines, olds[from..]);
      var rest := PatchScript(hunks[1..], olds, from + a.used, next);
      EqualsHold(olds[at..from]);
      JoinScripts(gap, body, rest);
      ThreeSlices(olds, at, from, a.used);
      ops := gap + body + rest;
    }
  }

  lemma ThreeSlices(olds: seq<string>, at: nat, from: nat, used: nat)
    requires at <= from && from + used <= |olds|
    ensures olds[at..] == olds[at..from] + olds[from..][..used] + olds[from + used..]
  {
  }

  /** No patch between two texts marks fewer lines than the hunks of a minimal script. */
  lemma PatchIsMinimal(ops: seq<Op>, spans: seq<Span>, other: seq<Hunk>)
    requires Groups(ops, spans) && Minimal(ops) && ApplyHunks(other, OldOf(ops), 0, 0) == Some(NewOf(ops))
    ensures MarkedIn(HunksOf(ops, spans)) <= MarkedIn(other)
  {
    forall k | 0 <= k < |ops| && Changed(ops, k) ensures InSpans(spans, k) {
      assert NearChange(ops, |ops|, k);
    }
    PatchMarks(ops, spans, 0);
    assert ops[0..] == ops && OldOf(ops)[0..] == OldOf(ops);
    var script := PatchScript(other, OldOf(ops), 0, 0);
  }

  // The whole diff of two texts.

  datatype Diff = Identical | FilesDiffer | Patch(hunks: seq<Hunk>)

  /** No patch from the old lines to the new ones adds and removes fewer lines. */
  ghost predicate Smallest(hunks: seq<Hunk>, olds: seq<string>, news: seq<string>) {
    forall other :: ApplyHunks(other, olds, 0, 0) == Some(news) ==> MarkedIn(hunks) <= MarkedIn(other)
  }

  /** The hunks are those of some script between the two texts, each change with three lines around it. */
  ghost predicate CutFrom(hunks: seq<Hunk>, olds: seq<string>, news: seq<string>) {
    exists ops, spans ::
      && OldOf(ops) == olds && NewOf(ops) == news && Groups(ops, spans) && hunks == HunksOf(ops, spans)
      && (|olds| * (|news| + 1) <= 1_000_000 ==> Minimal(ops) && DeletesFirst(ops) && KeepsEarly(ops))
  }

  /** The diff of two texts: a smallest patch rebuilds the new lines, and without one the lines are the same. */
  method UnifiedDiff(oldText: string, newText: string) returns (diff: Diff)
    ensures diff.Identical? <==> oldText == newText
    ensures diff.FilesDiffer? ==> Lines(oldText) == Lines(newText)
    ensures diff.Patch? ==> diff.hunks != [] && ApplyHunks(diff.hunks, Lines(oldText), 0, 0) == Some(Lines(newText))
    ensures diff.Patch? ==> CutFrom(diff.hunks, Lines(oldText), Lines(newText))
    ensures diff.Patch? && |Lines(oldText)| * (|Lines(newText)| + 1) <= 1_000_000 ==>
              Smallest(diff.hunks, Lines(oldText), Lines(newText))
  {
    if oldText == newText {
      return Identical;
    }
    var ops := DiffOps(Lines(oldText), Lines(newText));
    var hunks := MakeHunks(ops);
    ghost var spans :| Groups(ops, spans) && hunks == HunksOf(ops, spans);
    NoHunksNoChange(ops, spans);
    if hunks == [] {
      UnchangedSides(ops);
      return FilesDiffer;
    }
    PatchIsCorrect(ops, spans);
    SmallestPatch(ops, spans);
    return Patch(hunks);
  }

  lemma SmallestPatch(ops: seq<Op>, spans: seq<Span>)
    requires Groups(ops, spans)
    ensures Minimal(ops) ==> Smallest(HunksOf(ops, spans), OldOf(ops), NewOf(ops))
  {
    forall other | Minimal(ops) && ApplyHunks(other, OldOf(ops), 0, 0) == Some(NewOf(ops))
      ensures MarkedIn(HunksOf(ops, spans)) <= MarkedIn(other)
    {
      PatchIsMinimal(ops, spans, other);
    }
  }
}
