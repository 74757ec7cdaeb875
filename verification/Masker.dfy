/**
 The stateful redactor of one output stream (`SecretMasker`): the pure step it takes per line, and
 the class that takes it in place.
 */
module Masker {
  import opened Text
  import opened Ranges
  import opened Shadows
  import opened Masking

  /** The shortest tail fragment that is redacted in place. */
  const MIN_PREFIX_REDACT: nat := 4

  /** A value whose first `consumed` bytes ended the text so far. */
  datatype Pending = Pending(secret: string, consumed: nat)

  /** A proper prefix of a value at the end of a line. */
  datatype Tail = Tail(len: nat, secret: string)

  /** What one pending value does with a non-empty line. */
  datatype Continued = Continued(range: Option<Range>, kept: Option<Pending>)

  function ContinueOne(p: Pending, line: string): Continued {
    if |p.secret| <= p.consumed then Continued(None, None)
    else
      var rest := p.secret[p.consumed..];
      if line != "" && line <= rest then
        Continued(Some(Range(0, |line|)),
                  if p.consumed + |line| < |p.secret| then Some(Pending(p.secret, p.consumed + |line|)) else None)
      else if rest <= line then Continued(Some(Range(0, |rest|)), None)
      else Continued(None, None)
  }

  function ToSeq<T>(o: Option<T>): seq<T> {
    match o case None => [] case Some(v) => [v]
  }

  function KeptAfter(pending: seq<Pending>, line: string): seq<Pending> {
    if pending == [] then []
    else KeptAfter(pending[..|pending| - 1], line) + ToSeq(ContinueOne(pending[|pending| - 1], line).kept)
  }

  function Continuations(pending: seq<Pending>, line: string): seq<Range> {
    if pending == [] then []
    else Continuations(pending[..|pending| - 1], line) + ToSeq(ContinueOne(pending[|pending| - 1], line).range)
  }

  function AsRanges(at: seq<nat>, len: nat): (r: seq<Range>)
    ensures |r| == |at| && forall k :: 0 <= k < |at| ==> r[k] == Range(at[k], len)
  {
    seq(|at|, k requires 0 <= k < |at| => Range(at[k], len))
  }

  /** The greedy matches of every value, value by value. */
  function Matches(masks: seq<string>, line: string): seq<Range> {
    if masks == [] then []
    else
      var last := masks[|masks| - 1];
      Matches(masks[..|masks| - 1], line)
      + if last == "" then [] else AsRanges(MatchIndices(line, last, 0), |last|)
  }

  /** `len` bytes of `secret`, fewer than all of it, end `line`. */
  predicate TailMatch(secret: string, line: string, len: nat) {
    0 < len < |secret| && EndsWith(line, secret[..len])
  }

  /** The longest proper prefix of `secret`, of at most `len` bytes, that ends `line`. */
  function LongestTail(secret: string, line: string, len: nat): (l: nat)
    ensures l <= len
    ensures 0 < l ==> TailMatch(secret, line, l)
    ensures forall k: nat :: l < k <= len ==> !TailMatch(secret, line, k)
  {
    if len == 0 then 0
    else if TailMatch(secret, line, len) then len
    else LongestTail(secret, line, len - 1)
  }

  /** The longest tail over all values; of two as long, the one of the earlier value. */
  function BestTail(masks: seq<string>, line: string): Option<Tail> {
    if masks == [] then None
    else
      var best := BestTail(masks[..|masks| - 1], line);
      var secret := masks[|masks| - 1];
      var l := LongestTail(secret, line, |secret|);
      if 0 < l && (best.None? || best.value.len < l) then Some(Tail(l, secret)) else best
  }

  /** The tail a line is searched for: the longest proper prefix of any value that ends it. */
  lemma {:induction false} BestTailHolds(masks: seq<string>, line: string)
    ensures var best := BestTail(masks, line);
            && (best.Some? ==> best.value.secret in masks && TailMatch(best.value.secret, line, best.value.len))
            && forall m, l: nat :: m in masks && TailMatch(m, line, l) ==> best.Some? && l <= best.value.len
  {
    if masks != [] {
      var init := masks[..|masks| - 1];
      var last := masks[|masks| - 1];
      BestTailHolds(init, line);
      assert forall m :: m in masks <==> m in init || m == last;
    }
  }

  function TailRange(best: Option<Tail>, line: string): seq<Range> {
    if best.Some? && MIN_PREFIX_REDACT <= best.value.len <= |line|
    then [Range(|line| - best.value.len, best.value.len)]
    else []
  }

  function TailPending(best: Option<Tail>): seq<Pending> {
    if best.Some? then [Pending(best.value.secret, best.value.len)] else []
  }

  /** The ranges of one line: what it continues, the values inside it, and the fragment it ends with. */
  function LineRanges(masks: seq<string>, pending: seq<Pending>, line: string): seq<Range> {
    Continuations(pending, line) + Matches(masks, line) + TailRange(BestTail(masks, line), line)
  }

  function NextPending(masks: seq<string>, pending: seq<Pending>, line: string): seq<Pending> {
    if line == "" then pending else KeptAfter(pending, line) + TailPending(BestTail(masks, line))
  }

  ghost function Redacted(masks: seq<string>, shorts: seq<(string, string)>, pending: seq<Pending>,
                          line: string): string {
    Narrowed(if line == "" then "" else Splice(line, LineRanges(masks, pending, line), 0), shorts)
  }

  /** What a note comes to: it is redacted on its own, by the long values and then by the short ones. */
  function Note(masks: seq<string>, shorts: seq<(string, string)>, text: string): string {
    Narrowed(MaskAll(text, masks), shorts)
  }

  lemma {:induction false} ContinuationsWithin(pending: seq<Pending>, line: string)
    requires line != ""
    ensures forall r :: r in Continuations(pending, line) ==> r.Within(line)
  {
    if pending != [] {
      ContinuationsWithin(pending[..|pending| - 1], line);
    }
  }

  lemma {:induction false} MatchesWithin(masks: seq<string>, line: string)
    ensures forall r :: r in Matches(masks, line) ==> r.Within(line)
  {
    if masks != [] {
      var last := masks[|masks| - 1];
      MatchesWithin(masks[..|masks| - 1], line);
      if last != "" {
        MatchesOccur(line, last, 0);
        var here := AsRanges(MatchIndices(line, last, 0), |last|);
        forall r | r in here ensures r.Within(line) {
          var k :| 0 <= k < |here| && here[k] == r;
          assert MatchIndices(line, last, 0)[k] in MatchIndices(line, last, 0);
        }
      }
    }
  }

  lemma LineRangesWithin(masks: seq<string>, pending: seq<Pending>, line: string)
    requires line != ""
    ensures forall r :: r in LineRanges(masks, pending, line) ==> r.Within(line)
  {
    ContinuationsWithin(pending, line);
    MatchesWithin(masks, line);
    BestTailHolds(masks, line);
  }

  lemma SameCover(a: seq<Range>, b: seq<Range>, line: string)
    requires forall r :: r in a <==> r in b
    ensures Splice(line, a, 0) == Splice(line, b, 0)
  {
    SameCoverFrom(a, b, line, 0);
  }

  lemma {:induction false} SameCoverFrom(a: seq<Range>, b: seq<Range>, line: string, i: nat)
    requires i <= |line| && forall r :: r in a <==> r in b
    ensures Splice(line, a, i) == Splice(line, b, i)
    decreases |line| - i
  {
    assert forall k :: Covered(a, k) <==> Covered(b, k);
    if i < |line| {
      SameCoverFrom(a, b, line, i + 1);
    }
  }

  /** No star-free value is left in a redacted note. */
  lemma NoteHides(text: string, masks: seq<string>, shorts: seq<(string, string)>, secret: string)
    requires secret in masks && secret != "" && StarFree(secret)
    ensures !Occurs(secret, Note(masks, shorts, text))
  {
    var masked := MaskAll(text, masks);
    var out := Note(masks, shorts, text);
    MaskLineHides(text, masks, secret);
    NarrowedShows(masked, shorts);
    if Occurs(secret, out) {
      ShownWasThere(masked, out, Any(), secret);
    }
  }

  class SecretMasker {
    const masks: seq<string>
    const boundaries: seq<seq<nat>>
    const shorts: seq<(string, string)>
    var pending: seq<Pending>

    /** Every value comes with the lengths of its proper prefixes, longest first. */
    ghost predicate Valid() {
      && |boundaries| == |masks|
      && forall i :: 0 <= i < |masks| ==> IsBoundaries(boundaries[i], masks[i])
    }

    static ghost predicate IsBoundaries(lens: seq<nat>, secret: string) {
      && |lens| == (if secret == "" then 0 else |secret| - 1)
      && forall j :: 0 <= j < |lens| ==> lens[j] == |secret| - 1 - j
    }

    static method PrefixBoundaries(s: string) returns (lens: seq<nat>)
      ensures IsBoundaries(lens, s)
    {
      var n := if s == "" then 0 else |s| - 1;
      lens := seq(n, j requires 0 <= j < n => n - j);
    }

    constructor (masks: seq<string>, shorts: seq<(string, string)>)
      ensures Valid() && this.masks == masks && this.shorts == shorts && pending == []
    {
      var table: seq<seq<nat>> := [];
      for i := 0 to |masks|
        invariant |table| == i
        invariant forall k :: 0 <= k < i ==> IsBoundaries(table[k], masks[k])
      {
        var lens := PrefixBoundaries(masks[i]);
        table := table + [lens];
      }
      this.masks, this.boundaries, this.shorts := masks, table, shorts;
      pending := [];
    }

    /** The complete occurrences of the long values inside `line`, in order. */
    method Occurrences(line: string) returns (ranges: seq<Range>)
      ensures forall r :: r in ranges <==> r in Matches(masks, line)
    {
      ranges := [];
      for i := 0 to |masks|
        invariant ranges == Matches(masks[..i], line)
      {
        assert masks[..i + 1][..i] == masks[..i];
        if masks[i] != "" {
          ranges := ranges + AsRanges(MatchIndices(line, masks[i], 0), |masks[i]|);
        }
      }
      assert masks[..|masks|] == masks;
      ranges := SortRanges(ranges);
    }

    /** The longest tail of `line` that `secret` could go on from, by its boundaries. */
    method LongestBoundary(line: string, idx: nat) returns (len: nat)
      requires Valid() && idx < |masks| && line != ""
      ensures len == LongestTail(masks[idx], line, |masks[idx]|)
    {
      var secret := masks[idx];
      for j := 0 to |boundaries[idx]|
        invariant forall k: nat :: |secret| - 1 - j < k ==> !TailMatch(secret, line, k)
      {
        var boundary := boundaries[idx][j];
        if boundary <= |line| && line[|line| - boundary] == secret[0] && EndsWith(line, secret[..boundary]) {
          TailIsLongest(secret, line, boundary, |secret|);
          return boundary;
        }
        assert secret[..boundary][0] == secret[0];
        assert !TailMatch(secret, line, boundary);
      }
      TailIsLongest(secret, line, 0, |secret|);
      return 0;
    }

    method TailPrefix(line: string) returns (best: Option<Tail>)
      requires Valid()
      ensures best == BestTail(masks, line)
    {
      BestTailHolds(masks, line);
      if line == "" {
        return None;
      }
      best := None;
      for idx := 0 to |masks|
        invariant best == BestTail(masks[..idx], line)
      {
        assert masks[..idx + 1][..idx] == masks[..idx];
        var len := LongestBoundary(line, idx);
        if 0 < len && (best.None? || best.value.len < len) {
          best := Some(Tail(len, masks[idx]));
        }
      }
      assert masks[..|masks|] == masks;
    }

    /** Rule 1: a value whose prefix ended an earlier line continues on this one, or is dropped. */
    method Continue(line: string) returns (ranges: seq<Range>)
      requires line != ""
      modifies this`pending
      ensures ranges == Continuations(old(pending), line)
      ensures pending == KeptAfter(old(pending), line)
    {
      var kept: seq<Pending> := [];
      ranges := [];
      for i := 0 to |pending|
        invariant pending == old(pending)
        invariant kept == KeptAfter(pending[..i], line)
        invariant ranges == Continuations(pending[..i], line)
      {
        var p := pending[i];
        assert pending[..i + 1][..i] == pending[..i];
        if p.consumed < |p.secret| {
          var rest := p.secret[p.consumed..];
          if line <= rest {
            ranges := ranges + [Range(0, |line|)];
            if p.consumed + |line| < |p.secret| {
              kept := kept + [Pending(p.secret, p.consumed + |line|)];
            }
          } else if rest <= line {
            ranges := ranges + [Range(0, |rest|)];
          }
        }
      }
      assert pending[..|pending|] == pending;
      pending := kept;
    }

    /** Rule 3: the fragment the line ends with is redacted in place, if long enough, and remembered. */
    method NoteTail(line: string) returns (ranges: seq<Range>)
      requires Valid()
      modifies this`pending
      ensures pending == old(pending) + TailPending(BestTail(masks, line))
      ensures ranges == TailRange(BestTail(masks, line), line)
    {
      ranges := [];
      var tail := TailPrefix(line);
      BestTailHolds(masks, line);
      if tail.Some? {
        var start := |line| - tail.value.len;
        if MIN_PREFIX_REDACT <= tail.value.len {
          ranges := [Range(start, tail.value.len)];
        }
        pending := pending + [Pending(tail.value.secret, tail.value.len)];
      }
    }

    /** Redact one line of output in the context of the lines before it. */
    method RedactLine(line: string) returns (out: string)
      requires Valid()
      modifies this`pending
      ensures out == Redacted(masks, shorts, old(pending), line)
      ensures pending == NextPending(masks, old(pending), line)
    {
      if line == "" {
        out := ApplyNarrow(line, shorts);
        return;
      }
      var continued := Continue(line);
      var inside := Occurrences(line);
      var tail := NoteTail(line);
      var ranges := continued + inside + tail;

      LineRangesWithin(masks, old(pending), line);
      SameCover(ranges, LineRanges(masks, old(pending), line), line);
      out := ApplyRanges(line, ranges);
      out := ApplyNarrow(out, shorts);
    }

    /** A note is not part of the stream: it is redacted without touching the state. */
    method RedactText(text: string) returns (out: string)
      ensures out == Note(masks, shorts, text)
      ensures forall m :: m in masks && m != "" && StarFree(m) ==> !Occurs(m, out)
    {
      out := MaskLine(text, masks);
      out := ApplyNarrow(out, shorts);
      forall m | m in masks && m != "" && StarFree(m) ensures !Occurs(m, out) {
        NoteHides(text, masks, shorts, m);
      }
    }
  }

  lemma {:induction false} TailIsLongest(secret: string, line: string, len: nat, max: nat)
    requires len <= max && (len == 0 || TailMatch(secret, line, len))
    requires forall k: nat :: len < k ==> !TailMatch(secret, line, k)
    ensures LongestTail(secret, line, max) == len
  {
    var l := LongestTail(secret, line, max);
    assert 0 < l ==> TailMatch(secret, line, l);
  }
}
