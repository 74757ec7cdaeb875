/** The masker over whole streams. */
module MaskerStream {
  // The reader of the console or of the log sees the outputs one after the other, so the question is
  // whether a secret can be read in their concatenation. `LeakIffSlip` answers it for every set of
  // values: the masker fails exactly when some line ends with a short fragment of a value while the one
  // tail it remembers belongs to a value, or a prefix length, that goes on differently. `SlipIffClash`
  // turns that into a check on the values alone.

  import opened Text
  import opened Ranges
  import opened Shadows
  import opened Masking
  import opened Masker

  function PendingAfter(masks: seq<string>, pending: seq<Pending>, lines: seq<string>): seq<Pending>
    decreases |lines|
  {
    if lines == [] then pending else PendingAfter(masks, NextPending(masks, pending, lines[0]), lines[1..])
  }

  ghost function Outputs(masks: seq<string>, shorts: seq<(string, string)>, pending: seq<Pending>, lines: seq<string>)
    : seq<string>
    decreases |lines|
  {
    if lines == [] then []
    else
      [Redacted(masks, shorts, pending, lines[0])]
      + Outputs(masks, shorts, NextPending(masks, pending, lines[0]), lines[1..])
  }

  lemma StreamStep(masks: seq<string>, shorts: seq<(string, string)>, pending: seq<Pending>, lines: seq<string>, i: nat)
    requires i < |lines|
    ensures var next := NextPending(masks, pending, lines[i]);
            && Outputs(masks, shorts, pending, lines[i..])
               == [Redacted(masks, shorts, pending, lines[i])] + Outputs(masks, shorts, next, lines[i + 1..])
            && PendingAfter(masks, pending, lines[i..]) == PendingAfter(masks, next, lines[i + 1..])
  {
    assert lines[i..][1..] == lines[i + 1..];
  }

  /** One masker fed line by line, as the output sink feeds it. */
  method RedactAll(masker: SecretMasker, lines: seq<string>) returns (outs: seq<string>)
    requires masker.Valid()
    modifies masker`pending
    ensures outs == Outputs(masker.masks, masker.shorts, old(masker.pending), lines)
    ensures masker.pending == PendingAfter(masker.masks, old(masker.pending), lines)
  {
    outs := [];
    for i := 0 to |lines|
      invariant outs + Outputs(masker.masks, masker.shorts, masker.pending, lines[i..])
             == Outputs(masker.masks, masker.shorts, old(masker.pending), lines)
      invariant PendingAfter(masker.masks, masker.pending, lines[i..])
             == PendingAfter(masker.masks, old(masker.pending), lines)
    {
      StreamStep(masker.masks, masker.shorts, masker.pending, lines, i);
      var out := masker.RedactLine(lines[i]);
      outs := outs + [out];
    }
  }

  /** Byte `pos` of the stream, counted over the joined lines, is redacted. */
  ghost predicate Hidden(masks: seq<string>, pending: seq<Pending>, lines: seq<string>, pos: int)
    decreases |lines|
  {
    if lines == [] then false
    else if pos < |lines[0]| then Covered(LineRanges(masks, pending, lines[0]), pos)
    else Hidden(masks, NextPending(masks, pending, lines[0]), lines[1..], pos - |lines[0]|)
  }

  ghost function Visible(masks: seq<string>, pending: seq<Pending>, lines: seq<string>): int -> bool {
    (k: int) => !Hidden(masks, pending, lines, k)
  }

  lemma RedactedShows(masks: seq<string>, shorts: seq<(string, string)>, pending: seq<Pending>, line: string)
    ensures Shows(line, Redacted(masks, shorts, pending, line), Open(LineRanges(masks, pending, line)))
  {
    var ranges := LineRanges(masks, pending, line);
    var spliced := if line == "" then "" else Splice(line, ranges, 0);
    SpliceShows(line, ranges);
    NarrowedShows(spliced, shorts);
    ShowsThen(line, spliced, Open(ranges), Redacted(masks, shorts, pending, line), Any());
  }

  /** All outputs together show only visible bytes of the stream, side by side as they were. */
  lemma {:induction false} OutputsShow(masks: seq<string>, shorts: seq<(string, string)>, pending: seq<Pending>,
                                       lines: seq<string>)
    ensures Shows(Concat(lines), Concat(Outputs(masks, shorts, pending, lines)), Visible(masks, pending, lines))
    decreases |lines|
  {
    if lines == [] {
      ShowsSame("");
      ShowsMore("", "", Any(), Visible(masks, pending, lines));
    } else {
      var line, rest, next := lines[0], lines[1..], NextPending(masks, pending, lines[0]);
      var out := Redacted(masks, shorts, pending, line);
      var outs := Outputs(masks, shorts, next, rest);
      RedactedShows(masks, shorts, pending, line);
      OutputsShow(masks, shorts, next, rest);
      ShowsJoin(line, out, Open(LineRanges(masks, pending, line)), Concat(rest), Concat(outs),
                Visible(masks, next, rest));
      FirstOutput(masks, shorts, pending, lines);
      VisibleJoined(masks, pending, lines);
      ShowsMore(Concat(lines), Concat(Outputs(masks, shorts, pending, lines)),
                Joined(Open(LineRanges(masks, pending, line)), |line|, Visible(masks, next, rest)),
                Visible(masks, pending, lines));
    }
  }

  lemma FirstOutput(masks: seq<string>, shorts: seq<(string, string)>, pending: seq<Pending>, lines: seq<string>)
    requires lines != []
    ensures Concat(lines) == lines[0] + Concat(lines[1..])
    ensures Concat(Outputs(masks, shorts, pending, lines))
         == Redacted(masks, shorts, pending, lines[0])
            + Concat(Outputs(masks, shorts, NextPending(masks, pending, lines[0]), lines[1..]))
  {
    var outs := Outputs(masks, shorts, NextPending(masks, pending, lines[0]), lines[1..]);
    assert Outputs(masks, shorts, pending, lines)[1..] == outs;
  }

  lemma VisibleJoined(masks: seq<string>, pending: seq<Pending>, lines: seq<string>)
    requires lines != []
    ensures var next := NextPending(masks, pending, lines[0]);
            var here := Open(LineRanges(masks, pending, lines[0]));
            forall k ::
              Joined(here, |lines[0]|, Visible(masks, next, lines[1..]))(k) ==> Visible(masks, pending, lines)(k)
  {
  }

  // When a value is seen, a line slipped.

  /**
   `line` ends with the first `c` bytes of `secret`, shows them, and what it remembers does not lead
   to redacting how `secret` goes on.
   */
  ghost predicate Slips(masks: seq<string>, line: string, secret: string, c: nat) {
    && 0 < c < |secret| && EndsWith(line, secret[..c])
    && (forall k :: |line| - c <= k < |line| ==> !Covered(LineRanges(masks, [], line), k))
    && BestTail(masks, line).Some?
    && var tail := BestTail(masks, line).value;
       tail.len < |tail.secret| && !(tail.secret[tail.len..] <= secret[c..])
  }

  lemma MatchesFrom(masks: seq<string>, line: string, secret: string, at: nat) returns (r: Range)
    requires secret in masks && secret != "" && OccursAt(secret, line, at)
    ensures r in Matches(masks, line) && r.start <= at < r.End()
  {
    var last := masks[|masks| - 1];
    if secret == last {
      var p := EveryOccurrenceMeetsAMatch(line, secret, 0, at);
      var k :| 0 <= k < |MatchIndices(line, secret, 0)| && MatchIndices(line, secret, 0)[k] == p;
      r := AsRanges(MatchIndices(line, secret, 0), |secret|)[k];
    } else {
      r := MatchesFrom(masks[..|masks| - 1], line, secret, at);
    }
  }

  lemma {:induction false} ContinuationFrom(pending: seq<Pending>, line: string, p: Pending) returns (r: Range)
    requires p in pending && ContinueOne(p, line).range.Some?
    ensures r in Continuations(pending, line) && r == ContinueOne(p, line).range.value
  {
    var last := pending[|pending| - 1];
    if p == last {
      r := ContinueOne(p, line).range.value;
    } else {
      r := ContinuationFrom(pending[..|pending| - 1], line, p);
    }
  }

  lemma {:induction false} KeptStays(pending: seq<Pending>, line: string, p: Pending)
    requires p in pending && ContinueOne(p, line).kept.Some?
    ensures ContinueOne(p, line).kept.value in KeptAfter(pending, line)
  {
    var last := pending[|pending| - 1];
    if p != last {
      KeptStays(pending[..|pending| - 1], line, p);
    }
  }

  lemma ContinueOneGoesOn(p: Pending, line: string, after: string)
    requires p.consumed < |p.secret| && line != "" && p.secret[p.consumed..] <= line + after
    ensures var n := |p.secret| - p.consumed;
            && ContinueOne(p, line).range == Some(Range(0, if |line| < n then |line| else n))
            && ContinueOne(p, line).kept == (if |line| < n then Some(Pending(p.secret, p.consumed + |line|)) else None)
            && (|line| < n ==> p.secret[p.consumed + |line|..] <= after)
  {
    var rest := p.secret[p.consumed..];
    if |line| < |rest| {
      assert line == (line + after)[..|line|] == rest[..|line|];
      assert rest[|line|..] == (line + after)[|line|..][..|rest| - |line|];
      assert (line + after)[|line|..] == after;
      assert p.secret[p.consumed + |line|..] == rest[|line|..];
    } else {
      assert rest == (line + after)[..|rest|] == line[..|rest|];
    }
  }

  /** One line of a continuation: its bytes are redacted, and what is still to come stays remembered. */
  lemma ContinuedOnLine(masks: seq<string>, pending: seq<Pending>, line: string, p: Pending, after: string)
    requires p in pending && p.consumed < |p.secret| && line != "" && p.secret[p.consumed..] <= line + after
    ensures forall k :: 0 <= k < |line| && k < |p.secret| - p.consumed ==> Covered(LineRanges(masks, pending, line), k)
    ensures p.consumed + |line| < |p.secret| ==>
              var next := Pending(p.secret, p.consumed + |line|);
              next in NextPending(masks, pending, line) && p.secret[next.consumed..] <= after
  {
    ContinueOneGoesOn(p, line, after);
    var r := ContinuationFrom(pending, line, p);
    assert r in LineRanges(masks, pending, line);
    if p.consumed + |line| < |p.secret| {
      KeptStays(pending, line, p);
    }
  }

  /**
   A remembered value that goes on has every byte of its continuation redacted, over as many lines as it
   takes, empty ones among them.
   */
  lemma {:induction false} RememberedIsHidden(masks: seq<string>, pending: seq<Pending>, lines: seq<string>,
                                              p: Pending, k: nat)
    requires p in pending && p.consumed < |p.secret| && p.secret[p.consumed..] <= Concat(lines)
    requires k < |p.secret| - p.consumed
    ensures Hidden(masks, pending, lines, k)
    decreases |lines|
  {
    var line := lines[0];
    if line == "" {
      RememberedIsHidden(masks, pending, lines[1..], p, k);
    } else {
      ContinuedOnLine(masks, pending, line, p, Concat(lines[1..]));
      if |line| <= k {
        var next := Pending(p.secret, p.consumed + |line|);
        RememberedIsHidden(masks, NextPending(masks, pending, line), lines[1..], next, k - |line|);
      }
    }
  }

  /** A split value whose beginning is the tail a line is remembered for is redacted from there on. */
  lemma TailIsHidden(masks: seq<string>, pending: seq<Pending>, lines: seq<string>, tail: Tail, k: nat)
    requires lines != [] && lines[0] != "" && BestTail(masks, lines[0]) == Some(tail)
    requires tail.len < |tail.secret| && tail.secret[tail.len..] <= Concat(lines[1..]) && k < |tail.secret| - tail.len
    ensures Hidden(masks, pending, lines, |lines[0]| + k)
  {
    BestTailHolds(masks, lines[0]);
    var p := Pending(tail.secret, tail.len);
    assert p in TailPending(BestTail(masks, lines[0]));
    RememberedIsHidden(masks, NextPending(masks, pending, lines[0]), lines[1..], p, k);
  }

  /** With a first fragment of four bytes or more, every byte of it is redacted, the fragment included. */
  lemma SplitValueIsHidden(masks: seq<string>, pending: seq<Pending>, lines: seq<string>, tail: Tail, k: int)
    requires lines != [] && lines[0] != "" && BestTail(masks, lines[0]) == Some(tail) && MIN_PREFIX_REDACT <= tail.len
    requires tail.len < |tail.secret| && tail.secret[tail.len..] <= Concat(lines[1..])
    requires |lines[0]| - tail.len <= k < |lines[0]| - tail.len + |tail.secret|
    ensures Hidden(masks, pending, lines, k)
  {
    var line := lines[0];
    BestTailHolds(masks, line);
    if k < |line| {
      var r := Range(|line| - tail.len, tail.len);
      assert r in LineRanges(masks, pending, line);
    } else {
      TailIsHidden(masks, pending, lines, tail, k - |line|);
    }
  }

  lemma CoveredMore(masks: seq<string>, pending: seq<Pending>, line: string, k: int)
    requires Covered(LineRanges(masks, [], line), k)
    ensures Covered(LineRanges(masks, pending, line), k)
  {
    var r :| r in LineRanges(masks, [], line) && r.start <= k < r.End();
    assert r in LineRanges(masks, pending, line);
  }

  /** An occurrence that starts at the end of a line and is not hidden there, nor where it goes on. */
  lemma AcrossLines(masks: seq<string>, pending: seq<Pending>, lines: seq<string>, secret: string, at: nat)
    requires lines != [] && secret in masks && OccursAt(secret, Concat(lines), at)
    requires at < |lines[0]| < at + |secret|
    requires forall k :: at <= k < at + |secret| ==> !Hidden(masks, pending, lines, k)
    ensures Slips(masks, lines[0], secret, |lines[0]| - at)
  {
    var line, rest := lines[0], lines[1..];
    var c := |line| - at;
    assert line[at..] == secret[..c];
    forall k | |line| - c <= k < |line| ensures !Covered(LineRanges(masks, [], line), k) {
      assert !Hidden(masks, pending, lines, k);
      if Covered(LineRanges(masks, [], line), k) {
        CoveredMore(masks, pending, line, k);
      }
    }
    BestTailHolds(masks, line);
    assert TailMatch(secret, line, c);
    var tail := BestTail(masks, line).value;
    if tail.secret[tail.len..] <= secret[c..] {
      assert secret[c..] == Concat(rest)[..|secret| - c];
      TailIsHidden(masks, pending, lines, tail, 0);
    }
  }

  /** If no line slips, every occurrence of a value in the stream has a hidden byte. */
  lemma {:induction false} OccurrenceHidden(masks: seq<string>, pending: seq<Pending>, lines: seq<string>,
                                            secret: string, at: nat)
    returns (k: int)
    requires secret in masks && secret != "" && OccursAt(secret, Concat(lines), at)
    requires forall line, c: nat :: line in lines ==> !Slips(masks, line, secret, c)
    ensures at <= k < at + |secret| && Hidden(masks, pending, lines, k)
    decreases |lines|
  {
    var line, rest := lines[0], lines[1..];
    if at + |secret| <= |line| {
      var r := MatchesFrom(masks, line, secret, at);
      assert r in LineRanges(masks, pending, line);
      k := at;
    } else if |line| <= at {
      k := OccurrenceHidden(masks, NextPending(masks, pending, line), rest, secret, at - |line|);
      k := |line| + k;
    } else if forall j :: at <= j < at + |secret| ==> !Hidden(masks, pending, lines, j) {
      AcrossLines(masks, pending, lines, secret, at);
      assert false;
    } else {
      k :| at <= k < at + |secret| && Hidden(masks, pending, lines, k);
    }
  }

  ghost predicate Leaks(masks: seq<string>, shorts: seq<(string, string)>, lines: seq<string>, secret: string) {
    Occurs(secret, Concat(Outputs(masks, shorts, [], lines)))
  }

  /** A star-free value that can be read in the outputs slipped through on some line. */
  lemma LeakSlips(masks: seq<string>, shorts: seq<(string, string)>, lines: seq<string>, secret: string)
    returns (line: string, c: nat)
    requires secret in masks && secret != "" && StarFree(secret)
    requires Leaks(masks, shorts, lines, secret)
    ensures line in lines && Slips(masks, line, secret, c)
  {
    if forall l, n: nat :: l in lines ==> !Slips(masks, l, secret, n) {
      var q := ShownInStream(masks, shorts, lines, secret);
      var k := OccurrenceHidden(masks, [], lines, secret, q);
    }
    line, c :| line in lines && Slips(masks, line, secret, c);
  }

  /** How many bytes follow `at` on the line it is on. */
  function FirstFragment(lines: seq<string>, at: nat): nat {
    if lines == [] then 0
    else if at < |lines[0]| then |lines[0]| - at
    else FirstFragment(lines[1..], at - |lines[0]|)
  }

  /** A value that stands on one line, or whose first fragment has four bytes, has a redacted byte. */
  lemma {:induction false} LongSplitHidden(masks: seq<string>, pending: seq<Pending>, lines: seq<string>,
                                           secret: string, at: nat)
    returns (k: int)
    requires secret in masks && secret != "" && OccursAt(secret, Concat(lines), at)
    requires |secret| <= FirstFragment(lines, at) || MIN_PREFIX_REDACT <= FirstFragment(lines, at)
    ensures at <= k < at + |secret| && Hidden(masks, pending, lines, k)
    decreases |lines|
  {
    var line := lines[0];
    if at + |secret| <= |line| {
      var r := MatchesFrom(masks, line, secret, at);
      assert r in LineRanges(masks, pending, line);
      k := at;
    } else if |line| <= at {
      k := LongSplitHidden(masks, NextPending(masks, pending, line), lines[1..], secret, at - |line|);
      k := |line| + k;
    } else {
      if forall j :: at <= j < at + |secret| ==> !Hidden(masks, pending, lines, j) {
        AcrossLines(masks, pending, lines, secret, at);
        SlipIsShort(masks, line, secret, |line| - at);
        assert false;
      }
      k :| at <= k < at + |secret| && Hidden(masks, pending, lines, k);
    }
  }

  /**
   With no proviso on the values: a star-free value that the stream never splits within its first three
   bytes is not in the outputs.
   */
  lemma LongSplitsNeverShow(masks: seq<string>, shorts: seq<(string, string)>, lines: seq<string>, secret: string)
    requires secret in masks && secret != "" && StarFree(secret)
    requires forall at: nat :: OccursAt(secret, Concat(lines), at) ==>
               |secret| <= FirstFragment(lines, at) || 4 <= FirstFragment(lines, at)
    ensures !Leaks(masks, shorts, lines, secret)
  {
    if Leaks(masks, shorts, lines, secret) {
      var q := ShownInStream(masks, shorts, lines, secret);
      var k := LongSplitHidden(masks, [], lines, secret, q);
    }
  }

  /** A star-free value in the outputs was in the stream, with no byte of it redacted. */
  lemma ShownInStream(masks: seq<string>, shorts: seq<(string, string)>, lines: seq<string>, secret: string)
    returns (q: nat)
    requires secret != "" && StarFree(secret) && Leaks(masks, shorts, lines, secret)
    ensures OccursAt(secret, Concat(lines), q)
    ensures forall k :: q <= k < q + |secret| ==> !Hidden(masks, [], lines, k)
  {
    OutputsShow(masks, shorts, [], lines);
    var outs := Concat(Outputs(masks, shorts, [], lines));
    var p :| OccursAt(secret, outs, p);
    assert Seen(secret, outs, p);
    q :| ShownFrom(Concat(lines), outs, Visible(masks, [], lines), secret, p, q);
    assert forall j :: Visible(masks, [], lines)(j) == !Hidden(masks, [], lines, j);
  }

  // When a line slips, a value can be seen.

  /** No other value is inside `secret`. */
  ghost predicate Minimal(masks: seq<string>, secret: string) {
    forall m :: m in masks && m != secret ==> !Occurs(m, secret)
  }

  lemma {:induction false} MatchesNone(masks: seq<string>, line: string)
    requires forall m :: m in masks && m != "" ==> !Occurs(m, line)
    ensures Matches(masks, line) == []
  {
    if masks != [] {
      var last := masks[|masks| - 1];
      MatchesNone(masks[..|masks| - 1], line);
      if last != "" {
        assert last in masks;
        FindsFirst(line, last, 0);
      }
    }
  }

  lemma {:induction false} SpliceEnding(line: string, ranges: seq<Range>, i: nat, j: nat) returns (head: string)
    requires i <= j <= |line|
    ensures Splice(line, ranges, i) == head + Splice(line, ranges, j)
    decreases j - i
  {
    if i == j {
      head := "";
    } else {
      var rest := SpliceEnding(line, ranges, i + 1, j);
      var first := if !Covered(ranges, i) then [line[i]] else if 0 < i && Covered(ranges, i - 1) then "" else MASK;
      head := first + rest;
      Assoc(first, rest, Splice(line, ranges, j));
    }
  }

  lemma OccursInRest(m: string, secret: string, c: nat, other: char, at: int)
    requires c <= |secret| && OccursAt(m, secret[c..] + [other], at) && at + |m| <= |secret| - c
    ensures Occurs(m, secret)
  {
    assert OccursAt(m, secret, c + at);
  }

  lemma TailMatchLast(secret: string, line: string, len: nat)
    requires TailMatch(secret, line, len)
    ensures line != "" && line[|line| - 1] in secret
  {
    assert line[|line| - len..][len - 1] == secret[..len][len - 1] == secret[len - 1];
  }

  /** After a slip, the rest of the value followed by a byte of no value passes untouched. */
  lemma RestPasses(masks: seq<string>, tail: Tail, secret: string, c: nat, other: char)
    requires secret in masks && Minimal(masks, secret) && 0 < c < |secret|
    requires tail.secret in masks && tail.len < |tail.secret| && !(tail.secret[tail.len..] <= secret[c..])
    requires forall m :: m in masks ==> other !in m
    ensures forall k :: !Covered(LineRanges(masks, [Pending(tail.secret, tail.len)], secret[c..] + [other]), k)
  {
    var line := secret[c..] + [other];
    var p := Pending(tail.secret, tail.len);
    assert line[|line| - 1] == other;
    forall m | m in masks && m != "" ensures !Occurs(m, line) {
      assert m[|m| - 1] in m;
      forall at ensures !OccursAt(m, line, at) {
        if OccursAt(m, line, at) && at + |m| < |line| {
          OccursInRest(m, secret, c, other, at);
        }
      }
    }
    MatchesNone(masks, line);
    BestTailHolds(masks, line);
    var best := BestTail(masks, line);
    if best.Some? {
      TailMatchLast(best.value.secret, line, best.value.len);
    }
    assert best.None?;
    var rest := tail.secret[tail.len..];
    assert forall k :: 0 <= k < |rest| ==> rest[k] in tail.secret;
    assert |line| <= |rest| ==> rest[|line| - 1] != other;
    assert !(line <= rest);
    assert |rest| < |line| ==> line[..|rest|] == secret[c..][..|rest|];
    assert !(rest <= line);
    assert ContinueOne(p, line).range.None?;
    assert Continuations([p][..0], line) == [];
    assert Continuations([p], line) == [];
    assert LineRanges(masks, [p], line) == [];
  }

  /** A line that slips, followed by the rest of the value, puts the value in the outputs. */
  lemma SlipLeaks(masks: seq<string>, line: string, secret: string, c: nat, other: char)
    requires secret in masks && Minimal(masks, secret) && Slips(masks, line, secret, c)
    requires forall m :: m in masks ==> other !in m
    ensures Leaks(masks, [], [line, secret[c..] + [other]], secret)
  {
    var second := secret[c..] + [other];
    var first := SlipShown(masks, line, secret, c);
    SecondShown(masks, line, secret, c, other);
    OutputsOfTwo(masks, [], line, second);
    var outs := Outputs(masks, [], [], [line, second]);
    ConcatOfTwo(first + secret[..c], second);
    assert Concat(outs) == first + secret[..c] + second;
    OccursSplit(first, secret, c, other);
  }

  lemma OccursSplit(first: string, secret: string, c: nat, other: char)
    requires c <= |secret|
    ensures OccursAt(secret, first + secret[..c] + (secret[c..] + [other]), |first|)
  {
  }

  lemma OutputsOfTwo(masks: seq<string>, shorts: seq<(string, string)>, a: string, b: string)
    ensures Outputs(masks, shorts, [], [a, b])
         == [Redacted(masks, shorts, [], a), Redacted(masks, shorts, NextPending(masks, [], a), b)]
  {
    StreamStep(masks, shorts, [], [a, b], 0);
    StreamStep(masks, shorts, NextPending(masks, [], a), [a, b], 1);
    assert [a, b][0..] == [a, b] && [a, b][2..] == [];
  }

  lemma ConcatOfTwo(a: string, b: string)
    ensures Concat([a, b]) == a + b
  {
    assert [a, b][1..] == [b] && [b][1..] == [];
    assert Concat([b]) == b + "" == b;
  }

  /** The slipping line ends with the beginning of the value. */
  lemma SlipShown(masks: seq<string>, line: string, secret: string, c: nat) returns (first: string)
    requires Slips(masks, line, secret, c)
    ensures Redacted(masks, [], [], line) == first + secret[..c]
  {
    var ranges := LineRanges(masks, [], line);
    first := SpliceEnding(line, ranges, 0, |line| - c);
    SpliceGap(line, ranges, |line| - c, |line|);
    assert line[|line| - c..|line|] == secret[..c];
  }

  /** The next line shows the rest of it. */
  lemma SecondShown(masks: seq<string>, line: string, secret: string, c: nat, other: char)
    requires secret in masks && Minimal(masks, secret) && Slips(masks, line, secret, c)
    requires forall m :: m in masks ==> other !in m
    ensures var second := secret[c..] + [other];
            Redacted(masks, [], NextPending(masks, [], line), second) == second
  {
    var tail := BestTail(masks, line).value;
    var second := secret[c..] + [other];
    BestTailHolds(masks, line);
    assert NextPending(masks, [], line) == [Pending(tail.secret, tail.len)];
    RestPasses(masks, tail, secret, c, other);
    SpliceNothing(second, LineRanges(masks, [Pending(tail.secret, tail.len)], second));
  }

  /** Every value has a minimal value inside it. */
  lemma {:induction false} MinimalInside(masks: seq<string>, secret: string) returns (least: string)
    requires secret in masks && "" !in masks
    ensures least in masks && Minimal(masks, least) && Occurs(least, secret)
    decreases |secret|
  {
    if Minimal(masks, secret) {
      least := secret;
      assert OccursAt(secret, secret, 0);
    } else {
      var m :| m in masks && m != secret && Occurs(m, secret);
      var at :| OccursAt(m, secret, at);
      SameLength(m, secret, at);
      least := MinimalInside(masks, m);
      OccursWithin(least, m, secret);
    }
  }

  lemma SameLength(a: string, b: string, at: int)
    requires OccursAt(a, b, at)
    ensures |a| == |b| ==> a == b
  {
  }

  lemma OccursWithin(a: string, b: string, c: string)
    requires Occurs(a, b) && Occurs(b, c)
    ensures Occurs(a, c)
    ensures StarFree(b) ==> StarFree(a)
  {
    var i :| OccursAt(a, b, i);
    var j :| OccursAt(b, c, j);
    assert OccursAt(a, c, j + i);
    forall x | x in a ensures x in b {
      var k :| 0 <= k < |a| && a[k] == x;
      assert b[i + k] == x;
    }
  }

  /** The outputs never show a star-free value, whatever the stream and the short values. */
  ghost predicate Safe(masks: seq<string>) {
    forall shorts, lines, secret :: secret in masks && StarFree(secret) ==> !Leaks(masks, shorts, lines, secret)
  }

  ghost predicate SomeSlip(masks: seq<string>) {
    exists line, secret, c: nat ::
      secret in masks && StarFree(secret) && Minimal(masks, secret) && Slips(masks, line, secret, c)
  }

  /**
   Exactly when the masker keeps its promise: as long as no line slips. `other` is a byte that is in
   no value (a value of the environment holds no NUL).
   */
  lemma LeakIffSlip(masks: seq<string>, other: char)
    requires "" !in masks && forall m :: m in masks ==> other !in m
    ensures Safe(masks) <==> !SomeSlip(masks)
  {
    if SomeSlip(masks) {
      var line, secret, c: nat :|
        secret in masks && StarFree(secret) && Minimal(masks, secret) && Slips(masks, line, secret, c);
      SlipLeaks(masks, line, secret, c, other);
    }
    forall shorts, lines, secret | secret in masks && StarFree(secret) && Leaks(masks, shorts, lines, secret)
      ensures SomeSlip(masks)
    {
      var least := MinimalInside(masks, secret);
      OccursWithin(least, secret, Concat(Outputs(masks, shorts, [], lines)));
      var line, c := LeakSlips(masks, shorts, lines, least);
    }
  }

  // The same condition, read off the values.

  /**
   A short prefix of `tail`'s value ends with a prefix of `secret`, is the tail the masker
   remembers for it, and goes on differently.
   */
  predicate Clashes(masks: seq<string>, secret: string, c: nat, tail: string, d: nat) {
    && 0 < c < |secret| && c <= d < |tail| && d < MIN_PREFIX_REDACT
    && EndsWith(tail[..d], secret[..c])
    && BestTail(masks, tail[..d]) == Some(Tail(d, tail))
    && !(tail[d..] <= secret[c..])
  }

  ghost predicate SomeClash(masks: seq<string>) {
    exists secret, c: nat, tail, d: nat ::
      && secret in masks && StarFree(secret) && Minimal(masks, secret)
      && tail in masks && Clashes(masks, secret, c, tail, d)
  }

  lemma EndsInside(line: string, a: string, b: string)
    requires EndsWith(line, a) && |b| <= |a|
    ensures EndsWith(line, b) <==> EndsWith(a, b)
  {
    assert line[|line| - |b|..] == a[|a| - |b|..];
  }

  lemma SameLongest(secret: string, line: string, end: string, max: nat)
    requires EndsWith(line, end)
    requires forall l: nat :: TailMatch(secret, line, l) ==> l <= |end|
    ensures LongestTail(secret, line, max) == LongestTail(secret, end, max)
  {
    forall l: nat ensures TailMatch(secret, line, l) <==> TailMatch(secret, end, l) {
      if 0 < l < |secret| && l <= |end| {
        EndsInside(line, end, secret[..l]);
      }
    }
    var a, b := LongestTail(secret, line, max), LongestTail(secret, end, max);
    assert 0 < a ==> TailMatch(secret, line, a);
    assert 0 < b ==> TailMatch(secret, end, b);
  }

  lemma {:induction false} SameBest(masks: seq<string>, line: string, end: string)
    requires EndsWith(line, end)
    requires forall m, l: nat :: m in masks && TailMatch(m, line, l) ==> l <= |end|
    ensures BestTail(masks, line) == BestTail(masks, end)
  {
    if masks != [] {
      var last := masks[|masks| - 1];
      assert last in masks;
      SameBest(masks[..|masks| - 1], line, end);
      SameLongest(last, line, end, |last|);
    }
  }

  /** A slip is always a short fragment: four bytes or more are redacted where they stand. */
  lemma SlipIsShort(masks: seq<string>, line: string, secret: string, c: nat)
    requires secret in masks && Slips(masks, line, secret, c)
    ensures c <= BestTail(masks, line).value.len <= 3
  {
    BestTailHolds(masks, line);
    assert TailMatch(secret, line, c);
    var tail := BestTail(masks, line).value;
    if MIN_PREFIX_REDACT <= tail.len {
      var r := Range(|line| - tail.len, tail.len);
      assert r in LineRanges(masks, [], line);
      assert Covered(LineRanges(masks, [], line), |line| - 1);
    }
  }

  lemma SlipClashes(masks: seq<string>, line: string, secret: string, c: nat)
    requires secret in masks && Slips(masks, line, secret, c)
    ensures var tail := BestTail(masks, line).value;
            tail.secret in masks && Clashes(masks, secret, c, tail.secret, tail.len)
  {
    BestTailHolds(masks, line);
    SlipIsShort(masks, line, secret, c);
    var tail := BestTail(masks, line).value;
    EndsInside(line, tail.secret[..tail.len], secret[..c]);
    SameBest(masks, line, tail.secret[..tail.len]);
  }

  /** A clash whose fragment no other value covers: the fragment is then a line that slips. */
  ghost predicate ClashesOpenly(masks: seq<string>, secret: string, c: nat, tail: string, d: nat) {
    Clashes(masks, secret, c, tail, d) && forall k :: d - c <= k < d ==> !Covered(Matches(masks, tail[..d]), k)
  }

  ghost predicate SomeOpenClash(masks: seq<string>) {
    exists secret, c: nat, tail, d: nat ::
      && secret in masks && StarFree(secret) && Minimal(masks, secret)
      && tail in masks && ClashesOpenly(masks, secret, c, tail, d)
  }

  lemma ClashSlips(masks: seq<string>, secret: string, c: nat, tail: string, d: nat)
    requires secret in masks && tail in masks && ClashesOpenly(masks, secret, c, tail, d)
    ensures Slips(masks, tail[..d], secret, c)
  {
    assert LineRanges(masks, [], tail[..d]) == Matches(masks, tail[..d]);
  }

  lemma {:induction false} ChosenIsMatch(masks: seq<string>, line: string, m: string, at: nat)
    requires m in masks && m != "" && at in MatchIndices(line, m, 0)
    ensures Range(at, |m|) in Matches(masks, line)
  {
    var last := masks[|masks| - 1];
    if m == last {
      var k :| 0 <= k < |MatchIndices(line, m, 0)| && MatchIndices(line, m, 0)[k] == at;
      assert AsRanges(MatchIndices(line, m, 0), |m|)[k] == Range(at, |m|);
    } else {
      ChosenIsMatch(masks[..|masks| - 1], line, m, at);
    }
  }

  /** What covers a byte of the fragment covers it in the whole line, unless it overlaps itself. */
  lemma CoveredInLine(masks: seq<string>, line: string, end: string, k: nat)
    requires EndsWith(line, end) && k < |end| && Covered(Matches(masks, end), k)
    requires forall m :: m in masks && |m| <= |end| ==> !Overlaps(m)
    ensures Covered(Matches(masks, line), |line| - |end| + k)
  {
    var r :| r in Matches(masks, end) && r.start <= k < r.End();
    var m := MatchOf(masks, end, r);
    var at := |line| - |end| + r.start;
    assert OccursAt(m, line, at);
    ChosenUnlessOverlapping(m, line, at);
    ChosenIsMatch(masks, line, m, at);
  }

  lemma SlipClashesOpenly(masks: seq<string>, line: string, secret: string, c: nat)
    requires secret in masks && Slips(masks, line, secret, c)
    requires forall m :: m in masks && |m| < MIN_PREFIX_REDACT ==> !Overlaps(m)
    ensures var tail := BestTail(masks, line).value;
            tail.secret in masks && ClashesOpenly(masks, secret, c, tail.secret, tail.len)
  {
    SlipClashes(masks, line, secret, c);
    SlipIsShort(masks, line, secret, c);
    BestTailHolds(masks, line);
    var tail := BestTail(masks, line).value;
    var end := tail.secret[..tail.len];
    forall k | tail.len - c <= k < tail.len ensures !Covered(Matches(masks, end), k) {
      if Covered(Matches(masks, end), k) {
        CoveredFromEnd(masks, line, end, k);
      }
    }
  }

  lemma CoveredFromEnd(masks: seq<string>, line: string, end: string, k: nat)
    requires EndsWith(line, end) && k < |end| && |end| < MIN_PREFIX_REDACT
    requires forall m :: m in masks && |m| < MIN_PREFIX_REDACT ==> !Overlaps(m)
    requires Covered(Matches(masks, end), k)
    ensures Covered(LineRanges(masks, [], line), |line| - |end| + k)
  {
    CoveredInLine(masks, line, end, k);
    var r :| r in Matches(masks, line) && r.start <= |line| - |end| + k < r.End();
    assert r in LineRanges(masks, [], line);
  }

  /**
   When no value of at most three bytes overlaps itself (by default values have six or more), some line
   slips exactly when two prefixes of at most three bytes clash, which a caller can check before the run.
   */
  lemma SlipIffClash(masks: seq<string>)
    requires forall m :: m in masks && |m| < MIN_PREFIX_REDACT ==> !Overlaps(m)
    ensures SomeSlip(masks) <==> SomeOpenClash(masks)
  {
    if SomeSlip(masks) {
      var line, secret, c: nat :|
        secret in masks && StarFree(secret) && Minimal(masks, secret) && Slips(masks, line, secret, c);
      SlipClashesOpenly(masks, line, secret, c);
    }
    if SomeOpenClash(masks) {
      var secret, c: nat, tail, d: nat :|
        && secret in masks && StarFree(secret) && Minimal(masks, secret)
        && tail in masks && ClashesOpenly(masks, secret, c, tail, d);
      ClashSlips(masks, secret, c, tail, d);
    }
  }

  /** Among values of at least four bytes every clash is open. */
  lemma LongValuesClashOpenly(masks: seq<string>, secret: string, c: nat, tail: string, d: nat)
    requires forall m :: m in masks ==> MIN_PREFIX_REDACT <= |m|
    requires Clashes(masks, secret, c, tail, d)
    ensures ClashesOpenly(masks, secret, c, tail, d)
  {
    MatchesNone(masks, tail[..d]);
  }

  /** The whole-stream guarantee, for values of any length, from the values alone. */
  lemma NoClashIsSafe(masks: seq<string>)
    requires "" !in masks && !SomeClash(masks)
    ensures Safe(masks)
  {
    forall shorts, lines, secret | secret in masks && StarFree(secret) && Leaks(masks, shorts, lines, secret)
      ensures false
    {
      var least := MinimalInside(masks, secret);
      OccursWithin(least, secret, Concat(Outputs(masks, shorts, [], lines)));
      var line, c := LeakSlips(masks, shorts, lines, least);
      SlipClashes(masks, line, least, c);
    }
  }

  /**
   The failure in its simplest form, for any two values that begin alike: a line that ends with their
   first byte is remembered for `a` alone, so `b` passes in two pieces.
   */
  lemma SharedFirstByteLeaks(a: string, b: string, other: char)
    requires MIN_PREFIX_REDACT <= |a| && MIN_PREFIX_REDACT <= |b| && a[0] == b[0] && !Occurs(a, b)
    requires other !in a && other !in b
    ensures Leaks([a, b], [], [a[..1], b[1..] + [other]], b)
  {
    var masks := [a, b];
    SharedFirstByteClash(a, b);
    LongValuesClashOpenly(masks, b, 1, a, 1);
    ClashSlips(masks, b, 1, a, 1);
    SlipLeaks(masks, a[..1], b, 1, other);
  }

  lemma SharedFirstByteClash(a: string, b: string)
    requires MIN_PREFIX_REDACT <= |a| && MIN_PREFIX_REDACT <= |b| && a[0] == b[0] && !Occurs(a, b)
    ensures Clashes([a, b], b, 1, a, 1)
  {
    var masks := [a, b];
    var first := a[..1];
    assert masks[..1] == [a] && [a][..0] == [];
    assert EndsWith(first, b[..1]);
    TailIsLongest(a, first, 1, |a|);
    assert BestTail([], first) == None;
    assert BestTail([a], first) == Some(Tail(1, a));
    if a[1..] <= b[1..] {
      PrefixOccurs(a, b);
    }
  }

  lemma PrefixOccurs(a: string, b: string)
    requires a != "" && b != "" && a[0] == b[0] && a[1..] <= b[1..]
    ensures Occurs(a, b)
  {
    assert forall k :: 1 <= k < |a| ==> a[k] == a[1..][k - 1] == b[1..][k - 1] == b[k];
    assert OccursAt(a, b, 0);
  }

  // The history behind the pending values, and what it means for over-redaction.

  // A value that overlaps itself.

  /**
   The line `v[..k] + v` holds `v` twice, `k` apart. With `k` the shortest such distance, the first copy is
   redacted; of the last `k` bytes of the second, only those in the tail fragment are, and that only when
   the fragment has four bytes.
   */
  lemma OverlapShows(v: string, k: nat)
    requires OverlapsAt(v, k) && forall j: nat :: OverlapsAt(v, j) ==> k <= j
    ensures var line := v[..k] + v;
            forall i :: Covered(LineRanges([v], [], line), i)
                        <==> 0 <= i < |v| || (MIN_PREFIX_REDACT <= |v| - k && 2 * k <= i < |v| + k)
  {
    var line := v[..k] + v;
    var ranges := LineRanges([v], [], line);
    OverlapRanges(v, k, line);
    assert |ranges| > 0 && ranges[0] == Range(0, |v|);
    if MIN_PREFIX_REDACT <= |v| - k {
      assert |ranges| == 2 && ranges[1] == Range(2 * k, |v| - k);
    }
  }

  lemma OverlapRanges(v: string, k: nat, line: string)
    requires OverlapsAt(v, k) && (forall j: nat :: OverlapsAt(v, j) ==> k <= j) && line == v[..k] + v
    ensures LineRanges([v], [], line) == [Range(0, |v|)] + TailRange(Some(Tail(|v| - k, v)), line)
  {
    OverlapMatch(v, k);
    OverlapTail(v, k);
    OneTail(v, line, |v| - k);
    FreshLine([v], line, [Range(0, |v|)], Some(Tail(|v| - k, v)));
  }

  lemma OverlapMatch(v: string, k: nat)
    requires OverlapsAt(v, k)
    ensures Matches([v], v[..k] + v) == [Range(0, |v|)]
  {
    OverlapWitness(v, k);
    OneMatch(v, v[..k] + v);
  }

  /** The ranges of a line with nothing pending. */
  lemma FreshLine(masks: seq<string>, line: string, inside: seq<Range>, tail: Option<Tail>)
    requires Matches(masks, line) == inside && BestTail(masks, line) == tail
    ensures LineRanges(masks, [], line) == inside + TailRange(tail, line)
  {
  }

  lemma OneTail(v: string, line: string, l: nat)
    requires 0 < l && LongestTail(v, line, |v|) == l
    ensures BestTail([v], line) == Some(Tail(l, v))
  {
    assert [v][..0] == [] && BestTail([], line) == None;
  }

  lemma OneMatch(v: string, line: string)
    requires v != "" && MatchIndices(line, v, 0) == [0]
    ensures Matches([v], line) == [Range(0, |v|)]
  {
    assert [v][..0] == [] && Matches([], line) == [];
    assert AsRanges([0], |v|) == [Range(0, |v|)];
  }

  lemma OverlapTail(v: string, k: nat)
    requires OverlapsAt(v, k) && forall j: nat :: OverlapsAt(v, j) ==> k <= j
    ensures LongestTail(v, v[..k] + v, |v|) == |v| - k
  {
    var line := v[..k] + v;
    assert line[|line| - (|v| - k)..] == v[k..];
    assert TailMatch(v, line, |v| - k);
    var l := LongestTail(v, line, |v|);
    TailIsOverlap(v, k, l);
  }

  lemma TailIsOverlap(v: string, k: nat, l: nat)
    requires k < |v| && TailMatch(v, v[..k] + v, l)
    ensures OverlapsAt(v, |v| - l)
  {
    var line := v[..k] + v;
    assert line[|line| - l..] == v[|v| - l..];
  }

  /** Every pending value is one of the masks, properly begun, and its beginning ends the text fed so far. */
  ghost predicate History(masks: seq<string>, fed: string, pending: seq<Pending>) {
    forall p :: p in pending ==>
      p.secret in masks && 0 < p.consumed < |p.secret| && EndsWith(fed, p.secret[..p.consumed])
  }

  lemma {:induction false} KeptFrom(pending: seq<Pending>, line: string, p: Pending) returns (from: Pending)
    requires p in KeptAfter(pending, line)
    ensures from in pending && ContinueOne(from, line).kept == Some(p)
  {
    var last := pending[|pending| - 1];
    if ContinueOne(last, line).kept == Some(p) {
      from := last;
    } else {
      from := KeptFrom(pending[..|pending| - 1], line, p);
    }
  }

  lemma HistoryStep(masks: seq<string>, fed: string, pending: seq<Pending>, line: string)
    requires History(masks, fed, pending)
    ensures History(masks, fed + line, NextPending(masks, pending, line))
  {
    if line == "" {
      assert fed + line == fed;
      return;
    }
    BestTailHolds(masks, line);
    forall p | p in NextPending(masks, pending, line)
      ensures p.secret in masks && 0 < p.consumed < |p.secret| && EndsWith(fed + line, p.secret[..p.consumed])
    {
      if p in KeptAfter(pending, line) {
        var from := KeptFrom(pending, line, p);
        KeptEnds(fed, from, line);
      } else {
        assert p in TailPending(BestTail(masks, line));
        TailEnds(fed, p, line);
      }
    }
  }

  lemma KeptEnds(fed: string, p: Pending, line: string)
    requires p.consumed < |p.secret| && EndsWith(fed, p.secret[..p.consumed]) && ContinueOne(p, line).kept.Some?
    ensures var next := ContinueOne(p, line).kept.value;
            next.consumed < |next.secret| && EndsWith(fed + line, next.secret[..next.consumed])
  {
    assert p.secret[..p.consumed + |line|] == p.secret[..p.consumed] + line;
    assert (fed + line)[|fed| - p.consumed..] == fed[|fed| - p.consumed..] + line;
  }

  lemma TailEnds(fed: string, p: Pending, line: string)
    requires TailMatch(p.secret, line, p.consumed)
    ensures EndsWith(fed + line, p.secret[..p.consumed])
  {
    assert (fed + line)[|fed| + |line| - p.consumed..] == line[|line| - p.consumed..];
  }

  lemma ConcatHead(fed: string, lines: seq<string>)
    requires lines != []
    ensures fed + Concat(lines) == fed + lines[0] + Concat(lines[1..])
  {
  }

  /** The history holds after any stream. */
  lemma {:induction false} HistoryHolds(masks: seq<string>, fed: string, pending: seq<Pending>, lines: seq<string>)
    requires History(masks, fed, pending)
    ensures History(masks, fed + Concat(lines), PendingAfter(masks, pending, lines))
    decreases |lines|
  {
    if lines == [] {
      assert fed + Concat(lines) == fed;
    } else {
      HistoryStep(masks, fed, pending, lines[0]);
      HistoryHolds(masks, fed + lines[0], NextPending(masks, pending, lines[0]), lines[1..]);
      ConcatHead(fed, lines);
    }
  }

  /** Byte `at` of `text` is inside a value, or inside the first two or more bytes of one. */
  ghost predicate InValue(masks: seq<string>, text: string, at: int) {
    exists m, n: nat, q :: m in masks && n <= |m| && (n == |m| || 2 <= n) && OccursAt(m[..n], text, q)
      && q <= at < q + n
  }

  lemma {:induction false} ContinuationOf(pending: seq<Pending>, line: string, r: Range) returns (p: Pending)
    requires r in Continuations(pending, line)
    ensures p in pending && ContinueOne(p, line).range == Some(r)
  {
    var last := pending[|pending| - 1];
    if ContinueOne(last, line).range == Some(r) {
      p := last;
    } else {
      p := ContinuationOf(pending[..|pending| - 1], line, r);
    }
  }

  lemma {:induction false} MatchOf(masks: seq<string>, line: string, r: Range) returns (m: string)
    requires r in Matches(masks, line)
    ensures m in masks && m != "" && |m| == r.len && OccursAt(m, line, r.start)
  {
    var last := masks[|masks| - 1];
    if last != "" && r in AsRanges(MatchIndices(line, last, 0), |last|) {
      m := last;
      MatchesOccur(line, last, 0);
      var at := MatchIndices(line, last, 0);
      var k :| 0 <= k < |at| && AsRanges(at, |last|)[k] == r;
      assert at[k] in at;
    } else {
      m := MatchOf(masks[..|masks| - 1], line, r);
    }
  }

  lemma ContinuationInValue(masks: seq<string>, fed: string, pending: seq<Pending>, line: string, r: Range, k: nat)
    requires History(masks, fed, pending) && r in Continuations(pending, line) && r.start <= k < r.End()
    ensures InValue(masks, fed + line, |fed| + k)
  {
    var p := ContinuationOf(pending, line, r);
    var n := p.consumed + r.len;
    var began := p.secret[..p.consumed];
    assert fed[|fed| - p.consumed..] == began;
    assert p.secret[p.consumed..][..r.len] == line[..r.len];
    forall j | 0 <= j < n ensures p.secret[..n][j] == (fed + line)[|fed| - p.consumed + j] {
      if j < p.consumed {
        assert fed[|fed| - p.consumed..][j] == began[j];
      } else {
        assert p.secret[p.consumed..][..r.len][j - p.consumed] == line[..r.len][j - p.consumed];
      }
    }
    assert OccursAt(p.secret[..n], fed + line, |fed| - p.consumed);
  }

  lemma MatchInValue(masks: seq<string>, fed: string, line: string, r: Range, k: nat)
    requires r in Matches(masks, line) && r.start <= k < r.End()
    ensures InValue(masks, fed + line, |fed| + k)
  {
    var m := MatchOf(masks, line, r);
    assert m[..|m|] == m;
    assert OccursAt(m[..|m|], fed + line, |fed| + r.start);
  }

  lemma TailInValue(masks: seq<string>, fed: string, line: string, r: Range, k: nat)
    requires r in TailRange(BestTail(masks, line), line) && r.start <= k < r.End()
    ensures InValue(masks, fed + line, |fed| + k)
  {
    BestTailHolds(masks, line);
    var tail := BestTail(masks, line).value;
    assert line[|line| - tail.len..] == tail.secret[..tail.len];
    forall j | 0 <= j < tail.len ensures tail.secret[..tail.len][j] == (fed + line)[|fed| + r.start + j] {
      assert line[|line| - tail.len..][j] == (fed + line)[|fed| + r.start + j];
    }
    assert OccursAt(tail.secret[..tail.len], fed + line, |fed| + r.start);
  }

  lemma LineHidesOnlyValues(masks: seq<string>, fed: string, pending: seq<Pending>, line: string, k: nat)
    requires History(masks, fed, pending) && line != "" && k < |line|
    requires Covered(LineRanges(masks, pending, line), k)
    ensures InValue(masks, fed + line, |fed| + k)
  {
    var r :| r in LineRanges(masks, pending, line) && r.start <= k < r.End();
    if r in Continuations(pending, line) {
      ContinuationInValue(masks, fed, pending, line, r, k);
    } else if r in Matches(masks, line) {
      MatchInValue(masks, fed, line, r, k);
    } else {
      TailInValue(masks, fed, line, r, k);
    }
  }

  lemma InValueLonger(masks: seq<string>, text: string, more: string, at: int)
    requires InValue(masks, text, at)
    ensures InValue(masks, text + more, at)
  {
    var m, n: nat, q :| m in masks && n <= |m| && (n == |m| || 2 <= n) && OccursAt(m[..n], text, q) && q <= at < q + n;
    assert OccursAt(m[..n], text + more, q);
  }

  /** Nothing is redacted by chance: a hidden byte belongs to a value, or to at least two bytes that begin one. */
  lemma {:induction false} HidesOnlyValues(masks: seq<string>, fed: string, pending: seq<Pending>, lines: seq<string>,
                                           k: nat)
    requires History(masks, fed, pending) && Hidden(masks, pending, lines, k) && k < |Concat(lines)|
    ensures InValue(masks, fed + Concat(lines), |fed| + k)
    decreases |lines|
  {
    var line, rest := lines[0], lines[1..];
    ConcatHead(fed, lines);
    if k < |line| {
      LineHidesOnlyValues(masks, fed, pending, line, k);
      InValueLonger(masks, fed + line, Concat(rest), |fed| + k);
    } else {
      HistoryStep(masks, fed, pending, line);
      HidesOnlyValues(masks, fed + line, NextPending(masks, pending, line), rest, k - |line|);
      assert |fed + line| + (k - |line|) == |fed| + k;
    }
  }
}
