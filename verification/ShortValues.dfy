/**
 The narrow rule for a short value, against what it is documented to do: the value is to be replaced
 wherever it stands alone between non-word characters, and nowhere else.

 The loop departs from that in two ways. It takes the end of a match for the beginning of the line, and its
 search steps over an occurrence that overlaps a match. `TokenRuleIff` says when this happens on a line,
 `TokenExactIff` and `TokenHidesIff` for which values it can happen.
 */
module ShortValues {
  import opened Text
  import opened Masking

  // What a loop of the narrow rules writes, place by place.

  /** Whether the match at the second place is replaced, the search having begun at the first. */
  type Decision = (nat, nat) -> bool

  /** The search from byte `i` on finds a match at `at`, and it is replaced. */
  predicate TakenAt(line: string, needle: string, i: nat, takes: Decision, at: nat)
    requires needle != ""
    decreases |line| - i
  {
    match FindFrom(line, needle, i)
    case None => false
    case Some(p) => (at == p && takes(i, p)) || TakenAt(line, needle, p + |needle|, takes, at)
  }

  /** The line from byte `i` on, with the `n` bytes at each of these places written as `shown`. */
  function Rewritten(line: string, i: nat, n: nat, shown: string, here: nat -> bool): string
    requires 0 < n
    decreases |line| - i
  {
    if |line| <= i then ""
    else if here(i) then shown + Rewritten(line, i + n, n, shown, here)
    else [line[i]] + Rewritten(line, i + 1, n, shown, here)
  }

  function TakenIn(line: string, needle: string, takes: Decision): nat -> bool
    requires needle != ""
  {
    (at: nat) => TakenAt(line, needle, 0, takes, at)
  }

  /** The verdicts of a loop are these decisions. */
  ghost predicate Decides(verdict: Verdict, line: string, needle: string, shown: string, takes: Decision) {
    forall i: nat, p: nat {:trigger takes(i, p)} :: i <= p && p + |needle| <= |line|
      ==> verdict(line[i..], p - i) == if takes(i, p) then shown else needle
  }

  lemma {:induction false} KeptTo(line: string, i: nat, j: nat, n: nat, shown: string, here: nat -> bool)
    requires 0 < n && i <= j <= |line| && forall p: nat :: i <= p < j ==> !here(p)
    ensures Rewritten(line, i, n, shown, here) == line[i..j] + Rewritten(line, j, n, shown, here)
    decreases j - i
  {
    if i < j {
      KeptTo(line, i + 1, j, n, shown, here);
      assert line[i..j] == [line[i]] + line[i + 1..j];
      Assoc([line[i]], line[i + 1..j], Rewritten(line, j, n, shown, here));
    }
  }

  /** One match, replaced or not, and the text before it. */
  lemma RewrittenStep(line: string, i: nat, p: nat, needle: string, shown: string, here: nat -> bool)
    requires needle != "" && i <= p && OccursAt(needle, line, p)
    requires forall q: nat :: i <= q < p || (p < q < p + |needle| && !here(p)) ==> !here(q)
    ensures Rewritten(line, i, |needle|, shown, here)
         == line[i..p] + (if here(p) then shown else needle) + Rewritten(line, p + |needle|, |needle|, shown, here)
  {
    var n, end := |needle|, p + |needle|;
    KeptTo(line, i, p, n, shown, here);
    if here(p) {
      Assoc(line[i..p], shown, Rewritten(line, end, n, shown, here));
    } else {
      KeptTo(line, p, end, n, shown, here);
      assert line[p..end] == needle;
      Assoc(line[i..p], needle, Rewritten(line, end, n, shown, here));
    }
  }

  /** Searching from position `i` and searching the text from there find the same match. */
  lemma FindBehind(line: string, needle: string, i: nat)
    requires i <= |line|
    ensures FindFrom(line, needle, i).None? <==> FindFrom(line[i..], needle, 0).None?
    ensures FindFrom(line, needle, i).Some? ==>
              FindFrom(line, needle, i).value == FindFrom(line[i..], needle, 0).value + i
  {
    FindsFirst(line, needle, i);
    FindsFirst(line[i..], needle, 0);
    assert forall k: nat :: OccursAt(needle, line[i..], k) <==> OccursAt(needle, line, k + i);
    var here, there := FindFrom(line, needle, i), FindFrom(line[i..], needle, 0);
    if here.Some? {
      assert OccursAt(needle, line[i..], here.value - i);
    }
    if there.Some? {
      assert OccursAt(needle, line, there.value + i);
    }
  }

  lemma SlicesBehind(line: string, i: nat, q: nat, n: nat)
    requires i + q + n <= |line|
    ensures |line[i..]| == |line| - i
    ensures line[i..][..q] == line[i..i + q] && line[i..][q + n..] == line[i + q + n..]
  {
  }

  /** One turn of a loop, counted on the line. */
  lemma LoopTurn(out: string, line: string, i: nat, p: nat, needle: string, verdict: Verdict, next: string)
    requires needle != "" && i <= p && p + |needle| <= |line| && FindFrom(line[i..], needle, 0) == Some(p - i)
    requires next == out + line[i..p] + verdict(line[i..], p - i)
    ensures WriteFrom(out, line[i..], needle, verdict) == WriteFrom(next, line[p + |needle|..], needle, verdict)
  {
    SlicesBehind(line, i, p - i, |needle|);
    WriteStep(out, line[i..], needle, verdict, p - i, next);
  }

  lemma {:induction false} TakenAhead(line: string, needle: string, i: nat, takes: Decision, at: nat)
    requires needle != "" && TakenAt(line, needle, i, takes, at)
    ensures i <= at
    decreases |line| - i
  {
    var p := FindFrom(line, needle, i).value;
    if at != p || !takes(i, p) {
      TakenAhead(line, needle, p + |needle|, takes, at);
    }
  }

  /** `here` names the matches from byte `i` on that are replaced. */
  ghost predicate Names(here: nat -> bool, line: string, needle: string, i: nat, takes: Decision)
    requires needle != ""
  {
    forall p: nat :: i <= p ==> (here(p) <==> TakenAt(line, needle, i, takes, p))
  }

  lemma NamesNext(here: nat -> bool, line: string, needle: string, i: nat, takes: Decision, p: nat)
    requires needle != "" && Names(here, line, needle, i, takes) && FindFrom(line, needle, i) == Some(p)
    ensures here(p) <==> takes(i, p)
    ensures forall q: nat :: i <= q < p || (p < q < p + |needle|) ==> !here(q)
    ensures Names(here, line, needle, p + |needle|, takes)
  {
    forall q: nat | i <= q
      ensures here(q) <==> (q == p && takes(i, p)) || TakenAt(line, needle, p + |needle|, takes, q)
      ensures TakenAt(line, needle, p + |needle|, takes, q) ==> p + |needle| <= q
    {
      if TakenAt(line, needle, p + |needle|, takes, q) {
        TakenAhead(line, needle, p + |needle|, takes, q);
      }
    }
  }

  lemma NextTurn(out: string, line: string, i: nat, p: nat, needle: string, verdict: Verdict, next: string)
    requires needle != "" && i <= |line| && FindFrom(line, needle, i) == Some(p)
    requires next == out + line[i..p] + verdict(line[i..], p - i)
    ensures WriteFrom(out, line[i..], needle, verdict) == WriteFrom(next, line[p + |needle|..], needle, verdict)
  {
    FindBehind(line, needle, i);
    LoopTurn(out, line, i, p, needle, verdict, next);
  }

  lemma LastTurn(out: string, line: string, i: nat, needle: string, verdict: Verdict, shown: string, here: nat -> bool)
    requires needle != "" && i <= |line| && FindFrom(line, needle, i) == None && forall p: nat :: i <= p ==> !here(p)
    ensures WriteFrom(out, line[i..], needle, verdict) == out + Rewritten(line, i, |needle|, shown, here)
  {
    FindBehind(line, needle, i);
    WriteEnd(out, line[i..], needle, verdict);
    KeptTo(line, i, |line|, |needle|, shown, here);
    assert line[i..|line|] + "" == line[i..];
  }

  /** A loop writes the line with the matches it takes replaced, and every other byte kept. */
  lemma {:induction false} LoopWrites(out: string, line: string, i: nat, needle: string, verdict: Verdict,
                                      shown: string, takes: Decision, here: nat -> bool)
    requires needle != "" && i <= |line|
    requires Decides(verdict, line, needle, shown, takes) && Names(here, line, needle, i, takes)
    ensures WriteFrom(out, line[i..], needle, verdict) == out + Rewritten(line, i, |needle|, shown, here)
    decreases |line| - i
  {
    match FindFrom(line, needle, i)
    case None =>
      LastTurn(out, line, i, needle, verdict, shown, here);
    case Some(p) =>
      NamesNext(here, line, needle, i, takes, p);
      var next := out + line[i..p] + if here(p) then shown else needle;
      LoopWrites(next, line, p + |needle|, needle, verdict, shown, takes, here);
      TurnDone(out, line, i, p, needle, verdict, shown, takes, here, next);
  }

  lemma TurnDone(out: string, line: string, i: nat, p: nat, needle: string, verdict: Verdict, shown: string,
                 takes: Decision, here: nat -> bool, next: string)
    requires needle != "" && i <= |line| && FindFrom(line, needle, i) == Some(p)
    requires Decides(verdict, line, needle, shown, takes) && Names(here, line, needle, i, takes)
    requires next == out + line[i..p] + if here(p) then shown else needle
    requires WriteFrom(next, line[p + |needle|..], needle, verdict)
          == next + Rewritten(line, p + |needle|, |needle|, shown, here)
    ensures WriteFrom(out, line[i..], needle, verdict) == out + Rewritten(line, i, |needle|, shown, here)
  {
    FindsFirst(line, needle, i);
    NamesNext(here, line, needle, i, takes, p);
    assert verdict(line[i..], p - i) == if takes(i, p) then shown else needle;
    NextTurn(out, line, i, p, needle, verdict, next);
    TurnWrites(out, line, i, p, needle, shown, here, next);
  }

  lemma TurnWrites(out: string, line: string, i: nat, p: nat, needle: string, shown: string, here: nat -> bool,
                   next: string)
    requires needle != "" && i <= p && OccursAt(needle, line, p)
    requires forall q: nat :: i <= q < p || (p < q < p + |needle|) ==> !here(q)
    requires next == out + line[i..p] + if here(p) then shown else needle
    ensures next + Rewritten(line, p + |needle|, |needle|, shown, here)
        == out + Rewritten(line, i, |needle|, shown, here)
  {
    RewrittenStep(line, i, p, needle, shown, here);
    Regroup(out, line[i..p], if here(p) then shown else needle, Rewritten(line, p + |needle|, |needle|, shown, here));
  }

  /** The same, for a whole line. */
  lemma LineWrites(line: string, needle: string, verdict: Verdict, shown: string, takes: Decision)
    requires needle != "" && Decides(verdict, line, needle, shown, takes)
    ensures WriteFrom("", line, needle, verdict)
         == Rewritten(line, 0, |needle|, shown, TakenIn(line, needle, takes))
  {
    var here := TakenIn(line, needle, takes);
    assert line[0..] == line;
    LoopWrites("", line, 0, needle, verdict, shown, takes, here);
    assert "" + Rewritten(line, 0, |needle|, shown, here) == Rewritten(line, 0, |needle|, shown, here);
  }

  lemma {:induction false} SamePlaces(line: string, i: nat, n: nat, shown: string, f: nat -> bool, g: nat -> bool)
    requires 0 < n && forall p: nat :: f(p) <==> g(p)
    ensures Rewritten(line, i, n, shown, f) == Rewritten(line, i, n, shown, g)
    decreases |line| - i
  {
    if i < |line| {
      SamePlaces(line, if f(i) then i + n else i + 1, n, shown, f, g);
    }
  }

  lemma NothingTaken(line: string, n: nat, shown: string, here: nat -> bool)
    requires 0 < n && forall p: nat :: !here(p)
    ensures Rewritten(line, 0, n, shown, here) == line
  {
    KeptTo(line, 0, |line|, n, shown, here);
    assert line[0..|line|] + "" == line;
  }

  // Which matches are taken.

  /** The search from byte `i` on finds a match at `at`. */
  predicate MatchAt(line: string, needle: string, i: nat, at: nat)
    requires needle != ""
    decreases |line| - i
  {
    match FindFrom(line, needle, i)
    case None => false
    case Some(p) => at == p || MatchAt(line, needle, p + |needle|, at)
  }

  lemma {:induction false} MatchAtIff(line: string, needle: string, i: nat, at: nat)
    requires needle != ""
    ensures MatchAt(line, needle, i, at) <==> at in MatchIndices(line, needle, i)
    decreases |line| - i
  {
    var found := FindFrom(line, needle, i);
    if found.Some? {
      MatchAtIff(line, needle, found.value + |needle|, at);
      var later := MatchIndices(line, needle, found.value + |needle|);
      assert MatchIndices(line, needle, i) == [found.value] + later;
    }
  }

  /** The search for the match at `at` began at `start`: at byte `i`, or right behind another match. */
  predicate FoundFrom(line: string, needle: string, i: nat, start: nat, at: nat)
    requires needle != ""
  {
    && FindFrom(line, needle, start) == Some(at)
    && (start == i || (|needle| <= start && MatchAt(line, needle, i, start - |needle|)))
  }

  /** Whether a match is taken depends on where the search for it began. */
  lemma {:induction false} MatchStart(line: string, needle: string, i: nat, takes: Decision, at: nat)
    returns (start: nat)
    requires needle != "" && MatchAt(line, needle, i, at)
    ensures i <= start <= at && FoundFrom(line, needle, i, start, at)
    ensures TakenAt(line, needle, i, takes, at) <==> takes(start, at)
    decreases |line| - i
  {
    start := i;
    var p := FindFrom(line, needle, i).value;
    if at != p {
      start := MatchStart(line, needle, p + |needle|, takes, at);
    } else if TakenAt(line, needle, p + |needle|, takes, at) {
      TakenAhead(line, needle, p + |needle|, takes, at);
    }
  }

  lemma {:induction false} TakenIsMatch(line: string, needle: string, i: nat, takes: Decision, at: nat)
    requires needle != "" && TakenAt(line, needle, i, takes, at)
    ensures MatchAt(line, needle, i, at)
    decreases |line| - i
  {
    var p := FindFrom(line, needle, i).value;
    if at != p {
      TakenIsMatch(line, needle, p + |needle|, takes, at);
    }
  }

  /** The next match behind a match. */
  lemma {:induction false} MatchBehind(line: string, needle: string, i: nat, takes: Decision, before: nat, at: nat)
    requires needle != "" && MatchAt(line, needle, i, before) && FindFrom(line, needle, before + |needle|) == Some(at)
    ensures MatchAt(line, needle, i, at)
    ensures TakenAt(line, needle, i, takes, at) <==> takes(before + |needle|, at)
    decreases |line| - i
  {
    var p := FindFrom(line, needle, i).value;
    if before != p {
      MatchBehind(line, needle, p + |needle|, takes, before, at);
      MatchOccurs(line, needle, p + |needle|, before);
    } else if TakenAt(line, needle, at + |needle|, takes, at) {
      TakenAhead(line, needle, at + |needle|, takes, at);
    }
  }

  /** A line with two matches. */
  lemma TwoTaken(line: string, needle: string, takes: Decision, p: nat, q: nat, at: nat)
    requires needle != "" && FindFrom(line, needle, 0) == Some(p) && FindFrom(line, needle, p + |needle|) == Some(q)
    requires FindFrom(line, needle, q + |needle|) == None
    ensures TakenAt(line, needle, 0, takes, at)
            <==> (at == p && takes(0, p)) || (at == q && takes(p + |needle|, q))
  {
    var n := |needle|;
    assert TakenAt(line, needle, p + n, takes, at)
      <==> (at == q && takes(p + n, q)) || TakenAt(line, needle, q + n, takes, at);
  }

  lemma {:induction false} MatchOccurs(line: string, needle: string, i: nat, at: nat)
    requires needle != "" && MatchAt(line, needle, i, at)
    ensures i <= at && OccursAt(needle, line, at)
    decreases |line| - i
  {
    FindsFirst(line, needle, i);
    var p := FindFrom(line, needle, i).value;
    if at != p {
      MatchOccurs(line, needle, p + |needle|, at);
    }
  }

  lemma LastOfMatch(line: string, needle: string, i: nat)
    requires needle != "" && |needle| <= i && OccursAt(needle, line, i - |needle|)
    ensures 0 < i <= |line| && line[i - 1] == needle[|needle| - 1]
  {
  }

  // Tokens.

  predicate RightFree(line: string, end: nat) { |line| <= end || !IsWordChar(line[end]) }

  predicate LeftFree(line: string, p: nat) { p == 0 || |line| < p || !IsWordChar(line[p - 1]) }

  /** What the rule is documented to replace. */
  predicate StandsAlone(line: string, secret: string, at: nat) {
    OccursAt(secret, line, at) && LeftFree(line, at) && RightFree(line, at + |secret|)
  }

  /** The loop sees nothing in front of the text still to read. */
  function TokenTakes(line: string, secret: string): Decision {
    (i: nat, p: nat) => (p == i || LeftFree(line, p)) && RightFree(line, p + |secret|)
  }

  predicate TokenTaken(line: string, secret: string, at: nat)
    requires secret != ""
  {
    TakenAt(line, secret, 0, TokenTakes(line, secret), at)
  }

  lemma TokenDecides(line: string, secret: string)
    ensures Decides(TokenShown(secret), line, secret, MASK, TokenTakes(line, secret))
  {
    forall i: nat, p: nat | i <= p && p + |secret| <= |line|
      ensures TokenShown(secret)(line[i..], p - i) == if TokenTakes(line, secret)(i, p) then MASK else secret
    {
      TokenSees(line, secret, i, p);
    }
  }

  lemma TokenSees(line: string, secret: string, i: nat, p: nat)
    requires i <= p && p + |secret| <= |line|
    ensures TokenShown(secret)(line[i..], p - i)
         == if (p == i || LeftFree(line, p)) && RightFree(line, p + |secret|) then MASK else secret
  {
    assert |line[i..]| == |line| - i;
    assert forall k :: i <= k < |line| ==> line[i..][k - i] == line[k];
  }

  lemma TokenWrites(line: string, secret: string)
    requires secret != ""
    ensures TokenMasked(line, secret) == Rewritten(line, 0, |secret|, MASK, (at: nat) => TokenTaken(line, secret, at))
  {
    var takes := TokenTakes(line, secret);
    TokenDecides(line, secret);
    LineWrites(line, secret, TokenShown(secret), MASK, takes);
    SamePlaces(line, 0, |secret|, MASK, TakenIn(line, secret, takes), (at: nat) => TokenTaken(line, secret, at));
  }

  /** Two matches lie side by side, and the second one ends where a word does. */
  predicate TokenTrap(line: string, secret: string, at: nat)
    requires secret != ""
  {
    && MatchAt(line, secret, 0, at) && OccursAt(secret, line, at + |secret|)
    && IsWordChar(secret[|secret| - 1]) && RightFree(line, at + |secret| + |secret|)
  }

  /** The value stands alone at a place that the search steps over. */
  predicate TokenSkipped(line: string, secret: string, at: nat)
    requires secret != ""
  {
    StandsAlone(line, secret, at) && !MatchAt(line, secret, 0, at)
  }

  lemma AloneIsTaken(line: string, secret: string, at: nat)
    requires secret != "" && StandsAlone(line, secret, at) && MatchAt(line, secret, 0, at)
    ensures TokenTaken(line, secret, at)
  {
    var start := MatchStart(line, secret, 0, TokenTakes(line, secret), at);
  }

  /** What is taken stands alone, or a match right in front of it is in a trap. */
  lemma TakenIsAlone(line: string, secret: string, at: nat)
    requires secret != "" && TokenTaken(line, secret, at)
    ensures StandsAlone(line, secret, at) || (|secret| <= at && TokenTrap(line, secret, at - |secret|))
  {
    TakenIsMatch(line, secret, 0, TokenTakes(line, secret), at);
    MatchOccurs(line, secret, 0, at);
    var start := MatchStart(line, secret, 0, TokenTakes(line, secret), at);
    if start != 0 {
      MatchOccurs(line, secret, 0, start - |secret|);
      LastOfMatch(line, secret, start);
    }
  }

  lemma TrapIsTaken(line: string, secret: string, at: nat)
    requires secret != "" && TokenTrap(line, secret, at)
    ensures TokenTaken(line, secret, at + |secret|) && !StandsAlone(line, secret, at + |secret|)
  {
    var next := at + |secret|;
    MatchOccurs(line, secret, 0, at);
    LastOfMatch(line, secret, next);
    assert FindFrom(line, secret, next) == Some(next);
    MatchBehind(line, secret, 0, TokenTakes(line, secret), at, next);
    assert TokenTakes(line, secret)(next, next);
  }

  /** The value is replaced exactly where it stands alone. */
  ghost predicate TokenExact(line: string, secret: string)
    requires secret != ""
  {
    forall at: nat :: TokenTaken(line, secret, at) <==> StandsAlone(line, secret, at)
  }

  /**
   When a short value is replaced exactly where it stands alone: unless two matches lie side by side, the
   value ends with a word character and the second one is free on its right, or the value stands alone
   where the search steps over it.
   */
  lemma TokenRuleIff(line: string, secret: string)
    requires secret != ""
    ensures TokenExact(line, secret)
            <==> !exists at: nat :: TokenTrap(line, secret, at) || TokenSkipped(line, secret, at)
    ensures TokenExact(line, secret) ==>
              TokenMasked(line, secret)
              == Rewritten(line, 0, |secret|, MASK, (at: nat) => StandsAlone(line, secret, at))
  {
    if at: nat :| TokenTrap(line, secret, at) {
      TrapIsTaken(line, secret, at);
    }
    if at: nat :| TokenSkipped(line, secret, at) {
      SkippedIsLeft(line, secret, at);
    }
    if at: nat :| TokenTaken(line, secret, at) && !StandsAlone(line, secret, at) {
      TakenIsAlone(line, secret, at);
    }
    if at: nat :| StandsAlone(line, secret, at) && !TokenTaken(line, secret, at) {
      SkippedIfLeft(line, secret, at);
    }
    if TokenExact(line, secret) {
      TokenWrites(line, secret);
      SamePlaces(line, 0, |secret|, MASK, (at: nat) => TokenTaken(line, secret, at),
                 (at: nat) => StandsAlone(line, secret, at));
    }
  }

  lemma SkippedIsLeft(line: string, secret: string, at: nat)
    requires secret != "" && TokenSkipped(line, secret, at)
    ensures !TokenTaken(line, secret, at)
  {
    if TokenTaken(line, secret, at) {
      TakenIsMatch(line, secret, 0, TokenTakes(line, secret), at);
    }
  }

  lemma SkippedIfLeft(line: string, secret: string, at: nat)
    requires secret != "" && StandsAlone(line, secret, at) && !TokenTaken(line, secret, at)
    ensures TokenSkipped(line, secret, at)
  {
    if MatchAt(line, secret, 0, at) {
      AloneIsTaken(line, secret, at);
    }
  }

  // Which values the search can step over.

  /** Two copies can overlap so that the second one begins behind a non-word character. */
  ghost predicate OverlapsOpenly(secret: string) {
    exists k: nat :: OverlapsAt(secret, k) && !IsWordChar(secret[k - 1])
  }

  lemma SkippedOverlaps(line: string, secret: string, at: nat)
    requires secret != "" && TokenSkipped(line, secret, at)
    ensures OverlapsOpenly(secret)
  {
    var p := EveryOccurrenceMeetsAMatch(line, secret, 0, at);
    MatchAtIff(line, secret, 0, p);
    MatchOccurs(line, secret, 0, p);
    TwoOccurrences(secret, line, p, at);
    assert line[at - 1] == secret[at - p - 1];
  }

  /** No byte of the occurrence at `at` is replaced. */
  ghost predicate InView(line: string, secret: string, at: nat)
    requires secret != ""
  {
    forall q: nat :: TokenTaken(line, secret, q) ==> q + |secret| <= at || at + |secret| <= q
  }

  /** A word character in front, and two overlapping copies. */
  function LeakLine(secret: string, k: nat): string
    requires k < |secret|
  {
    [if secret[0] == 'b' then 'c' else 'b'] + (secret[..k] + secret)
  }

  lemma LeakOccurs(secret: string, k: nat)
    requires OverlapsAt(secret, k)
    ensures var line := LeakLine(secret, k);
            && OccursAt(secret, line, 1) && OccursAt(secret, line, 1 + k) && !OccursAt(secret, line, 0)
            && !LeftFree(line, 1) && line[k] == secret[k - 1] && |line| == 1 + k + |secret|
  {
    OverlapWitness(secret, k);
    var mark, two := if secret[0] == 'b' then 'c' else 'b', secret[..k] + secret;
    Shifted(mark, two, secret, 0);
    Shifted(mark, two, secret, k);
    Marked(mark, two, secret);
    assert two[k - 1] == secret[k - 1];
  }

  lemma Marked(mark: char, text: string, needle: string)
    requires needle != "" && needle[0] != mark && IsWordChar(mark)
    ensures !OccursAt(needle, [mark] + text, 0) && !LeftFree([mark] + text, 1)
    ensures forall j :: 0 <= j < |text| ==> ([mark] + text)[1 + j] == text[j]
  {
    assert ([mark] + text)[0 + 0] == mark;
  }

  lemma Shifted(mark: char, text: string, needle: string, at: nat)
    requires OccursAt(needle, text, at)
    ensures OccursAt(needle, [mark] + text, 1 + at)
  {
    assert forall j :: 0 <= j < |text| ==> ([mark] + text)[1 + j] == text[j];
  }

  /** A line with room for one match alone. */
  lemma OnlyMatch(line: string, needle: string, p: nat, at: nat)
    requires needle != "" && OccursAt(needle, line, p) && forall q :: 0 <= q < p ==> !OccursAt(needle, line, q)
    requires |line| < p + |needle| + |needle|
    ensures FindFrom(line, needle, 0) == Some(p) && (MatchAt(line, needle, 0, at) <==> at == p)
  {
    FindsFirst(line, needle, 0);
    assert FindFrom(line, needle, p + |needle|) == None;
  }

  lemma NotTakenAtOne(line: string, secret: string, start: nat)
    requires secret != "" && !LeftFree(line, 1) && !OccursAt(secret, line, 0) && FoundFrom(line, secret, 0, start, 1)
    ensures !TokenTakes(line, secret)(start, 1)
  {
    if start == 1 && |secret| == 1 && MatchAt(line, secret, 0, 0) {
      MatchOccurs(line, secret, 0, 0);
    }
  }

  /** Such a line leaves the loop as it came, with the value standing alone at its end. */
  lemma OverlapLeaks(secret: string, k: nat)
    requires OverlapsAt(secret, k) && !IsWordChar(secret[k - 1])
    ensures var line := LeakLine(secret, k);
            && StandsAlone(line, secret, 1 + k) && (forall at: nat :: !TokenTaken(line, secret, at))
            && TokenMasked(line, secret) == line
  {
    var line := LeakLine(secret, k);
    LeakOccurs(secret, k);
    forall at: nat ensures !TokenTaken(line, secret, at) {
      OnlyMatch(line, secret, 1, at);
      if MatchAt(line, secret, 0, at) {
        var start := MatchStart(line, secret, 0, TokenTakes(line, secret), at);
        NotTakenAtOne(line, secret, start);
      } else if TokenTaken(line, secret, at) {
        TakenIsMatch(line, secret, 0, TokenTakes(line, secret), at);
      }
    }
    TokenWrites(line, secret);
    NothingTaken(line, |secret|, MASK, (at: nat) => TokenTaken(line, secret, at));
  }

  /** The rule replaces the value wherever it stands alone, in every line. */
  ghost predicate TokenReplaced(secret: string)
    requires secret != ""
  {
    forall line, at: nat :: StandsAlone(line, secret, at) ==> TokenTaken(line, secret, at)
  }

  /** The rule never leaves the value standing alone in full view. */
  ghost predicate TokenHidden(secret: string)
    requires secret != ""
  {
    forall line, at: nat :: StandsAlone(line, secret, at) ==> !InView(line, secret, at)
  }

  /**
   Exactly which short values are replaced wherever they stand alone: those that cannot overlap themselves
   behind a non-word character. Any other value is left in full view by some line.
   */
  lemma TokenHidesIff(secret: string)
    requires secret != ""
    ensures TokenReplaced(secret) <==> !OverlapsOpenly(secret)
    ensures TokenHidden(secret) <==> !OverlapsOpenly(secret)
  {
    if k: nat :| OverlapsAt(secret, k) && !IsWordChar(secret[k - 1]) {
      OverlapLeaks(secret, k);
      assert InView(LeakLine(secret, k), secret, 1 + k);
    } else {
      forall line, at: nat | StandsAlone(line, secret, at)
        ensures TokenTaken(line, secret, at) && !InView(line, secret, at)
      {
        if TokenSkipped(line, secret, at) {
          SkippedOverlaps(line, secret, at);
        } else {
          AloneIsTaken(line, secret, at);
        }
      }
    }
  }

  /** The example: `a-a` stands alone at byte 3 of this line and is printed. */
  lemma TokenLeakExample()
    ensures StandsAlone("ba-a-a", "a-a", 3) && TokenMasked("ba-a-a", "a-a") == "ba-a-a"
  {
    var value := "a-a";
    assert value == ['a', '-', 'a'];
    assert value[2..] == ['a'] == value[..1] && value[..2] == ['a', '-'];
    OverlapLeaks(value, 2);
    assert LeakLine(value, 2) == ['b'] + (['a', '-'] + ['a', '-', 'a']) == "ba-a-a";
  }

  // Which values the loop can cut in half.

  /** A value twice: the second copy is replaced though the first touches it. */
  lemma DoubledValueIsCut(secret: string)
    requires secret != "" && IsWordChar(secret[|secret| - 1])
    ensures var line := secret + secret;
            TokenTaken(line, secret, |secret|) && !StandsAlone(line, secret, |secret|)
    ensures TokenMasked(secret + secret, secret) == (if IsWordChar(secret[0]) then secret else MASK) + MASK
  {
    var line := secret + secret;
    assert OccursAt(secret, line, 0) && OccursAt(secret, line, |secret|);
    assert FindFrom(line, secret, 0) == Some(0);
    TrapIsTaken(line, secret, 0);
    DoubledWritten(secret, line);
  }

  lemma DoubledTaken(secret: string, line: string, at: nat)
    requires secret != "" && line == secret + secret && TokenTaken(line, secret, |secret|)
    ensures TokenTaken(line, secret, at) <==> at == |secret| || (at == 0 && !IsWordChar(secret[0]))
  {
    var n, takes := |secret|, TokenTakes(line, secret);
    assert OccursAt(secret, line, 0) && OccursAt(secret, line, n);
    assert FindFrom(line, secret, 0) == Some(0) && FindFrom(line, secret, n) == Some(n);
    assert FindFrom(line, secret, n + n) == None;
    assert n < |line| && line[n] == secret[0];
    assert RightFree(line, n) <==> !IsWordChar(secret[0]);
    assert takes(0, 0) <==> RightFree(line, n);
    TwoTaken(line, secret, takes, 0, n, n);
    TwoTaken(line, secret, takes, 0, n, at);
  }

  lemma DoubledWritten(secret: string, line: string)
    requires secret != "" && line == secret + secret && TokenTaken(line, secret, |secret|)
    ensures TokenMasked(line, secret) == (if IsWordChar(secret[0]) then secret else MASK) + MASK
  {
    var here, n := (at: nat) => TokenTaken(line, secret, at), |secret|;
    forall at: nat ensures here(at) <==> at == n || (at == 0 && !IsWordChar(secret[0])) {
      DoubledTaken(secret, line, at);
    }
    TokenWrites(line, secret);
    assert OccursAt(secret, line, 0) && OccursAt(secret, line, n);
    RewrittenStep(line, 0, 0, secret, MASK, here);
    RewrittenStep(line, n, n, secret, MASK, here);
    assert Rewritten(line, n + n, n, MASK, here) == "";
    assert line[0..0] == "" && line[n..n] == "";
  }

  /** In every line, the rule replaces the value exactly where it stands alone. */
  lemma TokenExactIff(secret: string)
    requires secret != ""
    ensures (forall line :: TokenExact(line, secret))
            <==> !IsWordChar(secret[|secret| - 1]) && !OverlapsOpenly(secret)
  {
    if IsWordChar(secret[|secret| - 1]) {
      DoubledValueIsCut(secret);
      assert !TokenExact(secret + secret, secret);
    } else if k: nat :| OverlapsAt(secret, k) && !IsWordChar(secret[k - 1]) {
      OverlapLeaks(secret, k);
      assert !TokenExact(LeakLine(secret, k), secret);
    } else {
      forall line ensures TokenExact(line, secret) {
        TokenRuleIff(line, secret);
        forall at: nat ensures !TokenSkipped(line, secret, at) {
          if TokenSkipped(line, secret, at) {
            SkippedOverlaps(line, secret, at);
          }
        }
      }
    }
  }
}
