/** The narrow rule for a keyed value, against what it is documented to do. */
module KeyedValues {
  // A value is to be replaced behind `=` wherever the whole identifier in front is its key. The loop departs
  // from that where an identifier runs on into the match before it, and where its search steps over an
  // occurrence that overlaps a match.

  import opened Text
  import opened Masking
  import opened ShortValues

  /** What the rule is documented to replace. */
  predicate IsKeyed(line: string, key: string, suffix: string, at: nat) {
    OccursAt(suffix, line, at) && IdentIs(line, at, key)
  }

  function Later(i: nat, j: nat): nat { if i < j then j else i }

  /** The loop sees the identifier from where its search began. */
  function KeyedTakes(line: string, key: string): Decision {
    (i: nat, p: nat) => i <= p <= |line| && Spells(line, Later(i, IdentStart(line, p)), p, key)
  }

  predicate KeyedTaken(line: string, key: string, suffix: string, at: nat)
    requires suffix != ""
  {
    TakenAt(line, suffix, 0, KeyedTakes(line, key), at)
  }

  predicate AllWord(line: string, i: nat, p: nat) { forall k :: i <= k < p && k < |line| ==> IsWordChar(line[k]) }

  /** The identifier looked for from `i` on begins where the whole one does, or at `i`. */
  lemma {:induction false} IdentFrom(line: string, i: nat, p: nat)
    requires i <= p <= |line|
    ensures IdentStart(line[i..], p - i) + i == Later(i, IdentStart(line, p))
    ensures IdentStart(line, p) < i <==> 0 < i && IsWordChar(line[i - 1]) && AllWord(line, i, p)
    decreases p
  {
    if i < p {
      assert line[i..][p - i - 1] == line[p - 1];
      IdentFrom(line, i, p - 1);
    }
  }

  lemma SpellsBehind(line: string, i: nat, a: nat, b: nat, key: string)
    requires a <= b && i + b <= |line|
    ensures Spells(line[i..], a, b, key) <==> Spells(line, i + a, i + b, key)
  {
    assert forall k :: i <= k < |line| ==> line[i..][k - i] == line[k];
    assert forall k :: 0 <= k < |line| - i ==> line[i..][k] == line[i + k];
  }

  lemma SeenIdent(line: string, key: string, i: nat, p: nat)
    requires i <= p <= |line|
    ensures p - i <= |line[i..]|
    ensures IdentIs(line[i..], p - i, key) <==> KeyedTakes(line, key)(i, p)
  {
    IdentFrom(line, i, p);
    SpellsBehind(line, i, IdentStart(line[i..], p - i), p - i, key);
  }

  lemma KeyedSees(line: string, key: string, suffix: string, i: nat, p: nat)
    requires i <= p <= |line|
    ensures KeyedShown(key, suffix)(line[i..], p - i) == if KeyedTakes(line, key)(i, p) then "=" + MASK else suffix
  {
    SeenIdent(line, key, i, p);
  }

  lemma KeyedWrites(line: string, key: string, suffix: string)
    requires suffix != ""
    ensures KeyedReplaced(line, key, suffix)
         == Rewritten(line, 0, |suffix|, "=" + MASK, (at: nat) => KeyedTaken(line, key, suffix, at))
  {
    var takes, shown := KeyedTakes(line, key), "=" + MASK;
    forall i: nat, p: nat | i <= p && p + |suffix| <= |line|
      ensures KeyedShown(key, suffix)(line[i..], p - i) == if takes(i, p) then shown else suffix
    {
      KeyedSees(line, key, suffix, i, p);
    }
    LineWrites(line, suffix, KeyedShown(key, suffix), shown, takes);
    SamePlaces(line, 0, |suffix|, shown, TakenIn(line, suffix, takes),
               (at: nat) => KeyedTaken(line, key, suffix, at));
  }

  /** Word characters alone from `i` to `p`, and they, or the identifier that they end, are the key. */
  predicate KeyRunsOn(line: string, key: string, i: nat, p: nat) {
    i <= p <= |line| && AllWord(line, i, p) && (Spells(line, i, p, key) || IdentIs(line, p, key))
  }

  /**
   The identifier in front of the next match runs on into this one, and the key is what the search leaves of
   it, or all of it.
   */
  predicate KeyTrap(line: string, key: string, suffix: string, at: nat)
    requires suffix != ""
  {
    var next := FindFrom(line, suffix, at + |suffix|);
    && MatchAt(line, suffix, 0, at) && next.Some?
    && IsWordChar(suffix[|suffix| - 1]) && KeyRunsOn(line, key, at + |suffix|, next.value)
  }

  /** The key stands in front of an occurrence that the search steps over. */
  predicate KeySkipped(line: string, key: string, suffix: string, at: nat)
    requires suffix != ""
  {
    IsKeyed(line, key, suffix, at) && !MatchAt(line, suffix, 0, at)
  }

  /** When the loop and the rule part ways on a match. */
  lemma KeyDiffers(line: string, key: string, i: nat, p: nat)
    requires i <= p <= |line|
    ensures (KeyedTakes(line, key)(i, p) <==> IdentIs(line, p, key))
            <==> !(0 < i && IsWordChar(line[i - 1]) && KeyRunsOn(line, key, i, p))
  {
    IdentFrom(line, i, p);
  }

  /** A match parts them only behind a match in a trap. */
  lemma MatchIsRuled(line: string, key: string, suffix: string, at: nat)
    requires suffix != "" && MatchAt(line, suffix, 0, at)
    ensures OccursAt(suffix, line, at)
    ensures (KeyedTaken(line, key, suffix, at) <==> IsKeyed(line, key, suffix, at))
            || exists before: nat :: KeyTrap(line, key, suffix, before)
  {
    MatchOccurs(line, suffix, 0, at);
    var start := MatchStart(line, suffix, 0, KeyedTakes(line, key), at);
    KeyDiffers(line, key, start, at);
    if start != 0 {
      MatchOccurs(line, suffix, 0, start - |suffix|);
      LastOfMatch(line, suffix, start);
      assert KeyTrap(line, key, suffix, start - |suffix|) <==>
               IsWordChar(line[start - 1]) && KeyRunsOn(line, key, start, at);
    }
  }

  lemma TrapDiffers(line: string, key: string, suffix: string, at: nat)
    requires suffix != "" && KeyTrap(line, key, suffix, at)
    ensures var next := FindFrom(line, suffix, at + |suffix|).value;
            KeyedTaken(line, key, suffix, next) <==> !IsKeyed(line, key, suffix, next)
  {
    var i := at + |suffix|;
    var next := FindFrom(line, suffix, i).value;
    MatchOccurs(line, suffix, 0, at);
    LastOfMatch(line, suffix, i);
    MatchBehind(line, suffix, 0, KeyedTakes(line, key), at, next);
    MatchOccurs(line, suffix, 0, next);
    KeyDiffers(line, key, i, next);
  }

  /** The suffix is replaced exactly where the whole identifier in front of it is the key. */
  ghost predicate KeyedExact(line: string, key: string, suffix: string)
    requires suffix != ""
  {
    forall at: nat :: KeyedTaken(line, key, suffix, at) <==> IsKeyed(line, key, suffix, at)
  }

  /** The line with every suffix that the rule names replaced, and every other byte kept. */
  function KeyedByRule(line: string, key: string, suffix: string): string
    requires suffix != ""
  {
    Rewritten(line, 0, |suffix|, "=" + MASK, (at: nat) => IsKeyed(line, key, suffix, at))
  }

  /**
   When a keyed value is replaced exactly where the whole identifier in front of it is the key: unless some
   match is followed by word characters up to the next one, and these, or the identifier they end, are the
   key, or the key stands in front of an occurrence that the search steps over.
   */
  lemma KeyedRuleIff(line: string, key: string, suffix: string)
    requires suffix != ""
    ensures KeyedExact(line, key, suffix)
            <==> !exists at: nat :: KeyTrap(line, key, suffix, at) || KeySkipped(line, key, suffix, at)
    ensures KeyedExact(line, key, suffix) ==> KeyedReplaced(line, key, suffix) == KeyedByRule(line, key, suffix)
  {
    if at: nat :| KeyTrap(line, key, suffix, at) {
      TrapDiffers(line, key, suffix, at);
    }
    forall at: nat ensures KeyedTaken(line, key, suffix, at) ==> MatchAt(line, suffix, 0, at) {
      if KeyedTaken(line, key, suffix, at) {
        TakenIsMatch(line, suffix, 0, KeyedTakes(line, key), at);
      }
    }
    if at: nat :| KeySkipped(line, key, suffix, at) {
      assert !KeyedTaken(line, key, suffix, at);
    }
    if at: nat :| KeyedTaken(line, key, suffix, at) != IsKeyed(line, key, suffix, at) {
      if MatchAt(line, suffix, 0, at) {
        MatchIsRuled(line, key, suffix, at);
      }
      assert !MatchAt(line, suffix, 0, at) ==> KeySkipped(line, key, suffix, at);
    }
    if KeyedExact(line, key, suffix) {
      KeyedWrites(line, key, suffix);
      SamePlaces(line, 0, |suffix|, "=" + MASK, (at: nat) => KeyedTaken(line, key, suffix, at),
                 (at: nat) => IsKeyed(line, key, suffix, at));
    }
  }

  // Which keys and values the loop can get wrong. A suffix begins with `=`, so no identifier crosses that byte.

  /** Two copies of the suffix can overlap so that the second one stands behind the whole key. */
  ghost predicate OverlapsKeyed(suffix: string, key: string) {
    exists k: nat :: OverlapsAt(suffix, k) && IdentIs(suffix, k, key)
  }

  /** An identifier that begins inside the suffix at `p` is the same in the suffix alone. */
  lemma {:induction false} IdentInside(line: string, suffix: string, p: nat, at: nat)
    requires OccursAt(suffix, line, p) && suffix != "" && suffix[0] == '=' && p < at <= p + |suffix|
    ensures IdentStart(line, at) == p + IdentStart(suffix, at - p) && 0 < IdentStart(suffix, at - p)
    decreases at
  {
    assert line[at - 1] == suffix[at - 1 - p];
    if p + 1 < at {
      IdentInside(line, suffix, p, at - 1);
    }
  }

  lemma IdentIsInside(line: string, suffix: string, p: nat, at: nat, key: string)
    requires OccursAt(suffix, line, p) && suffix != "" && suffix[0] == '=' && p < at <= p + |suffix|
    ensures IdentIs(line, at, key) <==> IdentIs(suffix, at - p, key)
  {
    IdentInside(line, suffix, p, at);
    assert forall k :: p <= k < at ==> line[k] == suffix[k - p];
    assert forall k :: 0 <= k < at - p ==> suffix[k] == line[p + k];
  }

  lemma SkippedOverlapsKeyed(line: string, key: string, suffix: string, at: nat)
    requires suffix != "" && suffix[0] == '=' && KeySkipped(line, key, suffix, at)
    ensures OverlapsKeyed(suffix, key)
  {
    var p := EveryOccurrenceMeetsAMatch(line, suffix, 0, at);
    MatchAtIff(line, suffix, 0, p);
    MatchOccurs(line, suffix, 0, p);
    TwoOccurrences(suffix, line, p, at);
    IdentIsInside(line, suffix, p, at, key);
  }

  /** No byte of the suffix at `at` is replaced. */
  ghost predicate KeyedInView(line: string, key: string, suffix: string, at: nat)
    requires suffix != ""
  {
    forall q: nat :: KeyedTaken(line, key, suffix, q) ==> q + |suffix| <= at || at + |suffix| <= q
  }

  /** Nothing is replaced in the line, though the key stands in front of the suffix at `at`. */
  ghost predicate Leaks(line: string, key: string, suffix: string, at: nat)
    requires suffix != ""
  {
    && IsKeyed(line, key, suffix, at) && (forall q: nat :: !KeyedTaken(line, key, suffix, q))
    && KeyedReplaced(line, key, suffix) == line
  }

  lemma NoneTaken(line: string, key: string, suffix: string)
    requires suffix != "" && forall q: nat :: !KeyedTaken(line, key, suffix, q)
    ensures KeyedReplaced(line, key, suffix) == line
  {
    KeyedWrites(line, key, suffix);
    NothingTaken(line, |suffix|, "=" + MASK, (at: nat) => KeyedTaken(line, key, suffix, at));
  }

  /** Two copies that overlap behind the key: nothing is replaced. */
  lemma OverlapLeaksKeyed(suffix: string, key: string, k: nat)
    requires suffix != "" && suffix[0] == '=' && key != "" && OverlapsAt(suffix, k) && IdentIs(suffix, k, key)
    ensures Leaks(suffix[..k] + suffix, key, suffix, k)
  {
    var line := suffix[..k] + suffix;
    OverlapWitness(suffix, k);
    IdentIsInside(line, suffix, 0, k, key);
    forall q: nat ensures !KeyedTaken(line, key, suffix, q) {
      OnlyMatch(line, suffix, 0, q);
      if KeyedTaken(line, key, suffix, q) {
        TakenIsMatch(line, suffix, 0, KeyedTakes(line, key), q);
        var start := MatchStart(line, suffix, 0, KeyedTakes(line, key), q);
      }
    }
    NoneTaken(line, key, suffix);
  }

  /** The identifier that ends the suffix is how the key begins, and the rest of the key can follow it. */
  predicate RunsInto(suffix: string, key: string) {
    var from := IdentStart(suffix, |suffix|);
    && from < |suffix| && |suffix| - from <= |key| && AllWord(key, |suffix| - from, |key|)
    && forall k :: from <= k < |suffix| ==> Lower(suffix[k]) == Lower(key[k - from])
  }

  lemma OccursInside(before: string, mid: string, after: string)
    ensures OccursAt(mid, before + mid + after, |before|)
  {
  }

  lemma WordThere(line: string, word: string, i: nat)
    requires OccursAt(word, line, i) && AllWord(word, 0, |word|)
    ensures AllWord(line, i, i + |word|)
  {
    assert forall k :: i <= k < i + |word| ==> line[k] == word[k - i];
  }

  /** Behind word characters alone, the search stops at the suffix. */
  lemma FindsSuffix(line: string, i: nat, p: nat, suffix: string)
    requires i <= p && AllWord(line, i, p) && OccursAt(suffix, line, p) && suffix != "" && suffix[0] == '='
    ensures FindFrom(line, suffix, i) == Some(p)
  {
    FindsFirst(line, suffix, i);
    assert forall k :: i <= k < p ==> line[k] != suffix[0];
  }

  /** Two suffixes with a word between them. */
  predicate TwoSuffixes(line: string, suffix: string, word: string) {
    && OccursAt(suffix, line, 0) && OccursAt(word, line, |suffix|) && AllWord(word, 0, |word|)
    && OccursAt(suffix, line, |suffix| + |word|) && |line| == |suffix| + |word| + |suffix|
  }

  lemma TwoSuffixesLine(suffix: string, word: string, line: string)
    requires AllWord(word, 0, |word|) && line == suffix + word + suffix
    ensures TwoSuffixes(line, suffix, word)
  {
    Begins(suffix, word + suffix);
    Assoc(suffix, word, suffix);
    OccursInside(suffix, word, suffix);
    Ends(suffix + word, suffix);
  }

  lemma Begins(a: string, b: string)
    ensures OccursAt(a, a + b, 0)
  {
  }

  lemma Ends(a: string, b: string)
    ensures OccursAt(b, a + b, |a|)
  {
  }

  /** Its two matches. */
  lemma TwoMatches(line: string, suffix: string, word: string)
    requires TwoSuffixes(line, suffix, word) && suffix != "" && suffix[0] == '='
    ensures FindFrom(line, suffix, 0) == Some(0) && FindFrom(line, suffix, |suffix|) == Some(|suffix| + |word|)
    ensures forall q: nat :: MatchAt(line, suffix, 0, q) <==> q == 0 || q == |suffix| + |word|
  {
    var next := |suffix| + |word|;
    WordThere(line, word, |suffix|);
    FindsSuffix(line, |suffix|, next, suffix);
    assert FindFrom(line, suffix, 0) == Some(0);
    assert FindFrom(line, suffix, next + |suffix|) == None;
    forall q: nat ensures MatchAt(line, suffix, 0, q) <==> q == 0 || q == next {
      assert MatchAt(line, suffix, 0, q) <==> q == 0 || MatchAt(line, suffix, |suffix|, q);
      assert MatchAt(line, suffix, |suffix|, q) <==> q == next || MatchAt(line, suffix, next + |suffix|, q);
    }
  }

  /** The word that the key goes on with behind the suffix. */
  predicate IsRest(word: string, suffix: string, key: string) {
    var t := |suffix| - IdentStart(suffix, |suffix|);
    |word| == |key| - t && forall j :: 0 <= j < |word| ==> word[j] == key[t + j]
  }

  /** The key runs on from the suffix into the word behind it: its value is left in view. */
  lemma RunsIntoLeaks(suffix: string, key: string, line: string, word: string)
    requires suffix != "" && suffix[0] == '=' && RunsInto(suffix, key)
    requires IsRest(word, suffix, key) && TwoSuffixes(line, suffix, word)
    ensures Leaks(line, key, suffix, |suffix| + |word|)
  {
    RunsIntoKeyed(suffix, key, line, word);
    WordNotTaken(suffix, key, line, word);
    NoneTaken(line, key, suffix);
  }

  lemma RunsIntoKeyed(suffix: string, key: string, line: string, word: string)
    requires suffix != "" && suffix[0] == '=' && RunsInto(suffix, key)
    requires IsRest(word, suffix, key) && TwoSuffixes(line, suffix, word)
    ensures |word| < |key| && IsKeyed(line, key, suffix, |suffix| + |word|)
  {
    var n, from := |suffix|, IdentStart(suffix, |suffix|);
    KeyAcross(line, suffix, key, word, from);
    assert from + |key| == n + |word|;
    IdentAcross(line, suffix, word);
  }

  lemma IdentAcross(line: string, suffix: string, word: string)
    requires suffix != "" && suffix[0] == '=' && TwoSuffixes(line, suffix, word)
    ensures IdentStart(line, |suffix| + |word|) == IdentStart(suffix, |suffix|)
  {
    WordThere(line, word, |suffix|);
    IdentInside(line, suffix, 0, |suffix|);
    IdentRunsOn(line, |suffix|, |suffix| + |word|);
  }

  /** A word that is shorter than the key is not the key. */
  lemma WordNotTaken(suffix: string, key: string, line: string, word: string)
    requires suffix != "" && suffix[0] == '=' && TwoSuffixes(line, suffix, word) && |word| < |key|
    ensures forall q: nat :: !KeyedTaken(line, key, suffix, q)
  {
    var takes, next := KeyedTakes(line, key), |suffix| + |word|;
    TwoMatches(line, suffix, word);
    MatchBehind(line, suffix, 0, takes, 0, next);
    EdgeNotTaken(line, key, suffix);
    assert !takes(|suffix|, next);
    forall q: nat ensures !KeyedTaken(line, key, suffix, q) {
      if KeyedTaken(line, key, suffix, q) {
        TakenIsMatch(line, suffix, 0, takes, q);
      }
    }
  }

  /** The identifier in front of a whole line is empty. */
  lemma EdgeNotTaken(line: string, key: string, suffix: string)
    requires suffix != "" && key != "" && FindFrom(line, suffix, 0) == Some(0)
    ensures !KeyedTaken(line, key, suffix, 0)
  {
    var takes := KeyedTakes(line, key);
    assert !takes(0, 0);
    if TakenAt(line, suffix, |suffix|, takes, 0) {
      TakenAhead(line, suffix, |suffix|, takes, 0);
    }
  }

  /** The end of the suffix and the word behind it spell the key. */
  lemma KeyAcross(line: string, suffix: string, key: string, word: string, from: nat)
    requires from <= |suffix| && |suffix| - from <= |key| && |word| == |key| - (|suffix| - from)
    requires OccursAt(suffix, line, 0) && OccursAt(word, line, |suffix|)
    requires forall k :: from <= k < |suffix| ==> Lower(suffix[k]) == Lower(key[k - from])
    requires forall j :: 0 <= j < |word| ==> word[j] == key[|suffix| - from + j]
    ensures from <= from + |key| <= |line| && Spells(line, from, from + |key|, key)
  {
    assert forall k :: from <= k < |suffix| ==> line[k] == suffix[k];
    assert forall k :: |suffix| <= k < from + |key| ==> line[k] == word[k - |suffix|] == key[k - from];
  }

  /** Word characters alone behind an identifier belong to it. */
  lemma {:induction false} IdentRunsOn(line: string, i: nat, p: nat)
    requires i <= p <= |line| && AllWord(line, i, p)
    ensures IdentStart(line, p) == IdentStart(line, i)
    decreases p
  {
    if i < p {
      IdentRunsOn(line, i, p - 1);
    }
  }

  lemma {:induction false} LowerWord(c: char, d: char)
    requires Lower(c) == Lower(d)
    ensures IsWordChar(c) <==> IsWordChar(d)
  {
  }

  lemma SpelledIsWord(line: string, a: nat, b: nat, key: string)
    requires a <= b <= |line| && Spells(line, a, b, key)
    ensures AllWord(line, a, b) <==> AllWord(key, 0, |key|)
  {
    forall k | a <= k < b ensures IsWordChar(line[k]) <==> IsWordChar(key[k - a]) {
      LowerWord(line[k], key[k - a]);
    }
    assert forall j :: 0 <= j < |key| ==> (IsWordChar(line[a + j]) <==> IsWordChar(key[j]));
  }

  /** What the key has to be like if a whole identifier in front of a match is not seen whole. */
  lemma UnseenRunsInto(line: string, suffix: string, before: nat, at: nat, key: string)
    requires suffix != "" && suffix[0] == '=' && OccursAt(suffix, line, before) && before + |suffix| <= at <= |line|
    requires IdentIs(line, at, key) && IdentStart(line, at) < before + |suffix|
    ensures RunsInto(suffix, key)
  {
    var n, i := |suffix|, before + |suffix|;
    IdentFrom(line, i, at);
    IdentRunsOn(line, i, at);
    IdentInside(line, suffix, before, i);
    IdentStartHolds(line, at);
    var from := IdentStart(suffix, n);
    var t := n - from;
    assert IdentStart(line, at) == before + from;
    SpelledIsWord(line, before + from, at, key);
    assert forall k :: from <= k < n ==> suffix[k] == line[before + k];
  }

  /** The rule replaces the suffix wherever the key stands in front of it, in every line. */
  ghost predicate KeyedAlways(key: string, suffix: string)
    requires suffix != ""
  {
    forall line, at: nat :: IsKeyed(line, key, suffix, at) ==> KeyedTaken(line, key, suffix, at)
  }

  /** The rule never leaves the suffix in full view behind the key. */
  ghost predicate KeyedHidden(key: string, suffix: string)
    requires suffix != ""
  {
    forall line, at: nat :: IsKeyed(line, key, suffix, at) ==> !KeyedInView(line, key, suffix, at)
  }

  lemma LeftIsExplained(line: string, key: string, suffix: string, at: nat)
    requires suffix != "" && suffix[0] == '=' && IsKeyed(line, key, suffix, at) && !KeyedTaken(line, key, suffix, at)
    ensures OverlapsKeyed(suffix, key) || RunsInto(suffix, key)
  {
    if MatchAt(line, suffix, 0, at) {
      var start := MatchStart(line, suffix, 0, KeyedTakes(line, key), at);
      KeyDiffers(line, key, start, at);
      IdentFrom(line, start, at);
      MatchOccurs(line, suffix, 0, start - |suffix|);
      UnseenRunsInto(line, suffix, start - |suffix|, at, key);
    } else {
      SkippedOverlapsKeyed(line, key, suffix, at);
    }
  }

  /**
   Exactly which keyed values are replaced behind their whole key in every line: those that cannot overlap
   themselves behind the key, and that do not end in a beginning of it. Any other is left in full view by
   some line.
   */
  lemma KeyedHidesIff(key: string, suffix: string)
    requires key != "" && suffix != "" && suffix[0] == '='
    ensures KeyedAlways(key, suffix) <==> !OverlapsKeyed(suffix, key) && !RunsInto(suffix, key)
    ensures KeyedHidden(key, suffix) <==> !OverlapsKeyed(suffix, key) && !RunsInto(suffix, key)
  {
    if k: nat :| OverlapsAt(suffix, k) && IdentIs(suffix, k, key) {
      OverlapLeaksKeyed(suffix, key, k);
      LeakIsView(suffix[..k] + suffix, key, suffix, k);
    } else if RunsInto(suffix, key) {
      var word := key[|suffix| - IdentStart(suffix, |suffix|)..];
      WordIsLeft(key, suffix, word);
    } else {
      NoLeak(key, suffix);
    }
  }

  lemma RestIsWord(word: string, suffix: string, key: string)
    requires RunsInto(suffix, key) && IsRest(word, suffix, key)
    ensures AllWord(word, 0, |word|)
  {
  }

  lemma WordIsLeft(key: string, suffix: string, word: string)
    requires suffix != "" && suffix[0] == '=' && RunsInto(suffix, key) && IsRest(word, suffix, key)
    ensures !KeyedAlways(key, suffix) && !KeyedHidden(key, suffix)
  {
    RestIsWord(word, suffix, key);
    TwoSuffixesLine(suffix, word, suffix + word + suffix);
    LeftOnLine(key, suffix, word, suffix + word + suffix);
  }

  lemma LeftOnLine(key: string, suffix: string, word: string, line: string)
    requires suffix != "" && suffix[0] == '=' && RunsInto(suffix, key)
    requires IsRest(word, suffix, key) && TwoSuffixes(line, suffix, word)
    ensures !KeyedAlways(key, suffix) && !KeyedHidden(key, suffix)
  {
    RunsIntoLeaks(suffix, key, line, word);
    LeakIsView(line, key, suffix, |suffix| + |word|);
  }

  lemma NoLeak(key: string, suffix: string)
    requires suffix != "" && suffix[0] == '=' && !OverlapsKeyed(suffix, key) && !RunsInto(suffix, key)
    ensures KeyedAlways(key, suffix) && KeyedHidden(key, suffix)
  {
    forall line, at: nat | IsKeyed(line, key, suffix, at)
      ensures KeyedTaken(line, key, suffix, at) && !KeyedInView(line, key, suffix, at)
    {
      if !KeyedTaken(line, key, suffix, at) {
        LeftIsExplained(line, key, suffix, at);
      }
    }
  }

  lemma LeakIsView(line: string, key: string, suffix: string, at: nat)
    requires suffix != "" && Leaks(line, key, suffix, at)
    ensures KeyedInView(line, key, suffix, at) && !KeyedAlways(key, suffix) && !KeyedHidden(key, suffix)
  {
  }

  /**
   Exactly which keyed values are replaced behind their whole key and nowhere else, in every line: those that
   cannot overlap themselves behind the key and do not end in a word character, unless the key is no word.
   */
  lemma KeyedExactIff(key: string, suffix: string)
    requires suffix != "" && suffix[0] == '='
    ensures (forall line :: KeyedExact(line, key, suffix))
            <==> !OverlapsKeyed(suffix, key) && !(IsWordChar(suffix[|suffix| - 1]) && AllWord(key, 0, |key|))
  {
    if k: nat :| OverlapsAt(suffix, k) && IdentIs(suffix, k, key) {
      OverlapSkips(suffix, key, k);
    } else if IsWordChar(suffix[|suffix| - 1]) && AllWord(key, 0, |key|) {
      TwoSuffixesLine(suffix, key, suffix + key + suffix);
      WordTraps(suffix, key, suffix + key + suffix);
    } else {
      forall line ensures KeyedExact(line, key, suffix) {
        KeyedRuleIff(line, key, suffix);
        forall at: nat ensures !KeyTrap(line, key, suffix, at) && !KeySkipped(line, key, suffix, at) {
          if KeySkipped(line, key, suffix, at) {
            SkippedOverlapsKeyed(line, key, suffix, at);
          }
          if KeyTrap(line, key, suffix, at) {
            TrapIsWord(line, key, suffix, at);
          }
        }
      }
    }
  }

  lemma OverlapSkips(suffix: string, key: string, k: nat)
    requires suffix != "" && suffix[0] == '=' && OverlapsAt(suffix, k) && IdentIs(suffix, k, key)
    ensures !KeyedExact(suffix[..k] + suffix, key, suffix)
  {
    var line := suffix[..k] + suffix;
    OverlapWitness(suffix, k);
    IdentIsInside(line, suffix, 0, k, key);
    OnlyMatch(line, suffix, 0, k);
    KeyedRuleIff(line, key, suffix);
    assert KeySkipped(line, key, suffix, k);
  }

  lemma WordTraps(suffix: string, key: string, line: string)
    requires suffix != "" && suffix[0] == '=' && IsWordChar(suffix[|suffix| - 1]) && TwoSuffixes(line, suffix, key)
    ensures !KeyedExact(line, key, suffix)
  {
    TwoMatches(line, suffix, key);
    WordThere(line, key, |suffix|);
    KeyedRuleIff(line, key, suffix);
    assert KeyTrap(line, key, suffix, 0);
  }

  lemma TrapIsWord(line: string, key: string, suffix: string, at: nat)
    requires suffix != "" && KeyTrap(line, key, suffix, at)
    ensures IsWordChar(suffix[|suffix| - 1]) && AllWord(key, 0, |key|)
  {
    var i := at + |suffix|;
    var p := FindFrom(line, suffix, i).value;
    if Spells(line, i, p, key) {
      SpelledIsWord(line, i, p, key);
    } else {
      IdentStartHolds(line, p);
      SpelledIsWord(line, IdentStart(line, p), p, key);
    }
  }

  // Quoted values: their quote ends every identifier, so that only overlaps are left.

  predicate IsQuoted(suffix: string) {
    1 < |suffix| && suffix[0] == '=' && !IsWordChar(suffix[|suffix| - 1])
  }

  /** The quoted forms depart from the rule only where the search steps over a key. */
  lemma QuotedRuleIff(line: string, key: string, suffix: string)
    requires IsQuoted(suffix)
    ensures KeyedExact(line, key, suffix) <==> !exists at: nat :: KeySkipped(line, key, suffix, at)
    ensures (forall other :: KeyedExact(other, key, suffix)) <==> !OverlapsKeyed(suffix, key)
  {
    KeyedRuleIff(line, key, suffix);
    KeyedExactIff(key, suffix);
  }

  function Quoted(value: string, quote: char): string { "=" + [quote] + value + [quote] }

  /** They do depart: for a value that is the key and `=`, the quoted form is left in view by a line. */
  lemma QuotedLeaks(key: string, quote: char)
    requires key != "" && AllWord(key, 0, |key|) && !IsWordChar(quote)
    ensures var suffix := Quoted(key + "=", quote);
            IsQuoted(suffix) && Leaks("=" + [quote] + key + suffix, key, suffix, 2 + |key|)
  {
    var suffix, k := Quoted(key + "=", quote), 2 + |key|;
    var head := "=" + [quote] + key;
    assert suffix == head + ("=" + [quote]);
    assert suffix[..k] == head && suffix[k..] == "=" + [quote] == suffix[..2];
    QuotedIdent(suffix, key, quote);
    OverlapLeaksKeyed(suffix, key, k);
  }

  lemma QuotedIdent(suffix: string, key: string, quote: char)
    requires 2 + |key| <= |suffix| && suffix[..2 + |key|] == "=" + [quote] + key
    requires AllWord(key, 0, |key|) && !IsWordChar(quote)
    ensures IdentIs(suffix, 2 + |key|, key)
  {
    var k := 2 + |key|;
    assert forall j :: 0 <= j < |key| ==> suffix[..k][2 + j] == key[j] == suffix[2 + j];
    assert suffix[1] == suffix[..k][1] == quote;
    IdentHere(suffix, key, 2);
  }

  // The two rules as they run: a short value goes through the token rule first.

  function AloneByRule(line: string, secret: string): string
    requires secret != ""
  {
    Rewritten(line, 0, |secret|, MASK, (at: nat) => StandsAlone(line, secret, at))
  }

  /** The value that a line is masked for, by the documented rules. */
  function ShortByRule(line: string, key: string, value: string): string
    requires key != "" && value != ""
  {
    var bare := KeyedByRule(AloneByRule(line, value), key, "=" + value);
    var single := KeyedByRule(bare, key, "='" + value + "'");
    KeyedByRule(single, key, "=\"" + value + "\"")
  }

  /** Each of the four passes meets nothing that it gets wrong. */
  ghost predicate NothingWrong(line: string, key: string, value: string)
    requires key != "" && value != ""
  {
    var alone := AloneByRule(line, value);
    var bare := KeyedByRule(alone, key, "=" + value);
    var single := KeyedByRule(bare, key, "='" + value + "'");
    && TokenExact(line, value) && KeyedExact(alone, key, "=" + value)
    && KeyedExact(bare, key, "='" + value + "'") && KeyedExact(single, key, "=\"" + value + "\"")
  }

  /** What runs for one short value is the documented rules, one after the other. */
  lemma ShortIsRule(line: string, key: string, value: string)
    requires key != "" && value != "" && NothingWrong(line, key, value)
    ensures KeyedMasked(TokenMasked(line, value), key, value) == ShortByRule(line, key, value)
  {
    var alone := AloneByRule(line, value);
    var bare := KeyedByRule(alone, key, "=" + value);
    var single := KeyedByRule(bare, key, "='" + value + "'");
    TokenRuleIff(line, value);
    KeyedRuleIff(alone, key, "=" + value);
    KeyedRuleIff(bare, key, "='" + value + "'");
    KeyedRuleIff(single, key, "=\"" + value + "\"");
  }

  /** Values for which that is so in every line, whatever the key. */
  lemma NeverWrong(line: string, key: string, value: string)
    requires key != "" && value != "" && !IsWordChar(value[|value| - 1]) && !OverlapsOpenly(value)
    requires !OverlapsKeyed("=" + value, key) && !OverlapsKeyed("='" + value + "'", key)
    requires !OverlapsKeyed("=\"" + value + "\"", key)
    ensures NothingWrong(line, key, value)
  {
    var bare, single, double := "=" + value, "='" + value + "'", "=\"" + value + "\"";
    assert bare[|bare| - 1] == value[|value| - 1];
    TokenExactIff(value);
    KeyedExactIff(key, bare);
    KeyedExactIff(key, single);
    KeyedExactIff(key, double);
  }

  // Lines that come through all of it unchanged, with a value behind its key.

  /** Nothing of the line is replaced by what runs for this short value, though the key stands before it. */
  ghost predicate ComesThrough(line: string, key: string, value: string, at: nat)
    requires key != "" && value != ""
  {
    && IsKeyed(line, key, "=" + value, at)
    && TokenMasked(line, value) == line && KeyedMasked(line, key, value) == line
  }

  lemma NoTokenTaken(line: string, secret: string)
    requires secret != "" && forall q: nat :: !TokenTaken(line, secret, q)
    ensures TokenMasked(line, secret) == line
  {
    TokenWrites(line, secret);
    NothingTaken(line, |secret|, MASK, (at: nat) => TokenTaken(line, secret, at));
  }

  lemma CharThere(needle: string, line: string, at: nat, j: nat)
    requires OccursAt(needle, line, at) && j < |needle|
    ensures line[at + j] == needle[j] && needle[j] in line
  {
  }

  /** A line without the quote holds no quoted form. */
  lemma NoQuote(line: string, key: string, value: string, quote: char)
    requires quote !in line
    ensures KeyedReplaced(line, key, Quoted(value, quote)) == line
  {
    var suffix := Quoted(value, quote);
    FindsFirst(line, suffix, 0);
    forall q: nat ensures !OccursAt(suffix, line, q) {
      NotThere(suffix, line, q, 1);
    }
    WriteEnd("", line, suffix, KeyedShown(key, suffix));
    assert "" + line == line;
  }

  lemma OnlyBare(line: string, key: string, value: string)
    requires key != "" && value != "" && '\'' !in line && '"' !in line
    requires forall q: nat :: !KeyedTaken(line, key, "=" + value, q)
    ensures KeyedMasked(line, key, value) == line
  {
    NoneTaken(line, key, "=" + value);
    NoQuote(line, key, value, '\'');
    NoQuote(line, key, value, '"');
    assert Quoted(value, '\'') == "='" + value + "'" && Quoted(value, '"') == "=\"" + value + "\"";
  }

  lemma TwoTokens(line: string, secret: string, p: nat, q: nat)
    requires secret != "" && FindFrom(line, secret, 0) == Some(p) && FindFrom(line, secret, p + |secret|) == Some(q)
    requires FindFrom(line, secret, q + |secret|) == None
    requires !RightFree(line, p + |secret|) && !RightFree(line, q + |secret|)
    ensures forall at: nat :: !TokenTaken(line, secret, at)
  {
    var takes, n := TokenTakes(line, secret), |secret|;
    assert !takes(0, p) && !takes(p + n, q);
    forall at: nat ensures !TokenTaken(line, secret, at) {
      TwoTaken(line, secret, takes, p, q, at);
    }
  }

  /** `name=value` twice, and a word character behind the second value. */
  predicate Behind(line: string, name: string, value: string) {
    var a, n := |name|, |value|;
    && |line| == a + 1 + n + a + 1 + n + 1
    && OccursAt(name, line, 0) && line[a] == '=' && OccursAt(value, line, a + 1)
    && OccursAt(name, line, a + 1 + n) && line[a + 1 + n + a] == '=' && OccursAt(value, line, a + 1 + n + a + 1)
    && IsWordChar(line[|line| - 1]) && value != [line[|line| - 1]]
  }

  /** Words, and the value not in the name: the token rule sees two matches, and neither is free on its right. */
  lemma BehindTokens(line: string, name: string, value: string)
    requires name != "" && value != "" && AllWord(name, 0, |name|) && AllWord(value, 0, |value|)
    requires !Occurs(value, name) && Behind(line, name, value)
    ensures forall at: nat :: !TokenTaken(line, value, at)
  {
    var a, n := |name|, |value|;
    var s, e := a + 1, a + 1 + n + a;
    NotInName(line, name, value, 0, 0, a);
    NotInName(line, name, value, s + n, s + n, e);
    FindsFirst(line, value, 0);
    FindsFirst(line, value, s + n);
    assert FindFrom(line, value, 0) == Some(s) && FindFrom(line, value, s + n) == Some(e + 1);
    assert line[s + n] == name[0] && line[e + 1 + n] == line[|line| - 1];
    FindsFirst(line, value, e + 1 + n);
    NotTheRest(line, value, |line| - 1);
    TwoTokens(line, value, s, e + 1);
  }

  lemma NotTheRest(line: string, value: string, last: nat)
    requires value != "" && |line| == last + 1 && value != [line[last]]
    ensures FindFrom(line, value, last) == None
  {
    if |value| == 1 {
      assert value == [value[0]];
      NotThere(value, line, last, 0);
    }
  }

  /** In front of the next `=` there is the name alone, which does not hold the value. */
  lemma NotInName(line: string, name: string, value: string, at: nat, i: nat, end: nat)
    requires OccursAt(name, line, at) && i == at && end == at + |name| < |line| && line[end] == '='
    requires value != "" && AllWord(value, 0, |value|) && !Occurs(value, name)
    ensures forall q: nat :: i <= q <= end ==> !OccursAt(value, line, q)
  {
    forall q: nat | i <= q <= end ensures !OccursAt(value, line, q) {
      if OccursAt(value, line, q) {
        StaysInWord(line, value, q, end);
        OccursInWord(line, name, value, at, q);
      }
    }
  }

  lemma StaysInWord(line: string, value: string, q: nat, end: nat)
    requires OccursAt(value, line, q) && AllWord(value, 0, |value|)
    requires q <= end < |line| && !IsWordChar(line[end])
    ensures q + |value| <= end
  {
    if end < q + |value| {
      CharThere(value, line, q, end - q);
    }
  }

  lemma OccursInWord(line: string, name: string, value: string, at: nat, q: nat)
    requires OccursAt(name, line, at) && OccursAt(value, line, q) && at <= q && q + |value| <= at + |name|
    ensures OccursAt(value, name, q - at) && Occurs(value, name)
  {
    assert forall k :: 0 <= k < |value| ==> value[k] == line[q + k] == name[q - at + k];
  }

  lemma SuffixThere(line: string, value: string, at: nat)
    requires at < |line| && line[at] == '=' && OccursAt(value, line, at + 1)
    ensures OccursAt("=" + value, line, at)
  {
  }

  lemma BehindMatches(line: string, name: string, value: string)
    requires value != "" && AllWord(name, 0, |name|) && Behind(line, name, value)
    ensures var s, a, e := "=" + value, |name|, |name| + 1 + |value| + |name|;
            && FindFrom(line, s, 0) == Some(a) && FindFrom(line, s, a + |s|) == Some(e)
            && FindFrom(line, s, e + |s|) == None && OccursAt(s, line, e)
  {
    var s, a := "=" + value, |name|;
    var e := a + 1 + |value| + a;
    SuffixThere(line, value, a);
    SuffixThere(line, value, e);
    WordThere(line, name, 0);
    WordThere(line, name, a + |s|);
    FindsSuffix(line, 0, a, s);
    FindsSuffix(line, a + |s|, e, s);
  }

  /** Both matches have a shorter word than the key in front, as far as the loop sees. */
  lemma TwoShort(line: string, key: string, suffix: string, p: nat, q: nat)
    requires suffix != "" && FindFrom(line, suffix, 0) == Some(p) && FindFrom(line, suffix, p + |suffix|) == Some(q)
    requires FindFrom(line, suffix, q + |suffix|) == None && p < |key| && q - p - |suffix| < |key|
    ensures forall at: nat :: !KeyedTaken(line, key, suffix, at)
  {
    var takes, n := KeyedTakes(line, key), |suffix|;
    assert !takes(0, p) && !takes(p + n, q);
    forall at: nat ensures !KeyedTaken(line, key, suffix, at) {
      TwoTaken(line, suffix, takes, p, q, at);
    }
  }

  lemma JoinedThere(line: string, u: string, v: string, at: nat)
    requires OccursAt(u, line, at) && OccursAt(v, line, at + |u|)
    ensures OccursAt(u + v, line, at)
  {
  }

  /** A word behind another byte is the whole identifier. */
  lemma IdentHere(line: string, key: string, at: nat)
    requires OccursAt(key, line, at) && AllWord(key, 0, |key|) && 0 < at && !IsWordChar(line[at - 1])
    ensures IdentIs(line, at + |key|, key)
  {
    WordThere(line, key, at);
    IdentRunsOn(line, at, at + |key|);
    assert forall k :: at <= k < at + |key| ==> line[k] == key[k - at];
  }

  lemma IdentOfTwo(line: string, u: string, v: string, key: string, at: nat)
    requires key == u + v && AllWord(u, 0, |u|) && AllWord(v, 0, |v|)
    requires OccursAt(u, line, at) && OccursAt(v, line, at + |u|) && 0 < at && !IsWordChar(line[at - 1])
    ensures at + |u| + |v| <= |line| && IdentIs(line, at + |u| + |v|, key)
  {
    JoinedThere(line, u, v, at);
    WordsJoin(u, v);
    IdentHere(line, key, at);
  }

  lemma WordsJoin(u: string, v: string)
    requires AllWord(u, 0, |u|) && AllWord(v, 0, |v|)
    ensures |u + v| == |u| + |v| && AllWord(u + v, 0, |u + v|)
  {
  }

  lemma BehindIdent(line: string, name: string, value: string, key: string)
    requires AllWord(name, 0, |name|) && AllWord(value, 0, |value|) && key == value + name
    requires |name| < |line| && line[|name|] == '='
    requires OccursAt(value, line, |name| + 1) && OccursAt(name, line, |name| + 1 + |value|)
    ensures |name| + 1 + |value| + |name| <= |line| && IdentIs(line, |name| + 1 + |value| + |name|, key)
  {
    IdentOfTwo(line, value, name, key, |name| + 1);
  }

  lemma BehindKeyed(line: string, name: string, value: string, key: string)
    requires value != "" && AllWord(name, 0, |name|) && AllWord(value, 0, |value|) && Behind(line, name, value)
    requires key == value + name
    ensures IsKeyed(line, key, "=" + value, |name| + 1 + |value| + |name|)
  {
    BehindIdent(line, name, value, key);
    SuffixThere(line, value, |name| + 1 + |value| + |name|);
  }

  lemma BehindNotTaken(line: string, name: string, value: string, key: string)
    requires value != "" && AllWord(name, 0, |name|) && Behind(line, name, value) && |key| == |value| + |name|
    ensures forall at: nat :: !KeyedTaken(line, key, "=" + value, at)
  {
    BehindMatches(line, name, value);
    TwoShort(line, key, "=" + value, |name|, |name| + 1 + |value| + |name|);
  }

  lemma WordsAndEquals(line: string, key: string, value: string)
    requires key != "" && value != "" && forall k :: 0 <= k < |line| ==> IsWordChar(line[k]) || line[k] == '='
    requires forall at: nat :: !KeyedTaken(line, key, "=" + value, at)
    ensures KeyedMasked(line, key, value) == line
  {
    OnlyBare(line, key, value);
  }

  /**
   The key of the second value is the first value and the name behind it. The line comes through, because the
   loop for the bare form sees the name alone.
   */
  lemma KeyBehindValue(line: string, name: string, value: string)
    requires name != "" && value != "" && AllWord(name, 0, |name|) && AllWord(value, 0, |value|)
    requires !Occurs(value, name) && Behind(line, name, value)
    ensures ComesThrough(line, value + name, value, |name| + 1 + |value| + |name|)
  {
    BehindTokens(line, name, value);
    NoTokenTaken(line, value);
    BehindKeyed(line, name, value, value + name);
    BehindNotTaken(line, name, value, value + name);
    BehindIsWords(line, name, value);
    WordsAndEquals(line, value + name, value);
  }

  lemma BehindIsWords(line: string, name: string, value: string)
    requires AllWord(name, 0, |name|) && AllWord(value, 0, |value|) && Behind(line, name, value)
    ensures forall k :: 0 <= k < |line| ==> IsWordChar(line[k]) || line[k] == '='
  {
    var a, n := |name|, |value|;
    WordThere(line, name, 0);
    WordThere(line, value, a + 1);
    WordThere(line, name, a + 1 + n);
    WordThere(line, value, a + 1 + n + a + 1);
  }

  /** `=key=key=` and a word character. */
  predicate Overlapped(line: string, key: string) {
    && |line| == |key| + |key| + 4 && IsWordChar(line[|line| - 1])
    && line[0] == '=' && OccursAt(key, line, 1) && line[|key| + 1] == '='
    && OccursAt(key, line, |key| + 2) && line[|key| + |key| + 2] == '='
  }

  /** The value is the key and `=`. The line comes through, because the search steps over its second copy. */
  lemma KeyStepsOver(line: string, key: string)
    requires key != "" && AllWord(key, 0, |key|) && Overlapped(line, key)
    ensures ComesThrough(line, key, key + "=", |key| + 1)
  {
    var value := key + "=";
    SteppedTokens(line, key, value);
    NoTokenTaken(line, value);
    SteppedKeyed(line, key, value);
    SteppedIsWords(line, key);
    WordsAndEquals(line, key, value);
  }

  lemma SteppedIsWords(line: string, key: string)
    requires AllWord(key, 0, |key|) && Overlapped(line, key)
    ensures forall k :: 0 <= k < |line| ==> IsWordChar(line[k]) || line[k] == '='
  {
    WordThere(line, key, 1);
    WordThere(line, key, |key| + 2);
  }

  lemma SteppedTokens(line: string, key: string, value: string)
    requires key != "" && AllWord(key, 0, |key|) && Overlapped(line, key) && value == key + "="
    ensures forall at: nat :: !TokenTaken(line, value, at)
  {
    var k := |key|;
    assert OccursAt(value, line, 1) && OccursAt(value, line, k + 2);
    FindsFirst(line, value, 0);
    NotThere(value, line, 0, 0);
    CharThere(key, line, k + 2, 0);
    assert FindFrom(line, value, 1 + |value|) == Some(k + 2) && FindFrom(line, value, k + 2 + |value|) == None;
    TwoTokens(line, value, 1, k + 2);
  }

  lemma SteppedKeyed(line: string, key: string, value: string)
    requires key != "" && AllWord(key, 0, |key|) && Overlapped(line, key) && value == key + "="
    ensures IsKeyed(line, key, "=" + value, |key| + 1)
    ensures forall at: nat :: !KeyedTaken(line, key, "=" + value, at)
  {
    var s, k, takes := "=" + value, |key|, KeyedTakes(line, key);
    assert OccursAt(s, line, 0) && OccursAt(s, line, k + 1);
    assert FindFrom(line, s, 0) == Some(0);
    CharThere(key, line, k + 2, 0);
    FindsFirst(line, s, |s|);
    NotThere(s, line, |s|, 0);
    assert FindFrom(line, s, |s|) == None;
    EdgeNotTaken(line, key, s);
    forall at: nat ensures !KeyedTaken(line, key, s, at) {
      assert !TakenAt(line, s, |s|, takes, at);
    }
    IdentHere(line, key, 1);
  }

  /** The shortest line of the first kind. */
  lemma BehindExample()
    ensures ComesThrough("K=vK=vX", "vK", "v", 4)
  {
    var line, name, value := "K=vK=vX", "K", "v";
    assert value + name == "vK";
    assert Behind(line, name, value);
    forall q ensures !OccursAt(value, name, q) {
      assert name[0] != value[0];
    }
    KeyBehindValue(line, name, value);
  }

  /** The shortest line of the second kind. */
  lemma StepsOverExample()
    ensures ComesThrough("=a=a=X", "a", "a=", 2)
  {
    assert "a" + "=" == "a=";
    assert Overlapped("=a=a=X", "a");
    KeyStepsOver("=a=a=X", "a");
  }
}
