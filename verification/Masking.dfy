/** The stateless redaction helpers: greedy search, `mask_line`, `mask_token`, `mask_keyed`, `prepare_masks`. */
module Masking {
  import opened Text
  import opened Shadows
  import Orders

  /** `str::find` from byte `i` on. */
  function FindFrom(hay: string, needle: string, i: nat): (r: Option<nat>)
    ensures r.Some? ==> i <= r.value && r.value + |needle| <= |hay|
    decreases |hay| - i
  {
    if |hay| < i + |needle| then None
    else if OccursAt(needle, hay, i) then Some(i)
    else if i == |hay| then None
    else FindFrom(hay, needle, i + 1)
  }

  /** The search finds the first occurrence, or there is none. */
  lemma {:induction false} FindsFirst(hay: string, needle: string, i: nat)
    ensures var r := FindFrom(hay, needle, i);
            && (r.Some? ==> OccursAt(needle, hay, r.value))
            && forall k :: i <= k && OccursAt(needle, hay, k) ==> r.Some? && r.value <= k
    decreases |hay| - i
  {
    if i + |needle| <= |hay| && !OccursAt(needle, hay, i) && i < |hay| {
      FindsFirst(hay, needle, i + 1);
    }
  }

  /** `str::match_indices`: greedy and non-overlapping. */
  function MatchIndices(hay: string, needle: string, i: nat): seq<nat>
    requires needle != ""
    decreases |hay| - i
  {
    match FindFrom(hay, needle, i)
    case None => []
    case Some(p) => [p] + MatchIndices(hay, needle, p + |needle|)
  }

  lemma {:induction false} MatchesOccur(hay: string, needle: string, i: nat)
    requires needle != ""
    ensures forall p :: p in MatchIndices(hay, needle, i) ==> i <= p && OccursAt(needle, hay, p)
    decreases |hay| - i
  {
    FindsFirst(hay, needle, i);
    match FindFrom(hay, needle, i)
    case None =>
    case Some(p) => MatchesOccur(hay, needle, p + |needle|);
  }

  /** A greedy search may skip an occurrence, but only one that overlaps a match it chose. */
  lemma {:induction false} EveryOccurrenceMeetsAMatch(hay: string, needle: string, i: nat, at: nat) returns (p: nat)
    requires needle != "" && i <= at && OccursAt(needle, hay, at)
    ensures p in MatchIndices(hay, needle, i) && p <= at < p + |needle|
    decreases |hay| - i
  {
    FindsFirst(hay, needle, i);
    p := FindFrom(hay, needle, i).value;
    if p + |needle| <= at {
      var first := p;
      p := EveryOccurrenceMeetsAMatch(hay, needle, first + |needle|, at);
      assert MatchIndices(hay, needle, i) == [first] + MatchIndices(hay, needle, first + |needle|);
    } else {
      assert MatchIndices(hay, needle, i)[0] == p;
    }
  }

  /** Two copies of `v` can lie `k` apart and overlap. */
  predicate OverlapsAt(v: string, k: nat) { 0 < k < |v| && v[k..] == v[..|v| - k] }

  ghost predicate Overlaps(v: string) { exists k: nat :: OverlapsAt(v, k) }

  /** The search chooses every occurrence of `v` in the line. */
  ghost predicate ChoosesAll(v: string, line: string)
    requires v != ""
  {
    forall at: nat :: OccursAt(v, line, at) ==> at in MatchIndices(line, v, 0)
  }

  lemma TwoOccurrences(v: string, line: string, p: nat, at: nat)
    requires OccursAt(v, line, p) && OccursAt(v, line, at) && p < at < p + |v|
    ensures OverlapsAt(v, at - p)
  {
    var k := at - p;
    forall j | 0 <= j < |v| - k ensures v[k..][j] == v[..|v| - k][j] {
      assert v[k + j] == line[p + (k + j)] == line[at + j] == v[j];
    }
  }

  /** `v` and its last `k` bytes again: `v` lies at 0 and at `k`, and the search chooses the first alone. */
  lemma OverlapWitness(v: string, k: nat)
    requires OverlapsAt(v, k)
    ensures var line := v[..k] + v;
            && OccursAt(v, line, 0) && OccursAt(v, line, k)
            && MatchIndices(line, v, 0) == [0] && !ChoosesAll(v, line)
  {
    var line := v[..k] + v;
    assert v == v[..k] + v[k..] == v[..k] + v[..|v| - k];
    assert OccursAt(v, line, 0) && OccursAt(v, line, k);
    assert FindFrom(line, v, 0) == Some(0) && FindFrom(line, v, |v|) == None;
    assert MatchIndices(line, v, |v|) == [];
  }

  /** Exactly when the search chooses every occurrence in every line: when `v` cannot overlap itself. */
  lemma ChoosesAllIff(v: string)
    requires v != ""
    ensures (forall line :: ChoosesAll(v, line)) <==> !Overlaps(v)
  {
    if k: nat :| OverlapsAt(v, k) {
      OverlapWitness(v, k);
      assert !ChoosesAll(v, v[..k] + v);
    } else {
      forall line, at: nat | OccursAt(v, line, at) ensures at in MatchIndices(line, v, 0) {
        ChosenUnlessOverlapping(v, line, at);
      }
    }
  }

  lemma ChosenUnlessOverlapping(v: string, line: string, at: nat)
    requires v != "" && !Overlaps(v) && OccursAt(v, line, at)
    ensures at in MatchIndices(line, v, 0)
  {
    var p := EveryOccurrenceMeetsAMatch(line, v, 0, at);
    MatchesOccur(line, v, 0);
    if p < at {
      TwoOccurrences(v, line, p, at);
    }
  }

  /** `str::replace(needle, MASK)`. */
  function Replace(hay: string, needle: string): string
    requires needle != ""
  {
    match FindFrom(hay, needle, 0)
    case None => hay
    case Some(p) => hay[..p] + MASK + Replace(hay[p + |needle|..], needle)
  }

  /** A text that is star-free survives the junctions around a MASK only on one side of it. */
  lemma AcrossMask(a: string, b: string, text: string, at: int)
    requires StarFree(text) && text != "" && OccursAt(text, a + MASK + b, at)
    ensures at + |text| <= |a| || |a| + 3 <= at
    ensures at + |text| <= |a| ==> OccursAt(text, a, at)
    ensures |a| + 3 <= at ==> OccursAt(text, b, at - |a| - 3)
  {
    var s := a + MASK + b;
    assert forall k :: 0 <= k < |text| ==> text[k] in text;
    assert forall k :: 0 <= k < |text| ==> text[k] == s[at + k];
    assert s[|a|] == '*' && s[|a| + 1] == '*' && s[|a| + 2] == '*';
    var star := if at <= |a| then |a| - at else 0;
    assert 0 <= star < |text| ==> text[star] != '*';
  }

  lemma Inside(s: string, from: nat, to: nat, text: string, at: int)
    requires 0 <= from <= to <= |s| && OccursAt(text, s[from..to], at)
    ensures OccursAt(text, s, from + at)
  {
  }

  /** Replacing one value never forms another. */
  lemma {:induction false} ReplaceFormsNothing(hay: string, needle: string, text: string)
    requires needle != "" && StarFree(text) && text != "" && Occurs(text, Replace(hay, needle))
    ensures Occurs(text, hay)
    decreases |hay|
  {
    match FindFrom(hay, needle, 0)
    case None =>
    case Some(p) =>
      var rest := hay[p + |needle|..];
      var at :| OccursAt(text, Replace(hay, needle), at);
      AcrossMask(hay[..p], Replace(rest, needle), text, at);
      if at + |text| <= p {
        Inside(hay, 0, p, text, at);
      } else {
        assert Occurs(text, Replace(rest, needle));
        ReplaceFormsNothing(rest, needle, text);
        var inner :| OccursAt(text, rest, inner);
        assert rest == hay[p + |needle|..|hay|];
        Inside(hay, p + |needle|, |hay|, text, inner);
      }
  }

  /** A replaced star-free value is gone, even one that overlaps itself. */
  lemma {:induction false} ReplaceRemoves(hay: string, needle: string)
    requires needle != "" && StarFree(needle)
    ensures !Occurs(needle, Replace(hay, needle))
    decreases |hay|
  {
    FindsFirst(hay, needle, 0);
    match FindFrom(hay, needle, 0)
    case None =>
    case Some(p) =>
      var rest := hay[p + |needle|..];
      ReplaceRemoves(rest, needle);
      forall at ensures !OccursAt(needle, Replace(hay, needle), at) {
        if OccursAt(needle, Replace(hay, needle), at) {
          AcrossMask(hay[..p], Replace(rest, needle), needle, at);
          if at + |needle| <= p {
            Inside(hay, 0, p, needle, at);
          }
        }
      }
  }

  /** The values of `masks` replaced one after the other; an empty value is skipped. */
  function MaskAll(line: string, masks: seq<string>): string {
    if masks == [] then line
    else
      var init := MaskAll(line, masks[..|masks| - 1]);
      var last := masks[|masks| - 1];
      if last == "" then init else Replace(init, last)
  }

  method MaskLine(line: string, masks: seq<string>) returns (out: string)
    ensures out == MaskAll(line, masks)
  {
    if masks == [] {
      return line;
    }
    out := line;
    for i := 0 to |masks|
      invariant out == MaskAll(line, masks[..i])
    {
      assert masks[..i + 1][..i] == masks[..i];
      if masks[i] != "" {
        out := Replace(out, masks[i]);
      }
    }
    assert masks[..|masks|] == masks;
  }

  lemma {:induction false} MaskAllFormsNothing(line: string, masks: seq<string>, text: string)
    requires StarFree(text) && text != "" && Occurs(text, MaskAll(line, masks))
    ensures Occurs(text, line)
  {
    if masks != [] {
      var last := masks[|masks| - 1];
      var init := masks[..|masks| - 1];
      if last != "" {
        ReplaceFormsNothing(MaskAll(line, init), last, text);
      }
      MaskAllFormsNothing(line, init, text);
    }
  }

  /** No star-free value of the set is left in a masked line. */
  lemma {:induction false} MaskLineHides(line: string, masks: seq<string>, secret: string)
    requires secret in masks && secret != "" && StarFree(secret)
    ensures !Occurs(secret, MaskAll(line, masks))
  {
    var last := masks[|masks| - 1];
    var init := masks[..|masks| - 1];
    if secret == last {
      ReplaceRemoves(MaskAll(line, init), secret);
    } else {
      var i :| 0 <= i < |masks| && masks[i] == secret;
      assert init[i] == secret;
      MaskLineHides(line, init, secret);
      if last != "" && Occurs(secret, MaskAll(line, masks)) {
        ReplaceFormsNothing(MaskAll(line, init), last, secret);
      }
    }
  }

  lemma {:induction false} MaskAllAbsent(line: string, masks: seq<string>)
    requires forall m :: m in masks && m != "" ==> !Occurs(m, line)
    ensures MaskAll(line, masks) == line
  {
    if masks != [] {
      var last := masks[|masks| - 1];
      MaskAllAbsent(line, masks[..|masks| - 1]);
      if last != "" {
        assert last in masks;
        FindsFirst(line, last, 0);
      }
    }
  }

  /** Masking a masked line changes nothing. */
  lemma MaskLineIdempotent(line: string, masks: seq<string>)
    requires forall m :: m in masks ==> StarFree(m)
    ensures MaskAll(MaskAll(line, masks), masks) == MaskAll(line, masks)
  {
    forall m | m in masks && m != "" ensures !Occurs(m, MaskAll(line, masks)) {
      MaskLineHides(line, masks, m);
    }
    MaskAllAbsent(MaskAll(line, masks), masks);
  }

  /** Longest first; values of one length in byte order. */
  predicate MaskLe(a: string, b: string) {
    |b| < |a| || (|a| == |b| && StrLe(a, b))
  }

  /** `Vec::dedup`: of a run of equal neighbours only the first stays. */
  function Dedup(s: seq<string>): seq<string> {
    if |s| <= 1 then s
    else if s[0] == s[1] then Dedup(s[1..])
    else [s[0]] + Dedup(s[1..])
  }

  function NonEmpty(s: seq<string>): (r: seq<string>)
    ensures forall x :: x in r <==> x in s && x != ""
  {
    if s == [] then [] else (if s[0] == "" then [] else [s[0]]) + NonEmpty(s[1..])
  }

  function PrepareMasks(secrets: seq<string>): seq<string> {
    Dedup(Orders.Sort(MaskLe, NonEmpty(secrets)))
  }

  lemma MaskOrder()
    ensures Orders.TotalPreorder(MaskLe) && Orders.Antisymmetric(MaskLe)
  {
    forall a, b ensures MaskLe(a, b) || MaskLe(b, a) { StrLeTotal(a, b); }
    forall a, b, c | MaskLe(a, b) && MaskLe(b, c) ensures MaskLe(a, c) {
      if |a| == |c| { StrLeTransitive(a, b, c); }
    }
    forall a, b | MaskLe(a, b) && MaskLe(b, a) ensures a == b { StrLeAntisymmetric(a, b); }
  }

  lemma {:induction false} DedupSorted(s: seq<string>)
    requires Orders.Sorted(MaskLe, s)
    ensures Orders.Sorted(MaskLe, Dedup(s)) && Distinct(Dedup(s))
    ensures forall x :: x in Dedup(s) <==> x in s
    ensures s != [] ==> Dedup(s) != [] && Dedup(s)[0] == s[0]
  {
    if 1 < |s| {
      DedupSorted(s[1..]);
      var rest := Dedup(s[1..]);
      assert forall x :: x in s <==> x == s[0] || x in s[1..];
      if s[0] != s[1] {
        forall j | 0 <= j < |rest| ensures s[0] != rest[j] && MaskLe(s[0], rest[j]) {
          assert rest[j] in s[1..];
          MaskOrder();
          assert MaskLe(s[1], rest[j]) && MaskLe(s[0], s[1]);
        }
      }
    }
  }

  /** `prepare_masks` keeps exactly the non-empty values, each once, longest first. */
  lemma PrepareMasksHolds(secrets: seq<string>)
    ensures forall x :: x in PrepareMasks(secrets) <==> x in secrets && x != ""
    ensures Distinct(PrepareMasks(secrets)) && Orders.Sorted(MaskLe, PrepareMasks(secrets))
  {
    MaskOrder();
    var s := NonEmpty(secrets);
    Orders.SortSorted(MaskLe, s);
    Orders.SortElements(MaskLe, s);
    DedupSorted(Orders.Sort(MaskLe, s));
  }

  lemma {:induction false} DistinctCounts(s: seq<string>)
    requires Distinct(s)
    ensures forall x :: multiset(s)[x] == if x in s then 1 else 0
  {
    if s != [] {
      DistinctCounts(s[1..]);
      assert s == [s[0]] + s[1..];
    }
  }

  /** The prepared list depends on the set of non-empty values alone, not on how they arrived. */
  lemma PrepareMasksCanonical(a: seq<string>, b: seq<string>)
    requires forall x :: x != "" ==> (x in a <==> x in b)
    ensures PrepareMasks(a) == PrepareMasks(b)
  {
    PrepareMasksHolds(a);
    PrepareMasksHolds(b);
    MaskOrder();
    SameDistinct(PrepareMasks(a), PrepareMasks(b));
    Orders.SortedByElements(MaskLe, PrepareMasks(a), PrepareMasks(b));
  }

  lemma SameDistinct(a: seq<string>, b: seq<string>)
    requires Distinct(a) && Distinct(b) && forall x :: x in a <==> x in b
    ensures multiset(a) == multiset(b)
  {
    DistinctCounts(a);
    DistinctCounts(b);
  }

  // The narrow rules for values below the masking threshold.

  /** What is written for a match: the text still to read, and where in it the match is. */
  type Verdict = (string, nat) -> string

  /** The loop of both rules: `out` is what is written so far, `rest` the text still to read. */
  function WriteFrom(out: string, rest: string, needle: string, shown: Verdict): string
    requires needle != ""
    decreases |rest|
  {
    match FindFrom(rest, needle, 0)
    case None => out + rest
    case Some(p) => WriteFrom(out + rest[..p] + shown(rest, p), rest[p + |needle|..], needle, shown)
  }

  lemma WriteStep(out: string, rest: string, needle: string, shown: Verdict, p: nat, next: string)
    requires needle != "" && FindFrom(rest, needle, 0) == Some(p) && next == out + rest[..p] + shown(rest, p)
    ensures WriteFrom(out, rest, needle, shown) == WriteFrom(next, rest[p + |needle|..], needle, shown)
  {
  }

  lemma WriteEnd(out: string, rest: string, needle: string, shown: Verdict)
    requires needle != "" && FindFrom(rest, needle, 0) == None
    ensures WriteFrom(out, rest, needle, shown) == out + rest
  {
  }

  /** A match is judged by its right neighbour, and by its left one in the text still to read. */
  function TokenShown(secret: string): Verdict {
    (rest: string, p: nat) =>
      if p + |secret| <= |rest| && (p == 0 || !IsWordChar(rest[p - 1]))
         && (p + |secret| == |rest| || !IsWordChar(rest[p + |secret|]))
      then MASK else secret
  }

  function TokenFrom(out: string, rest: string, secret: string): string
    requires secret != ""
  {
    WriteFrom(out, rest, secret, TokenShown(secret))
  }

  function TokenMasked(line: string, secret: string): string {
    if secret == "" then line else TokenFrom("", line, secret)
  }

  /** What is written once one more match is judged. */
  method NextToken(out: string, rest: string, secret: string, p: nat) returns (next: string)
    requires secret != "" && FindFrom(rest, secret, 0) == Some(p)
    ensures TokenFrom(out, rest, secret) == TokenFrom(next, rest[p + |secret|..], secret)
  {
    var before, tail := rest[..p], rest[p + |secret|..];
    var leftOk := before == "" || !IsWordChar(before[|before| - 1]);
    var rightOk := tail == "" || !IsWordChar(tail[0]);
    next := out + before;
    next := next + (if leftOk && rightOk then MASK else secret);
    WriteStep(out, rest, secret, TokenShown(secret), p, next);
  }

  method MaskToken(line: string, secret: string) returns (out: string)
    ensures out == TokenMasked(line, secret)
  {
    if secret == "" {
      return line;
    }
    out := "";
    var rest := line;
    var found := FindFrom(rest, secret, 0);
    while found.Some?
      invariant found == FindFrom(rest, secret, 0)
      invariant TokenFrom(out, rest, secret) == TokenFrom("", line, secret)
      decreases |rest|
    {
      out := NextToken(out, rest, secret, found.value);
      rest := rest[found.value + |secret|..];
      found := FindFrom(rest, secret, 0);
    }
    WriteEnd(out, rest, secret, TokenShown(secret));
    out := out + rest;
  }

  /** Where the identifier that ends at `p` begins. */
  function IdentStart(s: string, p: nat): (i: nat)
    requires p <= |s|
    ensures i <= p
  {
    if p == 0 || !IsWordChar(s[p - 1]) then p else IdentStart(s, p - 1)
  }

  /** The identifier is whole: all of it is word characters, and none stands before it. */
  lemma {:induction false} IdentStartHolds(s: string, p: nat)
    requires p <= |s|
    ensures forall k :: IdentStart(s, p) <= k < p ==> IsWordChar(s[k])
    ensures 0 < IdentStart(s, p) ==> !IsWordChar(s[IdentStart(s, p) - 1])
  {
    if p != 0 && IsWordChar(s[p - 1]) {
      IdentStartHolds(s, p - 1);
    }
  }

  function Lower(c: char): char {
    if 'A' <= c <= 'Z' then (c as int + 32) as char else c
  }

  /** Bytes that are the same but for the case of an ASCII letter. */
  lemma CaseIgnored(c: char, d: char)
    ensures Lower(c) == Lower(d)
            <==> c == d || ('A' <= c <= 'Z' && d as int == c as int + 32)
                 || ('A' <= d <= 'Z' && c as int == d as int + 32)
  {
  }

  /** The bytes of `s` from `a` to `b` are the key, in upper or lower case. */
  predicate Spells(s: string, a: nat, b: nat, key: string)
    requires a <= b <= |s|
  {
    b - a == |key| && forall k :: a <= k < b ==> Lower(s[k]) == Lower(key[k - a])
  }

  predicate IdentIs(s: string, p: nat, key: string)
    requires p <= |s|
  {
    Spells(s, IdentStart(s, p), p, key)
  }

  /** A match is judged by the identifier that ends the text in front of it. */
  function KeyedShown(key: string, suffix: string): Verdict {
    (rest: string, p: nat) =>
      if p <= |rest| && IdentIs(rest, p, key) then "=" + MASK else suffix
  }

  function KeyedFrom(out: string, rest: string, key: string, suffix: string): string
    requires suffix != ""
  {
    WriteFrom(out, rest, suffix, KeyedShown(key, suffix))
  }

  lemma KeyedStep(out: string, rest: string, key: string, suffix: string, p: nat, next: string)
    requires suffix != "" && FindFrom(rest, suffix, 0) == Some(p)
    requires next == out + rest[..p] + if IdentIs(rest, p, key) then "=" + MASK else suffix
    ensures KeyedFrom(out, rest, key, suffix) == KeyedFrom(next, rest[p + |suffix|..], key, suffix)
  {
    WriteStep(out, rest, suffix, KeyedShown(key, suffix), p, next);
  }

  function KeyedReplaced(line: string, key: string, suffix: string): string
    requires suffix != ""
  {
    WriteFrom("", line, suffix, KeyedShown(key, suffix))
  }

  /** What is written once one more match is judged. */
  method NextKeyed(out: string, rest: string, key: string, suffix: string, p: nat) returns (next: string)
    requires suffix != "" && FindFrom(rest, suffix, 0) == Some(p)
    ensures KeyedFrom(out, rest, key, suffix) == KeyedFrom(next, rest[p + |suffix|..], key, suffix)
  {
    next := out + rest[..p];
    if IdentIs(rest, p, key) {
      next := next + ("=" + MASK);
    } else {
      next := next + suffix;
    }
    KeyedStep(out, rest, key, suffix, p, next);
  }

  method ReplaceKeyed(line: string, key: string, suffix: string) returns (out: string)
    requires suffix != ""
    ensures out == KeyedReplaced(line, key, suffix)
  {
    out := "";
    var rest := line;
    var found := FindFrom(rest, suffix, 0);
    while found.Some?
      invariant found == FindFrom(rest, suffix, 0)
      invariant KeyedFrom(out, rest, key, suffix) == KeyedFrom("", line, key, suffix)
      decreases |rest|
    {
      out := NextKeyed(out, rest, key, suffix, found.value);
      rest := rest[found.value + |suffix|..];
      found := FindFrom(rest, suffix, 0);
    }
    WriteEnd(out, rest, suffix, KeyedShown(key, suffix));
    out := out + rest;
  }

  /** `=value`, `='value'` and `="value"`: the three forms a keyed value is printed in. */
  function KeyedMasked(line: string, key: string, value: string): string {
    if key == "" || value == "" then line
    else
      var first := KeyedReplaced(line, key, "=" + value);
      var second := KeyedReplaced(first, key, "='" + value + "'");
      KeyedReplaced(second, key, "=\"" + value + "\"")
  }

  method MaskKeyed(line: string, key: string, value: string) returns (out: string)
    ensures out == KeyedMasked(line, key, value)
  {
    if key == "" || value == "" {
      return line;
    }
    out := ReplaceKeyed(line, key, "=" + value);
    out := ReplaceKeyed(out, key, "='" + value + "'");
    out := ReplaceKeyed(out, key, "=\"" + value + "\"");
  }

  // Both narrow rules only ever cover: they show nothing that was not in the text they were given.

  ghost predicate Covers(shown: Verdict, needle: string) {
    forall rest, p: nat :: Shows(needle, shown(rest, p), Any())
  }

  lemma {:induction false} WriteShows(seen: string, out: string, rest: string, needle: string, shown: Verdict)
    requires needle != "" && Covers(shown, needle) && Shows(seen, out, Any())
    ensures Shows(seen + rest, WriteFrom(out, rest, needle, shown), Any())
    decreases |rest|
  {
    match FindFrom(rest, needle, 0)
    case None =>
      ShowsSame(rest);
      JoinAny(seen, out, rest, rest);
    case Some(p) =>
      Replaced(seen, out, rest, needle, shown(rest, p), p);
      WriteStep(out, rest, needle, shown, p, out + rest[..p] + shown(rest, p));
      WriteShows(seen + rest[..p] + needle, out + rest[..p] + shown(rest, p), rest[p + |needle|..], needle, shown);
  }

  /** One match, written as `shown`, added to a redaction of the text before it. */
  lemma Replaced(seen: string, out: string, rest: string, found: string, shown: string, p: nat)
    requires found != "" && FindFrom(rest, found, 0) == Some(p)
    requires Shows(seen, out, Any()) && Shows(found, shown, Any())
    ensures Shows(seen + rest[..p] + found, out + rest[..p] + shown, Any())
    ensures seen + rest == seen + rest[..p] + found + rest[p + |found|..]
  {
    ShowsSame(rest[..p]);
    JoinAny(seen, out, rest[..p], rest[..p]);
    JoinAny(seen + rest[..p], out + rest[..p], found, shown);
    FindsFirst(rest, found, 0);
    SplitAround(seen, rest, found, p);
  }

  lemma SplitAround(seen: string, rest: string, found: string, p: nat)
    requires OccursAt(found, rest, p)
    ensures seen + rest == seen + rest[..p] + found + rest[p + |found|..]
  {
    assert rest[p..p + |found|] == found;
    assert rest == rest[..p] + found + rest[p + |found|..];
    Regroup(seen, rest[..p], found, rest[p + |found|..]);
  }

  lemma JoinAny(a: string, outA: string, b: string, outB: string)
    requires Shows(a, outA, Any()) && Shows(b, outB, Any())
    ensures Shows(a + b, outA + outB, Any())
  {
    ShowsJoin(a, outA, Any(), b, outB, Any());
    ShowsMore(a + b, outA + outB, Joined(Any(), |a|, Any()), Any());
  }

  lemma TokenCovers(secret: string)
    requires secret != ""
    ensures Covers(TokenShown(secret), secret)
  {
    ShowsMask(secret, Any());
    ShowsSame(secret);
  }

  lemma KeyedCovers(key: string, suffix: string)
    requires suffix != "" && suffix[0] == '='
    ensures Covers(KeyedShown(key, suffix), suffix)
  {
    ShowsSame(suffix);
    ShowsSame("=");
    ShowsMask(suffix[1..], Any());
    JoinAny("=", "=", suffix[1..], MASK);
    assert suffix == "=" + suffix[1..];
  }

  /** A loop of either rule on a whole line. */
  lemma LineShows(line: string, needle: string, shown: Verdict)
    requires needle != "" && Covers(shown, needle)
    ensures Shows(line, WriteFrom("", line, needle, shown), Any())
  {
    ShowsSame("");
    WriteShows("", "", line, needle, shown);
    assert "" + line == line;
  }

  lemma KeyedReplacedShows(line: string, key: string, suffix: string)
    requires suffix != "" && suffix[0] == '='
    ensures Shows(line, KeyedReplaced(line, key, suffix), Any())
  {
    KeyedCovers(key, suffix);
    LineShows(line, suffix, KeyedShown(key, suffix));
  }

  /** The narrow rules of every short value, in order. */
  function Narrowed(line: string, shorts: seq<(string, string)>): string {
    if shorts == [] then line
    else
      var init := Narrowed(line, shorts[..|shorts| - 1]);
      var (key, value) := shorts[|shorts| - 1];
      KeyedMasked(TokenMasked(init, value), key, value)
  }

  method ApplyNarrow(line: string, shorts: seq<(string, string)>) returns (out: string)
    ensures out == Narrowed(line, shorts)
  {
    out := line;
    for i := 0 to |shorts|
      invariant out == Narrowed(line, shorts[..i])
    {
      var (key, value) := shorts[i];
      assert shorts[..i + 1][..i] == shorts[..i];
      out := MaskToken(out, value);
      out := MaskKeyed(out, key, value);
    }
    assert shorts[..|shorts|] == shorts;
  }

  lemma KeyedMaskedShows(line: string, key: string, value: string)
    ensures Shows(line, KeyedMasked(line, key, value), Any())
  {
    if key == "" || value == "" {
      ShowsSame(line);
    } else {
      var first := KeyedReplaced(line, key, "=" + value);
      var second := KeyedReplaced(first, key, "='" + value + "'");
      KeyedReplacedShows(line, key, "=" + value);
      KeyedReplacedShows(first, key, "='" + value + "'");
      KeyedReplacedShows(second, key, "=\"" + value + "\"");
      ShowsThen(line, first, Any(), second, Any());
      ShowsThen(line, second, Any(), KeyedMasked(line, key, value), Any());
    }
  }

  lemma TokenMaskedShows(line: string, secret: string)
    ensures Shows(line, TokenMasked(line, secret), Any())
  {
    if secret == "" {
      ShowsSame(line);
    } else {
      TokenCovers(secret);
      LineShows(line, secret, TokenShown(secret));
    }
  }

  /** The narrow rules never bring anything into view. */
  lemma {:induction false} NarrowedShows(line: string, shorts: seq<(string, string)>)
    ensures Shows(line, Narrowed(line, shorts), Any())
  {
    if shorts == [] {
      ShowsSame(line);
    } else {
      var init := Narrowed(line, shorts[..|shorts| - 1]);
      var (key, value) := shorts[|shorts| - 1];
      var mid := TokenMasked(init, value);
      NarrowedShows(line, shorts[..|shorts| - 1]);
      TokenMaskedShows(init, value);
      ShowsThen(line, init, Any(), mid, Any());
      KeyedMaskedShows(mid, key, value);
      ShowsThen(line, mid, Any(), Narrowed(line, shorts), Any());
    }
  }
}
