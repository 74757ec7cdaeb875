/** What redacted lines and notes make of short values. */
module NarrowTheorems {
  // The narrow rules as `RedactLine` and `RedactText` apply them: one short value after the other, on what the
  // long values leave.

  import opened Text
  import opened Ranges
  import opened Shadows
  import opened Masking
  import opened ShortValues
  import opened KeyedValues
  import opened Masker

  /** The documented rules for one short value; an empty key names nothing, and an empty value is none. */
  ghost function PairByRule(line: string, key: string, value: string): string {
    if value == "" then line
    else if key == "" then AloneByRule(line, value)
    else ShortByRule(line, key, value)
  }

  ghost predicate PairRight(line: string, key: string, value: string) {
    value != "" ==> if key == "" then TokenExact(line, value) else NothingWrong(line, key, value)
  }

  /** The documented rules for every short value, in order. */
  ghost function ByRules(line: string, shorts: seq<(string, string)>): string
    decreases |shorts|
  {
    if shorts == [] then line else ByRules(PairByRule(line, shorts[0].0, shorts[0].1), shorts[1..])
  }

  /** No pass on the way meets a place that it gets wrong. */
  ghost predicate NoneWrong(line: string, shorts: seq<(string, string)>)
    decreases |shorts|
  {
    shorts == []
    || (PairRight(line, shorts[0].0, shorts[0].1)
        && NoneWrong(PairByRule(line, shorts[0].0, shorts[0].1), shorts[1..]))
  }

  lemma PairIsRule(line: string, key: string, value: string)
    requires PairRight(line, key, value)
    ensures KeyedMasked(TokenMasked(line, value), key, value) == PairByRule(line, key, value)
  {
    if value != "" {
      if key == "" {
        TokenRuleIff(line, value);
      } else {
        ShortIsRule(line, key, value);
      }
    }
  }

  /** The pairs of a list are applied one after the other. */
  lemma {:induction false} NarrowedJoin(line: string, a: seq<(string, string)>, b: seq<(string, string)>)
    ensures Narrowed(line, a + b) == Narrowed(Narrowed(line, a), b)
    decreases |b|
  {
    if b == [] {
      assert a + b == a;
    } else {
      var init := b[..|b| - 1];
      assert (a + b)[..|a + b| - 1] == a + init;
      NarrowedJoin(line, a, init);
    }
  }

  lemma OnePair(line: string, pair: (string, string))
    ensures Narrowed(line, [pair]) == KeyedMasked(TokenMasked(line, pair.1), pair.0, pair.1)
  {
    var none: seq<(string, string)> := [];
    assert [pair][..0] == none && Narrowed(line, none) == line;
  }

  lemma {:induction false} NarrowedIsRules(line: string, shorts: seq<(string, string)>)
    requires NoneWrong(line, shorts)
    ensures Narrowed(line, shorts) == ByRules(line, shorts)
    decreases |shorts|
  {
    if shorts != [] {
      var pair, more := shorts[0], shorts[1..];
      assert shorts == [pair] + more;
      NarrowedJoin(line, [pair], more);
      OnePair(line, pair);
      PairIsRule(line, pair.0, pair.1);
      NarrowedIsRules(PairByRule(line, pair.0, pair.1), more);
    }
  }

  /**
   A line is redacted for more short values by the documented rules for these, one after the other, on what
   it comes to without them.
   */
  lemma LineByRules(masks: seq<string>, a: seq<(string, string)>, b: seq<(string, string)>, pending: seq<Pending>,
                    line: string)
    requires NoneWrong(Redacted(masks, a, pending, line), b)
    ensures Redacted(masks, a + b, pending, line) == ByRules(Redacted(masks, a, pending, line), b)
  {
    var spliced := Redacted(masks, [], pending, line);
    NarrowedJoin(spliced, a, b);
    NarrowedIsRules(Redacted(masks, a, pending, line), b);
  }

  /** A note is, too. */
  lemma NoteByRules(masks: seq<string>, a: seq<(string, string)>, b: seq<(string, string)>, text: string)
    requires NoneWrong(Note(masks, a, text), b)
    ensures Note(masks, a + b, text) == ByRules(Note(masks, a, text), b)
  {
    NarrowedJoin(MaskAll(text, masks), a, b);
    NarrowedIsRules(Note(masks, a, text), b);
  }

  /** With one short value and no other, both are the documented rules. */
  lemma OneShortValue(key: string, value: string, line: string)
    requires key != "" && value != "" && NothingWrong(line, key, value)
    ensures Redacted([], [(key, value)], [], line) == ShortByRule(line, key, value)
    ensures Note([], [(key, value)], line) == ShortByRule(line, key, value)
  {
    AsItCame(line);
    ShortIsRule(line, key, value);
    OnePair(line, (key, value));
  }

  lemma AsItCame(line: string)
    ensures Redacted([], [], [], line) == line && Note([], [], line) == line
  {
    if line != "" {
      assert LineRanges([], [], line) == [];
      NothingSpliced(line, 0);
    }
  }

  // What is hidden.

  lemma {:induction false} TakenSpaced(line: string, needle: string, i: nat, takes: Decision, p: nat, q: nat)
    requires needle != "" && p < q && TakenAt(line, needle, i, takes, p) && TakenAt(line, needle, i, takes, q)
    ensures p + |needle| <= q
    decreases |line| - i
  {
    var first := FindFrom(line, needle, i).value;
    if p == first {
      if TakenAt(line, needle, first + |needle|, takes, q) {
        TakenAhead(line, needle, first + |needle|, takes, q);
      }
    } else {
      TakenAhead(line, needle, first + |needle|, takes, p);
      TakenSpaced(line, needle, first + |needle|, takes, p, q);
    }
  }

  /** The places replaced do not overlap, and the value is there. */
  ghost predicate Spaced(line: string, needle: string, here: nat -> bool) {
    && (forall p: nat :: here(p) ==> OccursAt(needle, line, p))
    && (forall p: nat, q: nat :: here(p) && here(q) && p < q ==> p + |needle| <= q)
  }

  /** Of the text from byte `i` on: no byte of a replaced place, but for those that the replacement keeps. */
  ghost function Kept(i: nat, n: nat, here: nat -> bool, kept: int -> bool): int -> bool {
    (k: int) => forall q: nat :: here(q) && 0 <= k && q <= i + k < q + n ==> kept(i + k - q)
  }

  /** The bytes of one piece, up to where the next one begins. */
  ghost function Piece(line: string, i: nat, n: nat, here: nat -> bool): nat
    requires 0 < n && i < |line| && (here(i) ==> i + n <= |line|)
  {
    if here(i) then i + n else i + 1
  }

  ghost function PieceKept(i: nat, here: nat -> bool, kept: int -> bool): int -> bool {
    if here(i) then kept else Any()
  }

  lemma KeptNext(line: string, needle: string, i: nat, here: nat -> bool, kept: int -> bool, next: nat)
    requires needle != "" && Spaced(line, needle, here) && forall q: nat :: here(q) && q < i ==> q + |needle| <= i
    requires i < |line| && next == Piece(line, i, |needle|, here)
    ensures var rest := Kept(next, |needle|, here, kept);
            forall k :: Joined(PieceKept(i, here, kept), next - i, rest)(k) ==> Kept(i, |needle|, here, kept)(k)
  {
  }

  lemma PieceShows(line: string, needle: string, shown: string, i: nat, here: nat -> bool, kept: int -> bool,
                   next: nat, first: string, out: string)
    requires needle != "" && Spaced(line, needle, here) && Shows(needle, shown, kept)
    requires i < |line| && next == Piece(line, i, |needle|, here)
    requires first == line[i..next] && out == if here(i) then shown else first
    ensures Shows(first, out, PieceKept(i, here, kept))
    ensures Rewritten(line, i, |needle|, shown, here) == out + Rewritten(line, next, |needle|, shown, here)
  {
    ShowsSame(first);
    if here(i) {
      assert OccursAt(needle, line, i);
      assert first == needle;
    } else {
      assert first == [line[i]];
    }
  }

  lemma {:induction false} RewrittenShows(line: string, i: nat, needle: string, shown: string, here: nat -> bool,
                                          kept: int -> bool)
    requires needle != "" && i <= |line| && Spaced(line, needle, here) && Shows(needle, shown, kept)
    requires forall q: nat :: here(q) && q < i ==> q + |needle| <= i
    ensures Shows(line[i..], Rewritten(line, i, |needle|, shown, here), Kept(i, |needle|, here, kept))
    decreases |line| - i
  {
    if i == |line| {
      ShowsSame("");
      assert line[i..] == "";
    } else {
      var n, next := |needle|, Piece(line, i, |needle|, here);
      var first, rest := line[i..next], Rewritten(line, next, |needle|, shown, here);
      var out := if here(i) then shown else first;
      PieceShows(line, needle, shown, i, here, kept, next, first, out);
      RewrittenShows(line, next, needle, shown, here, kept);
      KeptNext(line, needle, i, here, kept, next);
      PiecesShow(line, i, next, first, out, rest, PieceKept(i, here, kept), Kept(next, n, here, kept),
                 Kept(i, n, here, kept));
    }
  }

  lemma PiecesShow(line: string, i: nat, next: nat, first: string, out: string, rest: string,
                   kept: int -> bool, keptRest: int -> bool, more: int -> bool)
    requires i <= next <= |line| && first == line[i..next]
    requires Shows(first, out, kept) && Shows(line[next..], rest, keptRest)
    requires forall k :: Joined(kept, next - i, keptRest)(k) ==> more(k)
    ensures Shows(line[i..], out + rest, more)
  {
    assert line[i..] == first + line[next..];
    ShowsJoin(first, out, kept, line[next..], rest, keptRest);
    ShowsMore(line[i..], out + rest, Joined(kept, |first|, keptRest), more);
  }

  /** All but `n` bytes from `at` on. */
  ghost function Beyond(at: nat, n: nat): int -> bool { (k: int) => k < at || at + n <= k }

  lemma TokensSpaced(line: string, secret: string)
    requires secret != ""
    ensures Spaced(line, secret, (at: nat) => TokenTaken(line, secret, at))
  {
    forall p: nat | TokenTaken(line, secret, p)
      ensures OccursAt(secret, line, p)
      ensures forall q: nat :: TokenTaken(line, secret, q) && p < q ==> p + |secret| <= q
    {
      TakenIsMatch(line, secret, 0, TokenTakes(line, secret), p);
      MatchOccurs(line, secret, 0, p);
      forall q: nat | TokenTaken(line, secret, q) && p < q ensures p + |secret| <= q {
        TakenSpaced(line, secret, 0, TokenTakes(line, secret), p, q);
      }
    }
  }

  /** No byte of a place that the first rule replaces comes through it. */
  lemma TokenShows(line: string, secret: string, at: nat)
    requires secret != "" && TokenTaken(line, secret, at)
    ensures Shows(line, TokenMasked(line, secret), Beyond(at, |secret|))
  {
    var here, none := (p: nat) => TokenTaken(line, secret, p), (k: int) => false;
    TokensSpaced(line, secret);
    TokenWrites(line, secret);
    ShowsMask(secret, none);
    assert line[0..] == line;
    RewrittenShows(line, 0, secret, MASK, here, none);
    assert here(at);
    ShowsMore(line, TokenMasked(line, secret), Kept(0, |secret|, here, none), Beyond(at, |secret|));
  }

  lemma ListedShows(line: string, key: string, value: string, b: seq<(string, string)>, at: nat)
    requires value != "" && !OverlapsOpenly(value) && StandsAlone(line, value, at)
    ensures Shows(line, Narrowed(line, [(key, value)] + b), Beyond(at, |value|))
  {
    var token, pair := TokenMasked(line, value), KeyedMasked(TokenMasked(line, value), key, value);
    TokenHidesIff(value);
    TokenShows(line, value, at);
    KeyedMaskedShows(token, key, value);
    ShowsThen(line, token, Beyond(at, |value|), pair, Any());
    NarrowedShows(pair, b);
    ShowsThen(line, pair, Beyond(at, |value|), Narrowed(pair, b), Any());
    NarrowedJoin(line, [(key, value)], b);
    OnePair(line, (key, value));
  }

  /**
   A listed short value that cannot overlap itself behind a non-word character is hidden wherever it stands
   alone in what the long values and the short ones before it leave of the line: none of these bytes is
   shown, whatever comes after it in the list.
   */
  lemma ListedIsHidden(masks: seq<string>, a: seq<(string, string)>, key: string, value: string,
                       b: seq<(string, string)>, pending: seq<Pending>, line: string, at: nat)
    requires value != "" && !OverlapsOpenly(value) && StandsAlone(Redacted(masks, a, pending, line), value, at)
    ensures Shows(Redacted(masks, a, pending, line), Redacted(masks, a + ([(key, value)] + b), pending, line),
                  Beyond(at, |value|))
  {
    NarrowedJoin(Redacted(masks, [], pending, line), a, [(key, value)] + b);
    ListedShows(Redacted(masks, a, pending, line), key, value, b, at);
  }

  /** The same for a note. */
  lemma ListedIsHiddenInNotes(masks: seq<string>, a: seq<(string, string)>, key: string, value: string,
                              b: seq<(string, string)>, text: string, at: nat)
    requires value != "" && !OverlapsOpenly(value) && StandsAlone(Note(masks, a, text), value, at)
    ensures Shows(Note(masks, a, text), Note(masks, a + ([(key, value)] + b), text), Beyond(at, |value|))
  {
    NarrowedJoin(MaskAll(text, masks), a, [(key, value)] + b);
    ListedShows(Note(masks, a, text), key, value, b, at);
  }

  // The same for a value that stands behind its key, when the loop takes it.

  lemma KeyedSpaced(line: string, key: string, suffix: string)
    requires suffix != ""
    ensures Spaced(line, suffix, (at: nat) => KeyedTaken(line, key, suffix, at))
  {
    forall p: nat | KeyedTaken(line, key, suffix, p)
      ensures OccursAt(suffix, line, p)
      ensures forall q: nat :: KeyedTaken(line, key, suffix, q) && p < q ==> p + |suffix| <= q
    {
      TakenIsMatch(line, suffix, 0, KeyedTakes(line, key), p);
      MatchOccurs(line, suffix, 0, p);
      forall q: nat | KeyedTaken(line, key, suffix, q) && p < q ensures p + |suffix| <= q {
        TakenSpaced(line, suffix, 0, KeyedTakes(line, key), p, q);
      }
    }
  }

  /** Only the `=` of a place that the second rule replaces comes through it. */
  lemma KeyedShows(line: string, key: string, suffix: string, at: nat)
    requires suffix != "" && suffix[0] == '=' && KeyedTaken(line, key, suffix, at)
    ensures Shows(line, KeyedReplaced(line, key, suffix), Beyond(at + 1, |suffix| - 1))
  {
    var here, first := (p: nat) => KeyedTaken(line, key, suffix, p), (k: int) => k == 0;
    KeyedSpaced(line, key, suffix);
    KeyedWrites(line, key, suffix);
    SuffixShows(suffix);
    assert line[0..] == line;
    RewrittenShows(line, 0, suffix, "=" + MASK, here, first);
    assert here(at);
    ShowsMore(line, KeyedReplaced(line, key, suffix), Kept(0, |suffix|, here, first), Beyond(at + 1, |suffix| - 1));
  }

  lemma SuffixShows(suffix: string)
    requires suffix != "" && suffix[0] == '='
    ensures Shows(suffix, "=" + MASK, (k: int) => k == 0)
  {
    var kept := (k: int) => k == 0;
    forall text, p | Seen(text, "=" + MASK, p) ensures ShownFrom(suffix, "=" + MASK, kept, text, p, 0) {
      OnlyEquals(text, "=" + MASK, p);
    }
  }

  lemma OnlyEquals(text: string, out: string, p: int)
    requires out == "=" + MASK && Seen(text, out, p)
    ensures p == 0 && |text| == 1 && text[0] == '='
  {
    assert forall k :: 0 <= k < |text| ==> text[k] in text;
    assert forall k :: 0 <= k < |text| ==> text[k] == out[p + k];
    assert forall k :: 1 <= k < |out| ==> out[k] == '*';
    assert text[0] == out[p] && text[|text| - 1] == out[p + (|text| - 1)];
  }

  /**
   A listed value that `KeyedHidesIff` admits is hidden wherever it stands behind its whole key in what the
   values before it, and its own first rule, leave of the line.
   */
  lemma KeyedIsHidden(masks: seq<string>, a: seq<(string, string)>, key: string, value: string,
                      b: seq<(string, string)>, pending: seq<Pending>, line: string, before: string, at: nat)
    requires key != "" && value != "" && !OverlapsKeyed("=" + value, key) && !RunsInto("=" + value, key)
    requires before == TokenMasked(Redacted(masks, a, pending, line), value) && IsKeyed(before, key, "=" + value, at)
    ensures Shows(before, Redacted(masks, a + ([(key, value)] + b), pending, line), Beyond(at + 1, |value|))
  {
    var start := Redacted(masks, a, pending, line);
    NarrowedJoin(Redacted(masks, [], pending, line), a, [(key, value)] + b);
    NarrowedJoin(start, [(key, value)], b);
    OnePair(start, (key, value));
    KeyedHidesIff(key, "=" + value);
    FormsShow(before, key, value, at);
    var pair := KeyedMasked(before, key, value);
    NarrowedShows(pair, b);
    ShowsThen(before, pair, Beyond(at + 1, |value|), Narrowed(pair, b), Any());
  }

  lemma FormsShow(before: string, key: string, value: string, at: nat)
    requires key != "" && value != "" && KeyedTaken(before, key, "=" + value, at)
    ensures Shows(before, KeyedMasked(before, key, value), Beyond(at + 1, |value|))
  {
    var bare := KeyedReplaced(before, key, "=" + value);
    KeyedShows(before, key, "=" + value, at);
    QuotedShows(bare, key, value);
    ShowsThen(before, bare, Beyond(at + 1, |value|), KeyedMasked(before, key, value), Any());
  }

  lemma QuotedShows(bare: string, key: string, value: string)
    ensures Shows(bare, KeyedReplaced(KeyedReplaced(bare, key, "='" + value + "'"), key, "=\"" + value + "\""), Any())
  {
    var second := KeyedReplaced(bare, key, "='" + value + "'");
    KeyedReplacedShows(bare, key, "='" + value + "'");
    KeyedReplacedShows(second, key, "=\"" + value + "\"");
    ShowsThen(bare, second, Any(), KeyedReplaced(second, key, "=\"" + value + "\""), Any());
  }

  // The long values of a note.

  function Always(): Verdict { (rest: string, p: nat) => MASK }

  lemma {:induction false} ReplaceIsLoop(out: string, hay: string, needle: string)
    requires needle != ""
    ensures WriteFrom(out, hay, needle, Always()) == out + Replace(hay, needle)
    decreases |hay|
  {
    match FindFrom(hay, needle, 0)
    case None =>
      WriteEnd(out, hay, needle, Always());
    case Some(p) =>
      var next := out + hay[..p] + MASK;
      ReplaceIsLoop(next, hay[p + |needle|..], needle);
      ReplaceTurn(out, hay, needle, p, next, Replace(hay[p + |needle|..], needle));
  }

  lemma ReplaceTurn(out: string, hay: string, needle: string, p: nat, next: string, more: string)
    requires needle != "" && FindFrom(hay, needle, 0) == Some(p) && next == out + hay[..p] + MASK
    requires more == Replace(hay[p + |needle|..], needle)
    requires WriteFrom(next, hay[p + |needle|..], needle, Always()) == next + more
    ensures WriteFrom(out, hay, needle, Always()) == out + Replace(hay, needle)
  {
    WriteStep(out, hay, needle, Always(), p, next);
    Regroup(out, hay[..p], MASK, more);
  }

  lemma {:induction false} EveryMatch(line: string, needle: string, i: nat, at: nat)
    requires needle != ""
    ensures TakenAt(line, needle, i, (i: nat, p: nat) => true, at) <==> MatchAt(line, needle, i, at)
    decreases |line| - i
  {
    var found := FindFrom(line, needle, i);
    if found.Some? {
      EveryMatch(line, needle, found.value + |needle|, at);
    }
  }

  /** The long values are replaced one after the other, each at its greedy matches, and no other byte changes. */
  lemma NextValue(text: string, masks: seq<string>, value: string)
    requires value != ""
    ensures var before := MaskAll(text, masks);
            MaskAll(text, masks + [value])
            == Rewritten(before, 0, |value|, MASK, (at: nat) => MatchAt(before, value, 0, at))
  {
    var before, all := MaskAll(text, masks), (i: nat, p: nat) => true;
    assert (masks + [value])[..|masks|] == masks;
    ReplaceIsLoop("", before, value);
    assert "" + Replace(before, value) == Replace(before, value);
    LineWrites(before, value, Always(), MASK, all);
    forall at: nat ensures TakenIn(before, value, all)(at) <==> MatchAt(before, value, 0, at) {
      EveryMatch(before, value, 0, at);
    }
    SamePlaces(before, 0, |value|, MASK, TakenIn(before, value, all), (at: nat) => MatchAt(before, value, 0, at));
  }
}
