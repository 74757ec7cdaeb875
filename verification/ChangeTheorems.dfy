/** What a change of the secret values costs. */
module ChangeTheorems {
  // A change drops the maskers, and with them what they remember of a value that is not complete.

  import opened Text
  import opened Ranges
  import opened Masking
  import opened Masker
  import opened MaskerStream
  import opened GroupedOutput
  import opened GroupedTheorems

  /** A value split in two lines, and the same value set anew in between. */
  function SplitByChange(v: string, c: nat, key: Key): seq<Event>
    requires c < |v|
  {
    [Line(key.0, key.1, v[..c]), Secrets([v], []), Line(key.0, key.1, v[c..])]
  }

  lemma LineEpoch(v: string, events: seq<Event>, key: Key, text: string)
    ensures EpochsOf([v], [], events + [Line(key.0, key.1, text)], key)
        == WithLine(EpochsOf([v], [], events, key), text)
    ensures EpochsOf([v], [], events + [Secrets([v], [])], key) == EpochsOf([v], [], events, key) + [Epoch([v], [], [])]
  {
    assert (events + [Line(key.0, key.1, text)])[..|events|] == events;
    assert (events + [Secrets([v], [])])[..|events|] == events;
  }

  lemma LastWithLine(es: seq<Epoch>, e: Epoch, text: string)
    ensures WithLine(es + [e], text) == es + [e.(own := e.own + [text])]
  {
    assert (es + [e])[..|es|] == es;
  }

  lemma SplitEpochs(v: string, c: nat, key: Key)
    requires c < |v|
    ensures EpochsOf([v], [], SplitByChange(v, c, key), key) == [Epoch([v], [], [v[..c]]), Epoch([v], [], [v[c..]])]
  {
    var none: seq<Event> := [];
    var empty, first := Epoch([v], [], []), Epoch([v], [], [v[..c]]);
    var one := none + [Line(key.0, key.1, v[..c])];
    var two := one + [Secrets([v], [])];
    assert SplitByChange(v, c, key) == two + [Line(key.0, key.1, v[c..])];
    LineEpoch(v, none, key, v[..c]);
    LineEpoch(v, one, key, "");
    LineEpoch(v, two, key, v[c..]);
    LastWithLine([], empty, v[..c]);
    LastWithLine([first], empty, v[c..]);
    assert [] + [empty] == [empty] && [] + [first] == [first];
    assert [] + [v[..c]] == [v[..c]] && [] + [v[c..]] == [v[c..]];
  }

  lemma {:induction false} NoTail(v: string, line: string, n: nat)
    requires forall l: nat :: !TailMatch(v, line, l)
    ensures LongestTail(v, line, n) == 0
  {
    if n > 0 {
      NoTail(v, line, n - 1);
    }
  }

  lemma NoMatch(v: string, line: string)
    requires v != "" && |line| < |v|
    ensures Matches([v], line) == []
  {
    assert MatchIndices(line, v, 0) == [];
    assert [v][..0] == [] && Matches([], line) == [] && AsRanges([], |v|) == [];
  }

  /** The first line: a fragment of four bytes or more is redacted, a shorter one is not. */
  lemma FirstRanges(v: string, c: nat)
    requires 0 < c < |v|
    ensures LineRanges([v], [], v[..c]) == if MIN_PREFIX_REDACT <= c then [Range(0, c)] else []
  {
    var line := v[..c];
    assert EndsWith(line, v[..c]) && TailMatch(v, line, c);
    TailIsLongest(v, line, c, |v|);
    OneTail(v, line, c);
    NoMatch(v, line);
    FreshLine([v], line, [], Some(Tail(c, v)));
  }

  /** The second line: the new masker remembers nothing, and finds nothing in it. */
  lemma SecondRanges(v: string, c: nat)
    requires 0 < c < |v| && !Overlaps(v)
    ensures LineRanges([v], [], v[c..]) == []
  {
    var line := v[c..];
    forall l: nat ensures !TailMatch(v, line, l) {
      if TailMatch(v, line, l) {
        EndIsOverlap(v, c, l);
      }
    }
    NoTail(v, line, |v|);
    NoMatch(v, line);
    assert [v][..0] == [] && BestTail([], line) == None;
    assert BestTail([v], line) == None;
    FreshLine([v], line, [], None);
  }

  lemma EndIsOverlap(v: string, c: nat, l: nat)
    requires 0 < c < |v| && TailMatch(v, v[c..], l)
    ensures OverlapsAt(v, |v| - l)
  {
    assert v[c..][|v| - c - l..] == v[|v| - l..];
  }

  lemma {:induction false} AllSpliced(line: string, i: nat)
    requires 0 < i <= |line|
    ensures Splice(line, [Range(0, |line|)], i) == ""
    decreases |line| - i
  {
    if i < |line| {
      assert Covered([Range(0, |line|)], i) && Covered([Range(0, |line|)], i - 1);
      AllSpliced(line, i + 1);
    }
  }

  lemma OneLine(masks: seq<string>, line: string, ranges: seq<Range>)
    requires line != "" && LineRanges(masks, [], line) == ranges
    ensures Outputs(masks, [], [], [line]) == [Splice(line, ranges, 0)]
  {
    var none: seq<string> := [];
    assert [line][1..] == none;
    assert Narrowed(Splice(line, ranges, 0), []) == Splice(line, ranges, 0);
  }

  lemma FirstOutput(v: string, c: nat)
    requires 0 < c < |v|
    ensures Outputs([v], [], [], [v[..c]]) == [if MIN_PREFIX_REDACT <= c then MASK else v[..c]]
  {
    FirstRanges(v, c);
    OneLine([v], v[..c], LineRanges([v], [], v[..c]));
    NothingSpliced(v[..c], 0);
    if MIN_PREFIX_REDACT <= c {
      assert Covered([Range(0, c)], 0);
      AllSpliced(v[..c], 1);
      assert MASK + "" == MASK;
    }
  }

  lemma SecondOutput(v: string, c: nat)
    requires 0 < c < |v| && !Overlaps(v)
    ensures Outputs([v], [], [], [v[c..]]) == [v[c..]]
  {
    SecondRanges(v, c);
    OneLine([v], v[c..], []);
    NothingSpliced(v[c..], 0);
  }

  lemma SplitShown(v: string, c: nat, key: Key)
    requires 0 < c < |v| && !Overlaps(v)
    ensures Shown(EpochsOf([v], [], SplitByChange(v, c, key), key))
         == [if MIN_PREFIX_REDACT <= c then MASK else v[..c], v[c..]]
  {
    var first, second := Epoch([v], [], [v[..c]]), Epoch([v], [], [v[c..]]);
    SplitEpochs(v, c, key);
    FirstOutput(v, c);
    SecondOutput(v, c);
    TwoEpochs(first, second);
  }

  lemma TwoEpochs(e: Epoch, f: Epoch)
    ensures Shown([e, f]) == Outputs(e.masks, e.shorts, [], e.own) + Outputs(f.masks, f.shorts, [], f.own)
  {
    ShownLast([], e);
    ShownLast([e], f);
    assert [] + [e] == [e] && [e] + [f] == [e, f];
    assert Shown([]) + Outputs(e.masks, e.shorts, [], e.own) == Outputs(e.masks, e.shorts, [], e.own);
  }

  /**
   A change of the values between the two lines of a split value, even to the same values, shows the value
   exactly when its first fragment has fewer than four bytes.
   */
  lemma ChangeCosts(v: string, c: nat, key: Key)
    requires 0 < c < |v| && !Overlaps(v) && StarFree(v)
    ensures var g := Run(true, Fresh([v], []), SplitByChange(v, c, key) + [FlushAll]);
            Occurs(v, Concat(TextsOf(Only(g.emitted, key.0, Some(key.1))))) <==> c < 4
  {
    TextShown(v, c, key);
    FragmentsShow(v, c);
  }

  lemma FragmentsShow(v: string, c: nat)
    requires 0 < c < |v| && StarFree(v)
    ensures Occurs(v, (if MIN_PREFIX_REDACT <= c then MASK else v[..c]) + v[c..]) <==> c < MIN_PREFIX_REDACT
  {
    if c < MIN_PREFIX_REDACT {
      assert v[..c] + v[c..] == v;
      assert OccursAt(v, v, 0);
    } else {
      NotBehindMask(v, c);
    }
  }

  lemma TextShown(v: string, c: nat, key: Key)
    requires 0 < c < |v| && !Overlaps(v)
    ensures var g := Run(true, Fresh([v], []), SplitByChange(v, c, key) + [FlushAll]);
            Concat(TextsOf(Only(g.emitted, key.0, Some(key.1))))
              == (if MIN_PREFIX_REDACT <= c then MASK else v[..c]) + v[c..]
  {
    NothingLeaks([v], [], SplitByChange(v, c, key), key);
    SplitShown(v, c, key);
    TwoTexts(if MIN_PREFIX_REDACT <= c then MASK else v[..c], v[c..]);
  }

  lemma TwoTexts(a: string, b: string)
    ensures Concat([a, b]) == a + b
  {
    var none: seq<string> := [];
    assert [a, b][1..] == [b] && [b][1..] == none;
    assert Concat([b]) == b + Concat(none) == b;
  }

  lemma NotBehindMask(v: string, c: nat)
    requires 0 < c < |v| && StarFree(v)
    ensures !Occurs(v, MASK + v[c..])
  {
    assert "" + MASK == MASK;
    forall at ensures !OccursAt(v, MASK + v[c..], at) {
      if OccursAt(v, "" + MASK + v[c..], at) {
        AcrossMask("", v[c..], v, at);
      }
    }
  }
}
