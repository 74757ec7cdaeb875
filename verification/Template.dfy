/** Extraction and rendering of `${NAME}` placeholders. */
module Template {
  import opened Text
  import opened Masking
  import Orders

  datatype Span = Span(key: string, start: nat, end: nat)

  datatype MissingKey = MissingKey(key: string, offset: nat)

  datatype Rendered = Done(text: string) | Missing(keys: seq<MissingKey>)

  predicate StartsName(c: char) { 'a' <= c <= 'z' || 'A' <= c <= 'Z' || c == '_' }

  /** Index past the name characters from `i` on. */
  function NameEnd(content: string, i: nat): (e: nat)
    requires i <= |content|
    ensures i <= e <= |content|
    ensures forall k :: i <= k < e ==> IsWordChar(content[k])
    ensures e < |content| ==> !IsWordChar(content[e])
    decreases |content| - i
  {
    if i < |content| && IsWordChar(content[i]) then NameEnd(content, i + 1) else i
  }

  predicate OpensAt(content: string, i: int) {
    0 <= i && i + 1 < |content| && content[i] == '$' && content[i + 1] == '{'
  }

  lemma OpenerOccurs(content: string)
    ensures forall i :: OccursAt("${", content, i) <==> OpensAt(content, i)
  {
    var opener := "${";
    assert opener[0] == '$' && opener[1] == '{' && |opener| == 2;
    forall i ensures OccursAt(opener, content, i) <==> OpensAt(content, i) {
    }
  }

  /** The placeholder that begins at byte `i`, if one does. */
  function At(content: string, i: nat): (r: Option<Span>)
    ensures r.Some? ==> r.value.start == i && i + 3 < r.value.end <= |content|
  {
    if !OpensAt(content, i) then None
    else
      var e := NameEnd(content, i + 2);
      if i + 2 < e < |content| && StartsName(content[i + 2]) && content[e] == '}' then
        Some(Span(content[i + 2..e], i, e + 1))
      else None
  }

  /** Letters, digits and `_`, and no digit at the beginning. */
  predicate IsName(key: string) {
    key != "" && !('0' <= key[0] <= '9') && forall k :: 0 <= k < |key| ==> IsWordChar(key[k])
  }

  /** `${NAME}` stands at byte `i`. */
  ghost predicate NamedAt(content: string, i: nat, key: string) {
    IsName(key) && OccursAt("${" + key + "}", content, i)
  }

  lemma MarkBytes(key: string, text: string)
    requires text == "${" + key + "}"
    ensures |text| == |key| + 3 && text[0] == '$' && text[1] == '{' && text[|key| + 2] == '}'
    ensures forall k :: 2 <= k < |key| + 2 ==> text[k] == key[k - 2]
  {
  }

  /** The placeholders are exactly the texts `${NAME}`. */
  lemma AtIff(content: string, i: nat, key: string)
    ensures NamedAt(content, i, key) <==> At(content, i) == Some(Span(key, i, i + |key| + 3))
    ensures At(content, i).Some? ==> NamedAt(content, i, At(content, i).value.key)
  {
    if NamedAt(content, i, key) {
      IsPlaceholder(content, i, key);
    }
    if At(content, i).Some? {
      NamedIs(content, i, At(content, i).value.key);
    }
  }

  lemma IsPlaceholder(content: string, i: nat, key: string)
    requires NamedAt(content, i, key)
    ensures At(content, i) == Some(Span(key, i, i + |key| + 3))
  {
    var text, e := "${" + key + "}", i + 2 + |key|;
    MarkBytes(key, text);
    assert forall k :: i + 2 <= k < e ==> content[k] == text[k - i] == key[k - i - 2];
    assert content[e] == text[|key| + 2];
    NameEndIs(content, i + 2, e);
    assert content[i + 2..e] == key;
  }

  lemma {:induction false} NameEndIs(content: string, i: nat, e: nat)
    requires i <= e < |content| && (forall k :: i <= k < e ==> IsWordChar(content[k])) && !IsWordChar(content[e])
    ensures NameEnd(content, i) == e
    decreases e - i
  {
    if i < e {
      NameEndIs(content, i + 1, e);
    }
  }

  lemma NamedIs(content: string, i: nat, key: string)
    requires At(content, i).Some? && At(content, i).value.key == key
    ensures NamedAt(content, i, key) && At(content, i) == Some(Span(key, i, i + |key| + 3))
  {
    MarkBytes(key, "${" + key + "}");
    assert forall k :: 0 <= k < |key| ==> key[k] == content[i + 2 + k];
  }

  /** Reading from left to right: the placeholders from byte `i` on. */
  function SpansFrom(content: string, i: nat): seq<Span>
    decreases |content| - i
  {
    if |content| <= i then []
    else match At(content, i)
      case Some(s) => [s] + SpansFrom(content, s.end)
      case None => SpansFrom(content, i + 1)
  }

  lemma {:induction false} SkipTo(content: string, i: nat, j: nat)
    requires i <= j && forall k :: i <= k < j ==> !OpensAt(content, k)
    ensures SpansFrom(content, i) == SpansFrom(content, j)
    decreases j - i
  {
    if i < j {
      SkipTo(content, i + 1, j);
    }
  }

  /** Spans between `from` and `to`, in order and disjoint. */
  ghost predicate Ordered(spans: seq<Span>, from: nat, to: nat) {
    && (forall k :: 0 <= k < |spans| ==> from <= spans[k].start <= spans[k].end <= to)
    && (forall k, l :: 0 <= k < l < |spans| ==> spans[k].end <= spans[l].start)
  }

  lemma OrderedFirst(s: Span, rest: seq<Span>, from: nat, to: nat)
    requires from <= s.start <= s.end <= to && Ordered(rest, s.end, to)
    ensures Ordered([s] + rest, from, to)
  {
  }

  lemma {:induction false} SpansOrdered(content: string, i: nat)
    ensures Ordered(SpansFrom(content, i), i, |content|)
    decreases |content| - i
  {
    if i < |content| {
      match At(content, i)
      case None => SpansOrdered(content, i + 1);
      case Some(s) =>
        SpansOrdered(content, s.end);
        OrderedFirst(s, SpansFrom(content, s.end), i, |content|);
    }
  }

  lemma {:induction false} SpansReal(content: string, i: nat, s: Span)
    requires s in SpansFrom(content, i)
    ensures At(content, s.start) == Some(s)
    decreases |content| - i
  {
    match At(content, i)
    case None => SpansReal(content, i + 1, s);
    case Some(first) =>
      if s != first {
        SpansReal(content, first.end, s);
      }
  }

  lemma {:induction false} SpansComplete(content: string, i: nat, p: nat)
    requires i <= p && At(content, p).Some?
    ensures At(content, p).value in SpansFrom(content, i)
    decreases |content| - i
  {
    match At(content, i)
    case None => SpansComplete(content, i + 1, p);
    case Some(first) =>
      if i < p {
        SpansComplete(content, first.end, p);
      }
  }

  /** The spans are exactly the placeholders of the text: in order, disjoint, none left out and none made up. */
  lemma SpansAreAll(content: string)
    ensures Ordered(SpansFrom(content, 0), 0, |content|)
    ensures forall s :: s in SpansFrom(content, 0) <==> At(content, s.start) == Some(s)
  {
    SpansOrdered(content, 0);
    forall s: Span ensures s in SpansFrom(content, 0) <==> At(content, s.start) == Some(s) {
      if s in SpansFrom(content, 0) {
        SpansReal(content, 0, s);
      }
      if At(content, s.start) == Some(s) {
        SpansComplete(content, 0, s.start);
      }
    }
  }

  /** The next opener at or after `from`, and what is left of the openers then. */
  lemma NextOpener(content: string, from: nat)
    ensures var rest := MatchIndices(content, "${", from);
            if rest == [] then forall k :: from <= k ==> !OpensAt(content, k)
            else from <= rest[0] && OpensAt(content, rest[0]) && rest[1..] == MatchIndices(content, "${", rest[0] + 2)
                 && forall k :: from <= k < rest[0] ==> !OpensAt(content, k)
  {
    FindsFirst(content, "${", from);
    OpenerOccurs(content);
  }

  /** What the reading makes of the next opener, the text before it holding none. */
  lemma OpenerRead(content: string, at: nat, rel: nat)
    requires at <= rel && OpensAt(content, rel) && forall k :: at <= k < rel ==> !OpensAt(content, k)
    ensures match At(content, rel)
            case Some(s) => SpansFrom(content, at) == [s] + SpansFrom(content, s.end)
                            && forall k :: rel + 2 <= k < s.end ==> !OpensAt(content, k)
            case None => SpansFrom(content, at) == SpansFrom(content, rel + 2)
  {
    SkipTo(content, at, rel);
    if At(content, rel).Some? {
    } else {
      SkipTo(content, rel + 1, rel + 2);
    }
  }

  /** Whether the opener at `rel` begins a placeholder. */
  method Accept(content: string, rel: nat) returns (r: Option<Span>)
    requires OpensAt(content, rel)
    ensures r == At(content, rel)
  {
    var nameEnd := NameEnd(content, rel + 2);
    var name := content[rel + 2..nameEnd];
    var isName := name != "" && StartsName(name[0]);
    if isName && nameEnd < |content| && content[nameEnd] == '}' {
      return Some(Span(name, rel, nameEnd + 1));
    }
    return None;
  }

  /** `n` openers are read: the text up to `at` gave `out`, and the next opener is looked for from `from` on. */
  ghost predicate ReadSoFar(content: string, out: seq<Span>, openers: seq<nat>, n: nat, cursor: nat, from: nat,
                            at: nat) {
    && n <= |openers| && cursor <= at && from <= at
    && openers[n..] == MatchIndices(content, "${", from)
    && (forall k :: from <= k < at ==> !OpensAt(content, k))
    && out + SpansFrom(content, at) == SpansFrom(content, 0)
  }

  lemma ReadNone(content: string)
    ensures ReadSoFar(content, [], MatchIndices(content, "${", 0), 0, 0, 0, 0)
  {
  }

  lemma ReadLast(content: string, out: seq<Span>, openers: seq<nat>, cursor: nat, from: nat, at: nat)
    requires ReadSoFar(content, out, openers, |openers|, cursor, from, at)
    ensures out == SpansFrom(content, 0)
  {
    NoMoreOpeners(content, from, at);
  }

  /** Where the text goes on behind an opener, or behind its placeholder. */
  function Past(content: string, rel: nat): nat
    requires OpensAt(content, rel)
  {
    match At(content, rel) case Some(s) => s.end case None => rel + 2
  }

  lemma ReadNext(content: string, out: seq<Span>, openers: seq<nat>, n: nat, cursor: nat, from: nat, at: nat)
    requires ReadSoFar(content, out, openers, n, cursor, from, at) && n < |openers|
    ensures OpensAt(content, openers[n]) && cursor <= openers[n]
    ensures var found := At(content, openers[n]);
            ReadSoFar(content, if found.Some? then out + [found.value] else out, openers, n + 1,
                      if found.Some? then found.value.end else cursor, openers[n] + 2, Past(content, openers[n]))
  {
    assert openers[n] == openers[n..][0] && openers[n..][1..] == openers[n + 1..];
    NextOpener(content, from);
    OpenerRead(content, at, openers[n]);
    var found := At(content, openers[n]);
    if found.Some? {
      Assoc(out, [found.value], SpansFrom(content, found.value.end));
    }
  }

  /** Take the placeholder at `rel`, unless the opener is inside one that was taken before. */
  method TakeOpener(content: string, rel: nat, cursor: nat, spans: seq<Span>) returns (cursor': nat, out: seq<Span>)
    requires OpensAt(content, rel)
    ensures var found := if cursor <= rel then At(content, rel) else None;
            && out == (if found.Some? then spans + [found.value] else spans)
            && cursor' == if found.Some? then found.value.end else cursor
  {
    cursor', out := cursor, spans;
    if cursor <= rel {
      var span := Accept(content, rel);
      if span.Some? {
        cursor', out := span.value.end, spans + [span.value];
      }
    }
  }

  /** All placeholders, in order. The guard on `cursor` never fires: no opener is inside a taken placeholder. */
  method Placeholders(content: string) returns (out: seq<Span>)
    ensures out == SpansFrom(content, 0)
  {
    out := [];
    var cursor: nat := 0;
    var openers := MatchIndices(content, "${", 0);
    ghost var from: nat, at: nat := 0, 0;
    ReadNone(content);
    for n := 0 to |openers|
      invariant ReadSoFar(content, out, openers, n, cursor, from, at)
    {
      var rel := openers[n];
      ReadNext(content, out, openers, n, cursor, from, at);
      from, at := rel + 2, Past(content, rel);
      cursor, out := TakeOpener(content, rel, cursor, out);
    }
    ReadLast(content, out, openers, cursor, from, at);
  }

  lemma NoMoreOpeners(content: string, from: nat, at: nat)
    requires from <= at && MatchIndices(content, "${", from) == []
    ensures SpansFrom(content, at) == []
  {
    NextOpener(content, from);
    if at <= |content| {
      SkipTo(content, at, |content|);
    }
  }

  /** The referenced keys in first-seen order, each once. */
  function KeysOf(spans: seq<Span>): seq<string> {
    if spans == [] then []
    else
      var keys := KeysOf(spans[..|spans| - 1]);
      var key := spans[|spans| - 1].key;
      if key in keys then keys else keys + [key]
  }

  /** The keys are distinct, they are exactly the referenced ones, and each comes where it is first referenced. */
  lemma {:induction false} KeysOfHolds(spans: seq<Span>)
    ensures Distinct(KeysOf(spans))
    ensures forall key :: key in KeysOf(spans) <==> exists n :: 0 <= n < |spans| && spans[n].key == key
    ensures forall n :: 0 <= n <= |spans| ==> KeysOf(spans[..n]) <= KeysOf(spans)
  {
    if spans != [] {
      var init, key := spans[..|spans| - 1], spans[|spans| - 1].key;
      KeysOfHolds(init);
      forall other ensures other in KeysOf(spans) <==> exists n :: 0 <= n < |spans| && spans[n].key == other {
        if n :| 0 <= n < |init| && init[n].key == other {
          assert spans[n].key == other;
        }
        assert key == other ==> exists n :: 0 <= n < |spans| && spans[n].key == other;
      }
      forall n | 0 <= n <= |spans| ensures KeysOf(spans[..n]) <= KeysOf(spans) {
        if n < |spans| {
          assert init[..n] == spans[..n];
        } else {
          assert spans[..n] == spans;
        }
      }
    }
  }

  method TemplateKeys(content: string) returns (keys: seq<string>)
    ensures keys == KeysOf(SpansFrom(content, 0))
    ensures Distinct(keys)
    ensures var spans := SpansFrom(content, 0);
            forall key :: key in keys <==> exists n :: 0 <= n < |spans| && spans[n].key == key
  {
    KeysOfHolds(SpansFrom(content, 0));
    keys := [];
    var spans := Placeholders(content);
    for n := 0 to |spans|
      invariant keys == KeysOf(spans[..n])
    {
      assert spans[..n + 1][..n] == spans[..n];
      if spans[n].key !in keys {
        keys := keys + [spans[n].key];
      }
    }
    assert spans[..|spans|] == spans;
  }

  /** What rendering means: one pass, each placeholder replaced by its value, every other byte kept. */
  function RenderFrom(content: string, values: map<string, string>, i: nat): string
    decreases |content| - i
  {
    if |content| <= i then ""
    else match At(content, i)
      case Some(s) => ValueOf(values, s.key) + RenderFrom(content, values, s.end)
      case None => [content[i]] + RenderFrom(content, values, i + 1)
  }

  predicate MissingLe(a: MissingKey, b: MissingKey) { StrLe(a.key, b.key) }

  /** The keys with no value, each with the offset of its first placeholder, in reading order. */
  function MissingIn(spans: seq<Span>, values: map<string, string>): seq<MissingKey> {
    if spans == [] then []
    else
      var missing := MissingIn(spans[..|spans| - 1], values);
      var s := spans[|spans| - 1];
      if s.key in values || Lists(missing, s.key) then missing else missing + [MissingKey(s.key, s.start)]
  }

  predicate Lists(missing: seq<MissingKey>, key: string) { exists k :: 0 <= k < |missing| && missing[k].key == key }

  /** `start` is where `key` is first referenced. */
  ghost predicate FirstAt(spans: seq<Span>, key: string, start: nat) {
    exists k :: 0 <= k < |spans| && spans[k].key == key && spans[k].start == start
                && forall l :: 0 <= l < k ==> spans[l].key != key
  }

  ghost predicate DistinctKeys(missing: seq<MissingKey>) {
    forall k, l :: 0 <= k < l < |missing| ==> missing[k].key != missing[l].key
  }

  lemma {:induction false} MissingDistinct(spans: seq<Span>, values: map<string, string>)
    ensures DistinctKeys(MissingIn(spans, values))
  {
    if spans != [] {
      var was, last := MissingIn(spans[..|spans| - 1], values), spans[|spans| - 1];
      MissingDistinct(spans[..|spans| - 1], values);
      if !Lists(was, last.key) {
        assert forall k :: 0 <= k < |was| ==> was[k].key != last.key;
      }
    }
  }

  lemma ListsPush(missing: seq<MissingKey>, m: MissingKey, key: string)
    ensures Lists(missing + [m], key) <==> Lists(missing, key) || m.key == key
  {
    if Lists(missing, key) {
      var k :| 0 <= k < |missing| && missing[k].key == key;
      assert (missing + [m])[k].key == key;
    }
    assert (missing + [m])[|missing|] == m;
  }

  /** Exactly the referenced keys without a value are listed. */
  lemma {:induction false} MissingComplete(spans: seq<Span>, values: map<string, string>, key: string)
    ensures Lists(MissingIn(spans, values), key) <==> key in KeysOf(spans) && key !in values
  {
    if spans != [] {
      var init, s := spans[..|spans| - 1], spans[|spans| - 1];
      MissingComplete(init, values, key);
      MissingComplete(init, values, s.key);
      ListsPush(MissingIn(init, values), MissingKey(s.key, s.start), key);
    }
  }

  /** Each missing key comes with its first reference. */
  lemma {:induction false} MissingFirst(spans: seq<Span>, values: map<string, string>, m: MissingKey)
    requires m in MissingIn(spans, values)
    ensures FirstAt(spans, m.key, m.offset)
  {
    var init, s := spans[..|spans| - 1], spans[|spans| - 1];
    if m in MissingIn(init, values) {
      MissingFirst(init, values, m);
      FirstStays(spans, m.key, m.offset);
    } else {
      MissingComplete(init, values, s.key);
      assert m == MissingKey(s.key, s.start);
      FirstIsNew(spans, s.key);
    }
  }

  lemma FirstStays(spans: seq<Span>, key: string, offset: nat)
    requires spans != [] && FirstAt(spans[..|spans| - 1], key, offset)
    ensures FirstAt(spans, key, offset)
  {
  }

  lemma FirstIsNew(spans: seq<Span>, key: string)
    requires spans != [] && spans[|spans| - 1].key == key && key !in KeysOf(spans[..|spans| - 1])
    ensures FirstAt(spans, key, spans[|spans| - 1].start)
  {
    var last := |spans| - 1;
    forall l | 0 <= l < last ensures spans[l].key != key {
      KeyListed(spans[..last], l);
    }
  }

  lemma {:induction false} KeyListed(spans: seq<Span>, k: nat)
    requires k < |spans|
    ensures spans[k].key in KeysOf(spans)
  {
    if k < |spans| - 1 {
      KeyListed(spans[..|spans| - 1], k);
    }
  }

  /** The spans written one after the other, with the text between them, from byte `pos` on. */
  function Spliced(content: string, values: map<string, string>, spans: seq<Span>, pos: nat): string
    requires pos <= |content| && Ordered(spans, pos, |content|)
    decreases |spans|
  {
    if spans == [] then content[pos..]
    else
      content[pos..spans[0].start] + ValueOf(values, spans[0].key) + Spliced(content, values, spans[1..], spans[0].end)
  }

  function ValueOf(values: map<string, string>, key: string): string { if key in values then values[key] else "" }

  lemma {:induction false} CopyTo(content: string, values: map<string, string>, i: nat, j: nat)
    requires i <= j <= |content| && forall p: nat :: i <= p < j ==> At(content, p).None?
    ensures RenderFrom(content, values, i) == content[i..j] + RenderFrom(content, values, j)
    ensures SpansFrom(content, i) == SpansFrom(content, j)
    decreases j - i
  {
    if i < j {
      CopyTo(content, values, i + 1, j);
      Assoc([content[i]], content[i + 1..j], RenderFrom(content, values, j));
      assert content[i..j] == [content[i]] + content[i + 1..j];
    }
  }

  /** No placeholder begins before the first span. */
  lemma NoneBefore(content: string, i: nat, p: nat)
    requires i <= p
    requires var spans := SpansFrom(content, i); p < (if spans == [] then |content| else spans[0].start)
    ensures At(content, p).None?
  {
    SpansOrdered(content, i);
    if At(content, p).Some? {
      SpansComplete(content, i, p);
    }
  }

  /** The text before the first span is copied as it is. */
  lemma GapCopied(content: string, values: map<string, string>, i: nat)
    requires i <= |content|
    ensures var spans := SpansFrom(content, i);
            var stop := if spans == [] then |content| else spans[0].start;
            && i <= stop <= |content| && spans == SpansFrom(content, stop)
            && RenderFrom(content, values, i) == content[i..stop] + RenderFrom(content, values, stop)
  {
    SpansOrdered(content, i);
    var spans := SpansFrom(content, i);
    var stop := if spans == [] then |content| else spans[0].start;
    forall p: nat | i <= p < stop ensures At(content, p).None? {
      NoneBefore(content, i, p);
    }
    CopyTo(content, values, i, stop);
  }

  /** Splicing the spans is the one-pass rendering. */
  lemma {:induction false} SplicedIsRendered(content: string, values: map<string, string>, i: nat)
    requires i <= |content|
    ensures Ordered(SpansFrom(content, i), i, |content|)
    ensures Spliced(content, values, SpansFrom(content, i), i) == RenderFrom(content, values, i)
    decreases |content| - i
  {
    SpansOrdered(content, i);
    var spans := SpansFrom(content, i);
    GapCopied(content, values, i);
    if spans == [] {
      assert content[i..|content|] == content[i..];
    } else {
      var s := spans[0];
      SpansReal(content, i, s);
      assert spans[1..] == SpansFrom(content, s.end);
      SplicedIsRendered(content, values, s.end);
      SplicedFirst(content, values, spans, i, RenderFrom(content, values, s.end));
      RenderedFirst(content, values, s);
    }
  }

  lemma RenderedFirst(content: string, values: map<string, string>, s: Span)
    requires At(content, s.start) == Some(s)
    ensures RenderFrom(content, values, s.start) == ValueOf(values, s.key) + RenderFrom(content, values, s.end)
  {
  }

  lemma SplicedFirst(content: string, values: map<string, string>, spans: seq<Span>, i: nat, rest: string)
    requires i <= |content| && Ordered(spans, i, |content|) && spans != []
    requires Spliced(content, values, spans[1..], spans[0].end) == rest
    ensures Spliced(content, values, spans, i) == content[i..spans[0].start] + (ValueOf(values, spans[0].key) + rest)
  {
    Assoc(content[i..spans[0].start], ValueOf(values, spans[0].key), rest);
  }

  lemma MissingOrder()
    ensures Orders.TotalPreorder(MissingLe)
  {
    forall a: MissingKey, b: MissingKey ensures MissingLe(a, b) || MissingLe(b, a) { StrLeTotal(a.key, b.key); }
    forall a: MissingKey, b: MissingKey, c: MissingKey | MissingLe(a, b) && MissingLe(b, c) ensures MissingLe(a, c) {
      StrLeTransitive(a.key, b.key, c.key);
    }
  }

  method CollectMissing(spans: seq<Span>, values: map<string, string>) returns (missing: seq<MissingKey>)
    ensures missing == MissingIn(spans, values)
  {
    missing := [];
    for n := 0 to |spans|
      invariant missing == MissingIn(spans[..n], values)
    {
      assert spans[..n + 1][..n] == spans[..n];
      if spans[n].key !in values && !Lists(missing, spans[n].key) {
        missing := missing + [MissingKey(spans[n].key, spans[n].start)];
      }
    }
    assert spans[..|spans|] == spans;
  }

  lemma SpliceStep(out: string, content: string, values: map<string, string>, spans: seq<Span>, n: nat, pos: nat)
    requires n < |spans| && pos <= |content| && Ordered(spans[n..], pos, |content|)
    ensures Ordered(spans[n + 1..], spans[n].end, |content|)
    ensures pos <= spans[n].start <= |content|
    ensures out + Spliced(content, values, spans[n..], pos)
         == out + content[pos..spans[n].start] + ValueOf(values, spans[n].key)
            + Spliced(content, values, spans[n + 1..], spans[n].end)
  {
    var rest := spans[n..];
    assert rest[0] == spans[n] && rest[1..] == spans[n + 1..];
    assert forall k :: 0 <= k < |rest| - 1 ==> rest[1..][k] == rest[k + 1] && rest[0].end <= rest[k + 1].start;
    Regroup(out, content[pos..spans[n].start], ValueOf(values, spans[n].key),
            Spliced(content, values, spans[n + 1..], spans[n].end));
  }

  method Splice(content: string, values: map<string, string>, spans: seq<Span>) returns (out: string)
    requires Ordered(spans, 0, |content|)
    ensures out == Spliced(content, values, spans, 0)
  {
    out := "";
    var pos: nat := 0;
    assert spans[0..] == spans;
    for n := 0 to |spans|
      invariant pos <= |content| && Ordered(spans[n..], pos, |content|)
      invariant out + Spliced(content, values, spans[n..], pos) == Spliced(content, values, spans, 0)
    {
      SpliceStep(out, content, values, spans, n, pos);
      out := out + content[pos..spans[n].start];
      out := out + ValueOf(values, spans[n].key);
      pos := spans[n].end;
    }
    assert spans[|spans|..] == [];
    out := out + content[pos..];
  }

  /** A report of missing keys: exactly those, each once and in order, with where it is first referenced. */
  ghost predicate Reports(keys: seq<MissingKey>, spans: seq<Span>, values: map<string, string>) {
    && (forall key :: Lists(keys, key) <==> key in KeysOf(spans) && key !in values)
    && (forall k, l :: 0 <= k < l < |keys| ==> keys[k].key != keys[l].key && StrLe(keys[k].key, keys[l].key))
    && (forall k :: 0 <= k < |keys| ==> FirstAt(spans, keys[k].key, keys[k].offset))
  }

  /**
   Render the placeholders of `content`, or report what is missing: the result is the one-pass
   rendering exactly when every referenced key has a value.
   */
  method RenderTemplate(content: string, values: map<string, string>) returns (r: Rendered)
    ensures r.Done? <==> forall key :: key in KeysOf(SpansFrom(content, 0)) ==> key in values
    ensures r.Done? ==> r.text == RenderFrom(content, values, 0)
    ensures r.Missing? ==> Reports(r.keys, SpansFrom(content, 0), values)
  {
    var spans := Placeholders(content);
    var missing := CollectMissing(spans, values);
    forall key ensures Lists(missing, key) <==> key in KeysOf(spans) && key !in values {
      MissingComplete(spans, values, key);
    }
    if missing != [] {
      assert Lists(missing, missing[0].key);
      SortedReports(spans, values);
      return Missing(Orders.Sort(MissingLe, missing));
    }
    SplicedIsRendered(content, values, 0);
    var text := Splice(content, values, spans);
    return Done(text);
  }

  lemma SortedReports(spans: seq<Span>, values: map<string, string>)
    ensures Reports(Orders.Sort(MissingLe, MissingIn(spans, values)), spans, values)
  {
    var missing := MissingIn(spans, values);
    var sorted := Orders.Sort(MissingLe, missing);
    MissingDistinct(spans, values);
    SortMissing(missing);
    forall key ensures Lists(sorted, key) <==> key in KeysOf(spans) && key !in values {
      MissingComplete(spans, values, key);
    }
    forall k | 0 <= k < |sorted| ensures FirstAt(spans, sorted[k].key, sorted[k].offset) {
      assert sorted[k] in missing;
      MissingFirst(spans, values, sorted[k]);
    }
  }

  lemma SortMissing(missing: seq<MissingKey>)
    requires DistinctKeys(missing)
    ensures var sorted := Orders.Sort(MissingLe, missing);
            && (forall m :: m in sorted <==> m in missing)
            && (forall key :: Lists(sorted, key) <==> Lists(missing, key))
            && (forall k, l :: 0 <= k < l < |sorted| ==>
                  sorted[k].key != sorted[l].key && StrLe(sorted[k].key, sorted[l].key))
  {
    var sorted := Orders.Sort(MissingLe, missing);
    MissingOrder();
    Orders.SortSorted(MissingLe, missing);
    Orders.SortElements(MissingLe, missing);
    Orders.StillDistinct(missing, sorted, (m: MissingKey) => m.key);
    forall key ensures Lists(sorted, key) <==> Lists(missing, key) {
      if k :| 0 <= k < |sorted| && sorted[k].key == key {
        assert sorted[k] in missing;
      }
      if k :| 0 <= k < |missing| && missing[k].key == key {
        assert missing[k] in sorted;
      }
    }
  }

  /** Rendering every key to its own placeholder gives the template back: nothing else is ever touched. */
  lemma {:induction false} RenderIdentity(content: string, values: map<string, string>, i: nat)
    requires i <= |content|
    requires forall s :: s in SpansFrom(content, i) ==> s.key in values && values[s.key] == "${" + s.key + "}"
    ensures RenderFrom(content, values, i) == content[i..]
    decreases |content| - i
  {
    if i < |content| {
      match At(content, i)
      case None =>
        RenderIdentity(content, values, i + 1);
        CutAt(content, i, i + 1);
      case Some(s) =>
        assert SpansFrom(content, i)[0] == s;
        RenderIdentity(content, values, s.end);
        PlaceholderText(content, i);
        CutAt(content, i, s.end);
    }
  }

  lemma CutAt(content: string, i: nat, j: nat)
    requires i <= j <= |content|
    ensures content[i..] == content[i..j] + content[j..]
  {
  }

  lemma PlaceholderText(content: string, i: nat)
    requires At(content, i).Some?
    ensures content[i..At(content, i).value.end] == "${" + At(content, i).value.key + "}"
  {
    var s := At(content, i).value;
    assert content[i..s.end] == [content[i], content[i + 1]] + content[i + 2..s.end - 1] + [content[s.end - 1]];
  }

  // A template as it is written, and what it comes to.

  datatype Bit = Verbatim(s: string) | Ref(key: string) {
    function Size(): nat { if Verbatim? then |s| else |key| + 3 }

    function Output(values: map<string, string>): string
      requires Ref? ==> key in values
    {
      if Verbatim? then s else values[key]
    }
  }

  /** The bit stands at byte `i`; no placeholder begins in a verbatim one. */
  ghost predicate Stands(content: string, i: nat, bit: Bit) {
    match bit
    case Verbatim(s) => OccursAt(s, content, i) && forall p: nat, key :: i <= p < i + |s| ==> !NamedAt(content, p, key)
    case Ref(key) => NamedAt(content, i, key)
  }

  /** From byte `i` on the text is these bits. */
  ghost predicate IsWritten(content: string, i: nat, bits: seq<Bit>)
    decreases |bits|
  {
    if bits == [] then i == |content|
    else Stands(content, i, bits[0]) && IsWritten(content, i + bits[0].Size(), bits[1..])
  }

  /** Every verbatim bit as it is, and every reference by its value. */
  function Output(bits: seq<Bit>, values: map<string, string>): string
    requires forall b :: b in bits && b.Ref? ==> b.key in values
  {
    if bits == [] then "" else bits[0].Output(values) + Output(bits[1..], values)
  }

  /** A template comes to its verbatim text and the values of its references, in order; no value is read again. */
  lemma {:induction false} RenderedIs(content: string, values: map<string, string>, i: nat, bits: seq<Bit>)
    requires i <= |content| && IsWritten(content, i, bits) && forall b :: b in bits && b.Ref? ==> b.key in values
    ensures RenderFrom(content, values, i) == Output(bits, values)
    decreases |bits|
  {
    if bits != [] {
      OutputFirst(bits, values);
      WrittenNext(content, i, bits);
      BitRendered(content, values, i, bits[0]);
      RenderedIs(content, values, i + bits[0].Size(), bits[1..]);
    }
  }

  lemma WrittenNext(content: string, i: nat, bits: seq<Bit>)
    requires IsWritten(content, i, bits) && bits != []
    ensures Stands(content, i, bits[0]) && IsWritten(content, i + bits[0].Size(), bits[1..])
  {
  }

  lemma OutputFirst(bits: seq<Bit>, values: map<string, string>)
    requires bits != [] && forall b :: b in bits && b.Ref? ==> b.key in values
    ensures bits[0] in bits
    ensures Output(bits, values) == bits[0].Output(values) + Output(bits[1..], values)
  {
  }

  lemma BitRendered(content: string, values: map<string, string>, i: nat, bit: Bit)
    requires Stands(content, i, bit) && (bit.Ref? ==> bit.key in values)
    ensures i + bit.Size() <= |content|
    ensures RenderFrom(content, values, i) == bit.Output(values) + RenderFrom(content, values, i + bit.Size())
  {
    match bit {
      case Verbatim(s) => VerbatimCopied(content, values, i, s);
      case Ref(key) => ReferenceRendered(content, values, i, key);
    }
  }

  lemma ReferenceRendered(content: string, values: map<string, string>, i: nat, key: string)
    requires NamedAt(content, i, key) && key in values
    ensures i + |key| + 3 <= |content|
    ensures RenderFrom(content, values, i) == values[key] + RenderFrom(content, values, i + |key| + 3)
  {
    AtIff(content, i, key);
  }

  lemma VerbatimCopied(content: string, values: map<string, string>, i: nat, s: string)
    requires OccursAt(s, content, i) && forall p: nat, key :: i <= p < i + |s| ==> !NamedAt(content, p, key)
    ensures RenderFrom(content, values, i) == s + RenderFrom(content, values, i + |s|)
  {
    forall p: nat | i <= p < i + |s| ensures At(content, p).None? {
      AtIff(content, p, "");
    }
    CopyTo(content, values, i, i + |s|);
    assert content[i..i + |s|] == s;
  }

  /** Every text is a template. */
  lemma {:induction false} EveryTextIsWritten(content: string, i: nat) returns (bits: seq<Bit>)
    requires i <= |content|
    ensures IsWritten(content, i, bits)
    decreases |content| - i
  {
    if i == |content| {
      return [];
    }
    match At(content, i) {
      case Some(s) =>
        AtIff(content, i, s.key);
        var more := EveryTextIsWritten(content, s.end);
        bits := [Ref(s.key)] + more;
        assert bits[1..] == more;
      case None =>
        var more := EveryTextIsWritten(content, i + 1);
        bits := [Verbatim([content[i]])] + more;
        assert bits[1..] == more;
        forall key ensures !NamedAt(content, i, key) {
          AtIff(content, i, key);
        }
    }
  }
}
