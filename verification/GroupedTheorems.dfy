/** Grouped output against streamed output. */
module GroupedTheorems {
  // Over any interleaving of lines, host ends, flushes and changes of the secret values.

  import opened Text
  import opened Masker
  import opened MaskerStream
  import opened GroupedOutput

  ghost function Fresh(masks: seq<string>, shorts: seq<(string, string)>): Sink {
    Sink(masks, shorts, map[], Buffer([], map[]), [])
  }

  ghost function Run(grouped: bool, s: Sink, events: seq<Event>): Sink {
    if events == [] then s
    else Step(grouped, Run(grouped, s, events[..|events| - 1]), events[|events| - 1])
  }

  predicate Selected(l: OutLine, host: string, stream: Option<Stream>) {
    l.host == host && (stream.None? || stream.value == l.stream)
  }

  /** The lines of one host, or of one of its streams, in order. */
  function Only(ls: seq<OutLine>, host: string, stream: Option<Stream>): seq<OutLine> {
    if ls == [] then []
    else
      var last := ls[|ls| - 1];
      Only(ls[..|ls| - 1], host, stream) + if Selected(last, host, stream) then [last] else []
  }

  lemma {:induction false} OnlyJoin(a: seq<OutLine>, b: seq<OutLine>, host: string, stream: Option<Stream>)
    ensures Only(a + b, host, stream) == Only(a, host, stream) + Only(b, host, stream)
  {
    if b == [] {
      assert a + b == a;
    } else {
      var last := b[|b| - 1];
      assert (a + b)[..|a + b| - 1] == a + b[..|b| - 1];
      OnlyJoin(a, b[..|b| - 1], host, stream);
    }
  }

  lemma {:induction false} OnlyOthers(ls: seq<OutLine>, host: string, stream: Option<Stream>)
    requires forall k :: 0 <= k < |ls| ==> ls[k].host != host
    ensures Only(ls, host, stream) == []
  {
    if ls != [] {
      OnlyOthers(ls[..|ls| - 1], host, stream);
    }
  }

  // Nothing is lost, doubled or reordered within a host.

  /** What a flush prints for the first n hosts of the order. */
  function Printed(b: Buffer, n: nat): seq<OutLine>
    requires n <= |b.order|
  {
    Flat(Blocks(b.order[..n], b.lines))
  }

  ghost predicate Among(b: Buffer, n: nat, host: string)
    requires n <= |b.order|
  {
    exists k :: 0 <= k < n && b.order[k] == host
  }

  lemma FlatLast(blocks: seq<seq<OutLine>>, last: seq<OutLine>)
    ensures Flat(blocks + [last]) == Flat(blocks) + last
  {
    assert (blocks + [last])[..|blocks|] == blocks;
  }

  lemma PrintedStep(b: Buffer, n: nat)
    requires WellFormed(b) && n < |b.order|
    ensures Printed(b, n + 1) == Printed(b, n) + LinesOf(b, b.order[n])
    ensures !Among(b, n, b.order[n])
    ensures forall k :: 0 <= k < |LinesOf(b, b.order[n])| ==> LinesOf(b, b.order[n])[k].host == b.order[n]
  {
    assert b.order[n] in b.lines;
    assert b.order[..n + 1][..n] == b.order[..n];
    FlatLast(Blocks(b.order[..n], b.lines), b.lines[b.order[n]]);
  }

  lemma AddedOnly(before: seq<OutLine>, lines: seq<OutLine>, last: string, host: string, stream: Option<Stream>)
    requires forall k :: 0 <= k < |lines| ==> lines[k].host == last
    ensures Only(before + lines, host, stream)
         == Only(before, host, stream) + if last == host then Only(lines, host, stream) else []
  {
    OnlyJoin(before, lines, host, stream);
    if last != host {
      OnlyOthers(lines, host, stream);
    }
  }

  lemma AmongNext(b: Buffer, n: nat, host: string)
    requires n < |b.order|
    ensures Among(b, n + 1, host) <==> Among(b, n, host) || b.order[n] == host
  {
  }

  /** A flush of all hosts prints each host's buffered lines. */
  lemma {:induction false} PrintedOnly(b: Buffer, n: nat, host: string, stream: Option<Stream>)
    requires WellFormed(b) && n <= |b.order|
    ensures Only(Printed(b, n), host, stream) == if Among(b, n, host) then Only(LinesOf(b, host), host, stream) else []
  {
    if n > 0 {
      PrintedStep(b, n - 1);
      PrintedOnly(b, n - 1, host, stream);
      AddedOnly(Printed(b, n - 1), LinesOf(b, b.order[n - 1]), b.order[n - 1], host, stream);
      AmongNext(b, n - 1, host);
    }
  }

  lemma FlushOnly(b: Buffer, host: string, stream: Option<Stream>)
    requires WellFormed(b)
    ensures Only(Flat(Blocks(b.order, b.lines)), host, stream) == Only(LinesOf(b, host), host, stream)
  {
    PrintedOnly(b, |b.order|, host, stream);
    assert b.order[..|b.order|] == b.order;
  }

  /** The grouped sink and the streaming one: the same maskers, and the same lines per host or stream. */
  ghost predicate Agree(g: Sink, s: Sink, host: string, stream: Option<Stream>) {
    && WellFormed(g.buffer)
    && g.masks == s.masks && g.shorts == s.shorts && g.pending == s.pending
    && Only(g.emitted, host, stream) + Only(LinesOf(g.buffer, host), host, stream) == Only(s.emitted, host, stream)
  }

  lemma AgreeLine(g: Sink, s: Sink, e: Event, host: string, stream: Option<Stream>)
    requires e.Line? && Agree(g, s, host, stream)
    ensures Agree(Step(true, g, e), Step(false, s, e), host, stream)
  {
    var l := MaskedLine(g, e);
    SameLine(g, s, e);
    PushedWellFormed(g.buffer, l);
    AgreeShown(g, s, l, host, stream);
  }

  lemma SameLine(g: Sink, s: Sink, e: Event)
    requires e.Line? && g.masks == s.masks && g.shorts == s.shorts && g.pending == s.pending
    ensures MaskedLine(g, e) == MaskedLine(s, e) && Masked(g, e).pending == Masked(s, e).pending
  {
  }

  lemma AgreeShown(g: Sink, s: Sink, l: OutLine, host: string, stream: Option<Stream>)
    requires Agree(g, s, host, stream)
    ensures Only(g.emitted, host, stream) + Only(LinesOf(Pushed(g.buffer, l.host, l), host), host, stream)
         == Only(s.emitted + [l], host, stream)
  {
    OnlyOne(s.emitted, l, host, stream);
    PushedOnly(g.emitted, g.buffer, l, host, stream);
  }

  lemma OnlyOne(ls: seq<OutLine>, l: OutLine, host: string, stream: Option<Stream>)
    ensures Only(ls + [l], host, stream) == Only(ls, host, stream) + if Selected(l, host, stream) then [l] else []
  {
    assert (ls + [l])[..|ls|] == ls;
  }

  lemma PushedOnly(shown: seq<OutLine>, b: Buffer, l: OutLine, host: string, stream: Option<Stream>)
    ensures Only(shown, host, stream) + Only(LinesOf(Pushed(b, l.host, l), host), host, stream)
         == Only(shown, host, stream) + Only(LinesOf(b, host), host, stream)
            + if Selected(l, host, stream) then [l] else []
  {
    var more := if Selected(l, host, stream) then [l] else [];
    if l.host == host {
      assert LinesOf(Pushed(b, l.host, l), host) == LinesOf(b, host) + [l];
      OnlyOne(LinesOf(b, host), l, host, stream);
    } else {
      assert LinesOf(Pushed(b, l.host, l), host) == LinesOf(b, host);
      assert Only(LinesOf(b, host), host, stream) + more == Only(LinesOf(b, host), host, stream);
    }
    Assoc(Only(shown, host, stream), Only(LinesOf(b, host), host, stream), more);
  }

  lemma AgreeFinished(g: Sink, s: Sink, e: Event, host: string, stream: Option<Stream>)
    requires e.Finished? && Agree(g, s, host, stream)
    ensures Agree(Step(true, g, e), Step(false, s, e), host, stream)
  {
    RemovedWellFormed(g.buffer, e.host);
    RemovedOnly(g, e.host, host, stream);
  }

  lemma RemovedLines(b: Buffer, ended: string, host: string)
    ensures LinesOf(Removed(b, ended), host) == if ended == host then [] else LinesOf(b, host)
  {
  }

  lemma RemovedOnly(g: Sink, ended: string, host: string, stream: Option<Stream>)
    requires WellFormed(g.buffer)
    ensures Only(g.emitted + LinesOf(g.buffer, ended), host, stream)
        + Only(LinesOf(Removed(g.buffer, ended), host), host, stream)
         == Only(g.emitted, host, stream) + Only(LinesOf(g.buffer, host), host, stream)
  {
    var block := LinesOf(g.buffer, ended);
    RemovedLines(g.buffer, ended, host);
    OnlyJoin(g.emitted, block, host, stream);
    var printed := Only(g.emitted, host, stream);
    if ended == host {
      assert Only([], host, stream) == [];
    } else {
      OnlyOthers(block, host, stream);
      assert printed + [] == printed;
    }
  }

  lemma AgreeFlush(g: Sink, s: Sink, host: string, stream: Option<Stream>)
    requires Agree(g, s, host, stream)
    ensures Agree(Step(true, g, FlushAll), Step(false, s, FlushAll), host, stream)
  {
    FlushOnly(g.buffer, host, stream);
    OnlyJoin(g.emitted, Flat(Blocks(g.buffer.order, g.buffer.lines)), host, stream);
  }

  /**
   Over any run: the order is duplicate-free and holds exactly the buffered hosts, and for every host
   (and each of its streams) printed lines plus buffered lines are the lines a streaming sink prints,
   in the same order.
   */
  lemma {:induction false} GroupedKeepsStreamed(start: Sink, events: seq<Event>, host: string, stream: Option<Stream>)
    requires start.buffer == Buffer([], map[])
    ensures Agree(Run(true, start, events), Run(false, start, events), host, stream)
  {
    if events != [] {
      var init, e := events[..|events| - 1], events[|events| - 1];
      GroupedKeepsStreamed(start, init, host, stream);
      var g, s := Run(true, start, init), Run(false, start, init);
      match e {
        case Line(_, _, _) => AgreeLine(g, s, e, host, stream);
        case Finished(_) => AgreeFinished(g, s, e, host, stream);
        case FlushAll => AgreeFlush(g, s, host, stream);
        case Secrets(_, _) =>
      }
    }
  }

  // A host's output depends on that host alone.

  /** What one (host, stream) can see of a run: its own lines, and changes of the secret values. */
  predicate Concerns(e: Event, key: Key) { e.Secrets? || (e.Line? && (e.host, e.stream) == key) }

  function Seen(events: seq<Event>, key: Key): seq<Event> {
    if events == [] then []
    else
      var last := events[|events| - 1];
      Seen(events[..|events| - 1], key) + if Concerns(last, key) then [last] else []
  }

  ghost predicate SameFor(a: Sink, b: Sink, key: Key) {
    && a.masks == b.masks && a.shorts == b.shorts && PendingOf(a, key) == PendingOf(b, key)
    && Only(a.emitted, key.0, Some(key.1)) == Only(b.emitted, key.0, Some(key.1))
  }

  lemma StepSameFor(a: Sink, b: Sink, e: Event, key: Key)
    requires SameFor(a, b, key)
    ensures Concerns(e, key) ==> SameFor(Step(false, a, e), Step(false, b, e), key)
    ensures !Concerns(e, key) ==> SameFor(Step(false, a, e), b, key)
  {
  }

  lemma {:induction false} SeenIsEnough(start: Sink, events: seq<Event>, key: Key)
    ensures SameFor(Run(false, start, events), Run(false, start, Seen(events, key)), key)
  {
    if events != [] {
      var init, e := events[..|events| - 1], events[|events| - 1];
      SeenIsEnough(start, init, key);
      var kept := Seen(init, key);
      StepSameFor(Run(false, start, init), Run(false, start, kept), e, key);
      if !Concerns(e, key) {
        assert Seen(events, key) == kept;
      }
    }
  }

  /**
   Grouped output refines streamed output without interference: after a flush, what a host shows on a
   stream is what a streaming sink shows that was only ever given that pair's own lines.
   */
  lemma GroupedRefinesStreamed(masks: seq<string>, shorts: seq<(string, string)>, events: seq<Event>, key: Key)
    ensures var g := Run(true, Fresh(masks, shorts), events + [FlushAll]);
            var s := Run(false, Fresh(masks, shorts), Seen(events, key));
            g.buffer == Buffer([], map[]) && Only(g.emitted, key.0, Some(key.1)) == Only(s.emitted, key.0, Some(key.1))
  {
    var start := Fresh(masks, shorts);
    GroupedKeepsStreamed(start, events + [FlushAll], key.0, Some(key.1));
    assert (events + [FlushAll])[..|events|] == events;
    SeenIsEnough(start, events, key);
    assert Only([], key.0, Some(key.1)) == [];
  }

  /** When a host has finished, everything it printed so far is out. */
  lemma FinishedIsPrinted(masks: seq<string>, shorts: seq<(string, string)>, events: seq<Event>, host: string,
                          stream: Option<Stream>)
    ensures var start, ended := Fresh(masks, shorts), events + [Finished(host)];
            Only(Run(true, start, ended).emitted, host, stream) == Only(Run(false, start, events).emitted, host, stream)
  {
    var start, ended := Fresh(masks, shorts), events + [Finished(host)];
    GroupedKeepsStreamed(start, ended, host, stream);
    assert ended[..|events|] == events;
    assert Only([], host, stream) == [];
  }

  // One masker per pair.

  function TextsOf(ls: seq<OutLine>): seq<string> {
    if ls == [] then [] else TextsOf(ls[..|ls| - 1]) + [ls[|ls| - 1].text]
  }

  /** The lines of a pair between two changes of the values, and the values then in force. */
  datatype Epoch = Epoch(masks: seq<string>, shorts: seq<(string, string)>, own: seq<string>)

  function EpochsOf(masks: seq<string>, shorts: seq<(string, string)>, events: seq<Event>, key: Key): (es: seq<Epoch>)
    ensures es != []
  {
    if events == [] then [Epoch(masks, shorts, [])]
    else
      var es := EpochsOf(masks, shorts, events[..|events| - 1], key);
      match events[|events| - 1]
      case Secrets(m, s) => es + [Epoch(m, s, [])]
      case Line(host, stream, text) => if (host, stream) == key then WithLine(es, text) else es
      case _ => es
  }

  function WithLine(es: seq<Epoch>, text: string): (r: seq<Epoch>)
    requires es != []
    ensures r != []
  {
    var last := es[|es| - 1];
    es[..|es| - 1] + [last.(own := last.own + [text])]
  }

  /** What one masker after the other shows, each made for the values of its epoch. */
  ghost function Shown(es: seq<Epoch>): seq<string> {
    if es == [] then []
    else
      var last := es[|es| - 1];
      Shown(es[..|es| - 1]) + Outputs(last.masks, last.shorts, [], last.own)
  }

  lemma {:induction false} OutputsLast(masks: seq<string>, shorts: seq<(string, string)>, pending: seq<Pending>,
                                       lines: seq<string>, line: string)
    ensures Outputs(masks, shorts, pending, lines + [line])
         == Outputs(masks, shorts, pending, lines)
            + [Redacted(masks, shorts, PendingAfter(masks, pending, lines), line)]
    ensures PendingAfter(masks, pending, lines + [line])
         == NextPending(masks, PendingAfter(masks, pending, lines), line)
    decreases |lines|
  {
    if lines == [] {
      assert lines + [line] == [line];
      assert [line][1..] == [];
    } else {
      assert (lines + [line])[1..] == lines[1..] + [line];
      OutputsLast(masks, shorts, NextPending(masks, pending, lines[0]), lines[1..], line);
    }
  }

  lemma TextsLast(ls: seq<OutLine>, l: OutLine)
    ensures TextsOf(ls + [l]) == TextsOf(ls) + [l.text]
  {
    assert (ls + [l])[..|ls|] == ls;
  }

  /** The sink stands with this pair as the masker of the last epoch would, and shows what those of all would. */
  ghost predicate LikeMaskers(s: Sink, es: seq<Epoch>, key: Key)
    requires es != []
  {
    var last := es[|es| - 1];
    && s.masks == last.masks && s.shorts == last.shorts && PendingOf(s, key) == PendingAfter(last.masks, [], last.own)
    && TextsOf(Only(s.emitted, key.0, Some(key.1))) == Shown(es)
  }

  lemma ShownLast(es: seq<Epoch>, e: Epoch)
    ensures Shown(es + [e]) == Shown(es) + Outputs(e.masks, e.shorts, [], e.own)
  {
    assert (es + [e])[..|es|] == es;
  }

  lemma OwnLine(s: Sink, es: seq<Epoch>, key: Key, e: Event)
    requires es != [] && LikeMaskers(s, es, key) && e.Line? && Concerns(e, key)
    ensures LikeMaskers(Step(false, s, e), WithLine(es, e.text), key)
  {
    var init, last := es[..|es| - 1], es[|es| - 1];
    assert es == init + [last];
    ShownLast(init, last);
    ShownLast(init, last.(own := last.own + [e.text]));
    OutputsLast(last.masks, last.shorts, [], last.own, e.text);
    OwnTexts(s, key, e, Shown(init), Outputs(last.masks, last.shorts, [], last.own));
  }

  lemma OwnTexts(s: Sink, key: Key, e: Event, before: seq<string>, now: seq<string>)
    requires e.Line? && Concerns(e, key) && TextsOf(Only(s.emitted, key.0, Some(key.1))) == before + now
    ensures TextsOf(Only(Step(false, s, e).emitted, key.0, Some(key.1))) == before + (now + [MaskedLine(s, e).text])
  {
    TextsLast(Only(s.emitted, key.0, Some(key.1)), MaskedLine(s, e));
    Assoc(before, now, [MaskedLine(s, e).text]);
  }

  lemma OtherEvent(s: Sink, es: seq<Epoch>, key: Key, e: Event)
    requires es != [] && LikeMaskers(s, es, key) && !Concerns(e, key)
    ensures LikeMaskers(Step(false, s, e), es, key)
  {
    if e.Line? {
      OtherLine(s, key, e);
    }
  }

  lemma OtherLine(s: Sink, key: Key, e: Event)
    requires e.Line? && !Concerns(e, key)
    ensures Only(Step(false, s, e).emitted, key.0, Some(key.1)) == Only(s.emitted, key.0, Some(key.1))
    ensures PendingOf(Step(false, s, e), key) == PendingOf(s, key)
  {
    var shown := Only(s.emitted, key.0, Some(key.1));
    OnlyOne(s.emitted, MaskedLine(s, e), key.0, Some(key.1));
    assert shown + [] == shown;
  }

  lemma NewValues(s: Sink, es: seq<Epoch>, key: Key, e: Event)
    requires es != [] && LikeMaskers(s, es, key) && e.Secrets?
    ensures LikeMaskers(Step(false, s, e), es + [Epoch(e.masks, e.shorts, [])], key)
  {
    ShownLast(es, Epoch(e.masks, e.shorts, []));
    assert Shown(es) + [] == Shown(es);
  }

  /** A pair's output is that of one masker fed the pair's own lines, and of a new one behind every change. */
  lemma {:induction false} OneMasker(masks: seq<string>, shorts: seq<(string, string)>, events: seq<Event>, key: Key)
    ensures LikeMaskers(Run(false, Fresh(masks, shorts), events), EpochsOf(masks, shorts, events, key), key)
  {
    if events == [] {
      var none: seq<Epoch> := [];
      assert [Epoch(masks, shorts, [])][..0] == none && Shown(none) == [];
    } else {
      var init, e := events[..|events| - 1], events[|events| - 1];
      OneMasker(masks, shorts, init, key);
      var s, es := Run(false, Fresh(masks, shorts), init), EpochsOf(masks, shorts, init, key);
      if e.Secrets? {
        NewValues(s, es, key, e);
      } else if Concerns(e, key) {
        OwnLine(s, es, key, e);
      } else {
        OtherEvent(s, es, key, e);
      }
    }
  }

  /**
   Grouped output shows, per host and stream, what one masker after the other shows, and values that do not
   clash are safe behind every change of the values, whatever other hosts print in between.
   */
  lemma NothingLeaks(masks: seq<string>, shorts: seq<(string, string)>, events: seq<Event>, key: Key)
    ensures var g, es := Run(true, Fresh(masks, shorts), events + [FlushAll]), EpochsOf(masks, shorts, events, key);
            && TextsOf(Only(g.emitted, key.0, Some(key.1))) == Shown(es)
            && forall k, secret :: 0 <= k < |es| && SafeIn(es[k], secret) ==>
                 !Occurs(secret, Concat(Outputs(es[k].masks, es[k].shorts, [], es[k].own)))
  {
    GroupedRefinesStreamed(masks, shorts, events, key);
    SeenIsEnough(Fresh(masks, shorts), events, key);
    OneMasker(masks, shorts, events, key);
    var es := EpochsOf(masks, shorts, events, key);
    forall k, secret | 0 <= k < |es| && SafeIn(es[k], secret)
      ensures !Occurs(secret, Concat(Outputs(es[k].masks, es[k].shorts, [], es[k].own)))
    {
      NoClashIsSafe(es[k].masks);
      assert !Leaks(es[k].masks, es[k].shorts, es[k].own, secret);
    }
  }

  ghost predicate SafeIn(e: Epoch, secret: string) {
    "" !in e.masks && !SomeClash(e.masks) && secret in e.masks && StarFree(secret)
  }

  /** Without a change there is one epoch. */
  lemma {:induction false} OneEpoch(masks: seq<string>, shorts: seq<(string, string)>, events: seq<Event>, key: Key)
    requires forall e :: e in events ==> !e.Secrets?
    ensures var es := EpochsOf(masks, shorts, events, key);
            |es| == 1 && es[0].masks == masks && es[0].shorts == shorts
              && Shown(es) == Outputs(masks, shorts, [], es[0].own)
  {
    if events == [] {
      var es := [Epoch(masks, shorts, [])];
      ShownLast([], es[0]);
      assert [] + es == es;
    } else {
      var init, e := events[..|events| - 1], events[|events| - 1];
      assert e in events && forall x :: x in init ==> x in events;
      OneEpoch(masks, shorts, init, key);
      var es := EpochsOf(masks, shorts, events, key);
      ShownLast([], es[0]);
      assert [] + es == es;
    }
  }

  // A host's block is in one piece.

  /** Events that print what is buffered for the host. */
  predicate Flushes(e: Event, host: string) { e.FlushAll? || (e.Finished? && e.host == host) }

  /** No line of the host comes after its output was printed. */
  ghost predicate NoLateLine(events: seq<Event>, host: string) {
    forall i, j :: 0 <= i < j < |events| && Flushes(events[i], host) ==> !(events[j].Line? && events[j].host == host)
  }

  /** The host's lines follow one another, with no other host's line between them. */
  ghost predicate InOnePiece(ls: seq<OutLine>, host: string) { exists i, j :: PieceAt(ls, host, i, j) }

  ghost predicate PieceAt(ls: seq<OutLine>, host: string, i: int, j: int) {
    0 <= i <= j <= |ls| && (forall k :: 0 <= k < |ls| ==> (ls[k].host == host <==> i <= k < j))
  }

  ghost predicate NoneOf(ls: seq<OutLine>, host: string) { forall k :: 0 <= k < |ls| ==> ls[k].host != host }

  lemma PieceStays(a: seq<OutLine>, b: seq<OutLine>, host: string)
    requires InOnePiece(a, host) && NoneOf(b, host)
    ensures InOnePiece(a + b, host)
  {
    var i, j :| PieceAt(a, host, i, j);
    if i == j {
      assert PieceAt(a + b, host, 0, 0);
    } else {
      assert PieceAt(a + b, host, i, j);
    }
  }

  lemma PieceAfter(a: seq<OutLine>, b: seq<OutLine>, host: string)
    requires NoneOf(a, host) && InOnePiece(b, host)
    ensures InOnePiece(a + b, host)
  {
    var i, j :| PieceAt(b, host, i, j);
    assert PieceAt(a + b, host, |a| + i, |a| + j);
  }

  lemma WholeIsPiece(ls: seq<OutLine>, host: string)
    requires forall k :: 0 <= k < |ls| ==> ls[k].host == host
    ensures InOnePiece(ls, host)
  {
    assert PieceAt(ls, host, 0, |ls|);
  }

  lemma NoneIsPiece(ls: seq<OutLine>, host: string)
    requires NoneOf(ls, host)
    ensures InOnePiece(ls, host)
  {
    assert PieceAt(ls, host, 0, 0);
  }

  lemma {:induction false} PrintedPiece(b: Buffer, n: nat, host: string)
    requires WellFormed(b) && n <= |b.order|
    ensures InOnePiece(Printed(b, n), host)
    ensures !Among(b, n, host) ==> NoneOf(Printed(b, n), host)
  {
    if n == 0 {
      NoneIsPiece([], host);
    } else {
      var last := b.order[n - 1];
      PrintedStep(b, n - 1);
      PrintedPiece(b, n - 1, host);
      if last == host {
        WholeIsPiece(LinesOf(b, last), host);
        PieceAfter(Printed(b, n - 1), LinesOf(b, last), host);
      } else {
        PieceStays(Printed(b, n - 1), LinesOf(b, last), host);
      }
    }
  }

  /** Either nothing of the host was printed yet, or all of it was. */
  ghost predicate Pieces(g: Sink, flushed: bool, host: string) {
    && WellFormed(g.buffer) && InOnePiece(g.emitted, host)
    && if flushed then host !in g.buffer.lines else NoneOf(g.emitted, host)
  }

  ghost predicate Flushed(events: seq<Event>, host: string) {
    exists i :: 0 <= i < |events| && Flushes(events[i], host)
  }

  lemma PiecesStep(g: Sink, e: Event, flushed: bool, host: string)
    requires Pieces(g, flushed, host) && !(flushed && e.Line? && e.host == host)
    ensures Pieces(Step(true, g, e), flushed || Flushes(e, host), host)
  {
    var b := g.buffer;
    match e {
      case Line(_, _, _) =>
        PushedWellFormed(b, MaskedLine(g, e));
      case Finished(h) =>
        RemovedWellFormed(b, h);
        var block := LinesOf(b, h);
        if h == host {
          WholeIsPiece(block, host);
          Appended(g.emitted, block, flushed, host);
        } else {
          PieceStays(g.emitted, block, host);
        }
      case FlushAll =>
        assert b.order[..|b.order|] == b.order;
        PrintedPiece(b, |b.order|, host);
        Appended(g.emitted, Flat(Blocks(b.order, b.lines)), flushed, host);
      case Secrets(_, _) =>
    }
  }

  lemma Appended(emitted: seq<OutLine>, block: seq<OutLine>, flushed: bool, host: string)
    requires InOnePiece(emitted, host) && InOnePiece(block, host)
    requires if flushed then NoneOf(block, host) else NoneOf(emitted, host)
    ensures InOnePiece(emitted + block, host)
  {
    if flushed {
      PieceStays(emitted, block, host);
    } else {
      PieceAfter(emitted, block, host);
    }
  }

  lemma {:induction false} PiecesHold(start: Sink, events: seq<Event>, host: string)
    requires start.buffer == Buffer([], map[]) && start.emitted == [] && NoLateLine(events, host)
    ensures Pieces(Run(true, start, events), Flushed(events, host), host)
  {
    if events == [] {
      NoneIsPiece([], host);
    } else {
      var init, e := events[..|events| - 1], events[|events| - 1];
      assert NoLateLine(init, host) by {
        assert forall i :: 0 <= i < |init| ==> init[i] == events[i];
      }
      PiecesHold(start, init, host);
      FlushedLast(init, e, host);
      assert init + [e] == events;
      if Flushed(init, host) {
        var i :| 0 <= i < |init| && Flushes(init[i], host);
        assert Flushes(events[i], host);
      }
      PiecesStep(Run(true, start, init), e, Flushed(init, host), host);
    }
  }

  lemma FlushedLast(init: seq<Event>, e: Event, host: string)
    ensures Flushed(init + [e], host) <==> Flushed(init, host) || Flushes(e, host)
  {
    var all := init + [e];
    if Flushed(init, host) {
      var i :| 0 <= i < |init| && Flushes(init[i], host);
      assert Flushes(all[i], host);
    }
    if Flushes(e, host) {
      assert Flushes(all[|init|], host);
    }
  }

  /** A host that prints nothing after its end has its whole output in one piece. */
  lemma BlocksAreContiguous(masks: seq<string>, shorts: seq<(string, string)>, events: seq<Event>, host: string)
    requires NoLateLine(events, host)
    ensures InOnePiece(Run(true, Fresh(masks, shorts), events).emitted, host)
  {
    PiecesHold(Fresh(masks, shorts), events, host);
  }

  // A flush prints the hosts in the order they were first heard.

  /** The host's first line that is still buffered. */
  function FirstLine(events: seq<Event>, host: string): Option<nat> {
    if events == [] then None
    else
      var init, e := events[..|events| - 1], events[|events| - 1];
      if Flushes(e, host) then None
      else match FirstLine(init, host)
        case Some(k) => Some(k)
        case None => if e.Line? && e.host == host then Some(|init|) else None
  }

  ghost predicate Before(a: Option<nat>, b: Option<nat>) { a.Some? && b.Some? && a.value < b.value }

  ghost predicate Rising(order: seq<string>, events: seq<Event>) {
    forall i, j :: 0 <= i < j < |order| ==> Before(FirstLine(events, order[i]), FirstLine(events, order[j]))
  }

  /** The buffered hosts, each where its first line came. */
  ghost predicate ByFirstLine(order: seq<string>, events: seq<Event>) {
    (forall h :: h in order <==> FirstLine(events, h).Some?) && Rising(order, events)
  }

  lemma {:induction false} FirstLineIsPast(events: seq<Event>, host: string)
    ensures FirstLine(events, host).Some? ==> FirstLine(events, host).value < |events|
  {
    if events != [] {
      FirstLineIsPast(events[..|events| - 1], host);
    }
  }

  lemma FirstLineStep(init: seq<Event>, e: Event, host: string)
    ensures FirstLine(init + [e], host)
         == if Flushes(e, host) then None
            else if FirstLine(init, host).None? && e.Line? && e.host == host then Some(|init|)
            else FirstLine(init, host)
  {
    assert (init + [e])[..|init|] == init;
  }

  /** Removing a host keeps the others as they are. */
  lemma {:induction false} WithoutRises(order: seq<string>, host: string, events: seq<Event>)
    requires Rising(order, events)
    ensures Rising(Without(order, host), events)
  {
    if order != [] {
      var n := |order| - 1;
      var r := Without(order[..n], host);
      WithoutRises(order[..n], host, events);
      forall i | 0 <= i < |r| ensures Before(FirstLine(events, r[i]), FirstLine(events, order[n])) {
        assert r[i] in order[..n];
      }
    }
  }

  lemma SameRises(order: seq<string>, a: seq<Event>, b: seq<Event>)
    requires Rising(order, a) && forall h :: h in order ==> FirstLine(b, h) == FirstLine(a, h)
    ensures Rising(order, b)
  {
  }

  lemma HeardStep(order: seq<string>, init: seq<Event>, e: Event)
    requires ByFirstLine(order, init) && e.Line?
    ensures ByFirstLine(if e.host in order then order else order + [e.host], init + [e])
  {
    forall h
      ensures FirstLine(init + [e], h) == if h == e.host && h !in order then Some(|init|) else FirstLine(init, h)
    {
      FirstLineStep(init, e, h);
    }
    forall h | h in order ensures Before(FirstLine(init, h), Some(|init|)) {
      FirstLineIsPast(init, h);
    }
    SameRises(order, init, init + [e]);
  }

  lemma EndedStep(order: seq<string>, init: seq<Event>, e: Event)
    requires ByFirstLine(order, init) && e.Finished?
    ensures ByFirstLine(Without(order, e.host), init + [e])
  {
    forall h ensures FirstLine(init + [e], h) == if h == e.host then None else FirstLine(init, h) {
      FirstLineStep(init, e, h);
    }
    WithoutRises(order, e.host, init);
    SameRises(Without(order, e.host), init, init + [e]);
  }

  lemma OrderStep(g: Sink, init: seq<Event>, e: Event)
    requires ByFirstLine(g.buffer.order, init) && WellFormed(g.buffer)
    ensures ByFirstLine(Step(true, g, e).buffer.order, init + [e]) && WellFormed(Step(true, g, e).buffer)
  {
    match e {
      case Line(_, _, _) =>
        PushedWellFormed(g.buffer, MaskedLine(g, e));
        HeardStep(g.buffer.order, init, e);
      case Finished(host) =>
        RemovedWellFormed(g.buffer, host);
        EndedStep(g.buffer.order, init, e);
      case FlushAll =>
        forall h ensures FirstLine(init + [e], h).None? {
          FirstLineStep(init, e, h);
        }
      case Secrets(_, _) =>
        forall h ensures FirstLine(init + [e], h) == FirstLine(init, h) {
          FirstLineStep(init, e, h);
        }
        SameRises(g.buffer.order, init, init + [e]);
    }
  }

  ghost predicate FirstHeard(b: Buffer, events: seq<Event>) { WellFormed(b) && ByFirstLine(b.order, events) }

  lemma OrderNext(g: Sink, next: Sink, init: seq<Event>, events: seq<Event>)
    requires FirstHeard(g.buffer, init) && events != [] && init == events[..|events| - 1]
    requires next == Step(true, g, events[|events| - 1])
    ensures FirstHeard(next.buffer, events)
  {
    OrderStep(g, init, events[|events| - 1]);
    assert init + [events[|events| - 1]] == events;
  }

  /** The buffer holds the hosts in first-heard order. */
  lemma {:induction false} OrderIsFirstHeard(start: Sink, events: seq<Event>)
    requires start.buffer == Buffer([], map[])
    ensures FirstHeard(Run(true, start, events).buffer, events)
  {
    if events != [] {
      var init := events[..|events| - 1];
      OrderIsFirstHeard(start, init);
      OrderNext(Run(true, start, init), Run(true, start, events), init, events);
    }
  }

  ghost predicate NotAfter(a: Option<nat>, b: Option<nat>) { a.Some? && b.Some? && a.value <= b.value }

  ghost predicate InOrder(ls: seq<OutLine>, events: seq<Event>) {
    forall i, j :: 0 <= i < j < |ls| ==> NotAfter(FirstLine(events, ls[i].host), FirstLine(events, ls[j].host))
  }

  lemma AddedInOrder(before: seq<OutLine>, lines: seq<OutLine>, last: string, events: seq<Event>)
    requires InOrder(before, events) && FirstLine(events, last).Some?
    requires forall k :: 0 <= k < |before| ==> Before(FirstLine(events, before[k].host), FirstLine(events, last))
    requires forall k :: 0 <= k < |lines| ==> lines[k].host == last
    ensures InOrder(before + lines, events)
  {
  }

  ghost predicate AllAmong(ls: seq<OutLine>, b: Buffer, n: nat)
    requires n <= |b.order|
  {
    forall k :: 0 <= k < |ls| ==> Among(b, n, ls[k].host)
  }

  lemma AddedAmong(before: seq<OutLine>, lines: seq<OutLine>, b: Buffer, n: nat)
    requires n < |b.order| && AllAmong(before, b, n)
    requires forall k :: 0 <= k < |lines| ==> lines[k].host == b.order[n]
    ensures AllAmong(before + lines, b, n + 1)
  {
  }

  lemma AmongIsBefore(ls: seq<OutLine>, b: Buffer, n: nat, events: seq<Event>)
    requires n < |b.order| && AllAmong(ls, b, n) && Rising(b.order, events)
    ensures forall k :: 0 <= k < |ls| ==> Before(FirstLine(events, ls[k].host), FirstLine(events, b.order[n]))
  {
    forall k | 0 <= k < |ls| ensures Before(FirstLine(events, ls[k].host), FirstLine(events, b.order[n])) {
      var i :| 0 <= i < n && b.order[i] == ls[k].host;
    }
  }

  lemma NextInOrder(before: seq<OutLine>, lines: seq<OutLine>, all: seq<OutLine>, b: Buffer, n: nat,
                    events: seq<Event>)
    requires n < |b.order| && ByFirstLine(b.order, events) && all == before + lines
    requires AllAmong(before, b, n) && InOrder(before, events)
    requires forall k :: 0 <= k < |lines| ==> lines[k].host == b.order[n]
    ensures AllAmong(all, b, n + 1) && InOrder(all, events)
  {
    AmongIsBefore(before, b, n, events);
    AddedAmong(before, lines, b, n);
    assert b.order[n] in b.order;
    AddedInOrder(before, lines, b.order[n], events);
  }

  /** The lines of the first n hosts, host after host. */
  lemma {:induction false} PrintedInOrder(b: Buffer, n: nat, events: seq<Event>)
    requires WellFormed(b) && n <= |b.order| && ByFirstLine(b.order, events)
    ensures AllAmong(Printed(b, n), b, n) && InOrder(Printed(b, n), events)
  {
    if n > 0 {
      PrintedStep(b, n - 1);
      PrintedInOrder(b, n - 1, events);
      NextInOrder(Printed(b, n - 1), LinesOf(b, b.order[n - 1]), Printed(b, n), b, n - 1, events);
    }
  }

  /** What a flush prints: host after host, the one first heard before the others. */
  lemma FlushIsFirstHeard(masks: seq<string>, shorts: seq<(string, string)>, events: seq<Event>)
    ensures var start := Fresh(masks, shorts);
            var before, after := Run(true, start, events).emitted, Run(true, start, events + [FlushAll]).emitted;
            && |before| <= |after| && after[..|before|] == before && InOrder(after[|before|..], events)
  {
    OrderIsFirstHeard(Fresh(masks, shorts), events);
    var b := Run(true, Fresh(masks, shorts), events).buffer;
    assert (events + [FlushAll])[..|events|] == events;
    assert b.order[..|b.order|] == b.order;
    PrintedInOrder(b, |b.order|, events);
  }
}
