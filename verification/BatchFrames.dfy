/** The framed answers of a batch of remote queries. */
module BatchFrames {
  // One round trip for many queries: each answer comes back between a begin and an end marker that carry
  // this run's nonce, and the reader takes the frames apart line by line.

  import opened Text
  import opened BatchScripts

  datatype Section = Section(rc: int, body: string)

  /** An answer as the remote shell frames it, and whatever other lines follow it. */
  datatype Frame = Frame(id: string, rc: nat, body: seq<string>, noise: seq<string>)

  // Numbers as `str::parse::<i32>` reads them.

  function Digits(s: string): Option<nat> {
    if s == "" then Some(0)
    else
      var last := s[|s| - 1];
      match Digits(s[..|s| - 1])
      case Some(n) => if '0' <= last <= '9' then Some(10 * n + (last as int - '0' as int)) else None
      case None => None
  }

  const I32_LIMIT: int := 0x8000_0000

  function ParseI32(s: string): Option<int> {
    var negative := s != "" && s[0] == '-';
    var digits := if s != "" && (s[0] == '-' || s[0] == '+') then s[1..] else s;
    if digits == "" then None
    else match Digits(digits)
      case None => None
      case Some(n) =>
        var value: int := if negative then -(n as int) else n;
        if -I32_LIMIT <= value < I32_LIMIT then Some(value) else None
  }

  lemma {:induction false} DecimalReads(n: nat)
    ensures Digits(Decimal(n)) == Some(n)
  {
    if n < 10 {
      assert Decimal(n)[..0] == "";
    } else {
      DecimalReads(n / 10);
      var s := Decimal(n);
      assert s[..|s| - 1] == Decimal(n / 10) && s[|s| - 1] == Digit(n % 10);
    }
  }

  lemma DecimalParses(n: nat)
    requires n < I32_LIMIT
    ensures ParseI32(Decimal(n)) == Some(n)
  {
    DecimalReads(n);
    assert Decimal(n)[0] in Decimal(n);
  }

  // Markers.

  function StripPrefix(line: string, prefix: string): Option<string> {
    if prefix <= line then Some(line[|prefix|..]) else None
  }

  /** Index of the last blank (`rsplit_once(' ')`). */
  function LastBlank(s: string): (r: Option<nat>)
    ensures r.Some? ==> r.value < |s|
  {
    if s == "" then None
    else if s[|s| - 1] == ' ' then Some(|s| - 1)
    else LastBlank(s[..|s| - 1])
  }

  /** A begin marker: its id and the exit status behind the last blank. */
  function MatchBegin(nonce: string, line: string): Option<(string, int)> {
    match StripPrefix(line, Prefix(nonce, 'B'))
    case None => None
    case Some(rest) =>
      match LastBlank(rest)
      case None => None
      case Some(at) =>
        match ParseI32(rest[at + 1..])
        case None => None
        case Some(rc) => Some((rest[..at], rc))
  }

  function MatchEnd(nonce: string, line: string): Option<string> { StripPrefix(line, Prefix(nonce, 'E')) }

  function BeginLine(nonce: string, f: Frame): string { Prefix(nonce, 'B') + f.id + " " + Decimal(f.rc) }

  function EndLine(nonce: string, f: Frame): string { Prefix(nonce, 'E') + f.id }

  lemma {:induction false} BlankBefore(s: string, tail: string)
    requires forall c :: c in tail ==> c != ' '
    ensures LastBlank(s + " " + tail) == Some(|s|)
    decreases |tail|
  {
    var all := s + " " + tail;
    if tail == "" {
      assert all[|all| - 1] == ' ';
    } else {
      var init := tail[..|tail| - 1];
      assert tail[|tail| - 1] in tail;
      assert forall c :: c in init ==> c in tail;
      assert all[|all| - 1] == tail[|tail| - 1];
      assert all[..|all| - 1] == s + " " + init;
      BlankBefore(s, init);
    }
  }

  lemma Stripped(prefix: string, rest: string)
    ensures StripPrefix(prefix + rest, prefix) == Some(rest)
  {
    assert (prefix + rest)[|prefix|..] == rest;
  }

  lemma OtherKind(nonce: string, rest: string)
    ensures StripPrefix(Prefix(nonce, 'E') + rest, Prefix(nonce, 'B')) == None
  {
    var b, e := Prefix(nonce, 'B'), Prefix(nonce, 'E');
    var at := |b| - 2;
    assert b[at] == 'B' && (e + rest)[at] == 'E';
  }

  lemma StatusRead(id: string, rc: nat)
    ensures var rest := id + " " + Decimal(rc);
            LastBlank(rest) == Some(|id|) && rest[..|id|] == id && rest[|id| + 1..] == Decimal(rc)
  {
    BlankBefore(id, Decimal(rc));
  }

  /** The markers of a frame are read back, whatever blanks its id holds. */
  lemma MarkersRead(nonce: string, f: Frame)
    requires f.rc < I32_LIMIT
    ensures MatchBegin(nonce, BeginLine(nonce, f)) == Some((f.id, f.rc))
    ensures MatchBegin(nonce, EndLine(nonce, f)) == None && MatchEnd(nonce, EndLine(nonce, f)) == Some(f.id)
  {
    var rest := f.id + " " + Decimal(f.rc);
    assert BeginLine(nonce, f) == Prefix(nonce, 'B') + rest by {
      Regroup(Prefix(nonce, 'B'), f.id, " ", Decimal(f.rc));
    }
    Stripped(Prefix(nonce, 'B'), rest);
    StatusRead(f.id, f.rc);
    DecimalParses(f.rc);
    OtherKind(nonce, f.id);
    Stripped(Prefix(nonce, 'E'), f.id);
  }

  /** `+` and `-` are read, and nothing else but digits; a number has to fit. */
  lemma SignedParses(n: nat)
    ensures var m: int := n; ParseI32("-" + Decimal(n)) == if m <= 0x8000_0000 then Some(-m) else None
    ensures ParseI32("+" + Decimal(n)) == if n < 0x8000_0000 then Some(n) else None
    ensures ParseI32(Decimal(n)) == if n < 0x8000_0000 then Some(n) else None
  {
    DecimalReads(n);
    assert Decimal(n)[0] in Decimal(n);
    assert ("-" + Decimal(n))[1..] == Decimal(n) && ("+" + Decimal(n))[1..] == Decimal(n);
  }

  lemma {:induction false} OtherByte(s: string, k: nat)
    requires k < |s| && !('0' <= s[k] <= '9')
    ensures Digits(s) == None
  {
    if k < |s| - 1 {
      OtherByte(s[..|s| - 1], k);
    }
  }

  lemma NotANumber(s: string, k: nat)
    requires k < |s| && !('0' <= s[k] <= '9') && (k == 0 ==> s[0] != '-' && s[0] != '+')
    ensures ParseI32(s) == None
  {
    if s[0] == '-' || s[0] == '+' {
      OtherByte(s[1..], k - 1);
    } else {
      OtherByte(s, k);
    }
  }

  lemma {:induction false} LastBlankHolds(s: string)
    ensures match LastBlank(s)
            case None => ' ' !in s
            case Some(at) => s[at] == ' ' && ' ' !in s[at + 1..]
  {
    if s != "" && s[|s| - 1] != ' ' {
      var init := s[..|s| - 1];
      LastBlankHolds(init);
      assert s == init + [s[|s| - 1]];
      match LastBlank(init) {
        case None =>
        case Some(at) => assert s[at + 1..] == init[at + 1..] + [s[|s| - 1]];
      }
    }
  }

  /** A begin marker of this run: the id, a blank, and digits with no blank in them. */
  predicate IsBegin(nonce: string, line: string, id: string, digits: string) {
    line == "__SFW_" + nonce + "_B_" + (id + " " + digits) && ' ' !in digits
  }

  lemma PrefixIs(nonce: string)
    ensures Prefix(nonce, 'B') == "__SFW_" + nonce + "_B_" && Prefix(nonce, 'E') == "__SFW_" + nonce + "_E_"
  {
    Regroup("__SFW_" + nonce, "_", ['B'], "_");
    Regroup("__SFW_" + nonce, "_", ['E'], "_");
    assert "_" + ['B'] + "_" == "_B_" && "_" + ['E'] + "_" == "_E_";
  }

  lemma BeginIs(nonce: string, line: string, id: string, digits: string)
    requires IsBegin(nonce, line, id, digits)
    ensures MatchBegin(nonce, line)
         == match ParseI32(digits) case None => None case Some(rc) => Some((id, rc))
  {
    PrefixIs(nonce);
    Stripped(Prefix(nonce, 'B'), id + " " + digits);
    BlankBefore(id, digits);
    assert (id + " " + digits)[|id| + 1..] == digits && (id + " " + digits)[..|id|] == id;
  }

  lemma BeginSplits(nonce: string, line: string, id: string, rc: int) returns (digits: string)
    requires MatchBegin(nonce, line) == Some((id, rc))
    ensures IsBegin(nonce, line, id, digits) && ParseI32(digits) == Some(rc)
  {
    PrefixIs(nonce);
    var rest := line[|Prefix(nonce, 'B')|..];
    LastBlankHolds(rest);
    var at := LastBlank(rest).value;
    digits := rest[at + 1..];
    BlankSplits(line, Prefix(nonce, 'B'), rest, at);
  }

  lemma BlankSplits(line: string, prefix: string, rest: string, at: nat)
    requires prefix <= line && rest == line[|prefix|..] && at < |rest| && rest[at] == ' '
    ensures line == prefix + (rest[..at] + " " + rest[at + 1..])
  {
    assert rest == rest[..at] + " " + rest[at + 1..];
  }

  /** Exactly the markers of this run are read as markers. */
  lemma MarkersIff(nonce: string, line: string, id: string, rc: int)
    ensures MatchBegin(nonce, line) == Some((id, rc))
            <==> exists digits :: IsBegin(nonce, line, id, digits) && ParseI32(digits) == Some(rc)
    ensures MatchEnd(nonce, line) == Some(id) <==> line == "__SFW_" + nonce + "_E_" + id
  {
    if digits :| IsBegin(nonce, line, id, digits) && ParseI32(digits) == Some(rc) {
      BeginIs(nonce, line, id, digits);
    }
    if MatchBegin(nonce, line) == Some((id, rc)) {
      var digits := BeginSplits(nonce, line, id, rc);
    }
    EndIff(nonce, line, id);
  }

  lemma EndIff(nonce: string, line: string, id: string)
    ensures MatchEnd(nonce, line) == Some(id) <==> line == "__SFW_" + nonce + "_E_" + id
  {
    PrefixIs(nonce);
    Stripped(Prefix(nonce, 'E'), id);
  }

  // The reader.

  datatype Reader = Reader(sections: map<string, Section>, current: Option<(string, int)>, body: seq<string>)

  const FRESH := Reader(map[], None, [])

  /** Store the answer being collected, if any. */
  function Flushed(r: Reader): Reader {
    match r.current
    case None => Reader(r.sections, None, [])
    case Some((id, rc)) => Reader(r.sections[id := Section(rc, Join(r.body, "\n"))], None, [])
  }

  function Pushed(nonce: string, r: Reader, line: string): Reader {
    match MatchBegin(nonce, line)
    case Some(begun) => Flushed(r).(current := Some(begun))
    case None =>
      match MatchEnd(nonce, line)
      case Some(id) => if r.current.Some? && r.current.value.0 == id then Flushed(r) else r
      case None => if r.current.Some? then r.(body := r.body + [line]) else r
  }

  function PushedAll(nonce: string, r: Reader, lines: seq<string>): Reader {
    if lines == [] then r else Pushed(nonce, PushedAll(nonce, r, lines[..|lines| - 1]), lines[|lines| - 1])
  }

  function Finished(r: Reader): map<string, Section> { Flushed(r).sections }

  class AnswerReader {
    const batch: Batch
    var sections: map<string, Section>
    var current: Option<(string, int)>
    var body: seq<string>

    ghost function View(): Reader
      reads this
    {
      Reader(sections, current, body)
    }

    constructor (batch: Batch)
      ensures this.batch == batch && View() == FRESH
    {
      this.batch := batch;
      sections, current, body := map[], None, [];
    }

    method Flush()
      modifies this
      ensures View() == Flushed(old(View()))
    {
      match current {
        case Some((id, rc)) => sections := sections[id := Section(rc, Join(body, "\n"))];
        case None =>
      }
      current := None;
      body := [];
    }

    /** Feed one line of the response. */
    method PushLine(line: string)
      modifies this
      ensures View() == Pushed(batch.nonce, old(View()), line)
    {
      var begun := MatchBegin(batch.nonce, line);
      if begun.Some? {
        Flush();
        current := begun;
        return;
      }
      var ended := MatchEnd(batch.nonce, line);
      if ended.Some? {
        if current.Some? && current.value.0 == ended.value {
          Flush();
        }
        return;
      }
      if current.Some? {
        body := body + [line];
      }
    }

    method IsComplete() returns (complete: bool)
      ensures complete == (|sections| >= batch.count)
    {
      return |sections| >= batch.count;
    }

    method Finish() returns (answers: map<string, Section>)
      modifies this
      ensures answers == Finished(old(View()))
    {
      Flush();
      return sections;
    }
  }

  /** The reader after the first k lines of a response. */
  function After(nonce: string, lines: seq<string>, k: nat): Reader
    requires k <= |lines|
  {
    PushedAll(nonce, FRESH, lines[..k])
  }

  function Answers(nonce: string, lines: seq<string>, k: nat): nat
    requires k <= |lines|
  {
    |After(nonce, lines, k).sections|
  }

  lemma AfterStep(nonce: string, lines: seq<string>, k: nat)
    requires k < |lines|
    ensures After(nonce, lines, k + 1) == Pushed(nonce, After(nonce, lines, k), lines[k])
  {
    assert lines[..k + 1][..k] == lines[..k];
  }

  /** Reading stops behind line `read`: it is the first to make the batch complete, or the last of all. */
  ghost predicate StopsAt(nonce: string, lines: seq<string>, count: nat, read: nat)
    requires read <= |lines|
  {
    && (read < |lines| ==> 0 < read && Answers(nonce, lines, read) >= count)
    && (forall k :: 0 < k < read ==> Answers(nonce, lines, k) < count)
  }

  ghost predicate StillIncomplete(nonce: string, lines: seq<string>, count: nat, read: nat)
    requires read <= |lines|
  {
    forall k :: 0 < k <= read ==> Answers(nonce, lines, k) < count
  }

  /** Read a response, and stop once every expected answer is in. */
  method ReadAnswers(batch: Batch, lines: seq<string>) returns (answers: map<string, Section>, read: nat)
    ensures read <= |lines| && answers == Finished(After(batch.nonce, lines, read))
    ensures StopsAt(batch.nonce, lines, batch.count, read)
  {
    var reader := new AnswerReader(batch);
    read := 0;
    while read < |lines|
      invariant read <= |lines| && fresh(reader) && reader.batch == batch
      invariant reader.View() == After(batch.nonce, lines, read)
      invariant StillIncomplete(batch.nonce, lines, batch.count, read)
    {
      reader.PushLine(lines[read]);
      AfterStep(batch.nonce, lines, read);
      read := read + 1;
      var complete := reader.IsComplete();
      if complete {
        break;
      }
    }
    answers := reader.Finish();
  }

  // What comes back.

  /** Lines that are none of this run's markers. */
  ghost predicate NoMarkers(nonce: string, lines: seq<string>) {
    forall k :: 0 <= k < |lines| ==> MatchBegin(nonce, lines[k]).None? && MatchEnd(nonce, lines[k]).None?
  }

  ghost predicate Framable(nonce: string, frames: seq<Frame>) {
    && (forall k :: 0 <= k < |frames| ==>
          frames[k].rc < I32_LIMIT && NoMarkers(nonce, frames[k].body) && NoMarkers(nonce, frames[k].noise))
    && (forall k, l :: 0 <= k < l < |frames| ==> frames[k].id != frames[l].id)
  }

  function Opening(nonce: string, f: Frame): seq<string> { [BeginLine(nonce, f)] + f.body }

  function FrameLines(nonce: string, f: Frame): seq<string> { Opening(nonce, f) + [EndLine(nonce, f)] }

  /** Everything up to and with the last end marker; `lead` comes before the first frame, as a banner does. */
  function Framed(nonce: string, lead: seq<string>, frames: seq<Frame>): seq<string> {
    if frames == [] then lead
    else
      var init := frames[..|frames| - 1];
      Framed(nonce, lead, init) + Trailing(init) + FrameLines(nonce, frames[|frames| - 1])
  }

  /** The noise after the last frame. */
  function Trailing(frames: seq<Frame>): seq<string> { if frames == [] then [] else frames[|frames| - 1].noise }

  /** The answers that were sent. */
  function Sent(frames: seq<Frame>): map<string, Section> {
    if frames == [] then map[]
    else
      var f := frames[|frames| - 1];
      Sent(frames[..|frames| - 1])[f.id := Section(f.rc, Join(f.body, "\n"))]
  }

  lemma {:induction false} PushedJoin(nonce: string, r: Reader, a: seq<string>, b: seq<string>)
    ensures PushedAll(nonce, r, a + b) == PushedAll(nonce, PushedAll(nonce, r, a), b)
    decreases |b|
  {
    if b == [] {
      assert a + b == a;
    } else {
      assert (a + b)[..|a + b| - 1] == a + b[..|b| - 1];
      PushedJoin(nonce, r, a, b[..|b| - 1]);
    }
  }

  lemma {:induction false} NoiseIgnored(nonce: string, r: Reader, noise: seq<string>)
    requires r.current.None? && NoMarkers(nonce, noise)
    ensures PushedAll(nonce, r, noise) == r
  {
    if noise != [] {
      NoiseIgnored(nonce, r, noise[..|noise| - 1]);
    }
  }

  /** A begin marker keeps the frame that was still open, as far as it came. */
  lemma BeginKeepsOpen(nonce: string, r: Reader, f: Frame)
    requires f.rc < I32_LIMIT
    ensures var kept := if r.current.None? then r.sections
                        else r.sections[r.current.value.0 := Section(r.current.value.1, Join(r.body, "\n"))];
            Pushed(nonce, r, BeginLine(nonce, f)) == Reader(kept, Some((f.id, f.rc)), [])
  {
    MarkersRead(nonce, f);
  }

  /** An end marker of another id, in a frame or between frames, changes nothing. */
  lemma StrayEndIgnored(nonce: string, r: Reader, id: string)
    requires r.current.Some? ==> r.current.value.0 != id
    ensures Pushed(nonce, r, "__SFW_" + nonce + "_E_" + id) == r
  {
    MarkersIff(nonce, "__SFW_" + nonce + "_E_" + id, id, 0);
    PrefixIs(nonce);
    OtherKind(nonce, id);
  }

  lemma {:induction false} BodyCollected(nonce: string, r: Reader, body: seq<string>)
    requires r.current.Some? && NoMarkers(nonce, body)
    ensures PushedAll(nonce, r, body) == r.(body := r.body + body)
  {
    if body == [] {
      assert r.body + [] == r.body;
    } else {
      BodyCollected(nonce, r, body[..|body| - 1]);
      assert r.body + body[..|body| - 1] + [body[|body| - 1]] == r.body + body;
    }
  }

  /** A frame cut short: its section is open and holds the body lines that came. */
  lemma PartOfFrame(nonce: string, r: Reader, f: Frame, k: nat)
    requires r.current.None? && r.body == [] && f.rc < I32_LIMIT && NoMarkers(nonce, f.body) && k <= |f.body|
    ensures PushedAll(nonce, r, Opening(nonce, f)[..k + 1])
         == Reader(r.sections, Some((f.id, f.rc)), f.body[..k])
  {
    MarkersRead(nonce, f);
    var head := [BeginLine(nonce, f)];
    assert (head + f.body)[..k + 1] == head + f.body[..k];
    PushedJoin(nonce, r, head, f.body[..k]);
    assert head[..0] == [];
    BodyCollected(nonce, Reader(r.sections, Some((f.id, f.rc)), []), f.body[..k]);
    assert [] + f.body[..k] == f.body[..k];
  }

  lemma WholeFrame(nonce: string, r: Reader, f: Frame)
    requires r.current.None? && r.body == [] && f.rc < I32_LIMIT && NoMarkers(nonce, f.body)
    ensures PushedAll(nonce, r, FrameLines(nonce, f))
         == Reader(r.sections[f.id := Section(f.rc, Join(f.body, "\n"))], None, [])
  {
    var open := Opening(nonce, f);
    PartOfFrame(nonce, r, f, |f.body|);
    assert open[..|f.body| + 1] == open && f.body[..|f.body|] == f.body;
    assert FrameLines(nonce, f)[..|open|] == open;
    MarkersRead(nonce, f);
  }

  lemma FramableInit(nonce: string, frames: seq<Frame>)
    requires frames != [] && Framable(nonce, frames)
    ensures Framable(nonce, frames[..|frames| - 1])
  {
  }

  /** Reading the frames returns exactly the answers that were sent, noise between them or not. */
  lemma {:induction false} FramesRead(nonce: string, lead: seq<string>, frames: seq<Frame>)
    requires NoMarkers(nonce, lead) && Framable(nonce, frames)
    ensures PushedAll(nonce, FRESH, Framed(nonce, lead, frames)) == Reader(Sent(frames), None, [])
    ensures PushedAll(nonce, FRESH, Framed(nonce, lead, frames) + Trailing(frames)) == Reader(Sent(frames), None, [])
  {
    if frames != [] {
      var init, f := frames[..|frames| - 1], frames[|frames| - 1];
      FramesRead(nonce, lead, init);
      PushedJoin(nonce, FRESH, Framed(nonce, lead, init) + Trailing(init), FrameLines(nonce, f));
      WholeFrame(nonce, Reader(Sent(init), None, []), f);
    } else {
      NoiseIgnored(nonce, FRESH, lead);
    }
    PushedJoin(nonce, FRESH, Framed(nonce, lead, frames), Trailing(frames));
    NoiseIgnored(nonce, Reader(Sent(frames), None, []), Trailing(frames));
  }

  lemma {:induction false} SentIds(frames: seq<Frame>, id: string)
    ensures id in Sent(frames) <==> exists k :: 0 <= k < |frames| && frames[k].id == id
  {
    if frames != [] {
      var init := frames[..|frames| - 1];
      SentIds(init, id);
      if k :| 0 <= k < |init| && init[k].id == id {
        assert frames[k].id == id;
      }
      if frames[|frames| - 1].id == id {
        assert exists k :: 0 <= k < |frames| && frames[k].id == id;
      }
    }
  }

  lemma {:induction false} SentSize(nonce: string, frames: seq<Frame>)
    requires Framable(nonce, frames)
    ensures |Sent(frames)| == |frames|
  {
    if frames != [] {
      var init, f := frames[..|frames| - 1], frames[|frames| - 1];
      SentSize(nonce, init);
      SentIds(init, f.id);
      assert f.id !in Sent(init);
    }
  }

  lemma Prefixes<T>(a: seq<T>, b: seq<T>, k: nat)
    requires k <= |a| + |b|
    ensures (a + b)[..k] == if k <= |a| then a[..k] else a + b[..k - |a|]
  {
  }

  /** A response cut in the noise behind its frames. */
  lemma CutInNoise(nonce: string, lead: seq<string>, frames: seq<Frame>, k: nat)
    requires NoMarkers(nonce, lead) && Framable(nonce, frames) && k <= |Trailing(frames)|
    ensures PushedAll(nonce, FRESH, Framed(nonce, lead, frames) + Trailing(frames)[..k])
        == Reader(Sent(frames), None, [])
  {
    FramesRead(nonce, lead, frames);
    PushedJoin(nonce, FRESH, Framed(nonce, lead, frames), Trailing(frames)[..k]);
    NoiseIgnored(nonce, Reader(Sent(frames), None, []), Trailing(frames)[..k]);
  }

  /** A response cut before the end marker of one more frame. */
  lemma CutInFrame(nonce: string, lead: seq<string>, frames: seq<Frame>, f: Frame, k: nat)
    requires NoMarkers(nonce, lead) && Framable(nonce, frames) && f.rc < I32_LIMIT && NoMarkers(nonce, f.body)
        && k <= |f.body|
    ensures PushedAll(nonce, FRESH, Framed(nonce, lead, frames) + Trailing(frames) + Opening(nonce, f)[..k + 1])
         == Reader(Sent(frames), Some((f.id, f.rc)), f.body[..k])
  {
    FramesRead(nonce, lead, frames);
    PushedJoin(nonce, FRESH, Framed(nonce, lead, frames) + Trailing(frames), Opening(nonce, f)[..k + 1]);
    PartOfFrame(nonce, Reader(Sent(frames), None, []), f, k);
  }

  /** Before the last end marker an answer is missing. */
  lemma {:induction false} IncompleteBefore(nonce: string, lead: seq<string>, frames: seq<Frame>, k: nat)
    requires NoMarkers(nonce, lead) && Framable(nonce, frames) && frames != [] && k < |Framed(nonce, lead, frames)|
    ensures |PushedAll(nonce, FRESH, Framed(nonce, lead, frames)[..k]).sections| < |frames|
  {
    var init, f := frames[..|frames| - 1], frames[|frames| - 1];
    FramableInit(nonce, frames);
    var framed, noise, last := Framed(nonce, lead, init), Trailing(init), FrameLines(nonce, f);
    assert Framed(nonce, lead, frames) == framed + noise + last;
    Prefixes(framed + noise, last, k);
    SentSize(nonce, init);
    if k <= |framed + noise| {
      Prefixes(framed, noise, k);
      if init == [] && k <= |lead| {
        NoiseIgnored(nonce, FRESH, lead[..k]);
      } else if k < |framed| {
        IncompleteBefore(nonce, lead, init, k);
      } else {
        var n := k - |framed|;
        assert (framed + noise)[..k] == framed + noise[..n];
        CutInNoise(nonce, lead, init, n);
      }
    } else {
      var n := k - |framed + noise|;
      Prefixes(Opening(nonce, f), [EndLine(nonce, f)], n);
      CutInFrame(nonce, lead, init, f, n - 1);
    }
  }

  /** The batch is complete exactly from the last end marker on, and then holds what was sent. */
  lemma CompleteFrom(nonce: string, lead: seq<string>, frames: seq<Frame>, k: nat)
    requires NoMarkers(nonce, lead) && Framable(nonce, frames) && frames != []
        && k <= |Framed(nonce, lead, frames) + Trailing(frames)|
    ensures var lines := Framed(nonce, lead, frames) + Trailing(frames);
            && (Answers(nonce, lines, k) >= |frames| <==> |Framed(nonce, lead, frames)| <= k)
            && (|Framed(nonce, lead, frames)| <= k ==> After(nonce, lines, k) == Reader(Sent(frames), None, []))
  {
    var framed, noise := Framed(nonce, lead, frames), Trailing(frames);
    Prefixes(framed, noise, k);
    if k < |framed| {
      IncompleteBefore(nonce, lead, frames, k);
    } else {
      assert (framed + noise)[..k] == framed + noise[..k - |framed|];
      CutInNoise(nonce, lead, frames, k - |framed|);
      SentSize(nonce, frames);
    }
  }

  /**
   The framing round trip: reading stops right behind the last end marker with exactly the answers that
   were sent, and reading on to the end of the response would have given the same.
   */
  lemma RoundTrip(nonce: string, lead: seq<string>, frames: seq<Frame>, read: nat)
    requires NoMarkers(nonce, lead) && Framable(nonce, frames) && frames != []
        && read <= |Framed(nonce, lead, frames) + Trailing(frames)|
    requires StopsAt(nonce, Framed(nonce, lead, frames) + Trailing(frames), |frames|, read)
    ensures var lines := Framed(nonce, lead, frames) + Trailing(frames);
            && read == |Framed(nonce, lead, frames)|
            && Finished(After(nonce, lines, read)) == Finished(After(nonce, lines, |lines|)) == Sent(frames)
  {
    var framed, lines := Framed(nonce, lead, frames), Framed(nonce, lead, frames) + Trailing(frames);
    CompleteFrom(nonce, lead, frames, read);
    CompleteFrom(nonce, lead, frames, |lines|);
    assert |framed| > 0;
    CompleteFrom(nonce, lead, frames, |framed|);
  }

  /** A response cut inside a frame still yields that frame, with the body lines that came before the cut. */
  lemma CutFrameIsKept(nonce: string, lead: seq<string>, frames: seq<Frame>, f: Frame, k: nat)
    requires NoMarkers(nonce, lead) && Framable(nonce, frames + [f]) && k <= |f.body|
    ensures var lines := Framed(nonce, lead, frames) + Trailing(frames) + Opening(nonce, f)[..k + 1];
            Finished(PushedAll(nonce, FRESH, lines)) == Sent(frames)[f.id := Section(f.rc, Join(f.body[..k], "\n"))]
  {
    assert (frames + [f])[..|frames|] == frames && (frames + [f])[|frames|] == f;
    FramableInit(nonce, frames + [f]);
    CutInFrame(nonce, lead, frames, f, k);
  }
}
