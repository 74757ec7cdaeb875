/** What a batch of queries asks and what its reader returns. */
module BatchTheorems {
  // From the text that the script of a batch prints to the answers of its queries.

  import opened Text
  import opened BatchScripts
  import opened BatchFrames

  /** The output of a query, line by line; an empty one is one empty line. */
  function BodyOf(a: Answer): seq<string> { Lines(StripBreaks(a.raw) + "\n") }

  function FrameOf(q: Query, a: Answer): Frame { Frame(q.id, a.rc, BodyOf(a), []) }

  function FramesOf(queries: seq<Query>, answers: seq<Answer>): seq<Frame>
    requires |answers| == |queries|
  {
    seq(|queries|, k requires 0 <= k < |queries| => FrameOf(queries[k], answers[k]))
  }

  const UNSET := Variables("", 0)

  /** What the script of a batch prints, section after section. */
  function Output(nonce: string, queries: seq<Query>, answers: seq<Answer>): string
    requires |answers| == |queries|
  {
    if queries == [] then ""
    else
      var last := |queries| - 1;
      Output(nonce, queries[..last], answers[..last]) + Printed(SectionOf(nonce, queries[last]), UNSET, answers[last])
  }

  lemma NoBreak(nonce: string, kind: char, s: string)
    requires '\n' !in nonce && '\n' !in s && kind != '\n'
    ensures '\n' !in Prefix(nonce, kind) + s
  {
    assert '\n' !in "__SFW_" && '\n' !in "_" && '\n' !in [kind];
  }

  /** The three lines that `printf` writes are the frame of the answer. */
  lemma SectionLines(nonce: string, q: Query, a: Answer)
    requires '\n' !in nonce && PlainLine(q.id)
    ensures Lines(Printed(SectionOf(nonce, q), UNSET, a)) == FrameLines(nonce, FrameOf(q, a))
    ensures EndsWith(Printed(SectionOf(nonce, q), UNSET, a), "\n")
  {
    var f := FrameOf(q, a);
    var begin, end, out := BeginLine(nonce, f), EndLine(nonce, f), StripBreaks(a.raw);
    SectionPrints(nonce, q, UNSET, a);
    BeginIsLine(nonce, f);
    NoBreak(nonce, 'E', q.id);
    FirstLineReads(begin, out + "\n" + (end + "\n"));
    LinesJoin("", out, end + "\n");
    FirstLineReads(end, "");
    assert end + "\n" + "" == end + "\n";
    assert StripCr(end) == end by { assert q.id == "" ==> end[|end| - 1] == '_'; }
    FrameJoined(begin, f.body, end);
  }

  lemma FrameJoined(begin: string, body: seq<string>, end: string)
    ensures [begin] + (body + ([end] + Lines(""))) == [begin] + body + [end]
  {
  }

  lemma BeginIsLine(nonce: string, f: Frame)
    requires '\n' !in nonce && '\n' !in f.id
    ensures '\n' !in BeginLine(nonce, f) && StripCr(BeginLine(nonce, f)) == BeginLine(nonce, f)
  {
    NoBreak(nonce, 'B', f.id);
    var digits, line := Decimal(f.rc), BeginLine(nonce, f);
    assert line[|line| - 1] == digits[|digits| - 1] && digits[|digits| - 1] in digits;
  }

  lemma {:induction false} OutputLines(nonce: string, queries: seq<Query>, answers: seq<Answer>)
    requires |answers| == |queries| && '\n' !in nonce && forall k :: 0 <= k < |queries| ==> PlainLine(queries[k].id)
    ensures Lines(Output(nonce, queries, answers)) == Framed(nonce, [], FramesOf(queries, answers))
    ensures queries != [] ==> EndsWith(Output(nonce, queries, answers), "\n")
  {
    if queries != [] {
      var n := |queries| - 1;
      var before := Output(nonce, queries[..n], answers[..n]);
      var section := Printed(SectionOf(nonce, queries[n]), UNSET, answers[n]);
      OutputLines(nonce, queries[..n], answers[..n]);
      SectionLines(nonce, queries[n], answers[n]);
      TextsJoin(before, section);
      FramesPush(nonce, queries, answers);
      assert EndsWith(before + section, "\n") by { StillEnds(before, section); }
    }
  }

  lemma StillEnds(before: string, section: string)
    requires EndsWith(section, "\n")
    ensures EndsWith(before + section, "\n")
  {
  }

  lemma TextsJoin(before: string, section: string)
    requires before == "" || EndsWith(before, "\n")
    ensures Lines(before + section) == Lines(before) + Lines(section)
  {
    if before == "" {
      assert before + section == section;
    } else {
      var text := before[..|before| - 1];
      assert before == text + "\n";
      LinesJoin("", text, section);
    }
  }

  lemma FramesPush(nonce: string, queries: seq<Query>, answers: seq<Answer>)
    requires |answers| == |queries| && queries != []
    ensures var n := |queries| - 1;
            Framed(nonce, [], FramesOf(queries, answers))
            == Framed(nonce, [], FramesOf(queries[..n], answers[..n]))
              + FrameLines(nonce, FrameOf(queries[n], answers[n]))
  {
    var n := |queries| - 1;
    var init := FramesOf(queries[..n], answers[..n]);
    assert FramesOf(queries, answers)[..n] == init;
    assert Trailing(init) == [];
    assert Framed(nonce, [], init) + [] == Framed(nonce, [], init);
  }

  lemma {:induction false} LinesRejoin(begun: string, s: string)
    requires '\n' !in begun && '\r' !in begun && '\r' !in s
    ensures LinesFrom(begun, s + "\n") != [] && Join(LinesFrom(begun, s + "\n"), "\n") == begun + s
    decreases |s|
  {
    if s == "" {
      assert s + "\n" == "\n" && "\n"[1..] == "" && begun + s == begun;
    } else {
      var rest := s[1..];
      assert (s + "\n")[1..] == rest + "\n" && s == [s[0]] + rest;
      assert begun != "" ==> begun[|begun| - 1] in begun;
      if s[0] == '\n' {
        LinesRejoin("", rest);
        assert "" + rest == rest && begun + "\n" + rest == begun + s;
        assert ([begun] + Lines(rest + "\n"))[1..] == Lines(rest + "\n");
      } else {
        LinesRejoin(begun + [s[0]], rest);
        assert begun + [s[0]] + rest == begun + s;
      }
    }
  }

  /** What a batch asks of its ids and of the answers: no answer reads as one of this run's markers. */
  ghost predicate Asked(nonce: string, queries: seq<Query>, answers: seq<Answer>) {
    && queries != [] && |answers| == |queries| && '\n' !in nonce
    && (forall k :: 0 <= k < |queries| ==> PlainLine(queries[k].id))
    && (forall k, l :: 0 <= k < l < |queries| ==> queries[k].id != queries[l].id)
    && (forall k :: 0 <= k < |answers| ==> answers[k].rc < I32_LIMIT && NoMarkers(nonce, BodyOf(answers[k])))
  }

  lemma {:induction false} SentHolds(frames: seq<Frame>, k: nat)
    requires k < |frames| && forall i, j :: 0 <= i < j < |frames| ==> frames[i].id != frames[j].id
    ensures frames[k].id in Sent(frames)
    ensures Sent(frames)[frames[k].id] == Section(frames[k].rc, Join(frames[k].body, "\n"))
  {
    if k < |frames| - 1 {
      SentHolds(frames[..|frames| - 1], k);
    }
  }

  /** The answers of a batch: under each id, and no other, what the query exited with and wrote. */
  ghost predicate Answered(sections: map<string, Section>, queries: seq<Query>, answers: seq<Answer>)
    requires |answers| == |queries|
  {
    && (forall id :: id in sections <==> exists k :: 0 <= k < |queries| && queries[k].id == id)
    && (forall k :: 0 <= k < |queries| ==> queries[k].id in sections && Tells(sections[queries[k].id], answers[k]))
  }

  /** An answer is the whole output without the line breaks at its end; a carriage return before a break is lost. */
  ghost predicate Tells(s: Section, a: Answer) {
    s.rc == a.rc && s.body == Join(BodyOf(a), "\n") && ('\r' !in a.raw ==> s.body == StripBreaks(a.raw))
  }

  lemma {:induction false} StripKeeps(s: string, c: char)
    requires c !in s
    ensures c !in StripBreaks(s)
  {
    if s != "" && s[|s| - 1] == '\n' {
      StripKeeps(s[..|s| - 1], c);
    }
  }

  lemma {:induction false} LeadFirst(nonce: string, lead: seq<string>, frames: seq<Frame>)
    ensures Framed(nonce, lead, frames) == lead + Framed(nonce, [], frames)
  {
    if frames == [] {
      assert lead + [] == lead;
    } else {
      var init, f := frames[..|frames| - 1], frames[|frames| - 1];
      LeadFirst(nonce, lead, init);
      Assoc(lead, Framed(nonce, [], init), Trailing(init));
      Assoc(lead, Framed(nonce, [], init) + Trailing(init), FrameLines(nonce, f));
    }
  }

  /** What the reader gets: lines that come first, such as a banner, and what the script of the batch prints. */
  function Response(nonce: string, lead: seq<string>, queries: seq<Query>, answers: seq<Answer>): seq<string>
    requires |answers| == |queries|
  {
    lead + Lines(Output(nonce, queries, answers))
  }

  /**
   The batch round trip: the reader of a batch, fed with what its script prints, stops at the last line,
   with the exit status and the output of every query under its id.
   */
  lemma BatchRoundTrip(nonce: string, lead: seq<string>, queries: seq<Query>, answers: seq<Answer>, read: nat)
    requires NoMarkers(nonce, lead) && Asked(nonce, queries, answers)
    requires read <= |Response(nonce, lead, queries, answers)|
    requires StopsAt(nonce, Response(nonce, lead, queries, answers), |queries|, read)
    ensures var lines := Response(nonce, lead, queries, answers);
            read == |lines| && Answered(Finished(After(nonce, lines, read)), queries, answers)
  {
    var frames := FramesOf(queries, answers);
    OutputLines(nonce, queries, answers);
    LeadFirst(nonce, lead, frames);
    assert Framed(nonce, lead, frames) + Trailing(frames) == Framed(nonce, lead, frames);
    RoundTrip(nonce, lead, frames, read);
    SentAnswers(frames, queries, answers);
  }

  lemma SentAnswers(frames: seq<Frame>, queries: seq<Query>, answers: seq<Answer>)
    requires |answers| == |queries| && frames == FramesOf(queries, answers)
    requires forall k, l :: 0 <= k < l < |queries| ==> queries[k].id != queries[l].id
    ensures Answered(Sent(frames), queries, answers)
  {
    forall id ensures id in Sent(frames) <==> exists k :: 0 <= k < |queries| && queries[k].id == id {
      SentIds(frames, id);
      if k :| 0 <= k < |queries| && queries[k].id == id {
        assert frames[k].id == id;
      }
      if k :| 0 <= k < |frames| && frames[k].id == id {
        assert queries[k].id == id;
      }
    }
    forall k | 0 <= k < |queries|
      ensures queries[k].id in Sent(frames) && Tells(Sent(frames)[queries[k].id], answers[k])
    {
      SentHolds(frames, k);
      if '\r' !in answers[k].raw {
        StripKeeps(answers[k].raw, '\r');
        LinesRejoin("", StripBreaks(answers[k].raw));
        assert "" + StripBreaks(answers[k].raw) == StripBreaks(answers[k].raw);
      }
    }
  }

  /** A batch is asked and its response read: one answer for every query that was added. */
  method ReadBatch(batch: Batch, lines: seq<string>, ghost lead: seq<string>, ghost answers: seq<Answer>)
    returns (sections: map<string, Section>)
    requires batch.Valid() && NoMarkers(batch.nonce, lead) && Asked(batch.nonce, batch.queries, answers)
    requires lines == Response(batch.nonce, lead, batch.queries, answers)
    ensures Answered(sections, batch.queries, answers)
  {
    var read;
    sections, read := ReadAnswers(batch, lines);
    BatchRoundTrip(batch.nonce, lead, batch.queries, answers, read);
  }
}
