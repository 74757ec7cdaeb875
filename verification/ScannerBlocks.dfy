/** Where the lines of a script end up. */
module ScannerBlocks {
  // Which lines are directives, which block each content line belongs to, and why a block stands on its own.

  import opened Text
  import opened Heredocs
  import opened Scanner
  import opened ScannerTheorems

  // Here-document bodies are data.

  function Commands(kinds: seq<Kind>): seq<Directive> {
    if kinds == [] then []
    else (if kinds[0].Command? then [kinds[0].directive] else []) + Commands(kinds[1..])
  }

  /** Two scripts that differ only inside here-document bodies, and end each body on the same line. */
  ghost predicate SameOutside(open: seq<OpenBody>, a: seq<string>, b: seq<string>, lineNo: nat)
    decreases |a|
  {
    if a == [] || b == [] then a == b
    else
      && (if open == [] then a[0] == b[0] else open[0].doc.Terminates(a[0]) == open[0].doc.Terminates(b[0]))
      && SameOutside(OpenAfterLine(open, a[0], lineNo), a[1..], b[1..], lineNo + 1)
  }

  /** What a body holds cannot add, drop or change a directive, and does not move where bodies end. */
  lemma {:induction false} BodiesAreData(decode: Decoder, open: seq<OpenBody>, a: seq<string>, b: seq<string>,
                                         lineNo: nat)
    requires SameOutside(open, a, b, lineNo)
    ensures Commands(Kinds(decode, open, a, lineNo)) == Commands(Kinds(decode, open, b, lineNo))
    ensures OpenAfter(open, a, lineNo) == OpenAfter(open, b, lineNo)
    decreases |a|
  {
    if a != [] && b != [] {
      var next := OpenAfterLine(open, a[0], lineNo);
      BodiesAreData(decode, next, a[1..], b[1..], lineNo + 1);
      assert Kinds(decode, open, a, lineNo)[1..] == Kinds(decode, next, a[1..], lineNo + 1);
      assert Kinds(decode, open, b, lineNo)[1..] == Kinds(decode, next, b[1..], lineNo + 1);
    }
  }

  // The blocks of a script, read off its lines alone.

  /** Content lines between two directives, where they run, and the variables exported from them. */
  datatype Block = Block(lines: seq<string>, at: Option<string>, exports: seq<ExportVar>)

  /** Where the lines after a directive run. */
  function WhereAfter(at: Option<string>, d: Directive): Option<string> {
    match d
    case GoLocal => None
    case Copy(_, _, _) => None
    case GoRemote(payload) => Some(TargetText(payload))
    case _ => at
  }

  function Closed(done: seq<Block>, cur: Block): seq<Block> {
    if HasExecutable(cur.lines) then done + [cur] else done
  }

  /** Variables exported after a block was closed still belong to it. */
  function ExportedLast(done: seq<Block>, vars: seq<ExportVar>): seq<Block> {
    if done == [] then done
    else
      var last := done[|done| - 1];
      done[..|done| - 1] + [last.(exports := last.exports + vars)]
  }

  /** The blocks that are closed, and the one being read. */
  datatype Reading = Reading(done: seq<Block>, cur: Block)

  function Read(r: Reading, kind: Kind): Reading {
    match kind
    case Content(line) => r.(cur := r.cur.(lines := r.cur.lines + [line]))
    case Command(d) =>
      if !d.Export? then Reading(Closed(r.done, r.cur), Block([], WhereAfter(r.cur.at, d), []))
      else if HasExecutable(r.cur.lines) then r.(cur := r.cur.(exports := r.cur.exports + d.vars))
      else r.(done := ExportedLast(r.done, d.vars))
  }

  function Blocks(r: Reading, kinds: seq<Kind>): seq<Block>
    decreases |kinds|
  {
    if kinds == [] then Closed(r.done, r.cur) else Blocks(Read(r, kinds[0]), kinds[1..])
  }

  const NOTHING := Reading([], Block([], None, []))

  function BlocksOf(decode: Decoder, lines: seq<string>): seq<Block> {
    Blocks(NOTHING, Kinds(decode, [], lines, 1))
  }

  lemma BlocksStep(decode: Decoder, open: seq<OpenBody>, lines: seq<string>, lineNo: nat, r: Reading)
    requires lines != []
    ensures Blocks(r, Kinds(decode, open, lines, lineNo))
         == Blocks(Read(r, KindOf(decode, open, lines[0])),
                   Kinds(decode, OpenAfterLine(open, lines[0], lineNo), lines[1..], lineNo + 1))
  {
    var kinds := Kinds(decode, open, lines, lineNo);
    assert kinds[1..] == Kinds(decode, OpenAfterLine(open, lines[0], lineNo), lines[1..], lineNo + 1);
  }

  /** A block as a plan shows it. */
  datatype Shown = Shown(script: string, at: Option<string>, exports: seq<ExportVar>)

  function Shows(blocks: seq<Block>): seq<Shown> {
    seq(|blocks|, k requires 0 <= k < |blocks| => Shown(ScriptText(blocks[k].lines), blocks[k].at, blocks[k].exports))
  }

  /** The blocks of a plan: its local and remote steps, in order. */
  function PlanBlocks(steps: seq<Step>): seq<Shown> {
    if steps == [] then []
    else PlanBlocks(steps[..|steps| - 1]) + BlockOfStep(steps[|steps| - 1])
  }

  function BlockOfStep(step: Step): seq<Shown> {
    match step
    case LocalStep(_, script, _, _, exports, _) => [Shown(script, None, exports)]
    case RemoteStep(_, target, _, script, _, _, _) => [Shown(script, Some(target), [])]
    case _ => []
  }

  function Where(s: Scan): Option<string> { if s.mode == Remote then Some(s.target) else None }

  /** The scan and the reading of the blocks agree so far. */
  ghost predicate Agree(s: Scan, r: Reading) {
    && Inv(s) && PlanBlocks(s.steps) == Shows(r.done)
    && r.cur == Block(s.pending, Where(s), s.exports)
  }

  lemma PlanBlocksPush(steps: seq<Step>, step: Step)
    ensures PlanBlocks(steps + [step]) == PlanBlocks(steps) + BlockOfStep(step)
  {
    assert (steps + [step])[..|steps|] == steps;
  }

  lemma FlushAgrees(s: Scan, r: Reading)
    requires Agree(s, r)
    ensures Agree(Flushed(s), Reading(Closed(r.done, r.cur), Block([], r.cur.at, [])))
  {
    FlushKeeps(s);
    if HasExecutable(s.pending) {
      PlanBlocksPush(s.steps, Flushed(s).steps[|s.steps|]);
      assert Shows(r.done + [r.cur]) == Shows(r.done) + [Shown(ScriptText(r.cur.lines), r.cur.at, r.cur.exports)];
    }
  }

  lemma ExportedShows(init: seq<Step>, last: Step, done: seq<Block>, vars: seq<ExportVar>)
    requires last.LocalStep? && PlanBlocks(init) + BlockOfStep(last) == Shows(done)
    ensures PlanBlocks(init + [last.(exported := last.exported + vars)]) == Shows(ExportedLast(done, vars))
  {
    var after := last.(exported := last.exported + vars);
    PlanBlocksPush(init, after);
    assert Shows(done)[|done| - 1] == Shown(last.script, None, last.exported);
    assert Shows(done)[..|done| - 1] == PlanBlocks(init);
    assert Shows(ExportedLast(done, vars)) == PlanBlocks(init) + BlockOfStep(after);
  }

  lemma ExportAgrees(s: Scan, r: Reading, vars: seq<ExportVar>, line: nat)
    requires Agree(s, r) && AddExport(s, vars, line).Ok?
    ensures Agree(AddExport(s, vars, line).value, Read(r, Command(Export(vars))))
  {
    ExportKeeps(s, vars, line);
    if !HasExecutable(s.pending) {
      ExportedShows(s.steps[..|s.steps| - 1], LastStep(s).value, r.done, vars);
    }
  }

  lemma MergedAddsNoBlock(s: Scan, step: Step)
    requires s.steps != [] && BlockOfStep(LastStep(s).value) == [] && BlockOfStep(step) == []
    ensures PlanBlocks(WithLast(s, step).steps) == PlanBlocks(s.steps)
  {
    PlanBlocksPush(s.steps[..|s.steps| - 1], step);
  }

  lemma CopyAddsNoBlock(s: Scan, file: Entry, at: string, options: CopyOptions, line: nat)
    requires AddCopy(s, file, at, options, line, true).Ok?
    ensures PlanBlocks(AddCopy(s, file, at, options, line, true).value.steps) == PlanBlocks(s.steps)
  {
    if CopyMerges(s, s.name, TargetText(at), options, s.timeout) {
      var last := LastStep(s).value;
      MergedAddsNoBlock(s, last.(entries := last.entries + [file]));
    } else {
      PlanBlocksPush(s.steps, CopyStep(s.name, [file], TargetText(at), line, options, s.timeout, s.env));
    }
  }

  lemma AssertAddsNoBlock(s: Scan, check: string, explicit: Option<string>, line: nat)
    requires AddAssert(s, check, explicit, line, true).Ok?
    ensures PlanBlocks(AddAssert(s, check, explicit, line, true).value.steps) == PlanBlocks(s.steps)
  {
    var target := ResolveTarget(s, explicit, line).value;
    if AssertMerges(s, s.name, target, s.timeout) {
      var last := LastStep(s).value;
      MergedAddsNoBlock(s, last.(checks := last.checks + [check]));
    } else {
      PlanBlocksPush(s.steps, AssertStep(s.name, target, line, [check], s.timeout));
    }
  }

  lemma TargetedAddsNoBlock(s: Scan, what: string, explicit: Option<string>, seconds: Option<nat>, line: nat)
    requires AddTargeted(s, what, explicit, seconds, line).Ok?
    ensures PlanBlocks(AddTargeted(s, what, explicit, seconds, line).value.steps) == PlanBlocks(s.steps)
  {
    PlanBlocksPush(s.steps, AddTargeted(s, what, explicit, seconds, line).value.steps[|s.steps|]);
  }

  lemma EffectAgrees(f: Scan, done: seq<Block>, d: Directive, line: nat)
    requires Agree(f, Reading(done, Block([], Where(f), []))) && !d.Export? && Effect(f, d, line, true).Ok?
    ensures Agree(Effect(f, d, line, true).value, Reading(done, Block([], WhereAfter(Where(f), d), [])))
  {
    EffectKeeps(f, d, line, true);
    match d {
      case Copy(file, at, options) => CopyAddsNoBlock(InMode(f, Local, "", 0), file, at, options, line);
      case Assert(check, explicit) => AssertAddsNoBlock(f, check, explicit, line);
      case Targeted(what, explicit, seconds) => TargetedAddsNoBlock(f, what, explicit, seconds, line);
      case _ =>
    }
  }

  lemma TakenAgrees(s: Scan, r: Reading, kind: Kind, line: nat)
    requires Agree(s, r) && Taken(s, kind, line, true).Ok?
    ensures Agree(Taken(s, kind, line, true).value, Read(r, kind))
  {
    match kind {
      case Content(text) => TakenKeeps(s, kind, line, true);
      case Command(d) =>
        if d.Export? {
          ExportAgrees(s, r, d.vars, line);
        } else {
          FlushAgrees(s, r);
          EffectAgrees(Flushed(s), Closed(r.done, r.cur), d, line);
        }
    }
  }

  lemma {:induction false} RunAgrees(s: Scan, r: Reading, kinds: seq<Kind>, line: nat)
    requires Agree(s, r) && Run(s, kinds, line, true).Ok?
    ensures PlanBlocks(Flushed(Run(s, kinds, line, true).value).steps) == Shows(Blocks(r, kinds))
    decreases |kinds|
  {
    if kinds == [] {
      FlushAgrees(s, r);
    } else {
      TakenAgrees(s, r, kinds[0], line);
      RunAgrees(Taken(s, kinds[0], line, true).value, Read(r, kinds[0]), kinds[1..], line + 1);
    }
  }

  /**
   Block conservation: the local and remote steps of a plan are, in order, exactly the blocks of the
   script that run something: every content line once, where the last directive before it put it, with
   the variables exported after it; only comment-only blocks are left out.
   */
  lemma BlocksAreKept(decode: Decoder, lines: seq<string>)
    requires Parse(decode, lines, true).Ok?
    ensures PlanBlocks(Parse(decode, lines, true).value.steps) == Shows(BlocksOf(decode, lines))
  {
    assert START.steps == [] && Shows([]) == [];
    RunAgrees(START, NOTHING, Kinds(decode, [], lines, 1), 1);
  }

  // No content line is lost, repeated or moved.

  function ContentLines(kinds: seq<Kind>): seq<string> {
    if kinds == [] then [] else (if kinds[0].Content? then [kinds[0].line] else []) + ContentLines(kinds[1..])
  }

  /** The content lines cut at the directives that close a block, `cur` being read already. */
  function Cut(cur: seq<string>, kinds: seq<Kind>): seq<seq<string>>
    decreases |kinds|
  {
    if kinds == [] then [cur]
    else match kinds[0]
      case Content(line) => Cut(cur + [line], kinds[1..])
      case Command(d) => if d.Export? then Cut(cur, kinds[1..]) else [cur] + Cut([], kinds[1..])
  }

  function Running(cuts: seq<seq<string>>): seq<seq<string>> {
    if cuts == [] then [] else (if HasExecutable(cuts[0]) then [cuts[0]] else []) + Running(cuts[1..])
  }

  function LinesOf(blocks: seq<Block>): seq<seq<string>> {
    seq(|blocks|, k requires 0 <= k < |blocks| => blocks[k].lines)
  }

  lemma FlattenFirst(cur: seq<string>, more: seq<seq<string>>)
    ensures Flatten([cur] + more) == cur + Flatten(more)
  {
    assert ([cur] + more)[1..] == more;
  }

  lemma {:induction false} CutsJoin(cur: seq<string>, kinds: seq<Kind>)
    ensures Flatten(Cut(cur, kinds)) == cur + ContentLines(kinds)
    decreases |kinds|
  {
    if kinds == [] {
      FlattenFirst(cur, []);
      assert [cur] + [] == [cur];
    } else if kinds[0].Content? {
      CutsJoin(cur + [kinds[0].line], kinds[1..]);
      Assoc(cur, [kinds[0].line], ContentLines(kinds[1..]));
    } else if kinds[0].directive.Export? {
      CutsJoin(cur, kinds[1..]);
    } else {
      CutsJoin([], kinds[1..]);
      FlattenFirst(cur, Cut([], kinds[1..]));
    }
  }

  lemma ClosedLines(done: seq<Block>, cur: Block, more: seq<seq<string>>)
    ensures LinesOf(done) + Running([cur.lines] + more) == LinesOf(Closed(done, cur)) + Running(more)
  {
    assert ([cur.lines] + more)[1..] == more;
  }

  lemma ExportedLines(done: seq<Block>, vars: seq<ExportVar>)
    ensures LinesOf(ExportedLast(done, vars)) == LinesOf(done)
  {
  }

  lemma {:induction false} CutsKept(r: Reading, kinds: seq<Kind>)
    ensures LinesOf(Blocks(r, kinds)) == LinesOf(r.done) + Running(Cut(r.cur.lines, kinds))
    decreases |kinds|
  {
    if kinds == [] {
      assert [r.cur.lines] + [] == [r.cur.lines];
      ClosedLines(r.done, r.cur, []);
    } else {
      CutsKept(Read(r, kinds[0]), kinds[1..]);
      match kinds[0] {
        case Content(_) =>
        case Command(d) =>
          if d.Export? {
            ExportedLines(r.done, d.vars);
          } else {
            ClosedLines(r.done, r.cur, Cut([], kinds[1..]));
          }
      }
    }
  }

  /** The kept and the dropped blocks, put together, are exactly the content lines; kept are those that run. */
  lemma BlocksPartition(decode: Decoder, lines: seq<string>)
    ensures var kinds := Kinds(decode, [], lines, 1);
            && LinesOf(BlocksOf(decode, lines)) == Running(Cut([], kinds))
            && Flatten(Cut([], kinds)) == ContentLines(kinds)
  {
    var kinds := Kinds(decode, [], lines, 1);
    CutsKept(NOTHING, kinds);
    CutsJoin([], kinds);
    assert LinesOf([]) == [];
  }

  // A block stands on its own.

  function DocsOf(open: seq<OpenBody>): seq<Heredoc> { seq(|open|, k requires 0 <= k < |open| => open[k].doc) }

  /** Reading lines as content only: the here-documents left open, or `None` if one of them is a directive. */
  function Replay(lines: seq<string>): Option<seq<Heredoc>> {
    if lines == [] then Some([])
    else
      var last := lines[|lines| - 1];
      match Replay(lines[..|lines| - 1])
      case None => None
      case Some(docs) =>
        if docs != [] then Some(if docs[0].Terminates(last) then docs[1..] else docs)
        else if DirectiveOf(last).Some? then None
        else Some(Openers(last))
  }

  /** The block closes every here-document it opens, and none of its lines outside them is a directive. */
  predicate Balanced(lines: seq<string>) { Replay(lines) == Some([]) }

  lemma ReplayPush(lines: seq<string>, open: seq<OpenBody>, line: string, lineNo: nat)
    requires Replay(lines) == Some(DocsOf(open)) && (open != [] || DirectiveOf(line).None?)
    ensures Replay(lines + [line]) == Some(DocsOf(OpenAfterLine(open, line, lineNo)))
  {
    assert (lines + [line])[..|lines|] == lines;
    var docs := DocsOf(open);
    if open == [] {
      assert DocsOf(OpenBodies(line, lineNo)) == Openers(line);
    } else if docs[0].Terminates(line) {
      assert DocsOf(open[1..]) == docs[1..];
    }
  }

  ghost predicate AllBalanced(blocks: seq<Block>) {
    forall k :: 0 <= k < |blocks| ==> Balanced(blocks[k].lines) && HasExecutable(blocks[k].lines)
  }

  lemma ReadBalanced(decode: Decoder, open: seq<OpenBody>, line: string, lineNo: nat, r: Reading)
    requires Replay(r.cur.lines) == Some(DocsOf(open)) && AllBalanced(r.done)
    ensures var next := Read(r, KindOf(decode, open, line));
            Replay(next.cur.lines) == Some(DocsOf(OpenAfterLine(open, line, lineNo))) && AllBalanced(next.done)
  {
    if KindOf(decode, open, line).Content? {
      ReplayPush(r.cur.lines, open, line, lineNo);
    } else {
      assert DocsOf(open) == [];
    }
  }

  lemma {:induction false} BlocksBalanced(decode: Decoder, open: seq<OpenBody>, lines: seq<string>, lineNo: nat,
                                          r: Reading)
    requires OpenAfter(open, lines, lineNo) == [] && Replay(r.cur.lines) == Some(DocsOf(open)) && AllBalanced(r.done)
    ensures AllBalanced(Blocks(r, Kinds(decode, open, lines, lineNo)))
    decreases |lines|
  {
    if lines == [] {
      assert DocsOf(open) == [];
    } else {
      BlocksStep(decode, open, lines, lineNo, r);
      ReadBalanced(decode, open, lines[0], lineNo, r);
      var next := OpenAfterLine(open, lines[0], lineNo);
      BlocksBalanced(decode, next, lines[1..], lineNo + 1, Read(r, KindOf(decode, open, lines[0])));
    }
  }

  /** In a plan every block is balanced: no here-document crosses from one step into the next. */
  lemma PlanBlocksBalanced(decode: Decoder, lines: seq<string>)
    requires Parse(decode, lines, true).Ok?
    ensures AllBalanced(BlocksOf(decode, lines))
  {
    assert DocsOf([]) == [];
    BlocksBalanced(decode, [], lines, 1, NOTHING);
  }

  // Parsing a block again.

  lemma {:induction false} KindsPush(decode: Decoder, open: seq<OpenBody>, lines: seq<string>, line: string,
                                     lineNo: nat)
    ensures Kinds(decode, open, lines + [line], lineNo)
         == Kinds(decode, open, lines, lineNo) + [KindOf(decode, OpenAfter(open, lines, lineNo), line)]
    ensures OpenAfter(open, lines + [line], lineNo)
         == OpenAfterLine(OpenAfter(open, lines, lineNo), line, lineNo + |lines|)
    decreases |lines|
  {
    if lines == [] {
      assert ([] + [line])[1..] == [];
    } else {
      assert (lines + [line])[1..] == lines[1..] + [line];
      KindsPush(decode, OpenAfterLine(open, lines[0], lineNo), lines[1..], line, lineNo + 1);
    }
  }

  function Contents(lines: seq<string>): seq<Kind> { seq(|lines|, k requires 0 <= k < |lines| => Content(lines[k])) }

  lemma {:induction false} ReplayKinds(decode: Decoder, lines: seq<string>)
    requires Replay(lines).Some?
    ensures Kinds(decode, [], lines, 1) == Contents(lines)
    ensures DocsOf(OpenAfter([], lines, 1)) == Replay(lines).value
  {
    if lines != [] {
      var init, last := lines[..|lines| - 1], lines[|lines| - 1];
      assert lines == init + [last];
      ReplayKinds(decode, init);
      KindsPush(decode, [], init, last, 1);
      ReplayPush(init, OpenAfter([], init, 1), last, |lines|);
    }
  }

  lemma {:induction false} ContentsRun(s: Scan, lines: seq<string>, line: nat)
    ensures Run(s, Contents(lines), line, true) == Ok(s.(pending := s.pending + lines))
    decreases |lines|
  {
    if lines == [] {
      assert s.pending + [] == s.pending;
    } else {
      var next := s.(pending := s.pending + [lines[0]]);
      ContentsRun(next, lines[1..], line + 1);
      assert Contents(lines)[1..] == Contents(lines[1..]);
      assert s.pending + [lines[0]] + lines[1..] == s.pending + lines;
    }
  }

  /** The plan that is one local step and nothing else. */
  function OneLocal(script: string): Scan {
    START.(steps := [LocalStep(None, script, None, None, [], [])])
  }

  lemma BalancedParses(decode: Decoder, lines: seq<string>)
    requires Balanced(lines) && HasExecutable(lines)
    ensures Parse(decode, lines, true) == Ok(OneLocal(ScriptText(lines)))
  {
    ReplayKinds(decode, lines);
    assert |DocsOf(OpenAfter([], lines, 1))| == 0;
    ContentsRun(START, lines, 1);
    assert START.pending + lines == lines;
    FlushedOnce(lines);
  }

  lemma FlushedOnce(lines: seq<string>)
    requires HasExecutable(lines)
    ensures Flushed(START.(pending := lines)) == OneLocal(ScriptText(lines))
  {
  }

  function Stripped(lines: seq<string>): seq<string> { seq(|lines|, k requires 0 <= k < |lines| => StripCr(lines[k])) }

  lemma ScriptTextStep(lines: seq<string>)
    requires lines != []
    ensures ScriptText(lines) == lines[0] + "\n" + (if |lines| == 1 then "" else ScriptText(lines[1..]))
  {
    if |lines| == 1 {
      assert lines[0] + "\n" + "" == lines[0] + "\n";
    } else {
      Assoc(lines[0] + "\n", Join(lines[1..], "\n"), "\n");
    }
  }

  lemma {:induction false} ScriptReadsBack(lines: seq<string>)
    requires lines != [] && forall k :: 0 <= k < |lines| ==> '\n' !in lines[k]
    ensures Lines(ScriptText(lines)) == Stripped(lines)
    decreases |lines|
  {
    ScriptTextStep(lines);
    assert Stripped(lines) == [StripCr(lines[0])] + Stripped(lines[1..]);
    if 1 < |lines| {
      ScriptReadsBack(lines[1..]);
      FirstLineReads(lines[0], ScriptText(lines[1..]));
    } else {
      FirstLineReads(lines[0], "");
    }
  }

  lemma ExecutableHasLine(lines: seq<string>)
    requires HasExecutable(lines)
    ensures lines != []
  {
  }

  /** A block whose lines end in no carriage return parses again into one local step with the same script. */
  lemma PlainBlockReparses(decode: Decoder, lines: seq<string>)
    requires Balanced(lines) && HasExecutable(lines) && forall k :: 0 <= k < |lines| ==> PlainLine(lines[k])
    ensures ParseScript(decode, ScriptText(lines)) == Ok(OneLocal(ScriptText(lines)))
  {
    ExecutableHasLine(lines);
    ScriptReadsBack(lines);
    assert Stripped(lines) == lines;
    assert SourceLines(ScriptText(lines)) == lines;
    BalancedParses(decode, lines);
  }

  // With a carriage return left, it cannot: the text gets shorter.

  /** How many bytes the lines take in a script. */
  function Size(lines: seq<string>): nat {
    if lines == [] then 0 else Size(lines[..|lines| - 1]) + |lines[|lines| - 1]| + 1
  }

  lemma {:induction false} ScriptSize(lines: seq<string>)
    requires lines != []
    ensures |ScriptText(lines)| == Size(lines)
    decreases |lines|
  {
    if |lines| == 1 {
      assert Size(lines[..0]) == 0;
    } else {
      ScriptTextStep(lines);
      ScriptSize(lines[1..]);
      SizeFront(lines);
    }
  }

  lemma {:induction false} SizeFront(lines: seq<string>)
    requires lines != []
    ensures Size(lines) == |lines[0]| + 1 + Size(lines[1..])
    decreases |lines|
  {
    if |lines| == 1 {
      assert lines[..0] == [] && lines[1..] == [];
    } else {
      var init := lines[..|lines| - 1];
      SizeFront(init);
      assert init[1..] == lines[1..][..|lines| - 2];
    }
  }

  function ShownSize(blocks: seq<Block>): nat {
    if blocks == [] then 0 else ShownSize(blocks[..|blocks| - 1]) + Size(blocks[|blocks| - 1].lines)
  }

  lemma ShownPush(blocks: seq<Block>, b: Block)
    ensures ShownSize(blocks + [b]) == ShownSize(blocks) + Size(b.lines)
  {
    assert (blocks + [b])[..|blocks|] == blocks;
  }

  lemma SizePush(lines: seq<string>, line: string)
    ensures Size(lines + [line]) == Size(lines) + |line| + 1
  {
    assert (lines + [line])[..|lines|] == lines;
  }

  lemma ReadFits(decode: Decoder, open: seq<OpenBody>, line: string, r: Reading)
    ensures var next := Read(r, KindOf(decode, open, line));
            ShownSize(next.done) + Size(next.cur.lines) <= ShownSize(r.done) + Size(r.cur.lines) + |line| + 1
  {
    match KindOf(decode, open, line) {
      case Content(text) => SizePush(r.cur.lines, text);
      case Command(d) =>
        ShownPush(r.done, r.cur);
        if r.done != [] {
          var init, last := r.done[..|r.done| - 1], r.done[|r.done| - 1];
          assert r.done == init + [last];
          ShownPush(init, last);
          if d.Export? {
            ShownPush(init, last.(exports := last.exports + d.vars));
          }
        }
    }
  }

  /** The blocks of a script hold no more than its lines. */
  lemma {:induction false} BlocksFit(decode: Decoder, open: seq<OpenBody>, lines: seq<string>, lineNo: nat, r: Reading)
    ensures ShownSize(Blocks(r, Kinds(decode, open, lines, lineNo)))
        <= ShownSize(r.done) + Size(r.cur.lines) + Size(lines)
    decreases |lines|
  {
    if lines == [] {
      ShownPush(r.done, r.cur);
    } else {
      BlocksStep(decode, open, lines, lineNo, r);
      SizeFront(lines);
      ReadFits(decode, open, lines[0], r);
      var next := OpenAfterLine(open, lines[0], lineNo);
      BlocksFit(decode, next, lines[1..], lineNo + 1, Read(r, KindOf(decode, open, lines[0])));
    }
  }

  lemma {:induction false} StrippedSmaller(lines: seq<string>, more: seq<string>)
    requires |more| == |lines| && forall k :: 0 <= k < |lines| ==> |more[k]| <= |lines[k]|
    ensures Size(more) <= Size(lines)
    ensures (exists k :: 0 <= k < |lines| && |more[k]| < |lines[k]|) ==> Size(more) < Size(lines)
  {
    if lines != [] {
      StrippedSmaller(lines[..|lines| - 1], more[..|more| - 1]);
      if exists k :: 0 <= k < |lines| && |more[k]| < |lines[k]| {
        var k :| 0 <= k < |lines| && |more[k]| < |lines[k]|;
        if k < |lines| - 1 {
          assert |more[..|more| - 1][k]| < |lines[..|lines| - 1][k]|;
        }
      }
    }
  }

  lemma OneBlockSize(blocks: seq<Block>, script: string)
    requires Shows(blocks) == [Shown(script, None, [])] && AllBalanced(blocks)
    ensures ShownSize(blocks) == |script|
  {
    assert |blocks| == |Shows(blocks)| == 1;
    var b := blocks[0];
    assert Shows(blocks)[0].script == ScriptText(b.lines);
    ExecutableHasLine(b.lines);
    ScriptSize(b.lines);
    assert blocks == [] + [b];
    ShownPush([], b);
  }

  /** A block with a line that ends in a carriage return does not parse into the same script again. */
  lemma CarriageReturnBreaks(decode: Decoder, lines: seq<string>, k: nat)
    requires HasExecutable(lines) && (forall j :: 0 <= j < |lines| ==> '\n' !in lines[j])
    requires k < |lines| && !PlainLine(lines[k])
    ensures ParseScript(decode, ScriptText(lines)) != Ok(OneLocal(ScriptText(lines)))
  {
    var script := ScriptText(lines);
    if ParseScript(decode, script) == Ok(OneLocal(script)) {
      var again := SourceLines(script);
      ScriptReadsBack(lines);
      assert |again[k]| < |lines[k]|;
      StrippedSmaller(lines, again);
      BlocksAreKept(decode, again);
      PlanBlocksBalanced(decode, again);
      PlanBlocksPush([], OneLocal(script).steps[0]);
      assert [] + OneLocal(script).steps == OneLocal(script).steps;
      OneBlockSize(BlocksOf(decode, again), script);
      BlocksFit(decode, [], again, 1, NOTHING);
      ScriptSize(lines);
    }
  }

  lemma {:induction false} LinesHaveNoBreak(begun: string, text: string)
    requires '\n' !in begun
    ensures forall k :: 0 <= k < |LinesFrom(begun, text)| ==> '\n' !in LinesFrom(begun, text)[k]
    decreases |text|
  {
    if text != "" {
      LinesHaveNoBreak("", text[1..]);
      LinesHaveNoBreak(if text[0] == '\n' then "" else begun + [text[0]], text[1..]);
    }
  }

  ghost predicate NoBreak(lines: seq<string>) { forall j :: 0 <= j < |lines| ==> '\n' !in lines[j] }

  ghost predicate NoBreaks(blocks: seq<Block>) { forall k :: 0 <= k < |blocks| ==> NoBreak(blocks[k].lines) }

  lemma ReadHasNoBreak(decode: Decoder, open: seq<OpenBody>, line: string, r: Reading)
    requires '\n' !in line && NoBreaks(r.done) && NoBreak(r.cur.lines)
    ensures var next := Read(r, KindOf(decode, open, line));
            NoBreaks(next.done) && NoBreak(next.cur.lines)
  {
  }

  lemma {:induction false} BlocksHaveNoBreak(decode: Decoder, open: seq<OpenBody>, lines: seq<string>, lineNo: nat,
                                             r: Reading)
    requires forall k :: 0 <= k < |lines| ==> '\n' !in lines[k]
    requires NoBreaks(r.done) && NoBreak(r.cur.lines)
    ensures NoBreaks(Blocks(r, Kinds(decode, open, lines, lineNo)))
    decreases |lines|
  {
    if lines != [] {
      BlocksStep(decode, open, lines, lineNo, r);
      ReadHasNoBreak(decode, open, lines[0], r);
      var next := OpenAfterLine(open, lines[0], lineNo);
      BlocksHaveNoBreak(decode, next, lines[1..], lineNo + 1, Read(r, KindOf(decode, open, lines[0])));
    }
  }

  /**
   Exactly which scripts parse again: a block of an accepted deploy script gives one local step with
   the same script if and only if none of its lines still ends with a carriage return.
   */
  lemma BlockReparses(decode: Decoder, again: Decoder, input: string, k: nat)
    requires ParseScript(decode, input).Ok? && k < |BlocksOf(decode, SourceLines(input))|
    ensures var lines := BlocksOf(decode, SourceLines(input))[k].lines;
            ParseScript(again, ScriptText(lines)) == Ok(OneLocal(ScriptText(lines)))
            <==> forall j :: 0 <= j < |lines| ==> PlainLine(lines[j])
  {
    var source := SourceLines(input);
    LinesHaveNoBreak("", input);
    forall j | 0 <= j < |source| ensures '\n' !in source[j] {
      assert '\n' !in Lines(input)[j];
    }
    PlanBlocksBalanced(decode, source);
    BlocksHaveNoBreak(decode, [], source, 1, NOTHING);
    var lines := BlocksOf(decode, source)[k].lines;
    if forall j :: 0 <= j < |lines| ==> PlainLine(lines[j]) {
      PlainBlockReparses(again, lines);
    } else {
      var j :| 0 <= j < |lines| && !PlainLine(lines[j]);
      CarriageReturnBreaks(again, lines, j);
    }
  }

  // Where carriage returns stay.

  lemma {:induction false} LastLineReads(begun: string, line: string)
    requires '\n' !in line && begun + line != ""
    ensures LinesFrom(begun, line) == [begun + line]
    decreases |line|
  {
    if line == "" {
      assert begun + line == begun;
    } else {
      assert line[0] in line;
      assert begun + [line[0]] + line[1..] == begun + line;
      LastLineReads(begun + [line[0]], line[1..]);
    }
  }

  /** Before a line break two carriage returns go, and one at the end of the text: any more stay. */
  lemma ReturnsStay(line: string)
    requires '\n' !in line
    ensures SourceLines(line + "\r\r\n") == Stripped([line + "\r"])
    ensures SourceLines(line + "\r\r\r\n") == SourceLines(line + "\r\r") == [line + "\r"]
  {
    TerminatedReads(line + "\r", line + "\r\r\n");
    TerminatedReads(line + "\r\r", line + "\r\r\r\n");
    LastLineReads("", line + "\r\r");
    assert "" + (line + "\r\r") == line + "\r\r";
    assert StripCr(line + "\r\r") == line + "\r";
  }

  lemma TerminatedReads(line: string, text: string)
    requires '\n' !in line && text == line + "\r" + "\n"
    ensures Lines(text) == [line]
  {
    FirstLineReads(line + "\r", "");
    assert text + "" == text && StripCr(line + "\r") == line;
  }

  /** So these scripts are accepted, and their one block does not parse into the same script again. */
  lemma ReturnsBreakBlock(decode: Decoder, again: Decoder, line: string)
    requires '\n' !in line && Balanced([line + "\r"]) && Executable(line + "\r")
    ensures var script := line + "\r\n";
            && ParseScript(decode, line + "\r\r") == ParseScript(decode, line + "\r\r\r\n") == Ok(OneLocal(script))
            && ParseScript(again, script) != Ok(OneLocal(script))
  {
    var lines := [line + "\r"];
    ReturnsStay(line);
    assert Executable(lines[0]);
    assert ScriptText(lines) == line + "\r" + "\n" == line + "\r\n";
    BalancedParses(decode, lines);
    CarriageReturnBreaks(again, lines, 0);
  }

  lemma BalancedLine(line: string)
    requires DirectiveOf(line).None? && Openers(line) == []
    ensures Balanced([line])
  {
    var before: seq<string> := [];
    assert [line][..0] == before && Replay(before) == Some([]);
  }

  /** One of them, for any reading of directives: the line `x`. */
  lemma ReturnExample(decode: Decoder, again: Decoder)
    ensures ParseScript(decode, "x\r\r") == Ok(OneLocal("x\r\n"))
        && ParseScript(again, "x\r\n") != Ok(OneLocal("x\r\n"))
  {
    var line := "x" + "\r";
    assert line == "x\r" && TrimStart(line) == line;
    assert DirectiveOf(line).None?;
    NoOperatorNoOpener(line, 0, true);
    BalancedLine(line);
    assert line[..1] == "x" && TrimEnd(line) == TrimEnd("x") == "x";
    assert Executable(line);
    ReturnsBreakBlock(decode, again, "x");
    assert "x" + "\r\r" == "x\r\r" && "x" + "\r\n" == "x\r\n";
  }
}
