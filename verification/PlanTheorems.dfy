/** What every step of a plan carries. */
module PlanTheorems {
  // Each part of a step is read off the lines so far alone: the lines that wait, where they run, and the last
  // `@name`, `@only_if` and `@timeout` that no step has used.

  import opened Text
  import opened Heredocs
  import opened Scanner
  import opened ScannerTheorems

  /** The lines of the block being read. */
  function OpenLines(ks: seq<Kind>): seq<string> {
    if ks == [] then []
    else match ks[|ks| - 1]
      case Content(line) => OpenLines(ks[..|ks| - 1]) + [line]
      case Command(d) => if d.Export? then OpenLines(ks[..|ks| - 1]) else []
  }

  predicate Runs(ks: seq<Kind>) { HasExecutable(OpenLines(ks)) }

  /** Where these lines run: the target of the last `@remote` and its line, if no `@local` or `@copy` came since. */
  function PlaceOf(ks: seq<Kind>): Option<(string, nat)> {
    if ks == [] then None
    else match ks[|ks| - 1]
      case Command(GoRemote(payload)) => Some((TargetText(payload), |ks|))
      case Command(GoLocal) => None
      case Command(Copy(_, _, _)) => None
      case _ => PlaceOf(ks[..|ks| - 1])
  }

  /** The `@env` entries so far. */
  function EnvOf(ks: seq<Kind>): seq<string> {
    if ks == [] then []
    else EnvOf(ks[..|ks| - 1]) + match ks[|ks| - 1] case Command(Env(entry)) => [entry] case _ => []
  }

  function DeclaredOf(ks: seq<Kind>): seq<string> {
    if ks == [] then []
    else DeclaredOf(ks[..|ks| - 1]) + match ks[|ks| - 1] case Command(Declare(item)) => [item] case _ => []
  }

  /** The variables exported from the block being read. */
  function ExportsOf(ks: seq<Kind>): seq<ExportVar> {
    if ks == [] then []
    else match ks[|ks| - 1]
      case Content(_) => ExportsOf(ks[..|ks| - 1])
      case Command(Export(vars)) => ExportsOf(ks[..|ks| - 1]) + if Runs(ks[..|ks| - 1]) then vars else []
      case _ => []
  }

  /** A directive that is a step of its own, or that closes a block with something to run. */
  predicate MakesStep(before: seq<Kind>, d: Directive) {
    d.Copy? || d.Assert? || d.Targeted? || (!d.Export? && Runs(before))
  }

  /** What a directive sets for the step to come. */
  type Setting<!T> = Directive -> Option<T>

  /** The last value set that no step has used. */
  function Waiting<T>(ks: seq<Kind>, given: Setting<T>): Option<T> {
    if ks == [] then None
    else match ks[|ks| - 1]
      case Content(_) => Waiting(ks[..|ks| - 1], given)
      case Command(d) =>
        if given(d).Some? then given(d)
        else if MakesStep(ks[..|ks| - 1], d) then None
        else Waiting(ks[..|ks| - 1], given)
  }

  function NameIn(d: Directive): Option<string> { if d.Name? then Some(Trim(d.payload)) else None }

  function GuardIn(d: Directive): Option<string> { if d.OnlyIf? then Some(Trim(d.payload)) else None }

  function SecondsIn(d: Directive): Option<nat> { if d.Timeout? then Some(d.secs) else None }

  /** What the block being read leaves for the step behind it. */
  function Left<T>(ks: seq<Kind>, given: Setting<T>): Option<T> { if Runs(ks) then None else Waiting(ks, given) }

  /** The step that the block being read comes to. */
  function BlockStep(ks: seq<Kind>): Step {
    var script := ScriptText(OpenLines(ks));
    match PlaceOf(ks)
    case None =>
      LocalStep(Waiting(ks, NameIn), script, Waiting(ks, GuardIn), Waiting(ks, SecondsIn), ExportsOf(ks), EnvOf(ks))
    case Some((target, line)) =>
      RemoteStep(Waiting(ks, NameIn), target, line, script, Waiting(ks, GuardIn), Waiting(ks, SecondsIn), EnvOf(ks))
  }

  /** The steps of a script that ends here: those before the block being read, and this block. */
  function PlanOf(ks: seq<Kind>): seq<Step>
    decreases |ks|, 1
  {
    StepsOf(ks) + if Runs(ks) then [BlockStep(ks)] else []
  }

  /** The target that a directive names, or that of the latest step with one. */
  function TargetFor(before: seq<Kind>, explicit: Option<string>): string
    decreases |before|, 2
  {
    match explicit
    case Some(t) => TargetText(t)
    case None => (match LatestTarget(PlanOf(before)) case Some(t) => t case None => "")
  }

  /** The steps that a directive adds behind the block it closes. */
  function OwnStep(before: seq<Kind>, d: Directive): seq<Step>
    decreases |before|, 3
  {
    var name, timeout, line := Left(before, NameIn), Left(before, SecondsIn), |before| + 1;
    match d
    case Copy(file, at, options) => [CopyStep(name, [file], TargetText(at), line, options, timeout, EnvOf(before))]
    case Assert(check, explicit) => [AssertStep(name, TargetFor(before, explicit), line, [check], timeout)]
    case Targeted(what, explicit, seconds) =>
      [TargetedStep(name, TargetFor(before, explicit), line, what, if seconds.Some? then seconds else timeout)]
    case _ => []
  }

  /** The steps before the block being read, none merged. */
  function StepsOf(ks: seq<Kind>): seq<Step>
    decreases |ks|, 0
  {
    if ks == [] then []
    else
      var before := ks[..|ks| - 1];
      match ks[|ks| - 1]
      case Content(_) => StepsOf(before)
      case Command(d) =>
        if !d.Export? then PlanOf(before) + OwnStep(before, d)
        else if Runs(before) then StepsOf(before)
        else ExportedLate(StepsOf(before), d.vars)
  }

  /** Variables exported when the local block is a step already. */
  function ExportedLate(steps: seq<Step>, vars: seq<ExportVar>): seq<Step> {
    if steps == [] || !steps[|steps| - 1].LocalStep? then steps
    else
      var last := steps[|steps| - 1];
      steps[..|steps| - 1] + [last.(exported := last.exported + vars)]
  }

  // Which scripts are refused.

  /** The step that an `@export` can bind to. */
  predicate BehindLocal(before: seq<Kind>) {
    if Runs(before) then PlaceOf(before).None?
    else StepsOf(before) != [] && StepsOf(before)[|StepsOf(before)| - 1].LocalStep?
  }

  predicate NamesTarget(before: seq<Kind>, explicit: Option<string>) {
    match explicit
    case Some(t) => TargetText(t) != ""
    case None => LatestTarget(PlanOf(before)).Some?
  }

  /** What is wrong with a directive where it stands. */
  function Fault(before: seq<Kind>, d: Directive): Option<ScanError> {
    var line, guarded := |before| + 1, Left(before, GuardIn).Some?;
    match d
    case Declare(_) => None
    case Env(_) => None
    case GoLocal => None
    case GoRemote(payload) => if TargetText(payload) == "" then Some(InvalidDirective(line)) else None
    case Copy(_, at, _) =>
      if guarded then Some(GuardRejected(line))
      else if TargetText(at) == "" then Some(InvalidDirective(line)) else None
    case Assert(_, explicit) =>
      if guarded then Some(GuardRejected(line))
      else if !NamesTarget(before, explicit) then Some(InvalidDirective(line)) else None
    case Targeted(_, explicit, _) =>
      if guarded then Some(GuardRejected(line))
      else if !NamesTarget(before, explicit) then Some(InvalidDirective(line)) else None
    case Export(_) => if BehindLocal(before) then None else Some(ExportNotAfterLocal(line))
    case Timeout(secs) => if secs == 0 then Some(InvalidDirective(line)) else None
    case Name(payload) => if Trim(payload) == "" then Some(InvalidDirective(line)) else None
    case OnlyIf(payload) => if Trim(payload) == "" then Some(InvalidDirective(line)) else None
    case Malformed(isStep) => Some(if isStep && guarded then GuardRejected(line) else InvalidDirective(line))
    case Unknown => Some(UnknownDirective(line))
  }

  function FaultOf(before: seq<Kind>, kind: Kind): Option<ScanError> {
    if kind.Command? then Fault(before, kind.directive) else None
  }

  /** The first fault of the lines that follow. */
  function FaultFrom(before: seq<Kind>, ks: seq<Kind>): Option<ScanError>
    decreases |ks|
  {
    if ks == [] then None
    else match FaultOf(before, ks[0])
      case Some(e) => Some(e)
      case None => FaultFrom(before + [ks[0]], ks[1..])
  }

  function FirstFault(ks: seq<Kind>): Option<ScanError> { FaultFrom([], ks) }

  // What waits, place by place.

  ghost predicate Sets<T(!new)>(ks: seq<Kind>, k: nat, given: Setting<T>, v: T) {
    k < |ks| && ks[k].Command? && given(ks[k].directive) == Some(v)
  }

  /** The line neither sets the value anew nor makes a step that uses it. */
  ghost predicate Passes<T(!new)>(ks: seq<Kind>, k: nat, given: Setting<T>) {
    k < |ks| && (ks[k].Command? ==> given(ks[k].directive).None? && !MakesStep(ks[..k], ks[k].directive))
  }

  ghost predicate LastSet<T(!new)>(ks: seq<Kind>, k: nat, given: Setting<T>, v: T) {
    Sets(ks, k, given, v) && forall j: nat :: k < j < |ks| ==> Passes(ks, j, given)
  }

  lemma PrefixPasses<T(!new)>(ks: seq<Kind>, given: Setting<T>, n: nat)
    requires n <= |ks|
    ensures forall k: nat :: k < n ==> (Passes(ks[..n], k, given) <==> Passes(ks, k, given))
  {
    assert forall k: nat :: k < n ==> ks[..n][..k] == ks[..k];
  }

  /** The value a step takes is the last one set, and no step has come since. */
  lemma {:induction false} WaitingIff<T(!new)>(ks: seq<Kind>, given: Setting<T>, v: T)
    ensures Waiting(ks, given) == Some(v) <==> exists k: nat :: LastSet(ks, k, given, v)
  {
    if ks != [] {
      var n := |ks| - 1;
      var before := ks[..n];
      WaitingIff(before, given, v);
      PrefixPasses(ks, given, n);
      if k: nat :| LastSet(before, k, given, v) {
        assert Passes(ks, n, given) ==> LastSet(ks, k, given, v);
      }
      if k: nat :| LastSet(ks, k, given, v) {
        assert k < n ==> Passes(ks, n, given) && LastSet(before, k, given, v);
      }
      assert Sets(ks, n, given, v) ==> LastSet(ks, n, given, v);
    }
  }

  // The scan is this reading.

  /** Where the scan stands after these lines, if none of them is at fault. */
  ghost function ScanOf(ks: seq<Kind>): Scan {
    var (mode, target, line) := match PlaceOf(ks)
      case None => (Local, "", 0)
      case Some((target, line)) => (Remote, target, line);
    Scan(StepsOf(ks), EnvOf(ks), DeclaredOf(ks), mode, target, line, OpenLines(ks), Waiting(ks, NameIn),
         Waiting(ks, GuardIn), Waiting(ks, SecondsIn), ExportsOf(ks), LatestTarget(StepsOf(ks)))
  }

  lemma {:induction false} ExportsRun(ks: seq<Kind>)
    ensures ExportsOf(ks) != [] ==> Runs(ks)
  {
    if ks != [] {
      ExportsRun(ks[..|ks| - 1]);
      if ks[|ks| - 1].Content? {
        ExecutablePush(OpenLines(ks[..|ks| - 1]), ks[|ks| - 1].line);
      }
    }
  }

  lemma LatestPush(steps: seq<Step>, step: Step)
    ensures LatestTarget(steps + [step]) == if step.LocalStep? then LatestTarget(steps) else Some(step.target)
  {
    assert (steps + [step])[..|steps|] == steps;
  }

  /** The scan once the block being read is closed. */
  ghost function Closing(ks: seq<Kind>): Scan {
    ScanOf(ks).(steps := PlanOf(ks), pending := [], name := Left(ks, NameIn), guard := Left(ks, GuardIn),
                timeout := Left(ks, SecondsIn), exports := [], lastTarget := LatestTarget(PlanOf(ks)))
  }

  lemma CloseReads(ks: seq<Kind>)
    ensures Flushed(ScanOf(ks)) == Closing(ks)
  {
    ExportsRun(ks);
    if Runs(ks) {
      LatestPush(StepsOf(ks), BlockStep(ks));
      assert PlanOf(ks) == StepsOf(ks) + [BlockStep(ks)];
    } else {
      assert PlanOf(ks) == StepsOf(ks);
    }
  }

  /** One more line, read as the scan takes it. */
  ghost predicate Reads(ks: seq<Kind>, kind: Kind) {
    var taken, fault := Taken(ScanOf(ks), kind, |ks| + 1, false), FaultOf(ks, kind);
    if fault.Some? then taken == Err(fault.value) else taken == Ok(ScanOf(ks + [kind]))
  }

  lemma ContentReads(ks: seq<Kind>, line: string)
    ensures Reads(ks, Content(line))
  {
    var next := ks + [Content(line)];
    assert next[..|ks|] == ks && next[|ks|] == Content(line);
    assert ScanOf(next) == ScanOf(ks).(pending := ScanOf(ks).pending + [line]);
  }

  lemma ExportReads(ks: seq<Kind>, vars: seq<ExportVar>)
    ensures Reads(ks, Command(Export(vars)))
  {
    var next := ks + [Command(Export(vars))];
    assert next[..|ks|] == ks && next[|ks|] == Command(Export(vars));
    if Runs(ks) {
      assert ScanOf(next) == ScanOf(ks).(exports := ScanOf(ks).exports + vars);
    } else {
      assert ScanOf(next) == ScanOf(ks).(steps := ExportedLate(StepsOf(ks), vars));
    }
  }

  /** The scan behind a directive that is a step of its own. */
  ghost function Stepped(ks: seq<Kind>, step: Step): Scan
    requires !step.LocalStep?
  {
    Closing(ks).(steps := PlanOf(ks) + [step], name := None, guard := None, timeout := None,
                 lastTarget := Some(step.target))
  }

  lemma StepNext(ks: seq<Kind>, d: Directive)
    requires d.Copy? || d.Assert? || d.Targeted?
    ensures var next := Stepped(ks, OwnStep(ks, d)[0]);
            ScanOf(ks + [Command(d)]) == if d.Copy? then InMode(next, Local, "", 0) else next
  {
    var next := ks + [Command(d)];
    assert next[..|ks|] == ks && next[|ks|] == Command(d);
    LatestPush(PlanOf(ks), OwnStep(ks, d)[0]);
  }

  lemma CopyReads(ks: seq<Kind>, d: Directive)
    requires d.Copy?
    ensures Reads(ks, Command(d))
  {
    CloseReads(ks);
    StepNext(ks, d);
  }

  lemma AssertReads(ks: seq<Kind>, d: Directive)
    requires d.Assert?
    ensures Reads(ks, Command(d))
  {
    CloseReads(ks);
    StepNext(ks, d);
  }

  lemma TargetedReads(ks: seq<Kind>, d: Directive)
    requires d.Targeted?
    ensures Reads(ks, Command(d))
  {
    CloseReads(ks);
    StepNext(ks, d);
  }

  /** A directive that makes no step changes one part of the scan, or where it is. */
  lemma SettingNext(ks: seq<Kind>, d: Directive)
    requires !d.Copy? && !d.Assert? && !d.Targeted? && !d.Export?
    ensures var c, next := Closing(ks), ScanOf(ks + [Command(d)]);
            next == match d
                    case Declare(item) => c.(declared := c.declared + [item])
                    case Env(entry) => c.(env := c.env + [entry])
                    case GoLocal => InMode(c, Local, "", 0)
                    case GoRemote(payload) => InMode(c, Remote, TargetText(payload), |ks| + 1)
                    case Timeout(secs) => c.(timeout := Some(secs))
                    case Name(payload) => c.(name := Some(Trim(payload)))
                    case OnlyIf(payload) => c.(guard := Some(Trim(payload)))
                    case _ => c
  {
    var next := ks + [Command(d)];
    assert next[..|ks|] == ks && next[|ks|] == Command(d);
    assert StepsOf(next) == PlanOf(ks);
  }

  lemma SettingReads(ks: seq<Kind>, d: Directive)
    requires !d.Copy? && !d.Assert? && !d.Targeted? && !d.Export?
    ensures Reads(ks, Command(d))
  {
    CloseReads(ks);
    SettingNext(ks, d);
  }

  lemma LineReads(ks: seq<Kind>, kind: Kind)
    ensures Reads(ks, kind)
  {
    match kind {
      case Content(line) => ContentReads(ks, line);
      case Command(Export(vars)) => ExportReads(ks, vars);
      case Command(d) =>
        if d.Copy? {
          CopyReads(ks, d);
        } else if d.Assert? {
          AssertReads(ks, d);
        } else if d.Targeted? {
          TargetedReads(ks, d);
        } else {
          SettingReads(ks, d);
        }
    }
  }

  lemma {:induction false} RunReads(s: Scan, ks: seq<Kind>, more: seq<Kind>)
    requires s == ScanOf(ks)
    ensures var ran, fault := Run(s, more, |ks| + 1, false), FaultFrom(ks, more);
            if fault.Some? then ran == Err(fault.value) else ran == Ok(ScanOf(ks + more))
    decreases |more|
  {
    if more == [] {
      assert ks + more == ks;
    } else {
      LineReads(ks, more[0]);
      if FaultOf(ks, more[0]) == None {
        var next := ks + [more[0]];
        RunReads(ScanOf(next), next, more[1..]);
        assert next + more[1..] == ks + more;
      }
    }
  }

  /**
   What a script comes to, read off its lines alone: its first fault, else the here-document left open, else
   the plan. Every step of it carries the last `@name`, `@only_if` and `@timeout` that no step had used, the
   `@env` entries so far, its own lines or payload, and where it runs.
   */
  lemma ScriptIsRead(decode: Decoder, lines: seq<string>)
    ensures var ks, open := Kinds(decode, [], lines, 1), OpenAfter([], lines, 1);
            match Parse(decode, lines, true)
            case Err(e) =>
              if FirstFault(ks).Some? then e == FirstFault(ks).value
              else open != [] && e == UnterminatedHeredoc(open[0].lineNo, open[0].doc.tag)
            case Ok(s) =>
              && FirstFault(ks) == None && open == []
              && s.steps == Fused(PlanOf(ks)) && s.env == EnvOf(ks) && s.declared == DeclaredOf(ks)
  {
    UnmergedIsRead(decode, lines, Kinds(decode, [], lines, 1));
    MergingIsFusing(decode, lines);
  }

  lemma StartReads(ks: seq<Kind>)
    ensures var ran, fault := Run(START, ks, 1, false), FirstFault(ks);
            if fault.Some? then ran == Err(fault.value) else ran == Ok(ScanOf(ks))
  {
    var none: seq<Kind> := [];
    assert none + ks == ks;
    RunReads(START, none, ks);
  }

  lemma UnmergedIsRead(decode: Decoder, lines: seq<string>, ks: seq<Kind>)
    requires ks == Kinds(decode, [], lines, 1)
    ensures var r, open := Parse(decode, lines, false), OpenAfter([], lines, 1);
            if FirstFault(ks).Some? then r == Err(FirstFault(ks).value)
            else if open != [] then r == Err(UnterminatedHeredoc(open[0].lineNo, open[0].doc.tag))
            else r == Ok(Closing(ks))
  {
    StartReads(ks);
    CloseReads(ks);
  }

  /** An open here-document was opened by the line it is reported with. */
  lemma {:induction false} OpenedThere(open: seq<OpenBody>, lines: seq<string>, lineNo: nat, body: OpenBody)
    requires body in OpenAfter(open, lines, lineNo)
    ensures body in open
            || exists k :: 0 <= k < |lines| && body.lineNo == lineNo + k && body.doc in Openers(lines[k])
    decreases |lines|
  {
    if lines != [] {
      var next := OpenAfterLine(open, lines[0], lineNo);
      OpenedThere(next, lines[1..], lineNo + 1, body);
      if body in next && body !in open {
        assert body.lineNo == lineNo && body.doc in Openers(lines[0]);
      } else if body !in next {
        var k :| 0 <= k < |lines[1..]| && body.lineNo == lineNo + 1 + k && body.doc in Openers(lines[1..][k]);
        assert lines[1..][k] == lines[k + 1];
      }
    }
  }

  /** So an error about one names the line that opens it. */
  lemma UnterminatedIsThere(decode: Decoder, lines: seq<string>, line: nat, tag: string)
    requires Parse(decode, lines, true) == Err(UnterminatedHeredoc(line, tag))
    ensures 1 <= line <= |lines| && exists strip :: Heredoc(tag, strip) in Openers(lines[line - 1])
  {
    ScriptIsRead(decode, lines);
    NoOpenFault([], Kinds(decode, [], lines, 1));
    var open := OpenAfter([], lines, 1);
    OpenedThere([], lines, 1, open[0]);
    assert open[0].doc == Heredoc(tag, open[0].doc.stripTabs);
  }

  lemma {:induction false} NoOpenFault(before: seq<Kind>, ks: seq<Kind>)
    ensures FaultFrom(before, ks).Some? ==> !FaultFrom(before, ks).value.UnterminatedHeredoc?
    decreases |ks|
  {
    if ks != [] && FaultOf(before, ks[0]).None? {
      NoOpenFault(before + [ks[0]], ks[1..]);
    }
  }
}
