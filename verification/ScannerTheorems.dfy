/**
 What every run of the scanner keeps, and what a plan says about the script it came from.
 */
module ScannerTheorems {
  import opened Text
  import opened Scanner

  // Invariants of every run.

  /** The text of lines one of which is a command. */
  ghost predicate RunsSomething(script: string) { exists lines :: HasExecutable(lines) && script == ScriptText(lines) }

  /** A step is never empty, and a step on a target names one. */
  ghost predicate Whole(step: Step) {
    match step
    case LocalStep(_, script, _, _, _, _) => RunsSomething(script)
    case RemoteStep(_, target, _, script, _, _, _) => target != "" && RunsSomething(script)
    case CopyStep(_, entries, target, _, _, _, _) => entries != [] && target != ""
    case AssertStep(_, target, _, checks, _) => checks != [] && target != ""
    case TargetedStep(_, target, _, _, _) => target != ""
  }

  /** The target of the latest step that has one. */
  function LatestTarget(steps: seq<Step>): Option<string> {
    if steps == [] then None
    else
      var last := steps[|steps| - 1];
      if last.LocalStep? then LatestTarget(steps[..|steps| - 1]) else Some(last.target)
  }

  /**
   What holds after any part of a script: a remote block has a target, exported variables wait for a
   local block that will become a step, and the target an assertion inherits is that of the latest
   step that has one.
   */
  ghost predicate Inv(s: Scan) {
    && (forall k :: 0 <= k < |s.steps| ==> Whole(s.steps[k]))
    && (s.mode == Remote ==> s.target != "")
    && (s.exports != [] ==> s.mode == Local && HasExecutable(s.pending))
    && s.lastTarget == LatestTarget(s.steps)
    && (s.lastTarget.Some? ==> s.lastTarget.value != "")
  }

  lemma ExecutablePush(lines: seq<string>, line: string)
    ensures HasExecutable(lines) ==> HasExecutable(lines + [line])
  {
    if HasExecutable(lines) {
      var k :| 0 <= k < |lines| && Executable(lines[k]);
      assert Executable((lines + [line])[k]);
    }
  }

  lemma FlushKeeps(s: Scan)
    requires Inv(s)
    ensures Inv(Flushed(s)) && Flushed(s).pending == [] && Flushed(s).exports == []
  {
    if HasExecutable(s.pending) {
      assert RunsSomething(ScriptText(s.pending));
    }
  }

  lemma CopyKeeps(s: Scan, file: Entry, at: string, options: CopyOptions, line: nat, merging: bool)
    requires Inv(s) && AddCopy(s, file, at, options, line, merging).Ok?
    ensures Inv(AddCopy(s, file, at, options, line, merging).value)
  {
    var target := TargetText(at);
    if merging && CopyMerges(s, s.name, target, options, s.timeout) {
      var last := LastStep(s).value;
      assert s.steps == s.steps[..|s.steps| - 1] + [last];
    }
  }

  lemma AssertKeeps(s: Scan, check: string, explicit: Option<string>, line: nat, merging: bool)
    requires Inv(s) && AddAssert(s, check, explicit, line, merging).Ok?
    ensures Inv(AddAssert(s, check, explicit, line, merging).value)
  {
    var target := ResolveTarget(s, explicit, line).value;
    if merging && AssertMerges(s, s.name, target, s.timeout) {
      var last := LastStep(s).value;
      assert s.steps == s.steps[..|s.steps| - 1] + [last];
    }
  }

  lemma ExportKeeps(s: Scan, vars: seq<ExportVar>, line: nat)
    requires Inv(s) && AddExport(s, vars, line).Ok?
    ensures Inv(AddExport(s, vars, line).value)
  {
    if !HasExecutable(s.pending) {
      var last := LastStep(s).value;
      assert s.steps == s.steps[..|s.steps| - 1] + [last];
    }
  }

  lemma TargetedKeeps(s: Scan, what: string, explicit: Option<string>, seconds: Option<nat>, line: nat)
    requires Inv(s) && AddTargeted(s, what, explicit, seconds, line).Ok?
    ensures Inv(AddTargeted(s, what, explicit, seconds, line).value)
  {
  }

  lemma EffectKeeps(f: Scan, d: Directive, line: nat, merging: bool)
    requires Inv(f) && Effect(f, d, line, merging).Ok? && (!d.Export? ==> f.pending == [] && f.exports == [])
    ensures Inv(Effect(f, d, line, merging).value)
  {
    match d {
      case Copy(file, at, options) => CopyKeeps(InMode(f, Local, "", 0), file, at, options, line, merging);
      case Assert(check, explicit) => AssertKeeps(f, check, explicit, line, merging);
      case Targeted(what, explicit, seconds) => TargetedKeeps(f, what, explicit, seconds, line);
      case Export(vars) => ExportKeeps(f, vars, line);
      case _ =>
    }
  }

  /** Every line that is taken keeps the invariant. */
  lemma TakenKeeps(s: Scan, kind: Kind, line: nat, merging: bool)
    requires Inv(s) && Taken(s, kind, line, merging).Ok?
    ensures Inv(Taken(s, kind, line, merging).value)
  {
    match kind {
      case Content(text) => ExecutablePush(s.pending, text);
      case Command(d) =>
        FlushKeeps(s);
        EffectKeeps(if d.Export? then s else Flushed(s), d, line, merging);
    }
  }

  /** The invariant holds wherever a run stops. */
  lemma {:induction false} RunKeeps(s: Scan, kinds: seq<Kind>, line: nat, merging: bool)
    requires Inv(s) && Run(s, kinds, line, merging).Ok?
    ensures Inv(Run(s, kinds, line, merging).value)
    decreases |kinds|
  {
    if kinds != [] {
      TakenKeeps(s, kinds[0], line, merging);
      RunKeeps(Taken(s, kinds[0], line, merging).value, kinds[1..], line + 1, merging);
    }
  }

  /** In every plan no step is empty or without its target, nothing is left pending, and no export is lost. */
  lemma PlanIsWhole(decode: Decoder, lines: seq<string>, merging: bool)
    requires Parse(decode, lines, merging).Ok?
    ensures var s := Parse(decode, lines, merging).value;
            Inv(s) && s.pending == [] && s.exports == []
  {
    RunKeeps(START, Kinds(decode, [], lines, 1), 1, merging);
    FlushKeeps(Run(START, Kinds(decode, [], lines, 1), 1, merging).value);
  }

  // Merging is only a saving.

  /** A step that goes into the one before it: a copy into the same transfer, an assertion into the same budget. */
  predicate Fuses(last: Step, step: Step) {
    match (last, step)
    case (CopyStep(_, _, at, _, options, secs, env), CopyStep(name, _, to, _, o, t, e)) =>
      name.None? && at == to && options == o && secs == t && env == e
    case (AssertStep(_, at, _, _, secs), AssertStep(name, to, _, _, t)) => name.None? && at == to && secs == t
    case _ => false
  }

  function Fuse(last: Step, step: Step): Step
    requires Fuses(last, step)
  {
    if last.CopyStep? then last.(entries := last.entries + step.entries)
    else last.(checks := last.checks + step.checks)
  }

  function Push(steps: seq<Step>, step: Step): seq<Step> {
    if steps != [] && Fuses(steps[|steps| - 1], step)
    then steps[..|steps| - 1] + [Fuse(steps[|steps| - 1], step)]
    else steps + [step]
  }

  /** The steps, each one fused into what the steps before it have come to. */
  function Fused(steps: seq<Step>): seq<Step> {
    if steps == [] then [] else Push(Fused(steps[..|steps| - 1]), steps[|steps| - 1])
  }

  lemma FusedPush(steps: seq<Step>, step: Step)
    ensures Fused(steps + [step]) == Push(Fused(steps), step)
  {
    assert (steps + [step])[..|steps|] == steps;
  }

  ghost predicate NoneFuses(steps: seq<Step>) {
    forall k :: 0 <= k < |steps| - 1 ==> !Fuses(steps[k], steps[k + 1])
  }

  lemma PushLeavesNone(steps: seq<Step>, step: Step)
    requires NoneFuses(steps)
    ensures NoneFuses(Push(steps, step))
  {
    var pushed := Push(steps, step);
    forall k | 0 <= k < |pushed| - 1 ensures !Fuses(pushed[k], pushed[k + 1]) {
      assert k + 1 < |steps| ==> !Fuses(steps[k], steps[k + 1]);
    }
  }

  /** Nothing is left to fuse. */
  lemma {:induction false} FusedIsDone(steps: seq<Step>)
    ensures NoneFuses(Fused(steps))
  {
    if steps != [] {
      FusedIsDone(steps[..|steps| - 1]);
      PushLeavesNone(Fused(steps[..|steps| - 1]), steps[|steps| - 1]);
    }
  }

  /** One unit of work: a copied entry, an asserted check, or any other step whole. */
  datatype Item =
    | CopyItem(file: Entry, target: string, options: CopyOptions, timeout: Option<nat>, env: seq<string>)
    | CheckItem(check: string, target: string, timeout: Option<nat>)
    | StepItem(step: Step)

  function CopyItems(entries: seq<Entry>, step: Step): seq<Item>
    requires step.CopyStep?
  {
    seq(|entries|, k requires 0 <= k < |entries| =>
      CopyItem(entries[k], step.target, step.options, step.timeout, step.env))
  }

  function CheckItems(checks: seq<string>, step: Step): seq<Item>
    requires step.AssertStep?
  {
    seq(|checks|, k requires 0 <= k < |checks| => CheckItem(checks[k], step.target, step.timeout))
  }

  /** What a step does, item by item; its name and its line do not count. */
  function Items(step: Step): seq<Item> {
    if step.CopyStep? then CopyItems(step.entries, step)
    else if step.AssertStep? then CheckItems(step.checks, step)
    else [StepItem(step)]
  }

  function AllItems(steps: seq<Step>): seq<Item> {
    if steps == [] then [] else AllItems(steps[..|steps| - 1]) + Items(steps[|steps| - 1])
  }

  lemma ItemsPush(steps: seq<Step>, step: Step)
    ensures AllItems(steps + [step]) == AllItems(steps) + Items(step)
  {
    assert (steps + [step])[..|steps|] == steps;
  }

  lemma FuseItems(last: Step, step: Step)
    requires Fuses(last, step)
    ensures Items(Fuse(last, step)) == Items(last) + Items(step)
  {
  }

  lemma PushItems(steps: seq<Step>, step: Step)
    ensures AllItems(Push(steps, step)) == AllItems(steps) + Items(step)
  {
    ItemsPush(steps, step);
    if steps != [] && Fuses(steps[|steps| - 1], step) {
      var init, last := steps[..|steps| - 1], steps[|steps| - 1];
      ItemsPush(init, Fuse(last, step));
      FuseItems(last, step);
      Assoc(AllItems(init), Items(last), Items(step));
    }
  }

  /** Fused or not, the steps do the same items in the same order. */
  lemma {:induction false} FusedItems(steps: seq<Step>)
    ensures AllItems(Fused(steps)) == AllItems(steps)
  {
    if steps != [] {
      FusedItems(steps[..|steps| - 1]);
      PushItems(Fused(steps[..|steps| - 1]), steps[|steps| - 1]);
    }
  }

  /** The scan of the parser that merges, and the one of the parser that does not. */
  ghost predicate Merged(a: Scan, b: Scan) { a == b.(steps := Fused(b.steps)) }

  /** Both parsers go on, or stop with the same error. */
  ghost predicate MergedResult(x: Result<Scan>, y: Result<Scan>) {
    if y.Ok? then x.Ok? && Merged(x.value, y.value) else x == y
  }

  lemma FlushMerged(a: Scan, b: Scan)
    requires Merged(a, b)
    ensures Merged(Flushed(a), Flushed(b))
  {
    if HasExecutable(b.pending) {
      FusedPush(b.steps, Flushed(b).steps[|b.steps|]);
    }
  }

  /** A copy merges exactly when its own step would fuse. */
  lemma CopyPushed(a: Scan, file: Entry, target: string, options: CopyOptions, line: nat)
    ensures var step := CopyStep(a.name, [file], target, line, options, a.timeout, a.env);
            Push(a.steps, step) == if CopyMerges(a, a.name, target, options, a.timeout) then
                                     var last := LastStep(a).value;
                                     WithLast(a, last.(entries := last.entries + [file])).steps
                                   else a.steps + [step]
  {
  }

  lemma CopyMerged(a: Scan, b: Scan, file: Entry, at: string, options: CopyOptions, line: nat)
    requires Merged(a, b)
    ensures MergedResult(AddCopy(a, file, at, options, line, true), AddCopy(b, file, at, options, line, false))
  {
    var target := TargetText(at);
    CopyPushed(a, file, target, options, line);
    FusedPush(b.steps, CopyStep(b.name, [file], target, line, options, b.timeout, b.env));
  }

  lemma AssertPushed(a: Scan, check: string, target: string, line: nat)
    ensures var step := AssertStep(a.name, target, line, [check], a.timeout);
            Push(a.steps, step) == if AssertMerges(a, a.name, target, a.timeout) then
                                     var last := LastStep(a).value;
                                     WithLast(a, last.(checks := last.checks + [check])).steps
                                   else a.steps + [step]
  {
  }

  /** An assertion that merges inherits the target that its step already has. */
  lemma AssertMerged(a: Scan, b: Scan, check: string, explicit: Option<string>, line: nat)
    requires Merged(a, b) && a.lastTarget == LatestTarget(a.steps)
    ensures MergedResult(AddAssert(a, check, explicit, line, true), AddAssert(b, check, explicit, line, false))
  {
    var target := ResolveTarget(b, explicit, line);
    if target.Ok? {
      AssertPushed(a, check, target.value, line);
      FusedPush(b.steps, AssertStep(b.name, target.value, line, [check], b.timeout));
    }
  }

  lemma TargetedMerged(a: Scan, b: Scan, what: string, explicit: Option<string>, seconds: Option<nat>, line: nat)
    requires Merged(a, b)
    ensures MergedResult(AddTargeted(a, what, explicit, seconds, line), AddTargeted(b, what, explicit, seconds, line))
  {
    var y := AddTargeted(b, what, explicit, seconds, line);
    if y.Ok? {
      FusedPush(b.steps, y.value.steps[|b.steps|]);
    }
  }

  /** A local step is never fused, and stays the last one. */
  lemma LastFused(steps: seq<Step>)
    requires steps != []
    ensures var f, last := Fused(steps), steps[|steps| - 1];
            && f != [] && (f[|f| - 1].LocalStep? <==> last.LocalStep?)
            && (last.LocalStep? ==> f == Fused(steps[..|steps| - 1]) + [last])
  {
  }

  lemma ExportMerged(a: Scan, b: Scan, vars: seq<ExportVar>, line: nat)
    requires Merged(a, b)
    ensures MergedResult(AddExport(a, vars, line), AddExport(b, vars, line))
  {
    if b.steps != [] {
      LastFused(b.steps);
      var init, last := b.steps[..|b.steps| - 1], b.steps[|b.steps| - 1];
      if last.LocalStep? {
        var extended := last.(exported := last.exported + vars);
        FusedPush(init, extended);
        assert a.steps[..|a.steps| - 1] == Fused(init);
      }
    }
  }

  lemma EffectMerged(f: Scan, g: Scan, d: Directive, line: nat)
    requires Merged(f, g) && Inv(f)
    ensures MergedResult(Effect(f, d, line, true), Effect(g, d, line, false))
  {
    match d {
      case Copy(file, at, options) =>
        CopyMerged(InMode(f, Local, "", 0), InMode(g, Local, "", 0), file, at, options, line);
      case Assert(check, explicit) => AssertMerged(f, g, check, explicit, line);
      case Targeted(what, explicit, seconds) => TargetedMerged(f, g, what, explicit, seconds, line);
      case Export(vars) => ExportMerged(f, g, vars, line);
      case _ =>
    }
  }

  lemma {:induction false} RunMerged(a: Scan, b: Scan, kinds: seq<Kind>, line: nat)
    requires Merged(a, b) && Inv(a)
    ensures MergedResult(Run(a, kinds, line, true), Run(b, kinds, line, false))
    decreases |kinds|
  {
    if kinds != [] {
      TakenMerged(a, b, kinds[0], line);
      if Taken(a, kinds[0], line, true).Ok? {
        TakenKeeps(a, kinds[0], line, true);
        RunMerged(Taken(a, kinds[0], line, true).value, Taken(b, kinds[0], line, false).value, kinds[1..], line + 1);
      }
    }
  }

  lemma TakenMerged(a: Scan, b: Scan, kind: Kind, line: nat)
    requires Merged(a, b) && Inv(a)
    ensures MergedResult(Taken(a, kind, line, true), Taken(b, kind, line, false))
  {
    if kind.Command? {
      var d := kind.directive;
      FlushKeeps(a);
      FlushMerged(a, b);
      EffectMerged(if d.Export? then a else Flushed(a), if d.Export? then b else Flushed(b), d, line);
    }
  }

  /**
   Merging is exactly fusing: both parsers accept the same scripts, with the same error otherwise, and the
   merged plan is the plan without merging, each step fused into the one before it where it can be.
   */
  lemma MergingIsFusing(decode: Decoder, lines: seq<string>)
    ensures MergedResult(Parse(decode, lines, true), Parse(decode, lines, false))
  {
    var kinds := Kinds(decode, [], lines, 1);
    RunMerged(START, START, kinds, 1);
    if Run(START, kinds, 1, true).Ok? {
      FlushMerged(Run(START, kinds, 1, true).value, Run(START, kinds, 1, false).value);
    }
  }

  /** So both plans do the same items in the same order, each with its own target, options, budget and environment. */
  lemma MergingRefines(decode: Decoder, lines: seq<string>)
    ensures var x, y := Parse(decode, lines, true), Parse(decode, lines, false);
            if x.Ok? then y.Ok? && AllItems(x.value.steps) == AllItems(y.value.steps) else y == x
  {
    MergingIsFusing(decode, lines);
    if Parse(decode, lines, false).Ok? {
      FusedItems(Parse(decode, lines, false).value.steps);
    }
  }
}
