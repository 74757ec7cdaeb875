/** The scanner as it runs: one state object, updated line by line. */
module ScannerState {
  import opened Text
  import opened Heredocs
  import opened Scanner

  class State {
    const decode: Decoder
    var steps: seq<Step>
    var env: seq<string>
    var declared: seq<string>
    var mode: Mode
    var target: string
    var targetLine: nat
    var pending: seq<string>
    var name: Option<string>
    var guard: Option<string>
    var timeout: Option<nat>
    var exports: seq<ExportVar>
    var lastTarget: Option<string>
    const heredocs: HeredocTracker

    function View(): Scan
      reads this
    {
      Scan(steps, env, declared, mode, target, targetLine, pending, name, guard, timeout, exports, lastTarget)
    }

    constructor (decode: Decoder)
      ensures View() == START && heredocs.open == [] && fresh(heredocs) && this.decode == decode
    {
      this.decode := decode;
      heredocs := new HeredocTracker();
      steps, env, declared := [], [], [];
      mode, target, targetLine, pending := Local, "", 0, [];
      name, guard, timeout, exports, lastTarget := None, None, None, [], None;
    }

    method AnyExecutable() returns (b: bool)
      ensures b == HasExecutable(pending)
    {
      for k := 0 to |pending|
        invariant forall j :: 0 <= j < k ==> !Executable(pending[j])
      {
        if Executable(pending[k]) {
          return true;
        }
      }
      return false;
    }

    method Flush()
      modifies this
      ensures View() == Flushed(old(View()))
    {
      var runs := AnyExecutable();
      if !runs {
        pending := [];
        return;
      }
      var script := Join(pending, "\n") + "\n";
      pending := [];
      var step := match mode
        case Local => LocalStep(name, script, guard, timeout, exports, env)
        case Remote => RemoteStep(name, target, targetLine, script, guard, timeout, env);
      name, guard, timeout, exports := None, None, None, [];
      if step.RemoteStep? {
        lastTarget := Some(target);
      }
      steps := steps + [step];
    }

    method AddCopyStep(file: Entry, at: string, options: CopyOptions, line: nat) returns (failed: Option<ScanError>)
      modifies this
      ensures var r := AddCopy(old(View()), file, at, options, line, true);
              match failed case Some(e) => r == Err(e) case None => r == Ok(View())
    {
      if guard.Some? {
        return Some(GuardRejected(line));
      }
      var stepName, stepTimeout := name, timeout;
      name, timeout := None, None;
      var to := TargetText(at);
      if to == "" {
        return Some(InvalidDirective(line));
      }
      lastTarget := Some(to);
      if stepName.None? && steps != [] {
        var last := steps[|steps| - 1];
        if last.CopyStep? && last.target == to && last.options == options && last.timeout == stepTimeout
            && last.env == env {
          steps := steps[..|steps| - 1] + [last.(entries := last.entries + [file])];
          return None;
        }
      }
      steps := steps + [CopyStep(stepName, [file], to, line, options, stepTimeout, env)];
      return None;
    }

    method PushAssertion(stepName: Option<string>, to: string, line: nat, check: string, stepTimeout: Option<nat>)
      modifies this`steps, this`lastTarget
      ensures var s := old(View());
              View() == if AssertMerges(s, stepName, to, stepTimeout) then
                          var last := LastStep(s).value;
                          WithLast(s, last.(checks := last.checks + [check]))
                        else s.(steps := s.steps + [AssertStep(stepName, to, line, [check], stepTimeout)],
                            lastTarget := Some(to))
    {
      if stepName.None? && steps != [] {
        var last := steps[|steps| - 1];
        if last.AssertStep? && last.target == to && last.timeout == stepTimeout {
          steps := steps[..|steps| - 1] + [last.(checks := last.checks + [check])];
          return;
        }
      }
      lastTarget := Some(to);
      steps := steps + [AssertStep(stepName, to, line, [check], stepTimeout)];
    }

    method AddAssertStep(check: string, explicit: Option<string>, line: nat) returns (failed: Option<ScanError>)
      modifies this
      ensures var r := AddAssert(old(View()), check, explicit, line, true);
              match failed case Some(e) => r == Err(e) case None => r == Ok(View())
    {
      if guard.Some? {
        return Some(GuardRejected(line));
      }
      var stepName, stepTimeout := name, timeout;
      name, timeout := None, None;
      var to := ResolveTarget(View(), explicit, line);
      match to {
        case Err(e) => return Some(e);
        case Ok(t) =>
          PushAssertion(stepName, t, line, check, stepTimeout);
          return None;
      }
    }

    method AddTargetedStep(what: string, explicit: Option<string>, seconds: Option<nat>, line: nat)
      returns (failed: Option<ScanError>)
      modifies this
      ensures var r := AddTargeted(old(View()), what, explicit, seconds, line);
              match failed case Some(e) => r == Err(e) case None => r == Ok(View())
    {
      if guard.Some? {
        return Some(GuardRejected(line));
      }
      var stepName := name;
      var budget := timeout;
      name, timeout := None, None;
      if seconds.Some? {
        budget := seconds;
      }
      var to := ResolveTarget(View(), explicit, line);
      match to {
        case Err(e) => return Some(e);
        case Ok(t) =>
          lastTarget := Some(t);
          steps := steps + [TargetedStep(stepName, t, line, what, budget)];
          return None;
      }
    }

    method DeclareExport(vars: seq<ExportVar>, line: nat) returns (failed: Option<ScanError>)
      modifies this
      ensures var r := AddExport(old(View()), vars, line);
              match failed case Some(e) => r == Err(e) case None => r == Ok(View())
    {
      var runs := AnyExecutable();
      if runs {
        if mode != Local {
          return Some(ExportNotAfterLocal(line));
        }
        exports := exports + vars;
        return None;
      }
      if steps != [] && steps[|steps| - 1].LocalStep? {
        var last := steps[|steps| - 1];
        steps := steps[..|steps| - 1] + [last.(exported := last.exported + vars)];
        return None;
      }
      return Some(ExportNotAfterLocal(line));
    }

    method ApplyDirective(d: Directive, line: nat) returns (failed: Option<ScanError>)
      modifies this
      ensures var r := Applied(old(View()), d, line, true);
              match failed case Some(e) => r == Err(e) case None => r == Ok(View())
    {
      if !d.Export? {
        Flush();
      }
      failed := Act(d, line);
    }

    /** `@timeout`, `@name` and `@only_if` wait for the step they belong to. */
    method SetMetadata(d: Directive, line: nat) returns (failed: Option<ScanError>)
      requires pending == [] && (d.Timeout? || d.Name? || d.OnlyIf?)
      modifies this
      ensures var r := Effect(old(View()), d, line, true);
              match failed case Some(e) => r == Err(e) case None => r == Ok(View())
    {
      failed := None;
      match d {
        case Timeout(secs) =>
          if secs == 0 {
            return Some(InvalidDirective(line));
          }
          timeout := Some(secs);
        case Name(payload) =>
          Flush();
          if Trim(payload) == "" {
            return Some(InvalidDirective(line));
          }
          name := Some(Trim(payload));
        case OnlyIf(payload) =>
          Flush();
          if Trim(payload) == "" {
            return Some(InvalidDirective(line));
          }
          guard := Some(Trim(payload));
      }
    }

    /** What a directive does once the pending block is closed. */
    method Act(d: Directive, line: nat) returns (failed: Option<ScanError>)
      requires d.Export? || pending == []
      modifies this
      ensures var r := Effect(old(View()), d, line, true);
              match failed case Some(e) => r == Err(e) case None => r == Ok(View())
    {
      failed := None;
      match d {
        case Declare(item) => declared := declared + [item];
        case Env(entry) => env := env + [entry];
        case GoLocal => mode, target, targetLine := Local, "", 0;
        case GoRemote(payload) =>
          mode := Remote;
          if TargetText(payload) == "" {
            return Some(InvalidDirective(line));
          }
          target, targetLine := TargetText(payload), line;
        case Copy(file, at, options) =>
          mode, target, targetLine := Local, "", 0;
          failed := AddCopyStep(file, at, options, line);
        case Assert(check, explicit) => failed := AddAssertStep(check, explicit, line);
        case Targeted(what, explicit, seconds) => failed := AddTargetedStep(what, explicit, seconds, line);
        case Export(vars) => failed := DeclareExport(vars, line);
        case Timeout(_) => failed := SetMetadata(d, line);
        case Name(_) => failed := SetMetadata(d, line);
        case OnlyIf(_) => failed := SetMetadata(d, line);
        case Malformed(_) => failed := Refuse(d, line);
        case Unknown => failed := Refuse(d, line);
      }
    }

    method Refuse(d: Directive, line: nat) returns (failed: Option<ScanError>)
      requires d.Malformed? || d.Unknown?
      ensures failed.Some? && Effect(View(), d, line, true) == Err(failed.value)
    {
      match d {
        case Malformed(isStep) =>
          return Some(if isStep && guard.Some? then GuardRejected(line) else InvalidDirective(line));
        case Unknown => return Some(UnknownDirective(line));
      }
    }

    /** One line of the script. */
    method TakeLine(line: string, lineNo: nat) returns (failed: Option<ScanError>)
      modifies this, heredocs
      ensures var open := old(heredocs.open);
              && heredocs.open == OpenAfterLine(open, line, lineNo)
              && var r := Taken(old(View()), KindOf(decode, open, line), lineNo, true);
                 match failed case Some(e) => r == Err(e) case None => r == Ok(View())
    {
      var body := heredocs.ConsumeBody(line);
      if body {
        pending := pending + [line];
        return None;
      }
      match DirectiveOf(line) {
        case Some((keyword, payload)) =>
          failed := ApplyDirective(decode(keyword, payload), lineNo);
        case None =>
          heredocs.OpenIn(line, lineNo);
          pending := pending + [line];
          return None;
      }
    }
  }

  /** Parse a deploy script into its plan. */
  method ParseText(decode: Decoder, input: string) returns (r: Result<Scan>)
    ensures r == ParseScript(decode, input)
  {
    var lines := SourceLines(input);
    var state := new State(decode);
    assert lines[0..] == lines;
    for i := 0 to |lines|
      invariant state.decode == decode && fresh(state) && fresh(state.heredocs)
      invariant Run(state.View(), Kinds(decode, state.heredocs.open, lines[i..], i + 1), i + 1, true)
             == Run(START, Kinds(decode, [], lines, 1), 1, true)
      invariant OpenAfter(state.heredocs.open, lines[i..], i + 1) == OpenAfter([], lines, 1)
    {
      var failed := state.TakeLine(lines[i], i + 1);
      if failed.Some? {
        return Err(failed.value);
      }
    }
    var body := state.heredocs.Unterminated();
    if body.Some? {
      return Err(UnterminatedHeredoc(body.value.lineNo, body.value.doc.tag));
    }
    state.Flush();
    return Ok(state.View());
  }
}
