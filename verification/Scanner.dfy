/**
 The deploy-script scanner: what a line is, what a directive does to the scan, and what a script
 means. Payload grammar is a parameter: `decode` turns a keyword and its payload into a directive, or
 into `Malformed` when the payload breaks the rules of that keyword.
 */
module Scanner {
  import opened Text
  import opened Words
  import opened Heredocs

  datatype Mode = Local | Remote

  datatype ExportVar = ExportVar(name: string, public: bool)

  datatype Entry = Entry(src: string, dst: string)

  datatype CopyOptions = CopyOptions(delete: bool, excludes: seq<string>)

  datatype Step =
    | LocalStep(name: Option<string>, script: string, guard: Option<string>, timeout: Option<nat>,
                exported: seq<ExportVar>, env: seq<string>)
    | RemoteStep(name: Option<string>, target: string, line: nat, script: string, guard: Option<string>,
                 timeout: Option<nat>, env: seq<string>)
    | CopyStep(name: Option<string>, entries: seq<Entry>, target: string, line: nat, options: CopyOptions,
               timeout: Option<nat>, env: seq<string>)
    | AssertStep(name: Option<string>, target: string, line: nat, checks: seq<string>, timeout: Option<nat>)
    | TargetedStep(name: Option<string>, target: string, line: nat, what: string, timeout: Option<nat>)

  datatype Directive =
    | Declare(item: string)
    | Env(entry: string)
    | GoLocal
    | GoRemote(payload: string)
    | Copy(file: Entry, at: string, options: CopyOptions)
    | Assert(check: string, explicit: Option<string>)
    | Targeted(what: string, explicit: Option<string>, seconds: Option<nat>)
    | Export(vars: seq<ExportVar>)
    | Timeout(secs: nat)
    | Name(payload: string)
    | OnlyIf(payload: string)
    | Malformed(isStep: bool)
    | Unknown

  datatype ScanError =
    | GuardRejected(line: nat)
    | InvalidDirective(line: nat)
    | UnknownDirective(line: nat)
    | ExportNotAfterLocal(line: nat)
    | UnterminatedHeredoc(line: nat, delimiter: string)

  datatype Result<+T> = Ok(value: T) | Err(error: ScanError)

  /** The mutable state of the scan, here-documents aside. */
  datatype Scan = Scan(
    steps: seq<Step>, env: seq<string>, declared: seq<string>, mode: Mode, target: string, targetLine: nat,
    pending: seq<string>, name: Option<string>, guard: Option<string>, timeout: Option<nat>,
    exports: seq<ExportVar>, lastTarget: Option<string>)

  const START := Scan([], [], [], Local, "", 0, [], None, None, None, [], None)

  function TrimStart(s: string): string {
    if s != "" && IsWhitespace(s[0]) then TrimStart(s[1..]) else s
  }

  function TrimEnd(s: string): string {
    if s != "" && IsWhitespace(s[|s| - 1]) then TrimEnd(s[..|s| - 1]) else s
  }

  function Trim(s: string): string { TrimEnd(TrimStart(s)) }

  /** A target without its leading `@` signs and the blanks around it. */
  function TargetText(s: string): string { Trim(TrimAts(s)) }

  function TrimAts(s: string): string {
    if s != "" && s[0] == '@' then TrimAts(s[1..]) else s
  }

  function KeywordEnd(s: string, i: nat): (e: nat)
    requires i <= |s|
    ensures i <= e <= |s|
    decreases |s| - i
  {
    if i < |s| && IsWordChar(s[i]) then KeywordEnd(s, i + 1) else i
  }

  function TokenEnd(s: string, i: nat): (e: nat)
    requires i <= |s|
    ensures i <= e <= |s|
    decreases |s| - i
  {
    if i < |s| && !IsWhitespace(s[i]) then TokenEnd(s, i + 1) else i
  }

  /** Keyword and payload of a directive line; a malformed keyword is reported whole, with no payload. */
  function DirectiveOf(line: string): Option<(string, string)> {
    var trimmed := TrimStart(line);
    if trimmed == "" || trimmed[0] != '#' then None
    else
      var after := TrimStart(trimmed[1..]);
      if after == "" || after[0] != '@' then None
      else
        var text := after[1..];
        var end := KeywordEnd(text, 0);
        var rest := text[end..];
        if end == 0 then None
        else if rest != "" && !IsWhitespace(rest[0]) then Some((text[..end] + rest[..TokenEnd(rest, 0)], ""))
        else Some((text[..end], Trim(rest)))
  }

  predicate Executable(line: string) {
    var t := Trim(line);
    t != "" && t[0] != '#'
  }

  predicate HasExecutable(lines: seq<string>) { exists k :: 0 <= k < |lines| && Executable(lines[k]) }

  function ScriptText(lines: seq<string>): string { Join(lines, "\n") + "\n" }

  // What one line does.

  /** Close the pending block: a block with nothing to run is dropped, and its metadata waits for the next one. */
  function Flushed(s: Scan): Scan {
    if !HasExecutable(s.pending) then s.(pending := [])
    else
      var script := ScriptText(s.pending);
      var step := match s.mode
        case Local => LocalStep(s.name, script, s.guard, s.timeout, s.exports, s.env)
        case Remote => RemoteStep(s.name, s.target, s.targetLine, script, s.guard, s.timeout, s.env);
      s.(steps := s.steps + [step], pending := [], name := None, guard := None, timeout := None, exports := [],
         lastTarget := if s.mode == Remote then Some(s.target) else s.lastTarget)
  }

  /** The explicit target of a directive, or the target of the last targeted step. */
  function ResolveTarget(s: Scan, explicit: Option<string>, line: nat): Result<string> {
    match explicit
    case Some(t) => if TargetText(t) == "" then Err(InvalidDirective(line)) else Ok(TargetText(t))
    case None => if s.lastTarget.Some? then Ok(s.lastTarget.value) else Err(InvalidDirective(line))
  }

  function LastStep(s: Scan): Option<Step> { if s.steps == [] then None else Some(s.steps[|s.steps| - 1]) }

  function WithLast(s: Scan, step: Step): Scan
    requires s.steps != []
  {
    s.(steps := s.steps[..|s.steps| - 1] + [step])
  }

  /** Whether a copy travels in the transfer of the last step. */
  predicate CopyMerges(s: Scan, name: Option<string>, target: string, options: CopyOptions, timeout: Option<nat>) {
    name.None? && match LastStep(s)
    case Some(CopyStep(_, _, t, _, o, secs, env)) => t == target && o == options && secs == timeout && env == s.env
    case _ => false
  }

  predicate AssertMerges(s: Scan, name: Option<string>, target: string, timeout: Option<nat>) {
    name.None? && match LastStep(s)
    case Some(AssertStep(_, t, _, _, secs)) => t == target && secs == timeout
    case _ => false
  }

  /** `@copy`; with `merging` off, the parser that never merges. */
  function AddCopy(s: Scan, file: Entry, at: string, options: CopyOptions, line: nat, merging: bool): Result<Scan> {
    if s.guard.Some? then Err(GuardRejected(line))
    else
      var target := TargetText(at);
      if target == "" then Err(InvalidDirective(line))
      else
        var next := s.(name := None, timeout := None, lastTarget := Some(target));
        if merging && CopyMerges(s, s.name, target, options, s.timeout) then
          var last := LastStep(s).value;
          Ok(WithLast(next, last.(entries := last.entries + [file])))
        else Ok(next.(steps := s.steps + [CopyStep(s.name, [file], target, line, options, s.timeout, s.env)]))
  }

  /** An assertion: consecutive ones that share a target and a budget are one step. */
  function AddAssert(s: Scan, check: string, explicit: Option<string>, line: nat, merging: bool): Result<Scan> {
    if s.guard.Some? then Err(GuardRejected(line))
    else match ResolveTarget(s, explicit, line)
      case Err(e) => Err(e)
      case Ok(target) =>
        var next := s.(name := None, timeout := None);
        if merging && AssertMerges(s, s.name, target, s.timeout) then
          var last := LastStep(s).value;
          Ok(WithLast(next, last.(checks := last.checks + [check])))
        else
          Ok(next.(steps := s.steps + [AssertStep(s.name, target, line, [check], s.timeout)],
                   lastTarget := Some(target)))
  }

  /** Every other directive that makes a step on a target. */
  function AddTargeted(s: Scan, what: string, explicit: Option<string>, seconds: Option<nat>, line: nat): Result<Scan> {
    if s.guard.Some? then Err(GuardRejected(line))
    else match ResolveTarget(s, explicit, line)
      case Err(e) => Err(e)
      case Ok(target) =>
        var timeout := if seconds.Some? then seconds else s.timeout;
        Ok(s.(name := None, timeout := None, lastTarget := Some(target),
              steps := s.steps + [TargetedStep(s.name, target, line, what, timeout)]))
  }

  /** `@export` binds to the local block just written, whether it is still pending or already a step. */
  function AddExport(s: Scan, vars: seq<ExportVar>, line: nat): Result<Scan> {
    if HasExecutable(s.pending) then
      if s.mode == Local then Ok(s.(exports := s.exports + vars)) else Err(ExportNotAfterLocal(line))
    else match LastStep(s)
      case Some(last) =>
        if last.LocalStep? then Ok(WithLast(s, last.(exported := last.exported + vars)))
        else Err(ExportNotAfterLocal(line))
      case None => Err(ExportNotAfterLocal(line))
  }

  function InMode(s: Scan, mode: Mode, target: string, line: nat): Scan {
    s.(mode := mode, target := target, targetLine := line)
  }

  /** Every directive except `@export` closes the pending block first. */
  function Applied(s: Scan, d: Directive, line: nat, merging: bool): Result<Scan> {
    Effect(if d.Export? then s else Flushed(s), d, line, merging)
  }

  function Effect(f: Scan, d: Directive, line: nat, merging: bool): Result<Scan> {
    match d
    case Declare(item) => Ok(f.(declared := f.declared + [item]))
    case Env(entry) => Ok(f.(env := f.env + [entry]))
    case GoLocal => Ok(InMode(f, Local, "", 0))
    case GoRemote(payload) =>
      if TargetText(payload) == "" then Err(InvalidDirective(line))
      else Ok(InMode(f, Remote, TargetText(payload), line))
    case Copy(file, at, options) => AddCopy(InMode(f, Local, "", 0), file, at, options, line, merging)
    case Assert(check, explicit) => AddAssert(f, check, explicit, line, merging)
    case Targeted(what, explicit, seconds) => AddTargeted(f, what, explicit, seconds, line)
    case Export(vars) => AddExport(f, vars, line)
    case Timeout(secs) => if secs == 0 then Err(InvalidDirective(line)) else Ok(f.(timeout := Some(secs)))
    case Name(payload) =>
      if Trim(payload) == "" then Err(InvalidDirective(line)) else Ok(f.(name := Some(Trim(payload))))
    case OnlyIf(payload) =>
      if Trim(payload) == "" then Err(InvalidDirective(line)) else Ok(f.(guard := Some(Trim(payload))))
    case Malformed(isStep) => Err(if isStep && f.guard.Some? then GuardRejected(line) else InvalidDirective(line))
    case Unknown => Err(UnknownDirective(line))
  }

  // What a script means.

  /** A line as the scan takes it: script content, or a directive. */
  datatype Kind = Content(line: string) | Command(directive: Directive)

  type Decoder = (string, string) -> Directive

  /** A here-document body wins over everything; then a directive; the rest is content. */
  function KindOf(decode: Decoder, open: seq<OpenBody>, line: string): Kind {
    if open != [] then Content(line)
    else match DirectiveOf(line)
      case Some((keyword, payload)) => Command(decode(keyword, payload))
      case None => Content(line)
  }

  /** The here-documents open after a line. */
  function OpenAfterLine(open: seq<OpenBody>, line: string, lineNo: nat): seq<OpenBody> {
    if open != [] then AfterBody(open, line)
    else if DirectiveOf(line).Some? then []
    else OpenBodies(line, lineNo)
  }

  function Kinds(decode: Decoder, open: seq<OpenBody>, lines: seq<string>, lineNo: nat): seq<Kind>
    decreases |lines|
  {
    if lines == [] then []
    else [KindOf(decode, open, lines[0])] + Kinds(decode, OpenAfterLine(open, lines[0], lineNo), lines[1..], lineNo + 1)
  }

  function OpenAfter(open: seq<OpenBody>, lines: seq<string>, lineNo: nat): seq<OpenBody>
    decreases |lines|
  {
    if lines == [] then open else OpenAfter(OpenAfterLine(open, lines[0], lineNo), lines[1..], lineNo + 1)
  }

  function Taken(s: Scan, kind: Kind, line: nat, merging: bool): Result<Scan> {
    match kind
    case Content(text) => Ok(s.(pending := s.pending + [text]))
    case Command(d) => Applied(s, d, line, merging)
  }

  function Run(s: Scan, kinds: seq<Kind>, line: nat, merging: bool): Result<Scan>
    decreases |kinds|
  {
    if kinds == [] then Ok(s)
    else match Taken(s, kinds[0], line, merging)
      case Err(e) => Err(e)
      case Ok(next) => Run(next, kinds[1..], line + 1, merging)
  }

  /** The scan of a list of lines: the first bad directive, else an open here-document, else the plan. */
  function Parse(decode: Decoder, lines: seq<string>, merging: bool): Result<Scan> {
    match Run(START, Kinds(decode, [], lines, 1), 1, merging)
    case Err(e) => Err(e)
    case Ok(s) =>
      var open := OpenAfter([], lines, 1);
      if open == [] then Ok(Flushed(s)) else Err(UnterminatedHeredoc(open[0].lineNo, open[0].doc.tag))
  }

  /** The lines of a script, each without a carriage return at its end. */
  function SourceLines(input: string): seq<string> {
    var lines := Lines(input);
    seq(|lines|, k requires 0 <= k < |lines| => StripCr(lines[k]))
  }

  function ParseScript(decode: Decoder, input: string): Result<Scan> { Parse(decode, SourceLines(input), true) }
}
