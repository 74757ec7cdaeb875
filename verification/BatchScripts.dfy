/** The script of a batch of remote queries, and what it prints. */
module BatchScripts {
  // A section is three commands behind one capture: its text goes into the script, and its meaning is the
  // text that a shell prints when it runs it. The queries themselves are a parameter.

  import opened Text

  function Digit(d: nat): char
    requires d < 10
  {
    '0' + d as char
  }

  function Decimal(n: nat): (s: string)
    ensures s != "" && forall c :: c in s ==> '0' <= c <= '9'
  {
    if n < 10 then [Digit(n)] else Decimal(n / 10) + [Digit(n % 10)]
  }

  /** The beginning of this run's markers. */
  function Prefix(nonce: string, kind: char): string { "__SFW_" + nonce + "_" + [kind] + "_" }

  // Commands as data.

  datatype Arg = Literal(text: string) | Variable(name: string)

  datatype Command = Capture(cmd: string) | Printf(format: string, args: seq<Arg>)

  function WithArgs(text: string, args: seq<Arg>): string
    decreases |args|
  {
    if args == [] then text
    else match args[0]
      case Literal(word) => WithArgs(text + " '" + word + "'", args[1..])
      case Variable(name) => WithArgs(text + " \"$" + name + "\"", args[1..])
  }

  function CommandText(c: Command): string {
    match c
    case Capture(cmd) => "out=$({ " + cmd + "; } </dev/null 2>&1); rc=$?"
    case Printf(format, args) => WithArgs("printf '" + format + "'", args)
  }

  function ScriptLine(cs: seq<Command>): string
    requires cs != []
  {
    if |cs| == 1 then CommandText(cs[0]) + "\n" else CommandText(cs[0]) + "; " + ScriptLine(cs[1..])
  }

  /** What a query exits with and writes. */
  datatype Answer = Answer(rc: nat, raw: string)

  /** The two variables that a section sets. */
  datatype Variables = Variables(out: string, rc: nat)

  /** What `$(...)` keeps of an output: all but the line breaks at its end. */
  function StripBreaks(s: string): string {
    if s != "" && s[|s| - 1] == '\n' then StripBreaks(s[..|s| - 1]) else s
  }

  /** Exactly these go: what is kept does not end with a line break. */
  lemma {:induction false} StripBreaksHolds(s: string) returns (n: nat)
    ensures s == StripBreaks(s) + seq(n, _ => '\n')
    ensures StripBreaks(s) != "" ==> StripBreaks(s)[|StripBreaks(s)| - 1] != '\n'
  {
    if s != "" && s[|s| - 1] == '\n' {
      var m := StripBreaksHolds(s[..|s| - 1]);
      n := m + 1;
      assert s == s[..|s| - 1] + ['\n'];
      assert seq(n, _ => '\n') == seq(m, _ => '\n') + ['\n'];
    } else {
      n := 0;
    }
  }

  function ValueOf(v: Variables, a: Arg): string {
    match a
    case Literal(text) => text
    case Variable(name) => if name == "out" then v.out else if name == "rc" then Decimal(v.rc) else ""
  }

  /** `printf` with `%s` and `\n` in its format. */
  function Written(format: string, v: Variables, args: seq<Arg>): string {
    if |format| < 2 then format
    else if format[0] == '%' && format[1] == 's' then
      (if args == [] then "" else ValueOf(v, args[0])) + Written(format[2..], v, if args == [] then [] else args[1..])
    else if format[0] == '\\' && format[1] == 'n' then "\n" + Written(format[2..], v, args)
    else [format[0]] + Written(format[1..], v, args)
  }

  /** What the commands print, when the captured query gives `answer`. */
  function Printed(cs: seq<Command>, v: Variables, answer: Answer): string {
    if cs == [] then ""
    else match cs[0]
      case Capture(_) => Printed(cs[1..], Variables(StripBreaks(answer.raw), answer.rc), answer)
      case Printf(format, args) => Written(format, v, args) + Printed(cs[1..], v, answer)
  }

  // A section.

  datatype Query = Query(id: string, cmd: string)

  function SectionOf(nonce: string, q: Query): seq<Command> {
    [Capture(q.cmd),
     Printf("%s %s\\n", [Literal(Prefix(nonce, 'B') + q.id), Variable("rc")]),
     Printf("%s\\n", [Variable("out")]),
     Printf("%s\\n", [Literal(Prefix(nonce, 'E') + q.id)])]
  }

  function ScriptOf(nonce: string, queries: seq<Query>): string {
    if queries == [] then "set +e\n"
    else ScriptOf(nonce, queries[..|queries| - 1]) + ScriptLine(SectionOf(nonce, queries[|queries| - 1]))
  }

  class Batch {
    var script: string
    const nonce: string
    var count: nat
    ghost var queries: seq<Query>

    ghost predicate Valid()
      reads this
    {
      script == ScriptOf(nonce, queries) && count == |queries|
    }

    constructor (nonce: string)
      ensures Valid() && this.nonce == nonce && queries == [] && script == "set +e\n"
    {
      this.nonce, script, count := nonce, "set +e\n", 0;
      queries := [];
    }

    /** Append one query: the script is that of the queries so far, and as many answers are expected. */
    method AddSection(id: string, cmd: string)
      requires Valid()
      modifies this
      ensures Valid() && queries == old(queries) + [Query(id, cmd)] && count == old(count) + 1
      ensures script == old(script)
                        + ("out=$({ " + cmd + "; } </dev/null 2>&1); rc=$?; " + "printf '%s %s\\n' '"
                           + ("__SFW_" + nonce + "_B_" + id) + "' \"$rc\"; " + "printf '%s\\n' \"$out\"; "
                           + "printf '%s\\n' '" + ("__SFW_" + nonce + "_E_" + id) + "'\n")
    {
      var beg := "__SFW_" + nonce + "_B_" + id;
      var end := "__SFW_" + nonce + "_E_" + id;
      assert Prefix(nonce, 'B') + id == beg && Prefix(nonce, 'E') + id == end;
      SectionText(nonce, Query(id, cmd));
      script := script + ("out=$({ " + cmd + "; } </dev/null 2>&1); rc=$?; " + "printf '%s %s\\n' '" + beg
                          + "' \"$rc\"; " + "printf '%s\\n' \"$out\"; " + "printf '%s\\n' '" + end + "'\n");
      count := count + 1;
      queries := queries + [Query(id, cmd)];
    }
  }

  /** What is written in front joins the first of several pieces. */
  lemma Glue(front: string, a: string, b: string, c: string)
    ensures front + (a + b + c) == front + a + b + c
  {
    Assoc(front, a + b, c);
    Assoc(front, a, b);
  }

  lemma OneArg(text: string, a: Arg)
    ensures WithArgs(text, [a]) == match a case Literal(word) => text + " '" + word + "'"
                                           case Variable(name) => text + " \"$" + name + "\""
  {
    var args: seq<Arg> := [a];
    assert args[1..] == [];
  }

  lemma TwoArgs(text: string, word: string, name: string)
    ensures WithArgs(text, [Literal(word), Variable(name)]) == text + " '" + word + "'" + " \"$" + name + "\""
  {
    var args: seq<Arg> := [Literal(word), Variable(name)];
    assert args[1..] == [Variable(name)];
    OneArg(text + " '" + word + "'", Variable(name));
  }

  lemma EndMarker(mark: string)
    ensures CommandText(Printf("%s\\n", [Literal(mark)])) == "printf '%s\\n' '" + mark + "'"
  {
    OneArg("printf '" + "%s\\n" + "'", Literal(mark));
    assert "printf '" + "%s\\n" + "'" + " '" == "printf '%s\\n' '";
  }

  lemma BeginMarker(mark: string)
    ensures CommandText(Printf("%s %s\\n", [Literal(mark), Variable("rc")]))
        == "printf '%s %s\\n' '" + mark + "' \"$rc\""
  {
    TwoArgs("printf '" + "%s %s\\n" + "'", mark, "rc");
    assert "printf '" + "%s %s\\n" + "'" + " '" == "printf '%s %s\\n' '";
    var text := "printf '%s %s\\n' '" + mark;
    Regroup(text, "'", " \"$", "rc");
    Assoc(text, "'" + " \"$" + "rc", "\"");
    assert "'" + " \"$" + "rc" + "\"" == "' \"$rc\"";
    assert "'" + (" \"$" + "rc") == "'" + " \"$" + "rc";
  }

  lemma OutputPrinted()
    ensures CommandText(Printf("%s\\n", [Variable("out")])) == "printf '%s\\n' \"$out\""
  {
    OneArg("printf '" + "%s\\n" + "'", Variable("out"));
    assert "printf '" + "%s\\n" + "'" + " \"$" + "out" + "\"" == "printf '%s\\n' \"$out\"";
  }

  lemma SectionText(nonce: string, q: Query)
    ensures ScriptLine(SectionOf(nonce, q))
         == "out=$({ " + q.cmd + "; } </dev/null 2>&1); rc=$?; " + "printf '%s %s\\n' '" + (Prefix(nonce, 'B') + q.id)
            + "' \"$rc\"; " + "printf '%s\\n' \"$out\"; " + "printf '%s\\n' '" + (Prefix(nonce, 'E') + q.id) + "'\n"
  {
    var beg, end := Prefix(nonce, 'B') + q.id, Prefix(nonce, 'E') + q.id;
    BeginMarker(beg);
    EndMarker(end);
    OutputPrinted();
    FourCommands(SectionOf(nonce, q));
    Joined(q.cmd, beg, end);
  }

  /** The four commands, piece by piece. */
  lemma Joined(cmd: string, beg: string, end: string)
    ensures "out=$({ " + cmd + "; } </dev/null 2>&1); rc=$?" + "; " + ("printf '%s %s\\n' '" + beg + "' \"$rc\"" + "; "
            + ("printf '%s\\n' \"$out\"" + "; " + ("printf '%s\\n' '" + end + "'" + "\n")))
         == "out=$({ " + cmd + "; } </dev/null 2>&1); rc=$?; " + "printf '%s %s\\n' '" + beg
            + "' \"$rc\"; " + "printf '%s\\n' \"$out\"; " + "printf '%s\\n' '" + end + "'\n"
  {
    var capture, status, out, s := "; } </dev/null 2>&1); rc=$?", "' \"$rc\"", "printf '%s\\n' \"$out\"", "; ";
    assert capture + s == "; } </dev/null 2>&1); rc=$?; ";
    assert status + s == "' \"$rc\"; " && out + s == "printf '%s\\n' \"$out\"; " && "'" + "\n" == "'\n";
    JoinedPieces("out=$({ ", cmd, capture, s, "printf '%s %s\\n' '", beg, status, out,
                 "printf '%s\\n' '", end, "'", "\n");
  }

  lemma JoinedPieces(o: string, cmd: string, capture: string, s: string, first: string, beg: string, status: string,
                     out: string, last: string, end: string, quote: string, eol: string)
    ensures o + cmd + capture + s + (first + beg + status + s + (out + s + (last + end + quote + eol)))
         == o + cmd + (capture + s) + first + beg + (status + s) + (out + s) + last + end + (quote + eol)
  {
    var x, t := out + s, quote + eol;
    Assoc(last + end, quote, eol);
    Glue(x, last, end, t);
    Assoc(first + beg, status, s);
    GlueFour(first + beg + (status + s), x, last, end, t);
    Assoc(o + cmd, capture, s);
    GlueFour(o + cmd + (capture + s), first + beg + (status + s) + x, last, end, t);
    GlueFour(o + cmd + (capture + s), first, beg, status + s, x);
  }

  lemma GlueFour(front: string, a: string, b: string, c: string, d: string)
    ensures front + (a + b + c + d) == front + a + b + c + d
  {
    Glue(front, a + b, c, d);
    Assoc(front, a, b);
  }

  lemma FourCommands(cs: seq<Command>)
    requires |cs| == 4
    ensures ScriptLine(cs) == CommandText(cs[0]) + "; " + (CommandText(cs[1]) + "; " + (CommandText(cs[2]) + "; "
                              + (CommandText(cs[3]) + "\n")))
  {
    var b, c, d := cs[1..], cs[2..], cs[3..];
    assert b[1..] == c && c[1..] == d;
    assert ScriptLine(d) == CommandText(cs[3]) + "\n";
    assert ScriptLine(c) == CommandText(cs[2]) + "; " + ScriptLine(d);
    assert ScriptLine(b) == CommandText(cs[1]) + "; " + ScriptLine(c);
  }

  lemma WrittenLine(v: Variables, a: Arg)
    ensures Written("%s\\n", v, [a]) == ValueOf(v, a) + "\n"
  {
    var args: seq<Arg> := [a];
    assert args[1..] == [];
    assert "%s\\n"[2..] == "\\n" && "\\n"[2..] == "";
    assert Written("\\n", v, []) == "\n" + Written("", v, []) == "\n";
  }

  lemma WrittenPair(v: Variables, a: Arg, b: Arg)
    ensures Written("%s %s\\n", v, [a, b]) == ValueOf(v, a) + " " + ValueOf(v, b) + "\n"
  {
    var args: seq<Arg> := [a, b];
    assert args[1..] == [b];
    assert "%s %s\\n"[2..] == " %s\\n" && " %s\\n"[1..] == "%s\\n";
    WrittenLine(v, b);
    assert Written(" %s\\n", v, [b]) == " " + (ValueOf(v, b) + "\n");
    Assoc(ValueOf(v, a), " ", ValueOf(v, b) + "\n");
    Assoc(ValueOf(v, a) + " ", ValueOf(v, b), "\n");
  }

  /** A section prints its begin marker and status, the output, and its end marker, each on its own line. */
  lemma SectionPrints(nonce: string, q: Query, v: Variables, answer: Answer)
    ensures Printed(SectionOf(nonce, q), v, answer)
         == Prefix(nonce, 'B') + q.id + " " + Decimal(answer.rc) + "\n"
            + (StripBreaks(answer.raw) + "\n" + (Prefix(nonce, 'E') + q.id + "\n"))
  {
    var cs, now := SectionOf(nonce, q), Variables(StripBreaks(answer.raw), answer.rc);
    WrittenPair(now, Literal(Prefix(nonce, 'B') + q.id), Variable("rc"));
    WrittenLine(now, Variable("out"));
    WrittenLine(now, Literal(Prefix(nonce, 'E') + q.id));
    var b, c, d := cs[1..], cs[2..], cs[3..];
    assert b[1..] == c && c[1..] == d && d[1..] == [];
    assert Printed(d, now, answer) == Prefix(nonce, 'E') + q.id + "\n" + "";
    assert Printed(c, now, answer) == StripBreaks(answer.raw) + "\n" + Printed(d, now, answer);
  }
}
