/** Here-documents: section 2.7.4 of the POSIX.1-2017 Shell Command Language. */
module Heredocs {
  // The lexer is a bundle of index loops, each bounded by the length of the line. The functions are the
  // same lexer without a bound; the methods are proved equal to them, so no loop ever ends because its
  // bound ran out.

  import opened Text

  datatype Heredoc = Heredoc(tag: string, stripTabs: bool) {
    /** Whether `line` ends this here-document; for `<<-` only leading tabs are stripped. */
    predicate Terminates(line: string) {
      (if stripTabs then TrimTabs(line) else line) == tag
    }
  }

  function TrimTabs(line: string): string {
    if line != "" && line[0] == '\t' then TrimTabs(line[1..]) else line
  }

  /** Which lines end a here-document: its tag alone, for `<<-` behind any tabs and nothing but tabs. */
  lemma TerminatesIff(doc: Heredoc, line: string)
    ensures !doc.stripTabs ==> (doc.Terminates(line) <==> line == doc.tag)
    ensures doc.stripTabs ==>
              (doc.Terminates(line) <==> (exists n: nat :: BehindTabs(line, n, doc.tag)) && !BeginsWithTab(doc.tag))
  {
    if doc.stripTabs {
      var n := TabsTrimmed(line);
      if k: nat :| BehindTabs(line, k, doc.tag) {
        OnlyTabs(line, k);
      }
    }
  }

  predicate BeginsWithTab(s: string) { s != "" && s[0] == '\t' }

  /** Behind `n` tabs the line is `tag`. */
  predicate BehindTabs(line: string, n: nat, tag: string) {
    n <= |line| && line[n..] == tag && forall k :: 0 <= k < n ==> line[k] == '\t'
  }

  lemma {:induction false} TabsTrimmed(line: string) returns (n: nat)
    ensures BehindTabs(line, n, TrimTabs(line)) && !BeginsWithTab(TrimTabs(line))
  {
    n := 0;
    if line != "" && line[0] == '\t' {
      var m := TabsTrimmed(line[1..]);
      n := m + 1;
      assert line[n..] == line[1..][m..];
      assert forall k :: 1 <= k < n ==> line[k] == line[1..][k - 1];
    }
  }

  lemma {:induction false} OnlyTabs(line: string, n: nat)
    requires n <= |line| && (forall k :: 0 <= k < n ==> line[k] == '\t')
    ensures TrimTabs(line) == TrimTabs(line[n..])
    decreases n
  {
    if n == 0 {
      assert line[0..] == line;
    } else {
      assert forall k :: 0 <= k < n - 1 ==> line[1..][k] == line[k + 1];
      OnlyTabs(line[1..], n - 1);
      assert line[1..][n - 1..] == line[n..];
    }
  }

  predicate IsTagEnd(c: char) {
    c == ' ' || c == '\t' || c == '\n' || c == ';' || c == '&' || c == '|' || c == '(' || c == ')' || c == '<'
      || c == '>'
  }

  predicate StartsWord(c: char) { IsTagEnd(c) || c == '=' }

  predicate Expands(c: char) { c == '$' || c == '`' }

  function Min(x: nat, y: nat): nat { if x < y then x else y }

  /** Index of the closing quote at or after `start`; with `escapes`, a backslash hides the byte after it. */
  function ClosingQuote(line: string, start: nat, quote: char, escapes: bool): (r: Option<nat>)
    ensures r.Some? ==> start <= r.value < |line| && line[r.value] == quote
    decreases |line| - start
  {
    if |line| <= start then None
    else if escapes && line[start] == '\\' then ClosingQuote(line, Min(start + 2, |line|), quote, escapes)
    else if line[start] == quote then Some(start)
    else ClosingQuote(line, start + 1, quote, escapes)
  }

  method FindClosingQuote(line: string, from: nat, quote: char, escapes: bool) returns (r: Option<nat>)
    ensures r == ClosingQuote(line, from, quote, escapes)
  {
    var start := from;
    for round := 0 to |line| + 1
      invariant round <= start
      invariant ClosingQuote(line, start, quote, escapes) == ClosingQuote(line, from, quote, escapes)
    {
      if |line| <= start {
        break;
      }
      if escapes && line[start] == '\\' {
        start := Min(start + 2, |line|);
      } else {
        if line[start] == quote {
          return Some(start);
        }
        start := start + 1;
      }
    }
    return None;
  }

  /** Just past the closing quote, or the end of the line. */
  method QuoteEnd(line: string, from: nat, quote: char, escapes: bool) returns (end: nat)
    ensures end == PastQuote(line, from, quote, escapes)
  {
    var start := from;
    for round := 0 to |line| + 1
      invariant round <= start
      invariant PastQuote(line, start, quote, escapes) == PastQuote(line, from, quote, escapes)
    {
      if |line| <= start {
        break;
      }
      if escapes && line[start] == '\\' {
        start := Min(start + 2, |line|);
      } else {
        if line[start] == quote {
          return start + 1;
        }
        start := start + 1;
      }
    }
    return |line|;
  }

  function PastQuote(line: string, start: nat, quote: char, escapes: bool): (end: nat)
    ensures end <= |line| && Min(start, |line|) <= end
  {
    match ClosingQuote(line, start, quote, escapes)
    case None => |line|
    case Some(close) => close + 1
  }

  /** A delimiter word: its text, the index past it, and whether its text is fully literal. */
  datatype Tag = Tag(text: string, next: nat, literal: bool)

  /** The bare word from `i` on, `raw` being read already. */
  function BareTag(line: string, i: nat, raw: string, literal: bool): (t: Tag)
    requires i <= |line|
    ensures i <= t.next <= |line|
    decreases |line| - i
  {
    if i == |line| || IsTagEnd(line[i]) then Tag(raw, i, literal)
    else if line[i] == '\\' then
      if i + 1 == |line| then Tag(raw, i, literal) else BareTag(line, i + 2, raw + [line[i + 1]], literal)
    else BareTag(line, i + 1, raw + [line[i]], literal && line[i] != '$' && line[i] != '`')
  }

  function ReadTag(line: string, start: nat): (t: Tag)
    requires start <= |line|
    ensures start <= t.next <= |line|
  {
    if start < |line| && (line[start] == '\'' || line[start] == '"') then
      var quote := line[start];
      var close := ClosingQuote(line, start + 1, quote, quote == '"');
      var text := if close.Some? then line[start + 1..close.value] else line[start + 1..];
      Tag(text, if close.Some? then close.value + 1 else |line|,
          quote == '\'' || ('$' !in text && '`' !in text))
    else BareTag(line, start, "", true)
  }

  method ReadTagWord(line: string, start: nat) returns (t: Tag)
    requires start <= |line|
    ensures t == ReadTag(line, start)
  {
    if start < |line| && (line[start] == '\'' || line[start] == '"') {
      var quote := line[start];
      var close := FindClosingQuote(line, start + 1, quote, quote == '"');
      var text, next;
      match close {
        case Some(at) => text, next := line[start + 1..at], at + 1;
        case None => text, next := line[start + 1..], |line|;
      }
      return Tag(text, next, quote == '\'' || ('$' !in text && '`' !in text));
    }
    var raw, literal := "", true;
    var i := start;
    for round := 0 to |line| + 1
      invariant round <= i <= |line|
      invariant BareTag(line, i, raw, literal) == BareTag(line, start, "", true)
    {
      if i == |line| || IsTagEnd(line[i]) {
        break;
      }
      if line[i] == '\\' {
        if i + 1 == |line| {
          break;
        }
        raw := raw + [line[i + 1]];
        i := i + 2;
      } else {
        if line[i] == '$' || line[i] == '`' {
          literal := false;
        }
        raw := raw + [line[i]];
        i := i + 1;
      }
    }
    return Tag(raw, i, literal);
  }

  function SkipBlanks(line: string, start: nat): (i: nat)
    requires start <= |line|
    ensures start <= i <= |line|
    decreases |line| - start
  {
    if start < |line| && (line[start] == ' ' || line[start] == '\t') then SkipBlanks(line, start + 1) else start
  }

  /** A here-document that starts just past its `<<`, and the index past its delimiter. */
  datatype Opened = Opened(doc: Heredoc, next: nat)

  function ReadHeredoc(line: string, start: nat): (r: Option<Opened>)
    requires start <= |line|
    ensures r.Some? ==> start <= r.value.next <= |line| && r.value.doc.tag != ""
  {
    var strip := start < |line| && line[start] == '-';
    var t := ReadTag(line, SkipBlanks(line, if strip then start + 1 else start));
    if !t.literal || t.text == "" then None else Some(Opened(Heredoc(t.text, strip), t.next))
  }

  method ReadHeredocAt(line: string, from: nat) returns (r: Option<Opened>)
    requires from <= |line|
    ensures r == ReadHeredoc(line, from)
  {
    var start := from;
    var strip := start < |line| && line[start] == '-';
    if strip {
      start := start + 1;
    }
    ghost var blanks := start;
    for round := 0 to |line| + 1
      invariant round <= start <= |line|
      invariant SkipBlanks(line, start) == SkipBlanks(line, blanks)
    {
      if !(start < |line| && (line[start] == ' ' || line[start] == '\t')) {
        break;
      }
      start := start + 1;
    }
    var t := ReadTagWord(line, start);
    if !t.literal || t.text == "" {
      return None;
    }
    return Some(Opened(Heredoc(t.text, strip), t.next));
  }

  /** The here-documents opened from byte `i` on; `word` says whether a word could begin there. */
  function OpenersFrom(line: string, i: nat, word: bool): (docs: seq<Heredoc>)
    requires i <= |line|
    ensures forall d :: d in docs ==> d.tag != ""
    decreases |line| - i
  {
    if i == |line| then []
    else
      var c := line[i];
      if c == '\\' then OpenersFrom(line, Min(i + 2, |line|), false)
      else if c == '\'' || c == '"' then OpenersFrom(line, PastQuote(line, i + 1, c, c == '"'), false)
      else if c == '#' && word then []
      else if c == '<' && i + 1 < |line| && line[i + 1] == '<' then
        if i + 2 < |line| && line[i + 2] == '<' then OpenersFrom(line, i + 3, true)
        else
          match ReadHeredoc(line, i + 2)
          case None => OpenersFrom(line, i + 2, true)
          case Some(o) => [o.doc] + OpenersFrom(line, o.next, true)
      else OpenersFrom(line, i + 1, StartsWord(c))
  }

  function Openers(line: string): seq<Heredoc> { OpenersFrom(line, 0, true) }

  /** Find every here-document opener on `line`, in source order. */
  method ScanOpeners(line: string) returns (openers: seq<Heredoc>)
    ensures openers == Openers(line)
  {
    openers := [];
    var i := 0;
    var wordStart := true;
    for round := 0 to |line| + 1
      invariant round <= i <= |line|
      invariant openers + OpenersFrom(line, i, wordStart) == Openers(line)
    {
      if |line| <= i {
        break;
      }
      var c := line[i];
      if c == '\\' {
        i := Min(i + 2, |line|);
        wordStart := false;
      } else if c == '\'' || c == '"' {
        i := QuoteEnd(line, i + 1, c, c == '"');
        wordStart := false;
      } else if c == '#' && wordStart {
        return;
      } else if c == '<' && i + 1 < |line| && line[i + 1] == '<' {
        if i + 2 < |line| && line[i + 2] == '<' {
          i := i + 3;
        } else {
          i := i + 2;
          var found := ReadHeredocAt(line, i);
          if found.Some? {
            Assoc(openers, [found.value.doc], OpenersFrom(line, found.value.next, true));
            openers := openers + [found.value.doc];
            i := found.value.next;
          }
        }
        wordStart := true;
      } else {
        wordStart := StartsWord(c);
        i := i + 1;
      }
    }
  }

  // What the scan finds.

  /** Where no `<<` follows, nothing is opened, whatever quotes and comments there are. */
  lemma {:induction false} NoOperatorNoOpener(line: string, i: nat, word: bool)
    requires i <= |line| && forall k :: i <= k < |line| - 1 ==> !(line[k] == '<' && line[k + 1] == '<')
    ensures OpenersFrom(line, i, word) == []
    decreases |line| - i
  {
    if i < |line| {
      var c := line[i];
      if c == '\\' {
        NoOperatorNoOpener(line, Min(i + 2, |line|), false);
      } else if IsQuote(c) {
        NoOperatorNoOpener(line, PastQuote(line, i + 1, c, c == '"'), false);
      } else {
        NoOperatorNoOpener(line, i + 1, StartsWord(c));
      }
    }
  }

  /** How a delimiter is written; in a bare word, any bytes may be escaped. */
  datatype Style = Bare(escaped: set<nat>) | Single | Double

  /** A redirection with its delimiter, after a blank. */
  function OpenerText(doc: Heredoc, style: Style): string {
    " <<" + Dash(doc) + Delimiter(doc.tag, style)
  }

  function Dash(doc: Heredoc): string { if doc.stripTabs then "-" else "" }

  function Delimiter(tag: string, style: Style): string {
    match style
    case Bare(escaped) => BareText(tag, 0, escaped)
    case Single => "'" + tag + "'"
    case Double => "\"" + tag + "\""
  }

  /** The tag from byte `k` on, with a backslash before each escaped byte. */
  function BareText(tag: string, k: nat, escaped: set<nat>): string
    decreases |tag| - k
  {
    if |tag| <= k then "" else (if k in escaped then "\\" else "") + [tag[k]] + BareText(tag, k + 1, escaped)
  }

  predicate IsQuote(c: char) { c == '\'' || c == '"' }

  /** A byte of a bare word that needs no backslash. */
  predicate IsBare(c: char) { !IsTagEnd(c) && c != '\\' && !Expands(c) }

  /** Which delimiters a style can spell: with every byte escaped, or in quotes that it does not hold, any. */
  predicate Spells(style: Style, tag: string) {
    && tag != ""
    && match style
       case Single => '\'' !in tag
       case Double => forall c :: c in tag ==> c != '"' && c != '\\' && !Expands(c)
       case Bare(escaped) =>
         && (forall k: nat :: k < |tag| && k !in escaped ==> IsBare(tag[k]))
         && (0 !in escaped ==> !IsQuote(tag[0]) && tag[0] != '-')
  }

  function OpenersText(docs: seq<(Heredoc, Style)>): string {
    if docs == [] then "" else OpenerText(docs[0].0, docs[0].1) + OpenersText(docs[1..])
  }

  function Docs(docs: seq<(Heredoc, Style)>): seq<Heredoc> { seq(|docs|, k requires 0 <= k < |docs| => docs[k].0) }

  lemma {:induction false} FindsQuote(line: string, start: nat, close: nat, quote: char, escapes: bool)
    requires start <= close < |line| && line[close] == quote
    requires forall k :: start <= k < close ==> line[k] != quote && (escapes ==> line[k] != '\\')
    requires escapes ==> quote != '\\'
    ensures ClosingQuote(line, start, quote, escapes) == Some(close)
    decreases close - start
  {
    if start < close {
      FindsQuote(line, start + 1, close, quote, escapes);
    }
  }

  /** One byte of a bare word, escaped or not. */
  lemma ReadsByte(line: string, i: nat, escaped: bool, raw: string)
    requires i + (if escaped then 1 else 0) < |line| && if escaped then line[i] == '\\' else IsBare(line[i])
    ensures var at := if escaped then i + 1 else i;
            BareTag(line, i, raw, true) == BareTag(line, at + 1, raw + [line[at]], true)
  {
  }

  lemma ReadsHead(before: string, escaped: bool, c: char, more: string, raw: string)
    requires escaped || IsBare(c)
    ensures var head := (if escaped then "\\" else "") + [c];
            BareTag(before + head + more, |before|, raw, true)
              == BareTag(before + head + more, |before + head|, raw + [c], true)
  {
    var head := (if escaped then "\\" else "") + [c];
    var line := before + head + more;
    assert line[|before|] == head[0] && line[|before| + |head| - 1] == c;
    ReadsByte(line, |before|, escaped, raw);
  }

  lemma {:induction false} ReadsBare(before: string, tag: string, k: nat, escaped: set<nat>, after: string, raw: string)
    requires k <= |tag| && (after == "" || IsTagEnd(after[0]))
    requires forall n: nat :: k <= n < |tag| && n !in escaped ==> IsBare(tag[n])
    ensures var line := before + BareText(tag, k, escaped) + after;
            BareTag(line, |before|, raw, true) == Tag(raw + tag[k..], |line| - |after|, true)
    decreases |tag| - k
  {
    var line := before + BareText(tag, k, escaped) + after;
    if k == |tag| {
      assert line == before + after && tag[k..] == "" && raw + "" == raw;
    } else {
      var head := (if k in escaped then "\\" else "") + [tag[k]];
      var more := BareText(tag, k + 1, escaped);
      HeadMore(before, head, more, after);
      ReadsHead(before, k in escaped, tag[k], more + after, raw);
      ReadsBare(before + head, tag, k + 1, escaped, after, raw + [tag[k]]);
      assert raw + [tag[k]] + tag[k + 1..] == raw + tag[k..];
    }
  }

  lemma HeadMore(before: string, head: string, more: string, after: string)
    ensures before + (head + more) + after == before + head + (more + after) == before + head + more + after
  {
    assert before + (head + more) == before + head + more;
    Assoc(before + head, more, after);
  }

  lemma Middle(before: string, mid: string, after: string)
    ensures var line := before + mid + after;
            && line[|before|..|before| + |mid|] == mid
            && (forall k :: 0 <= k < |mid| ==> line[|before| + k] == mid[k])
            && (after != "" ==> line[|before| + |mid|] == after[0])
  {
  }

  lemma ReadsQuoted(before: string, tag: string, quote: char, after: string)
    requires IsQuote(quote) && quote !in tag
    requires quote == '"' ==> forall c :: c in tag ==> c != '\\' && !Expands(c)
    ensures var line := before + ([quote] + tag + [quote]) + after;
            ReadTag(line, |before|) == Tag(tag, |line| - |after|, true)
  {
    var line := before + ([quote] + tag + [quote]) + after;
    var from := |before| + 1;
    QuotedBytes(before, tag, quote, after);
    FindsQuote(line, from, from + |tag|, quote, quote == '"');
    assert quote == '"' ==> '$' !in tag && '`' !in tag;
  }

  lemma QuotedBytes(before: string, tag: string, quote: char, after: string)
    ensures var line, from := before + ([quote] + tag + [quote]) + after, |before| + 1;
            && line[from - 1] == quote && line[from + |tag|] == quote && line[from..from + |tag|] == tag
            && forall k :: from <= k < from + |tag| ==> line[k] in tag
  {
    var line, from := before + ([quote] + tag + [quote]) + after, |before| + 1;
    forall k | from <= k < from + |tag| ensures line[k] in tag {
      assert line[k] == tag[k - from];
    }
  }

  lemma ReadsBareWord(before: string, tag: string, escaped: set<nat>, after: string)
    requires Spells(Bare(escaped), tag) && (after == "" || IsTagEnd(after[0]))
    ensures var line := before + BareText(tag, 0, escaped) + after;
            ReadTag(line, |before|) == Tag(tag, |line| - |after|, true)
  {
    var text := BareText(tag, 0, escaped);
    var line := before + text + after;
    Middle(before, text, after);
    assert line[|before|] == text[0];
    ReadsBare(before, tag, 0, escaped, after, "");
    assert "" + tag[0..] == tag;
  }

  /** Just past `<<`, the delimiter is read back, up to where it ends. */
  lemma ReadsDelimiter(before: string, tag: string, style: Style, after: string)
    requires Spells(style, tag) && (after == "" || IsTagEnd(after[0]))
    ensures var line := before + Delimiter(tag, style) + after;
            ReadTag(line, |before|) == Tag(tag, |line| - |after|, true)
  {
    match style {
      case Bare(escaped) => ReadsBareWord(before, tag, escaped, after);
      case Single => ReadsQuoted(before, tag, '\'', after);
      case Double => ReadsQuoted(before, tag, '"', after);
    }
  }

  /** The delimiter of a style does not begin with a blank, a dash or an angle bracket. */
  lemma DelimiterBegins(tag: string, style: Style)
    requires Spells(style, tag)
    ensures var d := Delimiter(tag, style);
            d != "" && d[0] != ' ' && d[0] != '\t' && d[0] != '-' && d[0] != '<'
  {
    assert style.Bare? && 0 !in style.escaped ==> IsBare(tag[0]);
  }

  lemma BytesAt(before: string, dash: string, d: string, after: string)
    requires d != "" && |dash| <= 1
    ensures var line := before + dash + d + after;
            && |before| + |dash| < |line| && line[|before| + |dash|] == d[0]
            && line[|before|] == if dash == "" then d[0] else dash[0]
  {
  }

  /** Just past `<<`: the dash, if any, and the delimiter. */
  lemma ReadsDashed(before: string, doc: Heredoc, style: Style, after: string)
    requires Spells(style, doc.tag) && (after == "" || IsTagEnd(after[0]))
    ensures var line := before + Dash(doc) + Delimiter(doc.tag, style) + after;
            && |before| < |line| && line[|before|] != '<'
            && ReadHeredoc(line, |before|) == Some(Opened(doc, |line| - |after|))
  {
    var d := Delimiter(doc.tag, style);
    DelimiterBegins(doc.tag, style);
    ReadsDelimiter(before + Dash(doc), doc.tag, style, after);
    ReadsText(before, doc, d, after);
  }

  lemma ReadsText(before: string, doc: Heredoc, d: string, after: string)
    requires doc.tag != "" && d != "" && d[0] != ' ' && d[0] != '\t' && d[0] != '-' && d[0] != '<'
    requires var line := before + Dash(doc) + d + after;
             ReadTag(line, |before + Dash(doc)|) == Tag(doc.tag, |line| - |after|, true)
    ensures var line := before + Dash(doc) + d + after;
            && |before| < |line| && line[|before|] != '<'
            && ReadHeredoc(line, |before|) == Some(Opened(doc, |line| - |after|))
  {
    var line := before + Dash(doc) + d + after;
    BytesAt(before, Dash(doc), d, after);
    HeredocFrom(line, |before|, doc.stripTabs, Tag(doc.tag, |line| - |after|, true));
  }

  /** The delimiter stands right behind `<<` or `<<-`. */
  lemma HeredocFrom(line: string, start: nat, strip: bool, t: Tag)
    requires start < |line| && strip == (line[start] == '-') && t.literal && t.text != ""
    requires var at := if strip then start + 1 else start;
             at < |line| && line[at] != ' ' && line[at] != '\t' && ReadTag(line, at) == t
    ensures ReadHeredoc(line, start) == Some(Opened(Heredoc(t.text, strip), t.next))
  {
  }

  /** One opener at `i`, read whole. */
  lemma OpenerStep(line: string, i: nat, word: bool, o: Opened)
    requires i + 3 < |line| && line[i] == ' ' && line[i + 1] == '<' && line[i + 2] == '<' && line[i + 3] != '<'
    requires ReadHeredoc(line, i + 3) == Some(o)
    ensures OpenersFrom(line, i, word) == [o.doc] + OpenersFrom(line, o.next, true)
  {
    assert OpenersFrom(line, i, word) == OpenersFrom(line, i + 1, true);
  }

  lemma OpenerThen(before: string, doc: Heredoc, style: Style, after: string, word: bool)
    requires Spells(style, doc.tag) && (after == "" || IsTagEnd(after[0]))
    ensures var line := before + OpenerText(doc, style) + after;
            OpenersFrom(line, |before|, word) == [doc] + OpenersFrom(line, |before + OpenerText(doc, style)|, true)
  {
    var first := OpenerText(doc, style);
    var line := before + first + after;
    OpenerSplits(before, Dash(doc), Delimiter(doc.tag, style), after);
    ReadsDashed(before + " <<", doc, style, after);
    OpenerStep(line, |before|, word, Opened(doc, |before + first|));
  }

  lemma OpenerSplits(before: string, dash: string, d: string, after: string)
    ensures var line := before + (" <<" + dash + d) + after;
            && line == before + " <<" + dash + d + after
            && line[|before|] == ' ' && line[|before| + 1] == '<' && line[|before| + 2] == '<'
  {
    Regroup(before, " <<", dash, d);
    Middle(before, " <<" + dash + d, after);
    assert (" <<" + dash + d)[..3] == " <<";
    assert " <<" + dash + d == " <<" + (dash + d) by { Assoc(" <<", dash, d); }
  }

  lemma FirstText(docs: seq<(Heredoc, Style)>, after: string)
    requires docs != []
    ensures OpenersText(docs) + after == OpenerText(docs[0].0, docs[0].1) + (OpenersText(docs[1..]) + after)
  {
    Assoc(OpenerText(docs[0].0, docs[0].1), OpenersText(docs[1..]), after);
  }

  lemma FirstDoc(docs: seq<(Heredoc, Style)>)
    requires docs != []
    ensures docs[0] in docs && Docs(docs) == [docs[0].0] + Docs(docs[1..])
  {
  }

  lemma TextBegins(docs: seq<(Heredoc, Style)>, after: string)
    requires after == "" || IsTagEnd(after[0])
    ensures var text := OpenersText(docs) + after; text == "" || IsTagEnd(text[0])
  {
    if docs != [] {
      assert OpenerText(docs[0].0, docs[0].1)[0] == ' ';
    }
  }

  lemma {:induction false} OpenersReadBack(before: string, docs: seq<(Heredoc, Style)>, after: string, word: bool)
    requires forall d :: d in docs ==> Spells(d.1, d.0.tag)
    requires Quiet(after)
    ensures OpenersFrom(before + (OpenersText(docs) + after), |before|, word) == Docs(docs)
    decreases |docs|
  {
    if docs == [] {
      assert "" + after == after;
      NothingBehind(before, after, word);
    } else {
      var rest := docs[1..];
      OpenersReadBack(before + OpenerText(docs[0].0, docs[0].1), rest, after, true);
      FirstText(docs, after);
      FirstDoc(docs);
      TextBegins(rest, after);
      ReadsBackStep(before, docs[0].0, docs[0].1, OpenersText(rest) + after, Docs(rest), word);
    }
  }

  /** What may follow the openers: anything that ends a word and holds no other `<<`, or a comment. */
  predicate Quiet(after: string) {
    || LeadsToComment(after)
    || ((after == "" || IsTagEnd(after[0]))
        && forall k :: 0 <= k < |after| - 1 ==> !(after[k] == '<' && after[k + 1] == '<'))
  }

  /** Blanks, and then a comment, whatever it says. */
  predicate LeadsToComment(s: string) {
    1 < |s| && (s[0] == ' ' || s[0] == '\t') && (s[1] == '#' || LeadsToComment(s[1..]))
  }

  /** Where a word may begin, `#` hides the rest of the line. */
  lemma HashHides(line: string, i: nat)
    requires i < |line| && line[i] == '#'
    ensures OpenersFrom(line, i, true) == []
  {
  }

  lemma {:induction false} CommentBehind(before: string, after: string, word: bool)
    requires LeadsToComment(after)
    ensures OpenersFrom(before + after, |before|, word) == []
    decreases |after|
  {
    var line, i := before + after, |before|;
    assert line[i] == after[0] && line[i + 1] == after[1];
    assert OpenersFrom(line, i, word) == OpenersFrom(line, i + 1, true);
    if after[1] == '#' {
      HashHides(line, i + 1);
    } else {
      assert line == before + [after[0]] + after[1..];
      CommentBehind(before + [after[0]], after[1..], true);
    }
  }

  lemma NothingBehind(before: string, after: string, word: bool)
    requires Quiet(after)
    ensures OpenersFrom(before + after, |before|, word) == []
  {
    var line := before + after;
    if LeadsToComment(after) {
      CommentBehind(before, after, word);
    } else {
      forall k | |before| <= k < |line| - 1 ensures !(line[k] == '<' && line[k + 1] == '<') {
        assert line[k] == after[k - |before|] && line[k + 1] == after[k - |before| + 1];
      }
      NoOperatorNoOpener(line, |before|, word);
    }
  }

  /** The bytes behind which a word, and so a comment, may begin. */
  const WORD_BEGINS_BEHIND := " \t\n;&|()<>="

  /**
   The scan comes from byte `i` to byte `to` of the line without meeting a here-document: quotes are closed,
   no comment begins, and every `<<` is a here-string.
   */
  predicate Passes(line: string, i: nat, to: nat, word: bool)
    requires i <= to <= |line|
    decreases |line| - i
  {
    if i == to then true
    else
      var c := line[i];
      if c == '\\' then i + 2 <= to && Passes(line, i + 2, to, false)
      else if IsQuote(c) then
        PastQuote(line, i + 1, c, c == '"') <= to && Passes(line, PastQuote(line, i + 1, c, c == '"'), to, false)
      else if c == '#' && word then false
      else if c == '<' && i + 1 < |line| && line[i + 1] == '<' then
        i + 3 <= to && line[i + 2] == '<' && Passes(line, i + 3, to, true)
      else Passes(line, i + 1, to, c in WORD_BEGINS_BEHIND)
  }

  /** Whether a word may begin at byte `to`, the scan having come there from byte `i`. */
  predicate WordAt(line: string, i: nat, to: nat, word: bool)
    requires i <= to <= |line| && Passes(line, i, to, word)
    decreases |line| - i
  {
    if i == to then word
    else
      var c := line[i];
      if c == '\\' then WordAt(line, i + 2, to, false)
      else if IsQuote(c) then WordAt(line, PastQuote(line, i + 1, c, c == '"'), to, false)
      else if c == '<' && i + 1 < |line| && line[i + 1] == '<' then WordAt(line, i + 3, to, true)
      else WordAt(line, i + 1, to, c in WORD_BEGINS_BEHIND)
  }

  lemma {:induction false} CommandIsPassed(line: string, i: nat, to: nat, word: bool)
    requires i <= to <= |line| && Passes(line, i, to, word)
    ensures OpenersFrom(line, i, word) == OpenersFrom(line, to, WordAt(line, i, to, word))
    decreases |line| - i
  {
    if i < to {
      var c := line[i];
      if c == '\\' {
        CommandIsPassed(line, i + 2, to, false);
      } else if IsQuote(c) {
        CommandIsPassed(line, PastQuote(line, i + 1, c, c == '"'), to, false);
      } else if c == '<' && i + 1 < |line| && line[i + 1] == '<' {
        CommandIsPassed(line, i + 3, to, true);
      } else {
        assert StartsWord(c) == (c in WORD_BEGINS_BEHIND);
        CommandIsPassed(line, i + 1, to, StartsWord(c));
      }
    }
  }

  /** A comment hides everything behind it: it opens no here-document, whatever it says. */
  lemma CommentHides(line: string, n: nat)
    requires n < |line| && line[n] == '#' && Passes(line, 0, n, true) && WordAt(line, 0, n, true)
    ensures Openers(line) == []
  {
    CommandIsPassed(line, 0, n, true);
    HashHides(line, n);
  }

  predicate PlainByte(c: char) { !IsQuote(c) && c != '\\' && c != '#' && c != '<' }

  /** A command without quotes, comments and redirections from a file is passed, whatever follows it. */
  lemma {:induction false} PlainPasses(line: string, i: nat, to: nat, word: bool)
    requires i <= to <= |line| && forall k :: i <= k < to ==> PlainByte(line[k])
    ensures Passes(line, i, to, word)
    decreases |line| - i
  {
    if i < to {
      PlainPasses(line, i + 1, to, line[i] in WORD_BEGINS_BEHIND);
    }
  }

  /**
   A whole line: a command, here-documents written in any style, and anything behind them. The scan
   reads back exactly these here-documents, in order.
   */
  lemma ScanReadsBack(command: string, docs: seq<(Heredoc, Style)>, after: string)
    requires Quiet(after) && forall d :: d in docs ==> Spells(d.1, d.0.tag)
    requires Passes(command + (OpenersText(docs) + after), 0, |command|, true)
    ensures Openers(command + (OpenersText(docs) + after)) == Docs(docs)
  {
    var line := command + (OpenersText(docs) + after);
    CommandIsPassed(line, 0, |command|, true);
    OpenersReadBack(command, docs, after, WordAt(line, 0, |command|, true));
  }

  lemma ReadsBackStep(before: string, doc: Heredoc, style: Style, after: string, docs: seq<Heredoc>, word: bool)
    requires Spells(style, doc.tag) && (after == "" || IsTagEnd(after[0]))
    requires OpenersFrom(before + OpenerText(doc, style) + after, |before + OpenerText(doc, style)|, true) == docs
    ensures OpenersFrom(before + (OpenerText(doc, style) + after), |before|, word) == [doc] + docs
  {
    OpenerThen(before, doc, style, after, word);
    Assoc(before, OpenerText(doc, style), after);
  }

  // The bodies.

  /** An open here-document and the line that opened it. */
  datatype OpenBody = OpenBody(lineNo: nat, doc: Heredoc)

  function OpenBodies(line: string, lineNo: nat): seq<OpenBody> {
    var docs := Openers(line);
    seq(|docs|, k requires 0 <= k < |docs| => OpenBody(lineNo, docs[k]))
  }

  /** What is still open once `line` is read as body content. */
  function AfterBody(open: seq<OpenBody>, line: string): seq<OpenBody> {
    if open == [] then [] else if open[0].doc.Terminates(line) then open[1..] else open
  }

  class HeredocTracker {
    var open: seq<OpenBody>

    constructor ()
      ensures open == []
    {
      open := [];
    }

    method Unterminated() returns (r: Option<OpenBody>)
      ensures r == if open == [] then None else Some(open[0])
    {
      if open == [] { r := None; } else { r := Some(open[0]); }
    }

    /** Record every here-document opened by `line`. */
    method OpenIn(line: string, lineNo: nat)
      modifies this
      ensures open == old(open) + OpenBodies(line, lineNo)
    {
      var docs := ScanOpeners(line);
      open := open + seq(|docs|, k requires 0 <= k < |docs| => OpenBody(lineNo, docs[k]));
    }

    /** Consume `line` as body content, if a body is open. */
    method ConsumeBody(line: string) returns (consumed: bool)
      modifies this
      ensures consumed == (old(open) != [])
      ensures open == AfterBody(old(open), line)
    {
      if open == [] {
        return false;
      }
      if open[0].doc.Terminates(line) {
        open := open[1..];
      }
      return true;
    }
  }

  /** The lines of one body: none of the first ones ends it, the last one does. */
  predicate BodyOf(doc: Heredoc, lines: seq<string>) {
    && lines != [] && doc.Terminates(lines[|lines| - 1])
    && forall k :: 0 <= k < |lines| - 1 ==> !doc.Terminates(lines[k])
  }

  /** What is open after some body lines, or `None` when a line came that no body was open for. */
  function Drained(open: seq<OpenBody>, lines: seq<string>): Option<seq<OpenBody>> {
    if lines == [] then Some(open)
    else if open == [] then None
    else Drained(AfterBody(open, lines[0]), lines[1..])
  }

  function Flatten(bodies: seq<seq<string>>): seq<string> {
    if bodies == [] then [] else bodies[0] + Flatten(bodies[1..])
  }

  lemma {:induction false} DrainsOne(open: seq<OpenBody>, body: seq<string>, more: seq<string>)
    requires open != [] && BodyOf(open[0].doc, body)
    ensures Drained(open, body + more) == Drained(open[1..], more)
    decreases |body|
  {
    var lines := body + more;
    if |body| == 1 {
      assert lines[1..] == more;
    } else {
      DrainsOne(open, body[1..], more);
      assert lines[1..] == body[1..] + more;
    }
  }

  /** Bodies are taken in the order of their openers, and each takes exactly its own lines. */
  lemma {:induction false} BodiesInOrder(open: seq<OpenBody>, bodies: seq<seq<string>>)
    requires |bodies| == |open| && forall k :: 0 <= k < |open| ==> BodyOf(open[k].doc, bodies[k])
    ensures Drained(open, Flatten(bodies)) == Some([])
  {
    if open != [] {
      DrainsOne(open, bodies[0], Flatten(bodies[1..]));
      BodiesInOrder(open[1..], bodies[1..]);
    }
  }
}
