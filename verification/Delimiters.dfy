/** The delimiter a here-document is read with, against the delimiter the shell gives it. */
module Delimiters {
  // Section 2.7.4 of the POSIX.1-2017 Shell Command Language takes the word behind the operator and removes
  // its quotes; sections 2.2.1 to 2.2.3 say what these are. The scan knows one quoted string, or one word with
  // backslashes and no quotes.

  import opened Text
  import opened Heredocs

  /** What is left of double-quoted text: a backslash goes only before a byte that it quotes. */
  function DoubleText(s: string): string {
    if s == "" then ""
    else if s[0] == '\\' && 1 < |s| && (Expands(s[1]) || s[1] == '"' || s[1] == '\\') then [s[1]] + DoubleText(s[2..])
    else [s[0]] + DoubleText(s[1..])
  }

  /**
   The word from byte `i` on with its quotes removed, and where it ends; `text` is read already. There is none
   when the word goes on in the next line.
   */
  function ShellWord(line: string, i: nat, text: string): Option<(string, nat)>
    requires i <= |line|
    decreases |line| - i
  {
    if i == |line| || IsTagEnd(line[i]) then Some((text, i))
    else if line[i] == '\\' then
      if i + 1 == |line| then None else ShellWord(line, i + 2, text + [line[i + 1]])
    else if IsQuote(line[i]) then
      match ClosingQuote(line, i + 1, line[i], line[i] == '"')
      case None => None
      case Some(close) =>
        var inner := line[i + 1..close];
        ShellWord(line, close + 1, text + if line[i] == '"' then DoubleText(inner) else inner)
    else ShellWord(line, i + 1, text + [line[i]])
  }

  /** A word without quotes, but for backslashes, that ends in its line. */
  predicate PlainWord(line: string, i: nat)
    requires i <= |line|
    decreases |line| - i
  {
    if i == |line| || IsTagEnd(line[i]) then true
    else if line[i] == '\\' then i + 1 < |line| && PlainWord(line, i + 2)
    else !IsQuote(line[i]) && PlainWord(line, i + 1)
  }

  lemma {:induction false} BareIsDelimiter(line: string, i: nat, text: string, literal: bool)
    requires i <= |line| && PlainWord(line, i)
    ensures var t := BareTag(line, i, text, literal); ShellWord(line, i, text) == Some((t.text, t.next))
    decreases |line| - i
  {
    if i < |line| && !IsTagEnd(line[i]) {
      if line[i] == '\\' {
        BareIsDelimiter(line, i + 2, text + [line[i + 1]], literal);
      } else {
        BareIsDelimiter(line, i + 1, text + [line[i]], literal && line[i] != '$' && line[i] != '`');
      }
    }
  }

  /** The tag is the delimiter that the shell takes, and ends where it ends. */
  predicate IsDelimiter(line: string, start: nat)
    requires start <= |line|
  {
    var t := ReadTag(line, start);
    ShellWord(line, start, "") == Some((t.text, t.next))
  }

  /** An unquoted word is read as the shell does if it has no quotes in it. */
  lemma PlainIsDelimiter(line: string, start: nat)
    requires start < |line| && !IsQuote(line[start]) && PlainWord(line, start)
    ensures IsDelimiter(line, start)
  {
    BareIsDelimiter(line, start, "", true);
  }

  lemma {:induction false} WordGoesOn(line: string, i: nat, text: string)
    requires i <= |line| && ShellWord(line, i, text).Some?
    ensures i <= ShellWord(line, i, text).value.1
    ensures i < |line| && !IsTagEnd(line[i]) ==> i < ShellWord(line, i, text).value.1
    decreases |line| - i
  {
    if i < |line| && !IsTagEnd(line[i]) {
      if line[i] == '\\' {
        WordGoesOn(line, i + 2, text + [line[i + 1]]);
      } else if IsQuote(line[i]) {
        var close := ClosingQuote(line, i + 1, line[i], line[i] == '"').value;
        var inner := line[i + 1..close];
        WordGoesOn(line, close + 1, text + if line[i] == '"' then DoubleText(inner) else inner);
      } else {
        WordGoesOn(line, i + 1, text + [line[i]]);
      }
    }
  }

  function Unquoted(line: string, start: nat, close: nat): string
    requires start < close < |line|
  {
    var inner := line[start + 1..close];
    if line[start] == '"' then DoubleText(inner) else inner
  }

  lemma QuotedWord(line: string, start: nat, close: nat)
    requires start < close < |line| && IsQuote(line[start])
    requires ClosingQuote(line, start + 1, line[start], line[start] == '"') == Some(close)
    ensures ShellWord(line, start, "") == ShellWord(line, close + 1, Unquoted(line, start, close))
  {
    assert "" + Unquoted(line, start, close) == Unquoted(line, start, close);
  }

  lemma EndsOrGoesOn(line: string, i: nat, text: string, inner: string)
    requires i <= |line|
    ensures ShellWord(line, i, text) == Some((inner, i)) <==> (i == |line| || IsTagEnd(line[i])) && text == inner
  {
    if ShellWord(line, i, text).Some? {
      WordGoesOn(line, i, text);
    }
  }

  /** The word ends behind the quote at `close`, and removing its quotes leaves what is between them. */
  predicate EndsQuoted(line: string, start: nat, close: nat)
    requires start < close < |line|
  {
    (close + 1 == |line| || IsTagEnd(line[close + 1])) && Unquoted(line, start, close) == line[start + 1..close]
  }

  /**
   Exactly when a word that begins with a quote is read as the shell does: the quote is closed in the line,
   the word ends behind it, and in double quotes no backslash quotes the byte behind it.
   */
  lemma QuotedIsDelimiterIff(line: string, start: nat)
    requires start < |line| && IsQuote(line[start])
    ensures var close := ClosingQuote(line, start + 1, line[start], line[start] == '"');
            IsDelimiter(line, start) <==> close.Some? && EndsQuoted(line, start, close.value)
  {
    match ClosingQuote(line, start + 1, line[start], line[start] == '"')
    case None =>
      assert ShellWord(line, start, "") == None;
    case Some(close) =>
      ClosedIsDelimiterIff(line, start, close);
  }

  lemma ClosedIsDelimiterIff(line: string, start: nat, close: nat)
    requires start < close < |line| && IsQuote(line[start])
    requires ClosingQuote(line, start + 1, line[start], line[start] == '"') == Some(close)
    ensures IsDelimiter(line, start) <==> EndsQuoted(line, start, close)
  {
    QuotedTag(line, start, close);
    QuotedWord(line, start, close);
    EndsOrGoesOn(line, close + 1, Unquoted(line, start, close), line[start + 1..close]);
  }

  lemma QuotedTag(line: string, start: nat, close: nat)
    requires start < close < |line| && IsQuote(line[start])
    requires ClosingQuote(line, start + 1, line[start], line[start] == '"') == Some(close)
    ensures ReadTag(line, start).text == line[start + 1..close] && ReadTag(line, start).next == close + 1
  {
  }

  /** A word quoted at its beginning alone is cut behind the quote: `'A'B` is read as `A`. */
  lemma CutWord()
    ensures ReadTag("'A'B", 0) == Tag("A", 3, true) && !IsDelimiter("'A'B", 0)
  {
    var line := "'A'B";
    FindsQuote(line, 1, 2, '\'', false);
    assert line[1..2] == "A";
    QuotedIsDelimiterIff(line, 0);
  }

  /** A word quoted in the middle keeps its quotes: `E"O"F` is not read as `EOF`. */
  lemma KeptQuotes()
    ensures ReadTag("E\"O\"F", 0).text == "E\"O\"F" && ShellWord("E\"O\"F", 0, "") == Some(("EOF", 5))
  {
    var line := "E\"O\"F";
    ReadsPlain(line, 0, 5, "");
    assert "" + line[0..5] == line;
    FindsQuote(line, 2, 3, '"', true);
    assert "" + [line[0]] == "E" && line[2..3] == "O";
    assert DoubleText("O") == "O" && "E" + "O" == "EO" && "EO" + [line[4]] == "EOF";
    assert ShellWord(line, 5, "EOF") == Some(("EOF", 5));
    assert ShellWord(line, 4, "EO") == ShellWord(line, 5, "EOF");
    assert ShellWord(line, 1, "E") == ShellWord(line, 4, "EO");
  }

  lemma {:induction false} ReadsPlain(line: string, i: nat, end: nat, raw: string)
    requires i <= end == |line| && forall k :: i <= k < end ==> IsBare(line[k])
    ensures BareTag(line, i, raw, true) == Tag(raw + line[i..end], end, true)
    decreases end - i
  {
    if i < end {
      ReadsPlain(line, i + 1, end, raw + [line[i]]);
      assert raw + [line[i]] + line[i + 1..end] == raw + line[i..end];
    } else {
      assert raw + line[i..end] == raw;
    }
  }

  /** The operator is also seen in an arithmetic expansion, where the shell reads a shift. */
  lemma ShiftIsOpener()
    ensures Openers("x=$((1<<2))") == [Heredoc("2", false)]
  {
    var line := "x=$((1<<2))";
    PlainPasses(line, 0, 6, true);
    CommandIsPassed(line, 0, 6, true);
    assert "" + [line[8]] == "2";
    assert BareTag(line, 9, "2", true) == Tag("2", 9, true);
    assert ReadTag(line, 8) == Tag("2", 9, true);
    assert ReadHeredoc(line, 8) == Some(Opened(Heredoc("2", false), 9));
    NoOperatorNoOpener(line, 9, true);
    assert OpenersFrom(line, 6, WordAt(line, 0, 6, true)) == [Heredoc("2", false)] + OpenersFrom(line, 9, true);
  }

  // Which words open a here-document.

  /** A backslash in front hides the byte, unless it is hidden itself. */
  predicate Escaped(line: string, from: nat, k: nat)
    requires k <= |line|
  {
    from < k && line[k - 1] == '\\' && !Escaped(line, from, k - 1)
  }

  /** Behind a hidden byte, or one that hides nothing, the text is read as if it began there. */
  lemma {:induction false} EscapedFrom(line: string, from: nat, next: nat, k: nat)
    requires from < next <= k <= |line|
    requires if line[from] == '\\' then next == from + 2 else next == from + 1
    ensures Escaped(line, from, k) == Escaped(line, next, k)
    decreases k
  {
    if k == next {
      assert !Escaped(line, from, from);
      assert Escaped(line, from, from + 1) == (line[from] == '\\');
    } else {
      EscapedFrom(line, from, next, k - 1);
    }
  }

  /** A byte that is seen: not hidden by a backslash, where backslashes hide. */
  predicate Open(line: string, from: nat, k: nat, escapes: bool)
    requires k <= |line|
  {
    !(escapes && Escaped(line, from, k))
  }

  /** The first seen quote. */
  ghost predicate Closes(line: string, from: nat, quote: char, escapes: bool, close: nat) {
    && from <= close < |line| && line[close] == quote && Open(line, from, close, escapes)
    && forall k: nat :: from <= k < close && line[k] == quote ==> !Open(line, from, k, escapes)
  }

  lemma ClosesFrom(line: string, from: nat, next: nat, quote: char, escapes: bool, close: nat)
    requires IsQuote(quote) && from < |line| && (line[from] == quote ==> escapes && line[from] == '\\')
    requires if escapes && line[from] == '\\' then next == Min(from + 2, |line|) else next == from + 1
    ensures Closes(line, from, quote, escapes, close) <==> Closes(line, next, quote, escapes, close)
  {
    if escapes {
      forall k: nat | next <= k < |line| ensures Escaped(line, from, k) == Escaped(line, next, k) {
        EscapedFrom(line, from, next, k);
      }
      if line[from] == '\\' && from + 1 < |line| {
        assert Escaped(line, from, from + 1);
      }
    }
    assert forall k: nat :: from <= k < next && k < |line| && line[k] == quote ==> !Open(line, from, k, escapes);
  }

  /** The closing quote is the first one that is seen. */
  lemma {:induction false} ClosingIff(line: string, from: nat, quote: char, escapes: bool, close: nat)
    requires IsQuote(quote)
    ensures ClosingQuote(line, from, quote, escapes) == Some(close) <==> Closes(line, from, quote, escapes, close)
    decreases |line| - from
  {
    if from < |line| {
      if escapes && line[from] == '\\' {
        ClosesFrom(line, from, Min(from + 2, |line|), quote, escapes, close);
        ClosingIff(line, Min(from + 2, |line|), quote, escapes, close);
      } else if line[from] == quote {
        assert Open(line, from, from, escapes);
      } else {
        ClosesFrom(line, from, from + 1, quote, escapes, close);
        ClosingIff(line, from + 1, quote, escapes, close);
      }
    }
  }

  /** A quote is passed just behind the first one that closes it, or at the end of the line. */
  lemma QuoteEndIs(line: string, from: nat, quote: char, escapes: bool)
    requires IsQuote(quote)
    ensures forall close: nat :: Closes(line, from, quote, escapes, close)
              ==> PastQuote(line, from, quote, escapes) == close + 1
    ensures (forall close: nat :: !Closes(line, from, quote, escapes, close))
              ==> PastQuote(line, from, quote, escapes) == |line|
  {
    forall close: nat
      ensures ClosingQuote(line, from, quote, escapes) == Some(close) <==> Closes(line, from, quote, escapes, close)
    {
      ClosingIff(line, from, quote, escapes, close);
    }
  }

  /** A byte between them expands, and no backslash hides it. */
  ghost predicate Expanded(line: string, from: nat, end: nat)
    requires end <= |line|
  {
    exists k: nat :: from <= k < end && Expands(line[k]) && !Escaped(line, from, k)
  }

  lemma ExpandedFrom(line: string, from: nat, next: nat, end: nat)
    requires from < next <= end <= |line|
    requires if line[from] == '\\' then next == from + 2 else next == from + 1
    ensures Expanded(line, from, end) <==> Expands(line[from]) || Expanded(line, next, end)
  {
    forall k: nat | next <= k < end ensures Escaped(line, from, k) == Escaped(line, next, k) {
      EscapedFrom(line, from, next, k);
    }
    assert !Escaped(line, from, from);
    assert line[from] == '\\' ==> Escaped(line, from, from + 1);
    if k: nat :| from <= k < end && Expands(line[k]) && !Escaped(line, from, k) {
      assert next <= k ==> Expanded(line, next, end);
    }
    if k: nat :| next <= k < end && Expands(line[k]) && !Escaped(line, next, k) {
      assert !Escaped(line, from, k);
    }
  }

  /** A bare word is literal when nothing in it expands. */
  lemma {:induction false} LiteralIff(line: string, i: nat, text: string, literal: bool)
    requires i <= |line|
    ensures var t := BareTag(line, i, text, literal);
            t.literal <==> literal && !Expanded(line, i, t.next)
    decreases |line| - i
  {
    var t := BareTag(line, i, text, literal);
    if i < |line| && !IsTagEnd(line[i]) && (line[i] == '\\' ==> i + 1 < |line|) {
      var next := if line[i] == '\\' then i + 2 else i + 1;
      if line[i] == '\\' {
        LiteralIff(line, next, text + [line[i + 1]], literal);
      } else {
        LiteralIff(line, next, text + [line[i]], literal && line[i] != '$' && line[i] != '`');
      }
      ExpandedFrom(line, i, next, t.next);
    }
  }

  /** Where the delimiter begins: behind `<<`, a dash if there is one, and all blanks. */
  ghost predicate WordBegins(line: string, start: nat, strip: bool, at: nat) {
    && start <= at <= |line| && strip == (start < |line| && line[start] == '-') && (strip ==> start < at)
    && (forall k: nat :: (if strip then start + 1 else start) <= k < at ==> line[k] == ' ' || line[k] == '\t')
    && (at < |line| ==> line[at] != ' ' && line[at] != '\t')
  }

  lemma {:induction false} SkipsTo(line: string, i: nat, at: nat)
    requires i <= at <= |line| && (forall k: nat :: i <= k < at ==> line[k] == ' ' || line[k] == '\t')
    requires at < |line| ==> line[at] != ' ' && line[at] != '\t'
    ensures SkipBlanks(line, i) == at
    decreases at - i
  {
    if i < at {
      SkipsTo(line, i + 1, at);
    }
  }

  /**
   A bare word without quotes opens a here-document with the delimiter that the shell takes, unless it is empty
   or something in it expands.
   */
  lemma PlainOpensIff(line: string, start: nat, strip: bool, at: nat)
    requires WordBegins(line, start, strip, at) && (at < |line| ==> !IsQuote(line[at])) && PlainWord(line, at)
    ensures var word := ShellWord(line, at, "");
            word.Some? && word.value.1 <= |line|
            && ReadHeredoc(line, start)
               == if word.value.0 == "" || Expanded(line, at, word.value.1) then None
                  else Some(Opened(Heredoc(word.value.0, strip), word.value.1))
  {
    SkipsTo(line, if strip then start + 1 else start, at);
    BareIsDelimiter(line, at, "", true);
    LiteralIff(line, at, "", true);
  }

  /** The quote that opens at `at` is closed at `close`. */
  ghost predicate ClosedAt(line: string, at: nat, close: nat)
    requires at < |line|
  {
    Closes(line, at + 1, line[at], line[at] == '"', close)
  }

  /**
   A quoted word opens one with the text up to the first quote that is seen, unless that is empty or, in double
   quotes, holds a byte that expands.
   */
  lemma QuotedOpensIff(line: string, start: nat, strip: bool, at: nat, close: nat)
    requires WordBegins(line, start, strip, at) && at < |line| && IsQuote(line[at])
    requires ClosedAt(line, at, close)
    ensures var text := line[at + 1..close];
            ReadHeredoc(line, start)
            == if text == "" || (line[at] == '"' && exists c :: c in text && Expands(c)) then None
               else Some(Opened(Heredoc(text, strip), close + 1))
  {
    SkipsTo(line, if strip then start + 1 else start, at);
    ClosingIff(line, at + 1, line[at], line[at] == '"', close);
    QuotedTag(line, at, close);
    ExpandsIn(line[at + 1..close]);
  }

  lemma ExpandsIn(text: string)
    ensures (exists c :: c in text && Expands(c)) <==> '$' in text || '`' in text
  {
    assert Expands('$') && Expands('`');
  }

  /** A quote that is never closed takes the rest of the line. */
  lemma UnclosedOpensIff(line: string, start: nat, strip: bool, at: nat)
    requires WordBegins(line, start, strip, at) && at < |line| && IsQuote(line[at])
    requires forall close: nat :: !ClosedAt(line, at, close)
    ensures var text := line[at + 1..];
            ReadHeredoc(line, start)
            == if text == "" || (line[at] == '"' && exists c :: c in text && Expands(c)) then None
               else Some(Opened(Heredoc(text, strip), |line|))
  {
    SkipsTo(line, if strip then start + 1 else start, at);
    var found := ClosingQuote(line, at + 1, line[at], line[at] == '"');
    if found.Some? {
      ClosingIff(line, at + 1, line[at], line[at] == '"', found.value);
      assert ClosedAt(line, at, found.value);
    }
    ExpandsIn(line[at + 1..]);
  }
}
