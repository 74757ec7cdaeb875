/** Splitting a directive payload into words (`split_words`). */
module Words {
  // The quoting is that of sections 2.2.1 to 2.2.3 of the POSIX.1-2017 Shell Command Language; the
  // single-quoting of a value is what it undoes.

  import opened Text

  predicate IsWhitespace(c: char) {
    c == ' ' || '\t' <= c <= '\r'
  }

  /** The characters a backslash escapes inside double quotes. */
  predicate Escapable(c: char) { c == '$' || c == '`' || c == '"' || c == '\\' }

  /** What a backslash and `c` mean inside double quotes: a line continuation disappears. */
  function InDouble(c: char): string {
    if Escapable(c) then [c] else if c == '\n' then "" else ['\\', c]
  }

  /** The words still to come: `cur` is the word being read, and `quote` the quote that is open. */
  function WordsFrom(cur: string, inWord: bool, quote: Option<char>, rest: string): seq<string>
    decreases |rest|
  {
    if rest == "" then (if inWord then [cur] else [])
    else
      var c := rest[0];
      match quote
      case Some(q) =>
        if c == q then WordsFrom(cur, true, None, rest[1..])
        else if c == '\\' && q == '"' then
          if |rest| == 1 then WordsFrom(cur + "\\", true, quote, "")
          else WordsFrom(cur + InDouble(rest[1]), true, quote, rest[2..])
        else WordsFrom(cur + [c], true, quote, rest[1..])
      case None =>
        if c == '\'' || c == '"' then WordsFrom(cur, true, Some(c), rest[1..])
        else if IsWhitespace(c) then
          (if inWord then [cur] else []) + WordsFrom(if inWord then "" else cur, false, None, rest[1..])
        else if c == '\\' then
          if |rest| == 1 then WordsFrom(cur, inWord, None, "") else WordsFrom(cur + [rest[1]], true, None, rest[2..])
        else WordsFrom(cur + [c], true, None, rest[1..])
  }

  function Split(payload: string): seq<string> { WordsFrom("", false, None, payload) }

  method SplitWords(payload: string) returns (words: seq<string>)
    ensures words == Split(payload)
  {
    words := [];
    var cur, inWord, quote, i := "", false, None, 0;
    while i < |payload|
      invariant i <= |payload|
      invariant words + WordsFrom(cur, inWord, quote, payload[i..]) == Split(payload)
    {
      var c := payload[i];
      var more := i + 1 < |payload|;
      i := i + 1;
      if quote.Some? {
        if c == quote.value {
          quote := None;
        } else if c == '\\' && quote.value == '"' {
          if more {
            cur := cur + InDouble(payload[i]);
            i := i + 1;
          } else {
            cur := cur + "\\";
          }
        } else {
          cur := cur + [c];
        }
        inWord := true;
      } else if c == '\'' || c == '"' {
        quote := Some(c);
        inWord := true;
      } else if IsWhitespace(c) {
        if inWord {
          Assoc(words, [cur], WordsFrom("", false, None, payload[i..]));
          words := words + [cur];
          cur, inWord := "", false;
        }
      } else if c == '\\' {
        if more {
          cur := cur + [payload[i]];
          inWord := true;
          i := i + 1;
        }
      } else {
        cur := cur + [c];
        inWord := true;
      }
    }
    if inWord {
      words := words + [cur];
    }
  }

  /** A value for a shell: single quotes around it, and a quote inside it spelled `'\''`. */
  function Quoted(w: string): string { "'" + QuotedBody(w) + "'" }

  function QuotedBody(w: string): string {
    if w == "" then "" else (if w[0] == '\'' then "'\\''" else [w[0]]) + QuotedBody(w[1..])
  }

  predicate Blank(s: string) { s != "" && forall c :: c in s ==> IsWhitespace(c) }

  /** Each word quoted, with its own run of blanks behind it; the last word may end the payload. */
  function Payload(words: seq<(string, string)>): string {
    if words == [] then "" else Quoted(words[0].0) + words[0].1 + Payload(words[1..])
  }

  function WordsOf(words: seq<(string, string)>): seq<string> {
    seq(|words|, k requires 0 <= k < |words| => words[k].0)
  }

  lemma {:induction false} QuotedReads(cur: string, w: string, rest: string)
    ensures WordsFrom(cur, true, Some('\''), QuotedBody(w) + "'" + rest) == WordsFrom(cur + w, true, None, rest)
    decreases |w|
  {
    if w == "" {
      assert QuotedBody(w) + "'" + rest == "'" + rest;
      assert ("'" + rest)[1..] == rest;
      assert cur + w == cur;
    } else {
      var tail := QuotedBody(w[1..]) + "'" + rest;
      QuotedReads(cur + [w[0]], w[1..], rest);
      assert cur + [w[0]] + w[1..] == cur + w;
      if w[0] == '\'' {
        QuoteInQuotes(cur, tail);
        assert QuotedBody(w) + "'" + rest == "'\\''" + tail;
      } else {
        assert QuotedBody(w) + "'" + rest == [w[0]] + tail;
        assert ([w[0]] + tail)[1..] == tail;
      }
    }
  }

  /** `'\''` closes the quote, adds a quote, and opens the quote again. */
  lemma QuoteInQuotes(cur: string, tail: string)
    ensures WordsFrom(cur, true, Some('\''), "'\\''" + tail) == WordsFrom(cur + "'", true, Some('\''), tail)
  {
    var s := "'\\''" + tail;
    assert s[1..] == "\\''" + tail;
    assert s[1..][2..] == "'" + tail;
    assert ("'" + tail)[1..] == tail;
    assert WordsFrom(cur, true, Some('\''), s) == WordsFrom(cur, true, None, s[1..]);
    assert WordsFrom(cur, true, None, s[1..]) == WordsFrom(cur + ['\''], true, None, s[1..][2..]);
  }

  lemma {:induction false} BlanksRead(blanks: string, rest: string)
    requires forall c :: c in blanks ==> IsWhitespace(c)
    ensures WordsFrom("", false, None, blanks + rest) == WordsFrom("", false, None, rest)
    decreases |blanks|
  {
    if blanks == "" {
      assert blanks + rest == rest;
    } else {
      BlanksRead(blanks[1..], rest);
      assert (blanks + rest)[1..] == blanks[1..] + rest;
      assert blanks[0] in blanks;
    }
  }

  /** A word ends where blanks begin. */
  lemma WordEnds(cur: string, blanks: string, rest: string)
    requires Blank(blanks) || (blanks == "" && rest == "")
    ensures WordsFrom(cur, true, None, blanks + rest) == [cur] + WordsFrom("", false, None, rest)
  {
    if blanks != "" {
      assert blanks[0] in blanks;
      assert (blanks + rest)[0] == blanks[0];
      assert (blanks + rest)[1..] == blanks[1..] + rest;
      BlanksRead(blanks[1..], rest);
    } else {
      assert blanks + rest == "";
    }
  }

  /**
   The tokenizer inverts quoting: any list of words, each single-quoted and set apart by blanks of any
   kind, splits into exactly that list, empty words and words with quotes, blanks and backslashes
   included.
   */
  lemma {:induction false} SplitInvertsQuoting(words: seq<(string, string)>)
    requires forall k :: 0 <= k < |words| ==> Blank(words[k].1) || (k == |words| - 1 && words[k].1 == "")
    ensures Split(Payload(words)) == WordsOf(words)
  {
    if words != [] {
      var (w, blanks) := words[0];
      var rest := Payload(words[1..]);
      SplitInvertsQuoting(words[1..]);
      FirstWord(w, blanks, rest);
      assert WordsOf(words) == [w] + WordsOf(words[1..]);
    }
  }

  lemma FirstWord(w: string, blanks: string, rest: string)
    requires Blank(blanks) || (blanks == "" && rest == "")
    ensures Split(Quoted(w) + blanks + rest) == [w] + Split(rest)
  {
    var after := blanks + rest;
    assert Quoted(w) + blanks + rest == "'" + (QuotedBody(w) + "'" + after);
    assert ("'" + (QuotedBody(w) + "'" + after))[1..] == QuotedBody(w) + "'" + after;
    QuotedReads("", w, after);
    assert "" + w == w;
    WordEnds(w, blanks, rest);
  }

  /** A word is never cut at a blank that a quote or a backslash protects: one quoted value is one word. */
  lemma QuotedIsOneWord(w: string)
    ensures Split(Quoted(w)) == [w]
  {
    FirstWord(w, "", "");
    assert Quoted(w) + "" + "" == Quoted(w);
  }

  // The whole notation: every way to write a word, and the word it stands for.

  /** One step inside double quotes: a character, an escape, a backslash that stays, a continued line. */
  datatype Inner = Plain(c: char) | Escape(c: char) | Kept(c: char) | Continued {
    predicate Valid() {
      match this
      case Plain(c) => c != '"' && c != '\\'
      case Escape(c) => c == '$' || c == '`' || c == '"' || c == '\\'
      case Kept(c) => c != '$' && c != '`' && c != '"' && c != '\\' && c != '\n'
      case Continued => true
    }

    function Text(): string {
      match this
      case Plain(c) => [c]
      case Escape(c) => ['\\', c]
      case Kept(c) => ['\\', c]
      case Continued => ['\\', '\n']
    }

    function Value(): string {
      match this
      case Plain(c) => [c]
      case Escape(c) => [c]
      case Kept(c) => ['\\', c]
      case Continued => ""
    }
  }

  /** A piece of a word: a character, one behind a backslash, or text in quotes. */
  datatype Piece = Bare(c: char) | Escaped(c: char) | Single(s: string) | Double(inner: seq<Inner>) {
    predicate Valid() {
      match this
      case Bare(c) => !IsWhitespace(c) && c != '\'' && c != '"' && c != '\\'
      case Escaped(_) => true
      case Single(s) => '\'' !in s
      case Double(inner) => forall k :: 0 <= k < |inner| ==> inner[k].Valid()
    }

    function Text(): string {
      match this
      case Bare(c) => [c]
      case Escaped(c) => ['\\', c]
      case Single(s) => "'" + s + "'"
      case Double(inner) => "\"" + InnerText(inner) + "\""
    }

    function Value(): string {
      match this
      case Bare(c) => [c]
      case Escaped(c) => [c]
      case Single(s) => s
      case Double(inner) => InnerValue(inner)
    }
  }

  function InnerText(inner: seq<Inner>): string {
    if inner == [] then "" else inner[0].Text() + InnerText(inner[1..])
  }

  function InnerValue(inner: seq<Inner>): string {
    if inner == [] then "" else inner[0].Value() + InnerValue(inner[1..])
  }

  function PiecesText(pieces: seq<Piece>): string {
    if pieces == [] then "" else pieces[0].Text() + PiecesText(pieces[1..])
  }

  function PiecesValue(pieces: seq<Piece>): string {
    if pieces == [] then "" else pieces[0].Value() + PiecesValue(pieces[1..])
  }

  lemma {:induction false} SingleReads(cur: string, s: string, rest: string)
    requires '\'' !in s
    ensures WordsFrom(cur, true, Some('\''), s + ("'" + rest)) == WordsFrom(cur + s, true, None, rest)
    decreases |s|
  {
    if s == "" {
      assert s + ("'" + rest) == "'" + rest && ("'" + rest)[1..] == rest;
      assert cur + s == cur;
    } else {
      assert s[0] in s;
      assert (s + ("'" + rest))[1..] == s[1..] + ("'" + rest);
      SingleReads(cur + [s[0]], s[1..], rest);
      assert cur + [s[0]] + s[1..] == cur + s;
    }
  }

  lemma InnerReads(cur: string, i: Inner, rest: string)
    requires i.Valid()
    ensures WordsFrom(cur, true, Some('"'), i.Text() + rest) == WordsFrom(cur + i.Value(), true, Some('"'), rest)
  {
    var text := i.Text() + rest;
    if i.Plain? {
      assert text[1..] == rest;
    } else {
      assert text[0] == '\\' && text[1] == i.Text()[1] && text[2..] == rest;
    }
  }

  lemma {:induction false} DoubleReads(cur: string, inner: seq<Inner>, rest: string)
    requires forall k :: 0 <= k < |inner| ==> inner[k].Valid()
    ensures WordsFrom(cur, true, Some('"'), InnerText(inner) + ("\"" + rest))
         == WordsFrom(cur + InnerValue(inner), true, None, rest)
    decreases |inner|
  {
    if inner == [] {
      assert InnerText(inner) + ("\"" + rest) == "\"" + rest && ("\"" + rest)[1..] == rest;
      assert cur + InnerValue(inner) == cur;
    } else {
      var after := InnerText(inner[1..]) + ("\"" + rest);
      Assoc(inner[0].Text(), InnerText(inner[1..]), "\"" + rest);
      InnerReads(cur, inner[0], after);
      DoubleReads(cur + inner[0].Value(), inner[1..], rest);
      Assoc(cur, inner[0].Value(), InnerValue(inner[1..]));
    }
  }

  lemma QuoteOpens(cur: string, inWord: bool, q: char, text: string, tail: string)
    requires (q == '\'' || q == '"') && text != "" && text[0] == q && text[1..] == tail
    ensures WordsFrom(cur, inWord, None, text) == WordsFrom(cur, true, Some(q), tail)
  {
  }

  lemma SinglePieceReads(cur: string, inWord: bool, s: string, rest: string, text: string)
    requires '\'' !in s && text == "'" + s + "'" + rest
    ensures WordsFrom(cur, inWord, None, text) == WordsFrom(cur + s, true, None, rest)
  {
    QuoteOpens(cur, inWord, '\'', text, s + ("'" + rest));
    SingleReads(cur, s, rest);
  }

  lemma DoublePieceReads(cur: string, inWord: bool, inner: seq<Inner>, rest: string, text: string)
    requires (forall k :: 0 <= k < |inner| ==> inner[k].Valid()) && text == "\"" + InnerText(inner) + "\"" + rest
    ensures WordsFrom(cur, inWord, None, text) == WordsFrom(cur + InnerValue(inner), true, None, rest)
  {
    QuoteOpens(cur, inWord, '"', text, InnerText(inner) + ("\"" + rest));
    DoubleReads(cur, inner, rest);
  }

  lemma BarePieceReads(cur: string, inWord: bool, p: Piece, rest: string, text: string)
    requires p.Valid() && (p.Bare? || p.Escaped?) && text == p.Text() + rest
    ensures WordsFrom(cur, inWord, None, text) == WordsFrom(cur + p.Value(), true, None, rest)
  {
    if p.Bare? {
      assert text[0] == p.c && text[1..] == rest;
    } else {
      assert text[0] == '\\' && text[1] == p.c && text[2..] == rest;
    }
  }

  lemma PieceReads(cur: string, inWord: bool, p: Piece, rest: string)
    requires p.Valid()
    ensures WordsFrom(cur, inWord, None, p.Text() + rest) == WordsFrom(cur + p.Value(), true, None, rest)
  {
    match p {
      case Single(s) => SinglePieceReads(cur, inWord, s, rest, p.Text() + rest);
      case Double(inner) => DoublePieceReads(cur, inWord, inner, rest, p.Text() + rest);
      case _ => BarePieceReads(cur, inWord, p, rest, p.Text() + rest);
    }
  }

  lemma {:induction false} PiecesRead(cur: string, inWord: bool, pieces: seq<Piece>, rest: string)
    requires (inWord || pieces != []) && forall k :: 0 <= k < |pieces| ==> pieces[k].Valid()
    ensures WordsFrom(cur, inWord, None, PiecesText(pieces) + rest)
         == WordsFrom(cur + PiecesValue(pieces), true, None, rest)
    decreases |pieces|
  {
    if pieces == [] {
      assert PiecesText(pieces) + rest == rest && cur + PiecesValue(pieces) == cur;
    } else {
      var after := PiecesText(pieces[1..]) + rest;
      Assoc(pieces[0].Text(), PiecesText(pieces[1..]), rest);
      PieceReads(cur, inWord, pieces[0], after);
      PiecesRead(cur + pieces[0].Value(), true, pieces[1..], rest);
      Assoc(cur, pieces[0].Value(), PiecesValue(pieces[1..]));
    }
  }

  /** A word as it is written, with the blanks behind it. */
  datatype Written = Written(pieces: seq<Piece>, blanks: string)

  ghost predicate WellWritten(words: seq<Written>) {
    forall k :: 0 <= k < |words| ==>
      && words[k].pieces != [] && (forall j :: 0 <= j < |words[k].pieces| ==> words[k].pieces[j].Valid())
      && (Blank(words[k].blanks) || (k == |words| - 1 && words[k].blanks == ""))
  }

  function WrittenText(words: seq<Written>): string {
    if words == [] then "" else PiecesText(words[0].pieces) + (words[0].blanks + WrittenText(words[1..]))
  }

  /**
   The notation is read as the shell reads it: words set apart by blanks, each of bare characters, characters
   behind a backslash, single-quoted text, and double-quoted text with its four escapes, its continued lines,
   and every other backslash left in place.
   */
  lemma SplitReads(lead: string, words: seq<Written>)
    requires WellWritten(words) && forall c :: c in lead ==> IsWhitespace(c)
    ensures Split(lead + WrittenText(words)) == Values(words)
  {
    BlanksRead(lead, WrittenText(words));
    WordsRead(words);
  }

  function Values(words: seq<Written>): seq<string> {
    seq(|words|, k requires 0 <= k < |words| => PiecesValue(words[k].pieces))
  }

  lemma {:induction false} WordsRead(words: seq<Written>)
    requires WellWritten(words)
    ensures Split(WrittenText(words)) == Values(words)
  {
    if words != [] {
      var w, rest := words[0], WrittenText(words[1..]);
      WordsRead(words[1..]);
      PiecesRead("", false, w.pieces, w.blanks + rest);
      assert "" + PiecesValue(w.pieces) == PiecesValue(w.pieces);
      WordEnds(PiecesValue(w.pieces), w.blanks, rest);
      assert Values(words) == [PiecesValue(w.pieces)] + Values(words[1..]);
    }
  }

  // A payload that ends inside quotes, or with a backslash.

  lemma {:induction false} SingleLeftOpen(cur: string, s: string)
    requires '\'' !in s
    ensures WordsFrom(cur, true, Some('\''), s) == [cur + s]
    decreases |s|
  {
    if s == "" {
      assert cur + s == cur;
    } else {
      assert s[0] in s;
      SingleLeftOpen(cur + [s[0]], s[1..]);
      assert cur + [s[0]] + s[1..] == cur + s;
    }
  }

  lemma {:induction false} DoubleLeftOpen(cur: string, inner: seq<Inner>, end: string)
    requires (end == "" || end == "\\") && forall k :: 0 <= k < |inner| ==> inner[k].Valid()
    ensures WordsFrom(cur, true, Some('"'), InnerText(inner) + end) == [cur + InnerValue(inner) + end]
    decreases |inner|
  {
    if inner == [] {
      assert InnerText(inner) + end == end && cur + InnerValue(inner) == cur;
      assert cur + "" == cur;
    } else {
      Assoc(inner[0].Text(), InnerText(inner[1..]), end);
      InnerReads(cur, inner[0], InnerText(inner[1..]) + end);
      DoubleLeftOpen(cur + inner[0].Value(), inner[1..], end);
      Assoc(cur, inner[0].Value(), InnerValue(inner[1..]));
    }
  }

  /** An open quote runs to the end of the payload; a last backslash is dropped outside quotes and kept inside. */
  lemma LeftOpen(pieces: seq<Piece>, s: string, inner: seq<Inner>)
    requires forall k :: 0 <= k < |pieces| ==> pieces[k].Valid()
    requires '\'' !in s && forall k :: 0 <= k < |inner| ==> inner[k].Valid()
    ensures Split(PiecesText(pieces) + ("'" + s)) == [PiecesValue(pieces) + s]
    ensures Split(PiecesText(pieces) + ("\"" + InnerText(inner))) == [PiecesValue(pieces) + InnerValue(inner)]
    ensures Split(PiecesText(pieces) + ("\"" + (InnerText(inner) + "\\")))
         == [PiecesValue(pieces) + InnerValue(inner) + "\\"]
    ensures Split(PiecesText(pieces) + "\\") == if pieces == [] then [] else [PiecesValue(pieces)]
  {
    var cur := PiecesValue(pieces);
    OpensBehind(pieces, '\'', s);
    SingleLeftOpen(cur, s);
    OpensBehind(pieces, '"', InnerText(inner));
    DoubleLeftOpen(cur, inner, "");
    assert InnerText(inner) + "" == InnerText(inner) && cur + InnerValue(inner) + "" == cur + InnerValue(inner);
    OpensBehind(pieces, '"', InnerText(inner) + "\\");
    DoubleLeftOpen(cur, inner, "\\");
    EndsWithBackslash(pieces);
  }

  lemma OpensBehind(pieces: seq<Piece>, q: char, tail: string)
    requires (q == '\'' || q == '"') && forall k :: 0 <= k < |pieces| ==> pieces[k].Valid()
    ensures Split(PiecesText(pieces) + ([q] + tail)) == WordsFrom(PiecesValue(pieces), true, Some(q), tail)
  {
    if pieces == [] {
      assert PiecesText(pieces) + ([q] + tail) == [q] + tail;
      QuoteOpens("", false, q, [q] + tail, tail);
    } else {
      PiecesRead("", false, pieces, [q] + tail);
      assert "" + PiecesValue(pieces) == PiecesValue(pieces);
      QuoteOpens(PiecesValue(pieces), true, q, [q] + tail, tail);
    }
  }

  lemma EndsWithBackslash(pieces: seq<Piece>)
    requires forall k :: 0 <= k < |pieces| ==> pieces[k].Valid()
    ensures Split(PiecesText(pieces) + "\\") == if pieces == [] then [] else [PiecesValue(pieces)]
  {
    if pieces == [] {
      assert PiecesText(pieces) + "\\" == "\\";
    } else {
      PiecesRead("", false, pieces, "\\");
      assert "" + PiecesValue(pieces) == PiecesValue(pieces);
    }
  }
}
