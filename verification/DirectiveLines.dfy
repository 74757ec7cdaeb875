/** Which lines are directives, and what they say. */
module DirectiveLines {
  import opened Text
  import opened Words
  import opened Scanner

  predicate AllBlank(s: string) { forall k :: 0 <= k < |s| ==> IsWhitespace(s[k]) }

  predicate IsKeyword(s: string) { s != "" && forall k :: 0 <= k < |s| ==> IsWordChar(s[k]) }

  /** Nothing at all, or something that begins with neither blank nor word character. */
  predicate StopsKeyword(s: string) { s == "" || !IsWordChar(s[0]) }

  /** Text without blanks at its ends. */
  predicate Bare(s: string) { s != "" ==> !IsWhitespace(s[0]) && !IsWhitespace(s[|s| - 1]) }

  lemma {:induction false} TrimsTo(blanks: string, rest: string)
    requires AllBlank(blanks) && (rest != "" ==> !IsWhitespace(rest[0]))
    ensures TrimStart(blanks + rest) == rest
    decreases |blanks|
  {
    if blanks == "" {
      assert blanks + rest == rest;
    } else {
      assert (blanks + rest)[1..] == blanks[1..] + rest;
      TrimsTo(blanks[1..], rest);
    }
  }

  lemma {:induction false} TrimsEnd(rest: string, blanks: string)
    requires AllBlank(blanks) && (rest != "" ==> !IsWhitespace(rest[|rest| - 1]))
    ensures TrimEnd(rest + blanks) == rest
    decreases |blanks|
  {
    if blanks == "" {
      assert rest + blanks == rest;
    } else {
      var n := |blanks| - 1;
      assert (rest + blanks)[..|rest| + n] == rest + blanks[..n];
      TrimsEnd(rest, blanks[..n]);
    }
  }

  /** Trimming leaves what stands between the blanks. */
  lemma TrimsBoth(before: string, mid: string, after: string)
    requires AllBlank(before) && AllBlank(after) && Bare(mid)
    ensures Trim(before + (mid + after)) == mid
  {
    if mid == "" {
      assert before + (mid + after) == before + after + "";
      TrimsTo(before + after, "");
    } else {
      TrimsTo(before, mid + after);
      TrimsEnd(mid, after);
    }
  }

  lemma {:induction false} KeywordIs(text: string, i: nat, e: nat)
    requires i <= e <= |text| && (forall k :: i <= k < e ==> IsWordChar(text[k]))
    requires e < |text| ==> !IsWordChar(text[e])
    ensures KeywordEnd(text, i) == e
    decreases e - i
  {
    if i < e {
      KeywordIs(text, i + 1, e);
    }
  }

  lemma {:induction false} TokenIs(text: string, i: nat, e: nat)
    requires i <= e <= |text| && (forall k :: i <= k < e ==> !IsWhitespace(text[k]))
    requires e < |text| ==> IsWhitespace(text[e])
    ensures TokenEnd(text, i) == e
    decreases e - i
  {
    if i < e {
      TokenIs(text, i + 1, e);
    }
  }

  /** A line `# @keyword…`, with any blanks in front of the `#` and behind it. */
  predicate Written(line: string, indent: string, gap: string, keyword: string, rest: string) {
    && AllBlank(indent) && AllBlank(gap) && IsKeyword(keyword) && StopsKeyword(rest)
    && line == indent + ("#" + (gap + ("@" + (keyword + rest))))
  }

  lemma DirectiveParts(line: string, indent: string, gap: string, keyword: string, rest: string)
    requires Written(line, indent, gap, keyword, rest)
    ensures DirectiveOf(line)
         == if rest != "" && !IsWhitespace(rest[0]) then Some((keyword + rest[..TokenEnd(rest, 0)], ""))
            else Some((keyword, Trim(rest)))
  {
    var text := keyword + rest;
    TrimsTo(indent, "#" + (gap + ("@" + text)));
    assert ("#" + (gap + ("@" + text)))[1..] == gap + ("@" + text);
    TrimsTo(gap, "@" + text);
    assert ("@" + text)[1..] == text;
    KeywordIs(text, 0, |keyword|);
    assert text[..|keyword|] == keyword && text[|keyword|..] == rest;
  }

  /** A directive is read back: its keyword, and its payload without the blanks around it. */
  lemma DirectiveReads(decode: Decoder, line: string, indent: string, gap: string, keyword: string, before: string,
                       payload: string, after: string)
    requires Written(line, indent, gap, keyword, before + (payload + after))
    requires AllBlank(before) && AllBlank(after) && Bare(payload) && (payload != "" ==> before != "")
    ensures DirectiveOf(line) == Some((keyword, payload))
    ensures KindOf(decode, [], line) == Command(decode(keyword, payload))
  {
    DirectiveParts(line, indent, gap, keyword, before + (payload + after));
    TrimsBoth(before, payload, after);
  }

  /** A keyword that runs on into other characters is reported with them, up to the next blank. */
  lemma MalformedReads(line: string, indent: string, gap: string, keyword: string, more: string, rest: string)
    requires Written(line, indent, gap, keyword, more + rest)
    requires more != "" && (forall k :: 0 <= k < |more| ==> !IsWhitespace(more[k]))
    requires rest != "" ==> IsWhitespace(rest[0])
    ensures DirectiveOf(line) == Some((keyword + more, ""))
  {
    DirectiveParts(line, indent, gap, keyword, more + rest);
    TokenIs(more + rest, 0, |more|);
    assert (more + rest)[..|more|] == more;
  }

  lemma {:induction false} TrimStartSplits(s: string) returns (blanks: string)
    ensures AllBlank(blanks) && s == blanks + TrimStart(s)
    decreases |s|
  {
    if s != "" && IsWhitespace(s[0]) {
      var more := TrimStartSplits(s[1..]);
      blanks := [s[0]] + more;
      assert s == [s[0]] + s[1..];
    } else {
      blanks := "";
      assert s == blanks + s;
    }
  }

  lemma {:induction false} KeywordHolds(text: string, i: nat)
    requires i <= |text|
    ensures forall k :: i <= k < KeywordEnd(text, i) ==> IsWordChar(text[k])
    ensures KeywordEnd(text, i) < |text| ==> !IsWordChar(text[KeywordEnd(text, i)])
    decreases |text| - i
  {
    if i < |text| && IsWordChar(text[i]) {
      KeywordHolds(text, i + 1);
    }
  }

  lemma KeywordSplits(text: string) returns (keyword: string, rest: string)
    requires KeywordEnd(text, 0) != 0
    ensures text == keyword + rest && IsKeyword(keyword) && StopsKeyword(rest)
  {
    KeywordHolds(text, 0);
    keyword, rest := text[..KeywordEnd(text, 0)], text[KeywordEnd(text, 0)..];
  }

  lemma LineSplits(line: string) returns (indent: string, gap: string, keyword: string, rest: string)
    requires DirectiveOf(line).Some?
    ensures Written(line, indent, gap, keyword, rest)
  {
    indent := TrimStartSplits(line);
    var trimmed := TrimStart(line);
    gap := TrimStartSplits(trimmed[1..]);
    var after := TrimStart(trimmed[1..]);
    keyword, rest := KeywordSplits(after[1..]);
    assert after == "@" + after[1..];
    assert trimmed == "#" + trimmed[1..];
  }

  /** Exactly such lines are directives. */
  lemma DirectiveIff(line: string)
    ensures DirectiveOf(line).Some? <==> exists indent, gap, keyword, rest :: Written(line, indent, gap, keyword, rest)
  {
    if indent, gap, keyword, rest :| Written(line, indent, gap, keyword, rest) {
      DirectiveParts(line, indent, gap, keyword, rest);
    }
    if DirectiveOf(line).Some? {
      var indent, gap, keyword, rest := LineSplits(line);
    }
  }

  lemma TrimSplits(s: string) returns (before: string, after: string)
    ensures AllBlank(before) && AllBlank(after) && Bare(Trim(s)) && s == before + (Trim(s) + after)
  {
    before := TrimStartSplits(s);
    after := TrimEndSplits(TrimStart(s));
    if Trim(s) != "" {
      assert TrimStart(s)[0] == Trim(s)[0];
      TrimStartHolds(s);
    }
  }

  lemma {:induction false} TrimStartHolds(s: string)
    ensures TrimStart(s) != "" ==> !IsWhitespace(TrimStart(s)[0])
    decreases |s|
  {
    if s != "" && IsWhitespace(s[0]) {
      TrimStartHolds(s[1..]);
    }
  }

  lemma {:induction false} TrimEndSplits(s: string) returns (blanks: string)
    ensures AllBlank(blanks) && s == TrimEnd(s) + blanks
    ensures TrimEnd(s) != "" ==> !IsWhitespace(TrimEnd(s)[|TrimEnd(s)| - 1])
    decreases |s|
  {
    if s != "" && IsWhitespace(s[|s| - 1]) {
      var more := TrimEndSplits(s[..|s| - 1]);
      blanks := more + [s[|s| - 1]];
      assert s == s[..|s| - 1] + [s[|s| - 1]];
    } else {
      blanks := "";
      assert s == s + blanks;
    }
  }

  /** The first character that is no blank. */
  ghost predicate Begins(line: string, k: nat) {
    k < |line| && !IsWhitespace(line[k]) && forall j :: 0 <= j < k ==> IsWhitespace(line[j])
  }

  /** A line runs something when it is neither blank nor a comment. */
  lemma ExecutableIff(line: string)
    ensures Executable(line) <==> exists k: nat :: Begins(line, k) && line[k] != '#'
  {
    var before, after := TrimSplits(line);
    var n := |before|;
    if Trim(line) != "" {
      assert Begins(line, n) && line[n] == Trim(line)[0];
      assert forall k: nat :: Begins(line, k) ==> k == n;
    } else {
      assert AllBlank(line);
    }
  }

  /** A target is what stands behind its `@` signs, without the blanks around it. */
  lemma TargetReads(ats: string, before: string, name: string, after: string)
    requires (forall k :: 0 <= k < |ats| ==> ats[k] == '@') && AllBlank(before) && AllBlank(after) && Bare(name)
    requires name != "" && before == "" ==> name[0] != '@'
    ensures TargetText(ats + (before + (name + after))) == name
  {
    var rest := before + (name + after);
    assert rest != "" ==> rest[0] != '@';
    AtsTrimmed(ats, rest);
    TrimsBoth(before, name, after);
  }

  lemma {:induction false} AtsTrimmed(ats: string, rest: string)
    requires (forall k :: 0 <= k < |ats| ==> ats[k] == '@') && (rest != "" ==> rest[0] != '@')
    ensures TrimAts(ats + rest) == rest
    decreases |ats|
  {
    if ats == "" {
      assert ats + rest == rest;
    } else {
      assert (ats + rest)[1..] == ats[1..] + rest;
      AtsTrimmed(ats[1..], rest);
    }
  }
}
