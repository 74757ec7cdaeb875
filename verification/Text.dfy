/**
 Strings as sequences of characters: occurrences, endings, joins, lines and the byte order.

 A character stands for a byte. The program works on UTF-8 and cuts only at character boundaries; for
 text of single bytes every offset is a boundary, byte and character counts agree, and the order of
 `str` is the order of the sequences. A line holds no line break, and a line list is what `str::lines`
 gives, so the end of a text ends its last line and an empty text has none.
 */
module Text {

  /** The place-holder that replaces a redacted value. */
  const MASK: string := "***"

  datatype Option<+T> = None | Some(value: T)

  predicate OccursAt(needle: string, hay: string, i: int) {
    0 <= i && i + |needle| <= |hay| && forall k :: 0 <= k < |needle| ==> needle[k] == hay[i + k]
  }

  ghost predicate Occurs(needle: string, hay: string) {
    exists i :: OccursAt(needle, hay, i)
  }

  lemma NotThere(needle: string, line: string, at: nat, j: nat)
    requires j < |needle| && (at + j < |line| ==> line[at + j] != needle[j])
    ensures !OccursAt(needle, line, at)
  {
  }

  predicate EndsWith(s: string, tail: string) {
    |tail| <= |s| && s[|s| - |tail|..] == tail
  }

  predicate StarFree(s: string) {
    '*' !in s
  }

  predicate Distinct<T(==)>(s: seq<T>) { forall i, j :: 0 <= i < j < |s| ==> s[i] != s[j] }

  /** Part of a shell identifier. */
  predicate IsWordChar(c: char) {
    'a' <= c <= 'z' || 'A' <= c <= 'Z' || '0' <= c <= '9' || c == '_'
  }

  lemma Assoc<T>(a: seq<T>, b: seq<T>, c: seq<T>)
    ensures a + b + c == a + (b + c)
  {
  }

  lemma Regroup<T>(a: seq<T>, b: seq<T>, c: seq<T>, d: seq<T>)
    ensures a + b + c + d == a + (b + c + d)
  {
  }

  /** The strings one after the other, as they read in a scrollback or a log. */
  function Concat(ss: seq<string>): string {
    if ss == [] then "" else ss[0] + Concat(ss[1..])
  }

  lemma {:induction false} ConcatAppend(a: seq<string>, b: seq<string>)
    ensures Concat(a + b) == Concat(a) + Concat(b)
  {
    if a == [] {
      assert a + b == b;
    } else {
      ConcatAppend(a[1..], b);
      assert (a + b)[1..] == a[1..] + b;
      Assoc(a[0], Concat(a[1..]), Concat(b));
    }
  }

  /** `ss` joined by `sep`, with no separator after the last piece. */
  function Join(ss: seq<string>, sep: string): string {
    if ss == [] then ""
    else if |ss| == 1 then ss[0]
    else ss[0] + sep + Join(ss[1..], sep)
  }

  function StripCr(line: string): string {
    if line != "" && line[|line| - 1] == '\r' then line[..|line| - 1] else line
  }

  /** The lines of a text (`str::lines`): `\n` or `\r\n` ends a line, and the end of the text ends the last one. */
  function Lines(text: string): seq<string> { LinesFrom("", text) }

  function LinesFrom(begun: string, text: string): seq<string>
    decreases |text|
  {
    if text == "" then (if begun == "" then [] else [begun])
    else if text[0] == '\n' then [StripCr(begun)] + LinesFrom("", text[1..])
    else LinesFrom(begun + [text[0]], text[1..])
  }

  /** A line as a text can hold it and give it back. */
  predicate PlainLine(line: string) { '\n' !in line && (line == "" || line[|line| - 1] != '\r') }

  lemma {:induction false} LineReads(begun: string, line: string, rest: string)
    requires '\n' !in line
    ensures LinesFrom(begun, line + "\n" + rest) == [StripCr(begun + line)] + LinesFrom("", rest)
    decreases |line|
  {
    if line == "" {
      assert line + "\n" + rest == "\n" + rest;
      assert ("\n" + rest)[1..] == rest;
      assert begun + line == begun;
    } else {
      assert line[0] in line;
      assert (line + "\n" + rest)[0] == line[0];
      assert (line + "\n" + rest)[1..] == line[1..] + "\n" + rest;
      assert begun + [line[0]] + line[1..] == begun + line;
      LineReads(begun + [line[0]], line[1..], rest);
    }
  }

  lemma FirstLineReads(line: string, rest: string)
    requires '\n' !in line
    ensures Lines(line + "\n" + rest) == [StripCr(line)] + Lines(rest)
  {
    LineReads("", line, rest);
    assert "" + line == line;
  }

  /** A text that ends with a line break keeps its lines, whatever follows. */
  lemma {:induction false} LinesJoin(begun: string, text: string, rest: string)
    ensures LinesFrom(begun, text + "\n" + rest) == LinesFrom(begun, text + "\n") + Lines(rest)
    decreases |text|
  {
    if text == "" {
      assert text + "\n" + rest == "\n" + rest && ("\n" + rest)[1..] == rest;
      assert text + "\n" == "\n" && "\n"[1..] == "";
    } else {
      assert (text + "\n" + rest)[1..] == text[1..] + "\n" + rest;
      assert (text + "\n")[1..] == text[1..] + "\n";
      if text[0] == '\n' {
        LinesJoin("", text[1..], rest);
        Assoc([StripCr(begun)], Lines(text[1..] + "\n"), Lines(rest));
      } else {
        LinesJoin(begun + [text[0]], text[1..], rest);
      }
    }
  }

  /** The order of Rust's `str`: byte by byte, a proper prefix first. */
  predicate StrLe(a: string, b: string) {
    if a == "" then true
    else if b == "" then false
    else if a[0] != b[0] then a[0] < b[0]
    else StrLe(a[1..], b[1..])
  }

  lemma {:induction false} StrLeTotal(a: string, b: string)
    ensures StrLe(a, b) || StrLe(b, a)
  {
    if a != "" && b != "" && a[0] == b[0] {
      StrLeTotal(a[1..], b[1..]);
    }
  }

  lemma {:induction false} StrLeTransitive(a: string, b: string, c: string)
    requires StrLe(a, b) && StrLe(b, c)
    ensures StrLe(a, c)
  {
    if a != "" && a[0] == b[0] == c[0] {
      StrLeTransitive(a[1..], b[1..], c[1..]);
    }
  }

  lemma {:induction false} StrLeAntisymmetric(a: string, b: string)
    requires StrLe(a, b) && StrLe(b, a)
    ensures a == b
  {
    if a != "" && b != "" {
      StrLeAntisymmetric(a[1..], b[1..]);
      assert a == [a[0]] + a[1..] && b == [b[0]] + b[1..];
    }
  }

  /** `b` goes on where `a` ends, or has the greater byte where they first differ. */
  ghost predicate Below(a: string, b: string, k: nat) {
    && k <= |a| && k <= |b| && a[..k] == b[..k]
    && (k == |a| || (k < |b| && a[k] < b[k]))
  }

  /** The order is the order of the bytes. */
  lemma {:induction false} StrLeIff(a: string, b: string)
    ensures StrLe(a, b) <==> exists k: nat :: Below(a, b, k)
  {
    if a == "" {
      assert Below(a, b, 0);
    } else if b != "" && a[0] == b[0] {
      StrLeIff(a[1..], b[1..]);
      assert a == [a[0]] + a[1..] && b == [b[0]] + b[1..];
      if k: nat :| Below(a[1..], b[1..], k) {
        assert a[..k + 1] == [a[0]] + a[1..][..k] && b[..k + 1] == [b[0]] + b[1..][..k];
        assert Below(a, b, k + 1);
      }
      if k: nat :| Below(a, b, k) {
        assert 0 < k ==> a[1..][..k - 1] == a[..k][1..] && b[1..][..k - 1] == b[..k][1..];
        assert 0 < k && Below(a[1..], b[1..], k - 1);
      }
    } else if b != "" {
      assert a[0] < b[0] ==> Below(a, b, 0);
      forall k: nat | Below(a, b, k) ensures a[0] < b[0] {
        assert 0 < k ==> a[..k][0] == b[..k][0];
      }
    }
  }
}
