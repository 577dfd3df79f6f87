/**
 * The Python string operations the gene-list reader relies on: `str.upper`
 * (on ASCII letters), `str.split(sep)` with an explicit separator,
 * `sep.join`, `file.readlines()` on text whose line ends are already `\n`,
 * and the first element of `str.splitlines()`.
 */
module Text {

  /** `c.upper()` for one character: ASCII lower-case letters map to upper case. */
  function UpperChar(c: char): char {
    if 'a' <= c <= 'z' then (c as int - 32) as char else c
  }

  /** `s.upper()`, character by character. */
  function Upper(s: string): (u: string)
    ensures |u| == |s|
  {
    seq(|s|, i requires 0 <= i < |s| => UpperChar(s[i]))
  }

  /** Upper-casing keeps every character that is not a letter, so a separator stays where it was. */
  lemma UpperKeeps(s: string, c: char)
    requires !('a' <= c <= 'z') && !('A' <= c <= 'Z')
    ensures forall i :: 0 <= i < |s| ==> (Upper(s)[i] == c <==> s[i] == c)
  {
  }

  /** Upper-casing twice is upper-casing once. */
  lemma UpperIdempotent(s: string)
    ensures Upper(Upper(s)) == Upper(s)
  {
  }

  /** Upper-casing commutes with concatenation. */
  lemma UpperConcat(a: string, b: string)
    ensures Upper(a + b) == Upper(a) + Upper(b)
  {
  }

  /** The first position of `c` in `s`. */
  function IndexOf(s: string, c: char): (i: nat)
    requires c in s
    ensures i < |s| && s[i] == c && c !in s[..i]
  {
    if s[0] == c then 0
    else
      assert c in s[1..] by { var k :| 0 <= k < |s| && s[k] == c; assert s[1..][k - 1] == c; }
      var j := IndexOf(s[1..], c);
      assert s[..j + 1] == [s[0]] + s[1..][..j];
      j + 1
  }

  /**
   * `s.split(sep)`: the pieces between consecutive separators, empty pieces
   * included; a string without the separator is one piece.
   */
  function Split(s: string, sep: char): (parts: seq<string>)
    ensures |parts| >= 1
    ensures forall k :: 0 <= k < |parts| ==> sep !in parts[k]
    decreases |s|
  {
    if sep !in s then [s]
    else
      var i := IndexOf(s, sep);
      [s[..i]] + Split(s[i + 1..], sep)
  }

  /** `sep.join(parts)`. */
  function Join(parts: seq<string>, sep: char): string {
    if |parts| == 0 then ""
    else if |parts| == 1 then parts[0]
    else parts[0] + [sep] + Join(parts[1..], sep)
  }

  /** Joining the pieces of a split with the same separator gives back the string. */
  lemma {:induction false} JoinSplit(s: string, sep: char)
    ensures Join(Split(s, sep), sep) == s
    decreases |s|
  {
    if sep in s {
      var i := IndexOf(s, sep);
      var rest := Split(s[i + 1..], sep);
      var parts := Split(s, sep);
      assert parts == [s[..i]] + rest;
      assert parts[1..] == rest && |parts| >= 2;
      assert Join(parts, sep) == s[..i] + [sep] + Join(rest, sep);
      JoinSplit(s[i + 1..], sep);
      assert s == s[..i] + [sep] + s[i + 1..];
    }
  }

  /** Splitting a join of separator-free pieces gives back the pieces. */
  lemma {:induction false} SplitJoin(parts: seq<string>, sep: char)
    requires |parts| >= 1
    requires forall k :: 0 <= k < |parts| ==> sep !in parts[k]
    ensures Split(Join(parts, sep), sep) == parts
  {
    if |parts| > 1 {
      var s := Join(parts, sep);
      var rest := Join(parts[1..], sep);
      assert s == parts[0] + [sep] + rest;
      assert s[|parts[0]|] == sep;
      assert s[..|parts[0]|] == parts[0];
      assert IndexOf(s, sep) == |parts[0]|;
      assert s[|parts[0]| + 1..] == rest;
      SplitJoin(parts[1..], sep);
    }
  }

  /**
   * `text.readlines()` on text whose line ends are `\n`: every line keeps
   * its `\n`; a last line without one is kept as it is; empty text has no
   * lines.
   */
  function ReadLines(text: string): (lines: seq<string>)
    ensures text == [] <==> lines == []
    decreases |text|
  {
    if text == [] then []
    else if '\n' !in text then [text]
    else
      var i := IndexOf(text, '\n');
      [text[..i + 1]] + ReadLines(text[i + 1..])
  }

  /** Concatenation of a sequence of strings. */
  function Concat(parts: seq<string>): string {
    if parts == [] then "" else parts[0] + Concat(parts[1..])
  }

  /** The lines of a text put back together are the text. */
  lemma {:induction false} ReadLinesConcat(text: string)
    ensures Concat(ReadLines(text)) == text
    decreases |text|
  {
    if text == [] {
    } else if '\n' !in text {
      assert ReadLines(text) == [text];
      ConcatCons(text, []);
      assert text + Concat([]) == text;
    } else {
      var i := IndexOf(text, '\n');
      var head, tail := text[..i + 1], text[i + 1..];
      ReadLinesStep(text);
      ReadLinesConcat(tail);
      ConcatCons(head, ReadLines(tail));
      assert text == head + tail;
    }
  }

  lemma ReadLinesStep(text: string)
    requires '\n' in text
    ensures ReadLines(text) == [text[..IndexOf(text, '\n') + 1]] + ReadLines(text[IndexOf(text, '\n') + 1..])
  {
  }

  lemma ConcatCons(head: string, rest: seq<string>)
    ensures Concat([head] + rest) == head + Concat(rest)
  {
    assert ([head] + rest)[1..] == rest;
  }

  /**
   * A line as `readlines()` returns it: not empty, holding `\n` at most as
   * its last character, and ending in `\n` unless it is the last line.
   */
  predicate WellFormedLine(line: string, last: bool) {
    && line != []
    && '\n' !in line[..|line| - 1]
    && (!last ==> line[|line| - 1] == '\n')
  }

  /** Every line of a text is well formed. */
  lemma {:induction false} ReadLinesShape(text: string)
    ensures forall k :: 0 <= k < |ReadLines(text)| ==>
              WellFormedLine(ReadLines(text)[k], k == |ReadLines(text)| - 1)
    decreases |text|
  {
    var lines := ReadLines(text);
    if text != [] && '\n' !in text {
      assert lines == [text];
      assert forall j :: 0 <= j < |text| - 1 ==> text[..|text| - 1][j] == text[j];
    } else if text != [] {
      var i := IndexOf(text, '\n');
      var rest := ReadLines(text[i + 1..]);
      ReadLinesShape(text[i + 1..]);
      assert lines == [text[..i + 1]] + rest;
      assert text[..i + 1][..i] == text[..i];
      assert WellFormedLine(lines[0], |lines| == 1);
      forall k | 1 <= k < |lines| ensures WellFormedLine(lines[k], k == |lines| - 1) {
        assert lines[k] == rest[k - 1];
      }
    }
  }

  /** The line boundaries of `str.splitlines()`. */
  predicate LineBoundary(c: char) {
    c == '\n' || c == '\r' || c == '\U{0B}' || c == '\U{0C}' || c == '\U{1C}' || c == '\U{1D}'
    || c == '\U{1E}' || c == '\U{85}' || c == '\U{2028}' || c == '\U{2029}'
  }

  /** `text.splitlines()[0]` for non-empty text: everything before the first line boundary. */
  function FirstLine(text: string): (line: string)
    ensures line <= text
    ensures forall k :: 0 <= k < |line| ==> !LineBoundary(line[k])
    ensures |line| < |text| ==> LineBoundary(text[|line|])
  {
    if text == [] || LineBoundary(text[0]) then []
    else
      var rest := FirstLine(text[1..]);
      assert text == [text[0]] + text[1..];
      [text[0]] + rest
  }
}
