/** Lines of text: splitting at newlines, trimming, and recognising a property tag. */
module ScdLines {

  // ---- getline ----

  ghost predicate OneLine(s: string) {
    '\n' !in s
  }

  /** The position of the first newline, or the length. */
  function LineEnd(text: string): (i: nat)
    ensures i <= |text| && OneLine(text[..i]) && (i < |text| ==> text[i] == '\n')
  {
    if text == "" || text[0] == '\n' then 0
    else
      var i := 1 + LineEnd(text[1..]);
      assert text[..i] == [text[0]] + text[1..][..i - 1];
      i
  }

  /** The lines that getline delivers: a newline ends a line, and nothing follows the last one. */
  function Lines(text: string): seq<string> {
    if text == "" then []
    else
      var i := LineEnd(text);
      if i == |text| then [text] else [text[..i]] + Lines(text[i + 1..])
  }

  function Unlines(lines: seq<string>): string {
    if lines == [] then "" else lines[0] + "\n" + Unlines(lines[1..])
  }

  lemma {:induction false} LineEndAt(s: string, rest: string)
    requires OneLine(s)
    ensures LineEnd(s + "\n" + rest) == |s|
  {
    var text := s + "\n" + rest;
    if s != "" {
      assert text[1..] == s[1..] + "\n" + rest;
      LineEndAt(s[1..], rest);
      assert text[0] == s[0];
    }
  }

  lemma {:induction false} LinesUnlines(lines: seq<string>)
    requires forall i :: 0 <= i < |lines| ==> OneLine(lines[i])
    ensures Lines(Unlines(lines)) == lines
  {
    if lines != [] {
      var s, rest := lines[0], Unlines(lines[1..]);
      var text := s + "\n" + rest;
      LineEndAt(s, rest);
      assert text[..|s|] == s && text[|s| + 1..] == rest;
      LinesUnlines(lines[1..]);
    }
  }

  /** A last line needs no newline. */
  lemma {:induction false} LinesOpen(lines: seq<string>, last: string)
    requires OneLine(last) && last != "" && forall i :: 0 <= i < |lines| ==> OneLine(lines[i])
    ensures Lines(Unlines(lines) + last) == lines + [last]
  {
    if lines == [] {
      assert Unlines(lines) + last == last;
      assert forall i :: 0 <= i < |last| ==> last[i] != '\n';
    } else {
      var s, rest := lines[0], Unlines(lines[1..]) + last;
      var text := s + "\n" + rest;
      assert text == Unlines(lines) + last;
      LineEndAt(s, rest);
      assert text[..|s|] == s && text[|s| + 1..] == rest;
      LinesOpen(lines[1..], last);
      assert lines + [last] == [s] + (lines[1..] + [last]);
    }
  }

  lemma {:induction false} UnlinesConcat(a: seq<string>, b: seq<string>)
    ensures Unlines(a + b) == Unlines(a) + Unlines(b)
  {
    if a == [] {
      assert a + b == b;
    } else {
      assert (a + b)[1..] == a[1..] + b;
      UnlinesConcat(a[1..], b);
      var x, y, z := a[0] + "\n", Unlines(a[1..]), Unlines(b);
      assert x + (y + z) == (x + y) + z;
    }
  }

  // ---- trimming ----

  predicate IsSpace(c: char) {
    c == ' ' || c == '\U{0C}' || c == '\n' || c == '\r' || c == '\t' || c == '\U{0B}'
  }

  /** Without trailing white space. */
  function TrimRight(s: string): (t: string)
    ensures |t| <= |s| && t == s[..|t|] && (t == "" || !IsSpace(t[|t| - 1]))
    ensures forall i :: |t| <= i < |s| ==> IsSpace(s[i])
  {
    if s == "" || !IsSpace(s[|s| - 1]) then s else TrimRight(s[..|s| - 1])
  }

  /** White space are the characters with codes 9 to 13 and 32. */
  lemma SpaceCodes(c: char)
    ensures IsSpace(c) <==> 9 <= c as int <= 13 || c as int == 32
  {
  }

  /** Only white space. */
  ghost predicate Blank(pad: string) {
    forall i :: 0 <= i < |pad| ==> IsSpace(pad[i])
  }

  lemma {:induction false} TrimPadded(s: string, pad: string)
    requires Blank(pad)
    ensures TrimRight(s + pad) == TrimRight(s)
    decreases |pad|
  {
    if pad == "" {
      assert s + pad == s;
    } else {
      var n := |pad| - 1;
      assert (s + pad)[..|s| + n] == s + pad[..n] && (s + pad)[|s| + n] == pad[n];
      TrimPadded(s, pad[..n]);
    }
  }

  predicate Trimmed(s: string) {
    s == "" || !IsSpace(s[|s| - 1])
  }

  lemma TrimmedIsFixed(s: string)
    ensures Trimmed(s) <==> TrimRight(s) == s
  {
  }

  // ---- tags ----

  predicate IsAlnum(c: char) {
    'a' <= c <= 'z' || 'A' <= c <= 'Z' || '0' <= c <= '9'
  }

  /** The first position from i on without a letter or digit. */
  function RunEnd(t: string, i: nat): (r: nat)
    requires i <= |t|
    ensures i <= r <= |t| && (forall j :: i <= j < r ==> IsAlnum(t[j])) && (r < |t| ==> !IsAlnum(t[r]))
    decreases |t| - i
  {
    if i == |t| || !IsAlnum(t[i]) then i else RunEnd(t, i + 1)
  }

  datatype TagLine = NoTag | Tag(name: string, rest: string)

  /** Names that a tag may have: 1 to 20 letters and digits, and among the wanted ones if any are. */
  predicate ValidName(wanted: set<string>, name: string) {
    1 <= |name| <= 20 && (forall i :: 0 <= i < |name| ==> IsAlnum(name[i])) && (wanted == {} || name in wanted)
  }

  /** A trimmed line that starts with a tag. */
  function ReadTag(wanted: set<string>, t: string): (r: TagLine)
    ensures r.Tag? ==> ValidName(wanted, r.name) && t == "<" + r.name + ">" + r.rest
  {
    if t == "" || t[0] != '<' then NoTag
    else
      var r := RunEnd(t, 1);
      if r == |t| || t[r] != '>' then NoTag
      else
        var name := t[1..r];
        if 1 <= |name| <= 20 && (wanted == {} || name in wanted) then
          assert t == "<" + name + ">" + t[r + 1..];
          Tag(name, t[r + 1..])
        else NoTag
  }

  lemma RunEndIs(t: string, i: nat, r: nat)
    requires i <= r <= |t| && (forall j :: i <= j < r ==> IsAlnum(t[j])) && (r < |t| ==> !IsAlnum(t[r]))
    ensures RunEnd(t, i) == r
  {
  }

  lemma TagIsRead(wanted: set<string>, name: string, rest: string)
    requires ValidName(wanted, name)
    ensures ReadTag(wanted, "<" + name + ">" + rest) == Tag(name, rest)
  {
    var t := "<" + name + ">" + rest;
    RunEndIs(t, 1, |name| + 1);
    assert t[1..|name| + 1] == name && t[|name| + 2..] == rest;
  }

  /** A line is a tag line exactly when it is a valid name in angle brackets and anything behind it. */
  lemma TagExactly(wanted: set<string>, t: string, name: string, rest: string)
    ensures ReadTag(wanted, t) == Tag(name, rest) <==> ValidName(wanted, name) && t == "<" + name + ">" + rest
  {
    if ValidName(wanted, name) {
      TagIsRead(wanted, name, rest);
    }
  }

  /** Letters and digits by their codes. */
  lemma AlnumCodes(c: char)
    ensures IsAlnum(c) <==> 48 <= c as int <= 57 || 65 <= c as int <= 90 || 97 <= c as int <= 122
  {
  }

  /** Names of 1 to 20 letters and digits are tags, and those of any other length are not. */
  lemma TagLengths(name: string, rest: string)
    requires forall i :: 0 <= i < |name| ==> IsAlnum(name[i])
    ensures ReadTag({}, "<" + name + ">" + rest) == if 1 <= |name| <= 20 then Tag(name, rest) else NoTag
  {
    var t := "<" + name + ">" + rest;
    RunEndIs(t, 1, |name| + 1);
    assert t[1..|name| + 1] == name && t[|name| + 2..] == rest;
  }

  lemma TrimmedTag(name: string, rest: string)
    requires Trimmed(rest)
    ensures Trimmed("<" + name + ">" + rest)
  {
    var t := "<" + name + ">" + rest;
    assert rest != "" ==> t[|t| - 1] == rest[|rest| - 1];
  }
}
