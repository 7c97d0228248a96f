/** SCD documents: a printer, a line-oriented parser, and exactly which documents survive the round trip. */
module ScdFormat {
  import opened Sequences
  import opened ScdLines

  datatype Property = Property(name: string, value: string)

  type Doc = seq<Property>

  // ---- the writer ----

  function PrintProperty(p: Property): string {
    "<" + p.name + ">" + p.value + "\n"
  }

  function Print(doc: Doc): string {
    if doc == [] then "" else PrintProperty(doc[0]) + Print(doc[1..])
  }

  const DOCID := "DOCID"

  function FindDocid(doc: Doc): (i: nat)
    ensures i <= |doc| && (i < |doc| ==> doc[i].name == DOCID)
    ensures forall j :: 0 <= j < i ==> doc[j].name != DOCID
  {
    if doc == [] || doc[0].name == DOCID then 0 else 1 + FindDocid(doc[1..])
  }

  function WithoutDocid(doc: Doc): Doc {
    if doc == [] then [] else (if doc[0].name == DOCID then [] else [doc[0]]) + WithoutDocid(doc[1..])
  }

  function DocidFirst(doc: Doc): Doc
    requires FindDocid(doc) < |doc|
  {
    [doc[FindDocid(doc)]] + WithoutDocid(doc)
  }

  lemma {:induction false} PrintConcat(a: Doc, b: Doc)
    ensures Print(a + b) == Print(a) + Print(b)
  {
    if a == [] {
      assert a + b == b;
    } else {
      assert (a + b)[1..] == a[1..] + b;
      PrintConcat(a[1..], b);
      var x, y, z := PrintProperty(a[0]), Print(a[1..]), Print(b);
      assert x + (y + z) == (x + y) + z;
    }
  }

  lemma {:induction false} WithoutDocidNext(doc: Doc, i: nat)
    requires i < |doc|
    ensures WithoutDocid(doc[..i + 1]) == WithoutDocid(doc[..i]) + (if doc[i].name == DOCID then [] else [doc[i]])
  {
    if i == 0 {
      assert doc[..1] == [doc[0]] && doc[..0] == [] && [doc[0]][1..] == [];
    } else {
      WithoutDocidNext(doc[1..], i - 1);
      assert doc[..i + 1][1..] == doc[1..][..i] && doc[..i][1..] == doc[1..][..i - 1];
    }
  }

  /** DocToString: DOCID first, then the other properties in their order; nothing without a DOCID. */
  method DocToString(doc: Doc) returns (found: bool, str: string)
    ensures found <==> exists i :: 0 <= i < |doc| && doc[i].name == DOCID
    ensures found ==> FindDocid(doc) < |doc| && str == Print(DocidFirst(doc))
    ensures !found ==> str == ""
  {
    var d := FindDocid(doc);
    if d == |doc| {
      return false, "";
    }
    str := PrintProperty(doc[d]);
    ghost var first := [doc[d]];
    assert first + WithoutDocid(doc[..0]) == first && first[1..] == [];
    for i := 0 to |doc|
      invariant str == Print(first + WithoutDocid(doc[..i]))
    {
      WithoutDocidNext(doc, i);
      if doc[i].name != DOCID {
        PrintConcat(first + WithoutDocid(doc[..i]), [doc[i]]);
        assert [doc[i]][1..] == [];
        assert (first + WithoutDocid(doc[..i])) + [doc[i]] == first + WithoutDocid(doc[..i + 1]);
        str := str + PrintProperty(doc[i]);
      } else {
        assert WithoutDocid(doc[..i + 1]) == WithoutDocid(doc[..i]);
      }
    }
    assert doc[..|doc|] == doc;
    found := true;
  }

  // ---- the parser ----

  datatype State = State(name: string, value: string, doc: Doc)

  const START := State("", "", [])

  function Finished(s: State): Doc {
    if s.name == "" then s.doc else s.doc + [Property(s.name, s.value)]
  }

  /** One line: blank lines are skipped, a tag starts a property, another line continues the value. */
  function Step(wanted: set<string>, s: State, line: string): State {
    var t := TrimRight(line);
    if t == "" then s else
      match ReadTag(wanted, t)
      case NoTag => s.(value := s.value + "\n" + t)
      case Tag(name, rest) => State(name, rest, Finished(s))
  }

  function Run(wanted: set<string>, s: State, lines: seq<string>): State
    decreases |lines|
  {
    if lines == [] then s else Run(wanted, Step(wanted, s, lines[0]), lines[1..])
  }

  function Parse(wanted: set<string>, delimiter: string, text: string): Doc {
    if text == delimiter then [] else Finished(Run(wanted, START, Lines(text)))
  }

  /** The loop body, for a line that getline delivered. */
  method ReadLine(wanted: set<string>, s: State, line: string) returns (s': State)
    ensures s' == Step(wanted, s, line)
  {
    s' := s;
    var t := TrimRight(line);
    if t != "" {
      var tag := ReadTag(wanted, t);
      if tag.NoTag? {
        s' := s.(value := s.value + "\n" + t);
      } else {
        var doc := s.doc;
        if s.name != "" {
          doc := doc + [Property(s.name, s.value)];
        }
        s' := State(tag.name, tag.rest, doc);
      }
    }
  }

  function AfterLine(text: string): string {
    var i := LineEnd(text);
    if i == |text| then "" else text[i + 1..]
  }

  lemma NextLine(wanted: set<string>, s: State, text: string)
    requires text != ""
    ensures Run(wanted, s, Lines(text)) == Run(wanted, Step(wanted, s, text[..LineEnd(text)]), Lines(AfterLine(text)))
  {
    var i := LineEnd(text);
    var line, rest := text[..i], Lines(AfterLine(text));
    assert i == |text| ==> line == text;
    assert Lines(text) == [line] + rest;
    assert ([line] + rest)[1..] == rest;
  }

  /** parseDoc: one getline after the other. */
  method ParseDoc(wanted: set<string>, delimiter: string, text: string) returns (doc: Doc)
    ensures doc == Parse(wanted, delimiter, text)
  {
    if text == delimiter {
      return [];
    }
    var s, rest := START, text;
    while rest != ""
      invariant Run(wanted, s, Lines(rest)) == Run(wanted, START, Lines(text))
      decreases |rest|
    {
      NextLine(wanted, s, rest);
      var i := LineEnd(rest);
      s := ReadLine(wanted, s, rest[..i]);
      rest := AfterLine(rest);
    }
    doc := s.doc;
    if s.name != "" {
      doc := doc + [Property(s.name, s.value)];
    }
  }

  // ---- documents that the format can express ----

  /** A value at its newlines: at least one piece. */
  function Pieces(v: string): (ps: seq<string>)
    ensures |ps| >= 1 && forall i :: 0 <= i < |ps| ==> OneLine(ps[i])
  {
    var i := LineEnd(v);
    if i == |v| then assert v[..i] == v; [v] else [v[..i]] + Pieces(v[i + 1..])
  }

  /** Lines without trailing space, of which all but the first are not blank and start with no tag. */
  predicate Clean(wanted: set<string>, v: string) {
    var ps := Pieces(v);
    Trimmed(ps[0]) && forall i :: 1 <= i < |ps| ==> Continues(wanted, ps[i])
  }

  predicate Continues(wanted: set<string>, line: string) {
    line != "" && Trimmed(line) && ReadTag(wanted, line).NoTag?
  }

  predicate WellFormed(wanted: set<string>, doc: Doc) {
    forall i :: 0 <= i < |doc| ==> ValidName(wanted, doc[i].name) && Clean(wanted, doc[i].value)
  }

  lemma OnePiece(v: string)
    requires OneLine(v)
    ensures Pieces(v) == [v]
  {
    assert forall i :: 0 <= i < |v| ==> v[i] != '\n';
  }

  lemma {:induction false} PiecesAppend(v: string, t: string)
    requires OneLine(t)
    ensures Pieces(v + "\n" + t) == Pieces(v) + [t]
    decreases |v|
  {
    var i := LineEnd(v);
    var w := v + "\n" + t;
    if i == |v| {
      assert v[..i] == v;
      LineEndAt(v, t);
      assert w[..i] == v && w[i + 1..] == t;
      OnePiece(t);
    } else {
      var a, b := v[..i], v[i + 1..];
      assert v == a + "\n" + b;
      assert w == a + "\n" + (b + "\n" + t);
      LineEndAt(a, b + "\n" + t);
      assert w[..i] == a && w[i + 1..] == b + "\n" + t;
      PiecesAppend(b, t);
    }
  }

  lemma UnlinesOne(v: string)
    ensures Unlines([v]) == v + "\n"
  {
    assert [v][1..] == [];
  }

  lemma UnlinesMore(a: string, ps: seq<string>)
    ensures Unlines([a] + ps) == a + "\n" + Unlines(ps)
  {
    assert ([a] + ps)[1..] == ps;
  }

  lemma {:induction false} PiecesUnlines(v: string)
    ensures Unlines(Pieces(v)) == v + "\n"
    decreases |v|
  {
    var i := LineEnd(v);
    if i == |v| {
      UnlinesOne(v);
    } else {
      var a, b := v[..i], v[i + 1..];
      PiecesUnlines(b);
      UnlinesMore(a, Pieces(b));
      SplitAt(v, i);
      Associate(a + "\n", b, "\n");
    }
  }

  lemma SplitAt(v: string, i: nat)
    requires i < |v| && v[i] == '\n'
    ensures v == v[..i] + "\n" + v[i + 1..]
  {
  }

  // ---- whatever the text, the parser delivers such a document ----

  ghost predicate Sound(wanted: set<string>, s: State) {
    WellFormed(wanted, s.doc) && (s.name != "" ==> ValidName(wanted, s.name) && Clean(wanted, s.value))
  }

  lemma CleanAppend(wanted: set<string>, v: string, t: string)
    requires Clean(wanted, v) && OneLine(t) && Continues(wanted, t)
    ensures Clean(wanted, v + "\n" + t)
  {
    PiecesAppend(v, t);
  }

  lemma CleanRest(wanted: set<string>, t: string, name: string, rest: string)
    requires OneLine(t) && Trimmed(t) && t == "<" + name + ">" + rest
    ensures Clean(wanted, rest)
  {
    assert forall i :: 0 <= i < |rest| ==> rest[i] == t[|name| + 2 + i];
    OnePiece(rest);
  }

  lemma StepSound(wanted: set<string>, s: State, line: string)
    requires Sound(wanted, s) && OneLine(line)
    ensures Sound(wanted, Step(wanted, s, line))
  {
    var t := TrimRight(line);
    if t != "" {
      var tag := ReadTag(wanted, t);
      if tag.Tag? {
        CleanRest(wanted, t, tag.name, tag.rest);
      } else if s.name != "" {
        CleanAppend(wanted, s.value, t);
      }
    }
  }

  lemma {:induction false} RunSound(wanted: set<string>, s: State, lines: seq<string>)
    requires Sound(wanted, s) && forall i :: 0 <= i < |lines| ==> OneLine(lines[i])
    ensures Sound(wanted, Run(wanted, s, lines))
    decreases |lines|
  {
    if lines != [] {
      StepSound(wanted, s, lines[0]);
      RunSound(wanted, Step(wanted, s, lines[0]), lines[1..]);
    }
  }

  lemma {:induction false} LinesAreLines(text: string)
    ensures forall i :: 0 <= i < |Lines(text)| ==> OneLine(Lines(text)[i])
    decreases |text|
  {
    if text != "" {
      var i := LineEnd(text);
      if i < |text| {
        LinesAreLines(text[i + 1..]);
      } else {
        assert text[..i] == text;
      }
    }
  }

  lemma ParseWellFormed(wanted: set<string>, delimiter: string, text: string)
    ensures WellFormed(wanted, Parse(wanted, delimiter, text))
  {
    LinesAreLines(text);
    RunSound(wanted, START, Lines(text));
  }

  // ---- and such a document comes back ----

  function PropertyLines(p: Property): seq<string> {
    var ps := Pieces(p.value);
    ["<" + p.name + ">" + ps[0]] + ps[1..]
  }

  function DocLines(doc: Doc): seq<string> {
    if doc == [] then [] else PropertyLines(doc[0]) + DocLines(doc[1..])
  }

  lemma PropertyUnlines(p: Property)
    ensures Unlines(PropertyLines(p)) == PrintProperty(p)
  {
    var ps := Pieces(p.value);
    var tag := "<" + p.name + ">";
    PiecesUnlines(p.value);
    assert PropertyLines(p)[1..] == ps[1..];
    var x, n, y := ps[0], "\n", Unlines(ps[1..]);
    Associate(tag, x, n);
    Associate(tag, x + n, y);
    Associate(tag, p.value, n);
  }

  lemma {:induction false} DocUnlines(doc: Doc)
    ensures Unlines(DocLines(doc)) == Print(doc)
  {
    if doc != [] {
      DocUnlines(doc[1..]);
      PropertyUnlines(doc[0]);
      UnlinesConcat(PropertyLines(doc[0]), DocLines(doc[1..]));
    }
  }

  lemma {:induction false} RunConcat(wanted: set<string>, s: State, a: seq<string>, b: seq<string>)
    ensures Run(wanted, s, a + b) == Run(wanted, Run(wanted, s, a), b)
    decreases |a|
  {
    if a == [] {
      assert a + b == b;
    } else {
      assert (a + b)[1..] == a[1..] + b;
      RunConcat(wanted, Step(wanted, s, a[0]), a[1..], b);
    }
  }

  /** The further lines of a value are appended one by one. */
  lemma {:induction false} RunContinues(wanted: set<string>, s: State, v: string, k: nat)
    requires k < |Pieces(v)| && forall i :: k < i < |Pieces(v)| ==> Continues(wanted, Pieces(v)[i])
    requires s.value + "\n" == Unlines(Pieces(v)[..k + 1])
    ensures Run(wanted, s, Pieces(v)[k + 1..]) == s.(value := v)
    decreases |Pieces(v)| - k
  {
    var ps := Pieces(v);
    if k + 1 == |ps| {
      assert ps[..k + 1] == ps;
      PiecesUnlines(v);
      assert s.value == v by {
        assert (s.value + "\n")[..|s.value|] == s.value && (v + "\n")[..|v|] == v;
      }
    } else {
      var t := ps[k + 1];
      TrimmedIsFixed(t);
      var s' := Step(wanted, s, t);
      assert ps[..k + 2] == ps[..k + 1] + [t] && [t][1..] == [];
      UnlinesConcat(ps[..k + 1], [t]);
      assert s'.value + "\n" == (s.value + "\n") + (t + "\n");
      RunContinues(wanted, s', v, k + 1);
      assert ps[k + 1..][1..] == ps[k + 2..];
    }
  }

  lemma RunProperty(wanted: set<string>, s: State, p: Property)
    requires ValidName(wanted, p.name) && Clean(wanted, p.value)
    ensures Run(wanted, s, PropertyLines(p)) == State(p.name, p.value, Finished(s))
  {
    var ps := Pieces(p.value);
    var line := "<" + p.name + ">" + ps[0];
    TrimmedTag(p.name, ps[0]);
    TrimmedIsFixed(line);
    TagIsRead(wanted, p.name, ps[0]);
    var s' := State(p.name, ps[0], Finished(s));
    assert Step(wanted, s, line) == s';
    assert ps[..1] == [ps[0]] && [ps[0]][1..] == [];
    RunContinues(wanted, s', p.value, 0);
    assert PropertyLines(p)[1..] == ps[1..];
  }

  lemma {:induction false} RunDoc(wanted: set<string>, s: State, doc: Doc)
    requires WellFormed(wanted, doc)
    ensures Finished(Run(wanted, s, DocLines(doc))) == Finished(s) + doc
    decreases |doc|
  {
    if doc == [] {
      assert Finished(s) + doc == Finished(s);
    } else {
      var p := doc[0];
      RunConcat(wanted, s, PropertyLines(p), DocLines(doc[1..]));
      RunProperty(wanted, s, p);
      RunDoc(wanted, State(p.name, p.value, Finished(s)), doc[1..]);
      Associate(Finished(s), [p], doc[1..]);
      assert [p] + doc[1..] == doc && p == Property(p.name, p.value);
    }
  }

  lemma {:induction false} DocLinesAreLines(wanted: set<string>, doc: Doc)
    requires WellFormed(wanted, doc)
    ensures forall i :: 0 <= i < |DocLines(doc)| ==> OneLine(DocLines(doc)[i])
  {
    if doc != [] {
      var p := doc[0];
      DocLinesAreLines(wanted, doc[1..]);
      var a, b := PropertyLines(p), DocLines(doc[1..]);
      assert forall i :: 0 <= i < |p.name| ==> p.name[i] != '\n';
      assert forall i :: 0 <= i < |a| ==> OneLine(a[i]);
      assert forall i :: 0 <= i < |a + b| ==> (a + b)[i] == if i < |a| then a[i] else b[i - |a|];
    }
  }

  /** Parsing what was printed gives the document back: exactly when its names are valid and its values clean. */
  lemma RoundTrip(wanted: set<string>, delimiter: string, doc: Doc)
    requires OneLine(delimiter)
    ensures Parse(wanted, delimiter, Print(doc)) == doc <==> WellFormed(wanted, doc)
  {
    ParseWellFormed(wanted, delimiter, Print(doc));
    if WellFormed(wanted, doc) {
      DocUnlines(doc);
      DocLinesAreLines(wanted, doc);
      LinesUnlines(DocLines(doc));
      RunDoc(wanted, START, doc);
      NotDelimiter(doc);
    }
  }

  lemma NotDelimiter(doc: Doc)
    ensures doc != [] ==> !OneLine(Print(doc))
  {
    if doc != [] {
      var p := doc[0];
      var s := Print(doc);
      assert s[|p.name| + 2 + |p.value|] == '\n';
    }
  }

  // ---- white space at line ends and blank lines do not matter ----

  /** The lines without trailing white space, and without those that then are empty. */
  function Stripped(lines: seq<string>): seq<string> {
    if lines == [] then []
    else (if TrimRight(lines[0]) == "" then [] else [TrimRight(lines[0])]) + Stripped(lines[1..])
  }

  lemma StepStripped(wanted: set<string>, s: State, line: string)
    ensures Step(wanted, s, line) == if TrimRight(line) == "" then s else Step(wanted, s, TrimRight(line))
  {
    TrimmedIsFixed(TrimRight(line));
  }

  lemma {:induction false} RunStripped(wanted: set<string>, s: State, lines: seq<string>)
    ensures Run(wanted, s, lines) == Run(wanted, s, Stripped(lines))
    decreases |lines|
  {
    if lines != [] {
      var t, rest := TrimRight(lines[0]), lines[1..];
      StepStripped(wanted, s, lines[0]);
      RunStripped(wanted, Step(wanted, s, lines[0]), rest);
      if t == "" {
        assert Stripped(lines) == Stripped(rest);
      } else {
        assert Stripped(lines) == [t] + Stripped(rest);
        assert ([t] + Stripped(rest))[1..] == Stripped(rest);
      }
    }
  }

  /** Texts whose lines differ only by trailing white space, or by blank lines between them, parse alike. */
  lemma ParseStripped(wanted: set<string>, delimiter: string, a: string, b: string)
    requires a != delimiter && b != delimiter && Stripped(Lines(a)) == Stripped(Lines(b))
    ensures Parse(wanted, delimiter, a) == Parse(wanted, delimiter, b)
  {
    RunStripped(wanted, START, Lines(a));
    RunStripped(wanted, START, Lines(b));
  }

  /** Lines with something at their ends. */
  function Padded(lines: seq<string>, pads: seq<string>): (r: seq<string>)
    requires |pads| == |lines|
    ensures |r| == |lines|
  {
    if lines == [] then [] else [lines[0] + pads[0]] + Padded(lines[1..], pads[1..])
  }

  ghost predicate Padding(pads: seq<string>) {
    forall i :: 0 <= i < |pads| ==> OneLine(pads[i]) && Blank(pads[i])
  }

  lemma {:induction false} PaddedLines(lines: seq<string>, pads: seq<string>)
    requires |pads| == |lines| && Padding(pads) && forall i :: 0 <= i < |lines| ==> OneLine(lines[i])
    ensures Lines(Unlines(Padded(lines, pads))) == Padded(lines, pads)
    ensures Stripped(Padded(lines, pads)) == Stripped(lines)
  {
    PaddedOneLine(lines, pads);
    LinesUnlines(Padded(lines, pads));
    StrippedPadded(lines, pads);
  }

  lemma {:induction false} PaddedOneLine(lines: seq<string>, pads: seq<string>)
    requires |pads| == |lines| && Padding(pads) && forall i :: 0 <= i < |lines| ==> OneLine(lines[i])
    ensures forall i :: 0 <= i < |lines| ==> OneLine(Padded(lines, pads)[i])
  {
    if lines != [] {
      assert OneLine(lines[0] + pads[0]);
      PaddedOneLine(lines[1..], pads[1..]);
    }
  }

  lemma {:induction false} StrippedPadded(lines: seq<string>, pads: seq<string>)
    requires |pads| == |lines| && Padding(pads)
    ensures Stripped(Padded(lines, pads)) == Stripped(lines)
  {
    if lines != [] {
      TrimPadded(lines[0], pads[0]);
      StrippedPadded(lines[1..], pads[1..]);
      assert Padded(lines, pads)[1..] == Padded(lines[1..], pads[1..]);
    }
  }

  /**
    A document comes back also when its lines were printed with any white space behind them, such
    as a carriage return.
   */
  lemma PaddedRoundTrip(wanted: set<string>, delimiter: string, doc: Doc, pads: seq<string>)
    requires OneLine(delimiter) && WellFormed(wanted, doc) && |pads| == |DocLines(doc)| && Padding(pads)
    ensures Parse(wanted, delimiter, Unlines(Padded(DocLines(doc), pads))) == doc
  {
    var lines := DocLines(doc);
    DocLinesAreLines(wanted, doc);
    PaddedLines(lines, pads);
    RunStripped(wanted, START, lines);
    RunStripped(wanted, START, Padded(lines, pads));
    RunDoc(wanted, START, doc);
    if lines != [] {
      var text := Unlines(Padded(lines, pads));
      assert text[|Padded(lines, pads)[0]|] == '\n';
    }
  }

  // ---- exactly what the parser reads ----

  /** Behind k lines that are no tags the lines are those of the document. */
  ghost predicate ReadsFrom(wanted: set<string>, lines: seq<string>, doc: Doc, k: int) {
    && 0 <= k <= |lines| && (forall i :: 0 <= i < k ==> ReadTag(wanted, lines[i]).NoTag?)
    && lines[k..] == DocLines(doc)
  }

  ghost predicate ReadsAs(wanted: set<string>, lines: seq<string>, doc: Doc) {
    exists k :: ReadsFrom(wanted, lines, doc, k)
  }

  lemma {:induction false} DocLinesConcat(a: Doc, b: Doc)
    ensures DocLines(a + b) == DocLines(a) + DocLines(b)
  {
    if a == [] {
      assert a + b == b;
    } else {
      assert (a + b)[1..] == a[1..] + b;
      DocLinesConcat(a[1..], b);
      Associate(PropertyLines(a[0]), DocLines(a[1..]), DocLines(b));
    }
  }

  lemma DocLinesLast(doc: Doc, p: Property)
    ensures DocLines(doc + [p]) == DocLines(doc) + PropertyLines(p)
  {
    DocLinesConcat(doc, [p]);
    assert [p][1..] == [];
    assert DocLines([p]) == PropertyLines(p) + [];
  }

  /** A further line of the last property. */
  lemma LineAppended(doc: Doc, name: string, value: string, t: string)
    requires OneLine(t)
    ensures DocLines(doc + [Property(name, value + "\n" + t)]) == DocLines(doc + [Property(name, value)]) + [t]
  {
    var p, q := Property(name, value), Property(name, value + "\n" + t);
    DocLinesLast(doc, p);
    DocLinesLast(doc, q);
    PiecesAppend(value, t);
    assert PropertyLines(q) == PropertyLines(p) + [t];
    Associate(DocLines(doc), PropertyLines(p), [t]);
  }

  /** A tag line begins the next property. */
  lemma LineTagged(doc: Doc, name: string, rest: string)
    requires OneLine(rest)
    ensures DocLines(doc + [Property(name, rest)]) == DocLines(doc) + ["<" + name + ">" + rest]
  {
    OnePiece(rest);
    DocLinesLast(doc, Property(name, rest));
    assert PropertyLines(Property(name, rest)) == ["<" + name + ">" + rest];
  }

  /** What has been read so far: nothing before the first tag. */
  ghost predicate Progress(wanted: set<string>, lines: seq<string>, s: State, k: int) {
    ReadsFrom(wanted, lines, Finished(s), k) && (s.name == "" ==> s.doc == [] && k == |lines|)
  }

  lemma StepReads(wanted: set<string>, lines: seq<string>, s: State, t: string, k: int) returns (k': int)
    requires Progress(wanted, lines, s, k) && OneLine(t) && Trimmed(t) && t != ""
    ensures Progress(wanted, lines + [t], Step(wanted, s, t), k')
  {
    TrimmedIsFixed(t);
    var all := lines + [t];
    match ReadTag(wanted, t)
    case NoTag =>
      if s.name == "" {
        k' := k + 1;
        assert all[k'..] == [];
      } else {
        k' := k;
        LineAppended(s.doc, s.name, s.value, t);
        assert all[k..] == lines[k..] + [t];
      }
    case Tag(name, rest) =>
      k' := k;
      TailOneLine(t, name, rest);
      LineTagged(Finished(s), name, rest);
      assert all[k..] == lines[k..] + [t];
  }

  lemma TailOneLine(t: string, name: string, rest: string)
    requires OneLine(t) && t == "<" + name + ">" + rest
    ensures OneLine(rest)
  {
    assert forall i :: 0 <= i < |rest| ==> rest[i] == t[|name| + 2 + i];
  }

  lemma {:induction false} RunReads(wanted: set<string>, done: seq<string>, s: State, lines: seq<string>, k: int)
      returns (k': int)
    requires Progress(wanted, done, s, k)
    requires forall i :: 0 <= i < |lines| ==> OneLine(lines[i]) && Trimmed(lines[i]) && lines[i] != ""
    ensures Progress(wanted, done + lines, Run(wanted, s, lines), k')
    decreases |lines|
  {
    k' := k;
    if lines == [] {
      assert done + lines == done;
    } else {
      k' := StepReads(wanted, done, s, lines[0], k);
      k' := RunReads(wanted, done + [lines[0]], Step(wanted, s, lines[0]), lines[1..], k');
      Associate(done, [lines[0]], lines[1..]);
      assert [lines[0]] + lines[1..] == lines;
    }
  }

  lemma {:induction false} StrippedLines(lines: seq<string>)
    requires forall i :: 0 <= i < |lines| ==> OneLine(lines[i])
    ensures forall i :: 0 <= i < |Stripped(lines)| ==>
      OneLine(Stripped(lines)[i]) && Trimmed(Stripped(lines)[i]) && Stripped(lines)[i] != ""
  {
    if lines != [] {
      StrippedLines(lines[1..]);
      assert OneLine(TrimRight(lines[0]));
    }
  }

  lemma {:induction false} RunSkips(wanted: set<string>, s: State, lines: seq<string>)
    requires s.name == "" && s.doc == []
    requires forall i :: 0 <= i < |lines| ==> ReadTag(wanted, lines[i]).NoTag? && Trimmed(lines[i])
    ensures Run(wanted, s, lines).name == "" && Run(wanted, s, lines).doc == []
    decreases |lines|
  {
    if lines != [] {
      TrimmedIsFixed(lines[0]);
      RunSkips(wanted, Step(wanted, s, lines[0]), lines[1..]);
    }
  }

  /**
    For every text: parseDoc returns the one well-formed document whose lines are those of the
    text, but for white space at line ends, blank lines, and lines before the first tag.
   */
  lemma ParseExactly(wanted: set<string>, delimiter: string, text: string, doc: Doc)
    requires text != delimiter
    ensures Parse(wanted, delimiter, text) == doc <==>
      WellFormed(wanted, doc) && ReadsAs(wanted, Stripped(Lines(text)), doc)
  {
    var lines := Stripped(Lines(text));
    LinesAreLines(text);
    StrippedLines(Lines(text));
    RunStripped(wanted, START, Lines(text));
    ParseWellFormed(wanted, delimiter, text);
    assert DocLines([]) == [] && lines[0..] == lines;
    var k := RunReads(wanted, [], START, lines, 0);
    assert [] + lines == lines;
    if WellFormed(wanted, doc) && ReadsAs(wanted, lines, doc) {
      ReadsUnique(wanted, lines, doc);
    }
  }

  lemma ReadsUnique(wanted: set<string>, lines: seq<string>, doc: Doc)
    requires WellFormed(wanted, doc) && ReadsAs(wanted, lines, doc)
    requires forall i :: 0 <= i < |lines| ==> Trimmed(lines[i])
    ensures Finished(Run(wanted, START, lines)) == doc
  {
    var k :| ReadsFrom(wanted, lines, doc, k);
    assert lines == lines[..k] + DocLines(doc);
    RunConcat(wanted, START, lines[..k], DocLines(doc));
    RunSkips(wanted, START, lines[..k]);
    RunDoc(wanted, Run(wanted, START, lines[..k]), doc);
  }

  /** The delimiter itself is no document. */
  lemma DelimiterAlone(wanted: set<string>, delimiter: string)
    ensures Parse(wanted, delimiter, delimiter) == []
  {
  }

  // ---- writing and reading a document ----

  lemma {:induction false} WithoutDocidKeeps(doc: Doc, p: Property)
    ensures p in WithoutDocid(doc) <==> p in doc && p.name != DOCID
  {
    if doc != [] {
      WithoutDocidKeeps(doc[1..], p);
      assert doc == [doc[0]] + doc[1..];
    }
  }

  /** Names are keys. */
  ghost predicate Distinct(doc: Doc) {
    forall i, j :: 0 <= i < j < |doc| ==> doc[i].name != doc[j].name
  }

  lemma DocidFirstMember(doc: Doc, p: Property)
    requires Distinct(doc) && FindDocid(doc) < |doc|
    ensures p in DocidFirst(doc) <==> p in doc
  {
    var d := FindDocid(doc);
    WithoutDocidKeeps(doc, p);
    assert p in DocidFirst(doc) <==> p == doc[d] || p in WithoutDocid(doc);
    if p in doc && p.name == DOCID {
      var i :| 0 <= i < |doc| && doc[i] == p;
      assert i == d;
    }
  }

  lemma WellFormedMembers(wanted: set<string>, a: Doc, b: Doc)
    requires WellFormed(wanted, a) && forall p :: p in b ==> p in a
    ensures WellFormed(wanted, b)
  {
    forall i | 0 <= i < |b| ensures ValidName(wanted, b[i].name) && Clean(wanted, b[i].value) {
      assert b[i] in a;
    }
  }

  /** Reordering changes neither names nor values. */
  lemma DocidFirstWellFormed(wanted: set<string>, doc: Doc)
    requires Distinct(doc) && FindDocid(doc) < |doc|
    ensures WellFormed(wanted, DocidFirst(doc)) <==> WellFormed(wanted, doc)
  {
    var first := DocidFirst(doc);
    forall p ensures p in first <==> p in doc {
      DocidFirstMember(doc, p);
    }
    if WellFormed(wanted, doc) {
      WellFormedMembers(wanted, doc, first);
    } else if WellFormed(wanted, first) {
      WellFormedMembers(wanted, first, doc);
    }
  }

  /**
    What DocToString returns, given to parseDoc: DOCID comes first, then the rest in order,
    exactly when all names are valid and all values clean. Without a DOCID nothing comes back.
   */
  method WriteAndRead(wanted: set<string>, delimiter: string, doc: Doc) returns (found: bool, back: Doc)
    requires OneLine(delimiter) && Distinct(doc)
    ensures found <==> exists i :: 0 <= i < |doc| && doc[i].name == DOCID
    ensures found ==> FindDocid(doc) < |doc| && (back == DocidFirst(doc) <==> WellFormed(wanted, doc))
    ensures !found ==> back == []
  {
    var str;
    found, str := DocToString(doc);
    back := ParseDoc(wanted, delimiter, str);
    if found {
      RoundTrip(wanted, delimiter, DocidFirst(doc));
      DocidFirstWellFormed(wanted, doc);
    }
  }
}
