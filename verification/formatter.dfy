/**
 The document formatter (`provideDocumentFormattingEdits`): every line is
 re-emitted trimmed, either at column 0 or indented by the current
 indentation, and the result loses its trailing white space.

 Two variables drive it: `indent`, which is 0 until the first array header
 or top-level property and 2 from then on, and `inArray`, which says
 whether the last such line was an array header.
 */
module Formatter {
  import opened Text
  import opened Header

  /** How the formatter sees a trimmed line, tested in this order. */
  datatype LineClass = Blank | Comment | ArrayHeader | Property | Data

  /** One of the three header tests of the formatter (src/extension.ts:245, 253, 261), each the scanner's pattern. */
  predicate IsHeaderLine(trimmed: string) {
    MatchTabular(trimmed).Some? || MatchInline(trimmed).Some? || MatchRoot(trimmed).Some?
  }

  /** The class of a trimmed line, tested in the loop's order. */
  function ClassOf(trimmed: string): LineClass {
    if trimmed == [] then Blank
    else if "//" <= trimmed || "/*" <= trimmed then Comment
    else if IsHeaderLine(trimmed) then ArrayHeader
    else if IsProperty(trimmed) then Property
    else Data
  }

  predicate Structural(c: LineClass) {
    c == ArrayHeader || c == Property
  }

  datatype FormatState = FormatState(indent: nat, inArray: bool)

  const Start := FormatState(0, false)

  /**
   One iteration of the formatting loop (src/extension.ts:230-282): the
   emitted line, without its `'\n'`, and the next state. Every emitted line
   is the trimmed input, padded by nothing or by the current indentation.
   */
  function FormatLine(st: FormatState, line: string): (r: (string, FormatState))
    ensures var pad := |r.0| - |Trim(line)|;
      && |r.0| >= |Trim(line)|
      && r.0 == Spaces(pad) + Trim(line)
      && (pad == 0 || pad == st.indent)
      && (r.0 == [] <==> Trim(line) == [])
  {
    var trimmed := Trim(line);
    match ClassOf(trimmed)
    case Blank => ([], st)
    case Comment => (Spaces(st.indent) + trimmed, st)
    case ArrayHeader => (trimmed, FormatState(2, true))
    case Property => (trimmed, FormatState(2, false))
    case Data =>
      if st.inArray || Indent(line) > 0 then (Spaces(st.indent) + trimmed, st)
      else (trimmed, st)
  }

  /** The emitted lines of the loop over `lines`, and the state after it. */
  function FormatLines(lines: seq<string>): (r: (seq<string>, FormatState))
    ensures |r.0| == |lines|
  {
    if lines == [] then ([], Start)
    else
      var prev := FormatLines(lines[..|lines| - 1]);
      var next := FormatLine(prev.1, lines[|lines| - 1]);
      (prev.0 + [next.0], next.1)
  }

  /** `formatted`: every emitted line followed by `'\n'`. */
  function Emit(outs: seq<string>): string {
    if outs == [] then [] else Emit(outs[..|outs| - 1]) + outs[|outs| - 1] + "\n"
  }

  /** The replacement text of the whole document (src/extension.ts:223-290). */
  function Format(text: string): (r: string)
    ensures r == [] || !IsWs(r[|r| - 1])
  {
    TrimEnd(Emit(FormatLines(Split(text, '\n')).0))
  }

  /** Two lines with the same trimmed text and the same "is indented" answer are formatted alike. */
  lemma SameFormat(st: FormatState, a: string, b: string)
    requires Trim(a) == Trim(b)
    requires ClassOf(Trim(a)) != Data || st.inArray || st.indent == 0 || (Indent(a) > 0 <==> Indent(b) > 0)
    ensures FormatLine(st, a) == FormatLine(st, b)
  {
    assert Spaces(0) == [];
  }

  /** A trimmed text padded by spaces trims back to itself, and its indentation is the padding. */
  lemma TrimPadded(r: string, t: string)
    requires |r| >= |t| && r == Spaces(|r| - |t|) + t
    requires r == [] <==> t == []
    requires t == [] || (!IsWs(t[0]) && !IsWs(t[|t| - 1]))
    ensures Trim(r) == t && Indent(r) == |r| - |t|
  {
    if t != [] {
      PaddedTrim(|r| - |t|, t);
    }
  }

  /** An emitted line trims back to the input's trimmed text, and its indentation is its padding. */
  lemma EmittedTrim(st: FormatState, line: string)
    ensures var r := FormatLine(st, line);
      && Trim(r.0) == Trim(line)
      && Indent(r.0) == |r.0| - |Trim(line)|
  {
    var r := FormatLine(st, line);
    TrimPadded(r.0, Trim(line));
  }

  /** A data line outside an array keeps its padding exactly when it was indented. */
  lemma DataPadding(st: FormatState, line: string)
    requires ClassOf(Trim(line)) == Data && !st.inArray && st.indent > 0
    ensures Indent(line) > 0 <==> |FormatLine(st, line).0| > |Trim(line)|
  {
  }

  /** Formatting an emitted line again, from the same state, emits it unchanged and reaches the same state. */
  lemma FormatLineFixpoint(st: FormatState, line: string)
    ensures var r := FormatLine(st, line);
      FormatLine(st, r.0) == r
  {
    var r := FormatLine(st, line);
    FixpointPremises(st, line);
    SameFormat(st, line, r.0);
  }

  /** An emitted line has the input's trimmed text, and the input's "is indented" answer where that matters. */
  lemma FixpointPremises(st: FormatState, line: string)
    ensures var r := FormatLine(st, line);
      && Trim(r.0) == Trim(line)
      && (ClassOf(Trim(line)) != Data || st.inArray || st.indent == 0 || (Indent(line) > 0 <==> Indent(r.0) > 0))
  {
    EmittedTrim(st, line);
    if ClassOf(Trim(line)) == Data && !st.inArray && st.indent > 0 {
      DataPadding(st, line);
    }
  }

  /** The emitted lines of a document are those of all but its last line, then the last line's. */
  lemma FormatLinesSnoc(lines: seq<string>)
    requires lines != []
    ensures var n := |lines| - 1;
      var prev := FormatLines(lines[..n]);
      var next := FormatLine(prev.1, lines[n]);
      FormatLines(lines) == (prev.0 + [next.0], next.1)
  {
  }

  /** Formatting the emitted lines again emits them unchanged. */
  lemma {:induction false} FormatLinesFixpoint(lines: seq<string>)
    ensures FormatLines(FormatLines(lines).0) == FormatLines(lines)
  {
    if lines != [] {
      var init := lines[..|lines| - 1];
      var prev := FormatLines(init);
      var next := FormatLine(prev.1, lines[|lines| - 1]);
      var outs := prev.0 + [next.0];
      FormatLinesFixpoint(init);
      FormatLineFixpoint(prev.1, lines[|lines| - 1]);
      FormatLinesSnoc(lines);
      FormatLinesSnoc(outs);
      assert outs[..|outs| - 1] == prev.0;
      assert outs[|outs| - 1] == next.0;
    }
  }

  /** The emitted lines of a document, less the last, are those of the document less its last line. */
  lemma FormatLinesInit(lines: seq<string>)
    requires lines != []
    ensures FormatLines(lines).0[..|lines| - 1] == FormatLines(lines[..|lines| - 1]).0
  {
    var prev := FormatLines(lines[..|lines| - 1]);
    var o := FormatLine(prev.1, lines[|lines| - 1]).0;
    FormatLinesSnoc(lines);
    assert (prev.0 + [o])[..|lines| - 1] == prev.0;
  }

  lemma PrefixOfPrefix<T>(s: seq<T>, p: seq<T>, m: nat, k: nat)
    requires k <= m <= |s| && s[..m] == p
    ensures p[..k] == s[..k]
  {
  }

  /** The first `k` emitted lines come from the first `k` input lines alone. */
  lemma {:induction false} FormatLinesPrefix(lines: seq<string>, k: nat)
    requires k <= |lines|
    ensures FormatLines(lines[..k]).0 == FormatLines(lines).0[..k]
    decreases |lines|
  {
    if k < |lines| {
      var init := lines[..|lines| - 1];
      FormatLinesPrefix(init, k);
      FormatLinesInit(lines);
      assert init[..k] == lines[..k];
      PrefixOfPrefix(FormatLines(lines).0, FormatLines(init).0, |lines| - 1, k);
    } else {
      assert lines[..k] == lines;
    }
  }

  /** The emitted lines without the trailing empty ones. */
  function Content(outs: seq<string>): (c: seq<string>)
    ensures |c| <= |outs| && c == outs[..|c|]
    ensures c == [] || c[|c| - 1] != []
    ensures forall k :: |c| <= k < |outs| ==> outs[k] == []
  {
    if outs != [] && outs[|outs| - 1] == [] then Content(outs[..|outs| - 1]) else outs
  }

  /** Emitted lines are empty or end in a character other than white space. */
  predicate Tidy(outs: seq<string>) {
    forall k :: 0 <= k < |outs| ==> outs[k] == [] || !IsWs(outs[k][|outs[k]| - 1])
  }

  lemma EmitIsJoin(outs: seq<string>)
    requires outs != []
    ensures Emit(outs) == Join(outs, '\n') + "\n"
  {
    if |outs| > 1 {
      EmitIsJoin(outs[..|outs| - 1]);
    }
  }

  /** `trimEnd` removes exactly the trailing empty lines and the final line break. */
  lemma {:induction false} TrimEmitted(outs: seq<string>)
    requires Tidy(outs)
    ensures TrimEnd(Emit(outs)) == Join(Content(outs), '\n')
  {
    if outs != [] {
      var init := outs[..|outs| - 1];
      var o := outs[|outs| - 1];
      var e := Emit(init) + o;
      assert Emit(outs) == e + "\n";
      assert (e + "\n")[..|e|] == e;
      assert TrimEnd(Emit(outs)) == TrimEnd(e);
      if o == [] {
        assert e == Emit(init);
        TrimEmitted(init);
      } else {
        assert e[|e| - 1] == o[|o| - 1];
        assert TrimEnd(e) == e;
        if init != [] {
          EmitIsJoin(init);
        }
      }
    }
  }

  /** A padded trimmed text holds no line break when the text it was trimmed from holds none. */
  lemma PaddedNoBreak(r: string, line: string)
    requires '\n' !in line
    requires |r| >= |Trim(line)| && r == Spaces(|r| - |Trim(line)|) + Trim(line)
    ensures '\n' !in r
  {
    var t := Trim(line);
    var pad := |r| - |t|;
    forall k | 0 <= k < |r|
      ensures r[k] != '\n'
    {
      if k >= pad {
        assert r[k] == t[k - pad] == line[Indent(line) + k - pad];
      }
    }
  }

  /** An emitted line never contains a line break that its input line lacked. */
  lemma EmittedNoBreak(st: FormatState, line: string)
    requires '\n' !in line
    ensures '\n' !in FormatLine(st, line).0
  {
    PaddedNoBreak(FormatLine(st, line).0, line);
  }

  /** A padded trimmed text is empty or ends in a character other than white space. */
  lemma PaddedTidy(r: string, t: string)
    requires |r| >= |t| && r == Spaces(|r| - |t|) + t
    requires r == [] <==> t == []
    requires t == [] || !IsWs(t[|t| - 1])
    ensures Tidy([r])
  {
    assert r == [] || r[|r| - 1] == t[|t| - 1];
  }

  /** An emitted line is empty or ends in a character other than white space. */
  lemma EmittedTidy(st: FormatState, line: string)
    ensures Tidy([FormatLine(st, line).0])
  {
    PaddedTidy(FormatLine(st, line).0, Trim(line));
  }

  lemma TidySnoc(outs: seq<string>, o: string)
    requires Tidy(outs) && Tidy([o])
    ensures Tidy(outs + [o])
  {
    assert forall k :: 0 <= k < |outs| ==> (outs + [o])[k] == outs[k];
  }


  /** Every emitted line is tidy, and is free of line breaks when its input was. */
  lemma {:induction false} FormatLinesTidy(lines: seq<string>)
    ensures Tidy(FormatLines(lines).0)
    ensures (forall k :: 0 <= k < |lines| ==> '\n' !in lines[k]) ==>
      forall k :: 0 <= k < |lines| ==> '\n' !in FormatLines(lines).0[k]
  {
    if lines != [] {
      var init := lines[..|lines| - 1];
      var prev := FormatLines(init);
      FormatLinesTidy(init);
      var last := lines[|lines| - 1];
      var o := FormatLine(prev.1, last).0;
      FormatLinesSnoc(lines);
      EmittedTidy(prev.1, last);
      TidySnoc(prev.0, o);
      if forall k :: 0 <= k < |lines| ==> '\n' !in lines[k] {
        assert '\n' !in lines[|lines| - 1];
        EmittedNoBreak(prev.1, last);
        assert forall k :: 0 <= k < |init| ==> init[k] == lines[k];
      }
    }
  }

  /** The formatted document is its emitted lines, up to the last non-empty one, joined by line breaks. */
  lemma FormatIsJoin(text: string)
    ensures var outs := FormatLines(Split(text, '\n')).0;
      Format(text) == Join(Content(outs), '\n')
  {
    FormatLinesTidy(Split(text, '\n'));
    TrimEmitted(FormatLines(Split(text, '\n')).0);
  }

  /** The empty text formats to itself. */
  lemma FormatEmpty()
    ensures Format([]) == []
  {
    assert Split([], '\n') == [[]];
    assert FormatLines([[]]).0 == [[]];
    assert Emit([[]]) == "\n";
    assert TrimEnd("\n") == [];
  }

  /** Splitting a formatted document that has content gives back its content lines. */
  lemma SplitFormatted(text: string)
    ensures var c := Content(FormatLines(Split(text, '\n')).0);
      c != [] ==> Split(Format(text), '\n') == c
  {
    var lines := Split(text, '\n');
    var outs := FormatLines(lines).0;
    var c := Content(outs);
    FormatIsJoin(text);
    FormatLinesTidy(lines);
    if c != [] {
      forall k | 0 <= k < |c|
        ensures '\n' !in c[k]
      {
        assert c[k] == outs[k];
      }
      SplitJoin(c, '\n');
    }
  }

  /** The content lines of a formatted document format to themselves. */
  lemma ReformatContent(lines: seq<string>)
    ensures var c := Content(FormatLines(lines).0);
      FormatLines(c).0 == c
  {
    var outs := FormatLines(lines).0;
    var c := Content(outs);
    FormatLinesPrefix(outs, |c|);
    FormatLinesFixpoint(lines);
  }

  /** Formatting an already formatted document changes nothing. */
  lemma FormatIdempotent(text: string)
    ensures Format(Format(text)) == Format(text)
  {
    var lines := Split(text, '\n');
    var c := Content(FormatLines(lines).0);
    FormatIsJoin(text);
    if c == [] {
      FormatEmpty();
    } else {
      SplitFormatted(text);
      ReformatContent(lines);
      FormatIsJoin(Format(text));
      assert Content(c) == c;
    }
  }

  /** The class of every line of a document, in order. */
  function Classes(lines: seq<string>): (cs: seq<LineClass>)
    ensures |cs| == |lines|
  {
    if lines == [] then [] else Classes(lines[..|lines| - 1]) + [ClassOf(Trim(lines[|lines| - 1]))]
  }

  lemma ClassesSnoc(init: seq<string>, l: string)
    ensures Classes(init + [l]) == Classes(init) + [ClassOf(Trim(l))]
  {
    assert (init + [l])[..|init|] == init;
  }

  lemma ClassesAt(lines: seq<string>, k: nat)
    requires k < |lines|
    ensures Classes(lines)[k] == ClassOf(Trim(lines[k]))
  {
    if k < |lines| - 1 {
      ClassesAt(lines[..|lines| - 1], k);
    }
  }

  /** Line `k` is an array header or a top-level property. */
  predicate StructuralAt(cs: seq<LineClass>, k: int) {
    0 <= k < |cs| && Structural(cs[k])
  }

  /** Line `k` is an array header and no structural line follows it. */
  predicate OpenHeaderAt(cs: seq<LineClass>, k: int) {
    && 0 <= k < |cs|
    && cs[k] == ArrayHeader
    && forall m :: k < m < |cs| ==> !Structural(cs[m])
  }

  /** The state reached over lines of classes `cs`, described by the classes rather than by the loop. */
  function StateIn(cs: seq<LineClass>): FormatState {
    FormatState(if exists k :: 0 <= k < |cs| && StructuralAt(cs, k) then 2 else 0,
                exists k :: 0 <= k < |cs| && OpenHeaderAt(cs, k))
  }

  /** The state the loop reaches, described by the document rather than by the loop. */
  function StateOf(lines: seq<string>): FormatState {
    StateIn(Classes(lines))
  }

  /** Only array headers and properties move the state. */
  lemma FormatLineState(st: FormatState, line: string)
    ensures FormatLine(st, line).1 ==
      match ClassOf(Trim(line))
      case ArrayHeader => FormatState(2, true)
      case Property => FormatState(2, false)
      case _ => st
  {
  }

  lemma StateInHeader(cs: seq<LineClass>)
    ensures StateIn(cs + [ArrayHeader]) == FormatState(2, true)
  {
    var ds := cs + [ArrayHeader];
    assert StructuralAt(ds, |cs|);
    assert OpenHeaderAt(ds, |cs|);
  }

  lemma StateInProperty(cs: seq<LineClass>)
    ensures StateIn(cs + [Property]) == FormatState(2, false)
  {
    var ds := cs + [Property];
    assert StructuralAt(ds, |cs|);
    forall k | 0 <= k < |ds|
      ensures !OpenHeaderAt(ds, k)
    {
      if k < |cs| {
        assert StructuralAt(ds, |cs|);
      }
    }
  }

  lemma StateInOther(cs: seq<LineClass>, c: LineClass)
    requires !Structural(c)
    ensures StateIn(cs + [c]) == StateIn(cs)
  {
    var ds := cs + [c];
    assert !StructuralAt(ds, |cs|);
    assert !OpenHeaderAt(ds, |cs|);
    assert forall k :: 0 <= k < |cs| ==> ds[k] == cs[k];
    if exists k :: 0 <= k < |ds| && StructuralAt(ds, k) {
      var k :| 0 <= k < |ds| && StructuralAt(ds, k);
      assert StructuralAt(cs, k);
    }
    if exists k :: 0 <= k < |cs| && StructuralAt(cs, k) {
      var k :| 0 <= k < |cs| && StructuralAt(cs, k);
      assert StructuralAt(ds, k);
    }
    if exists k :: 0 <= k < |ds| && OpenHeaderAt(ds, k) {
      var k :| 0 <= k < |ds| && OpenHeaderAt(ds, k);
      assert OpenHeaderAt(cs, k);
    }
    if exists k :: 0 <= k < |cs| && OpenHeaderAt(cs, k) {
      var k :| 0 <= k < |cs| && OpenHeaderAt(cs, k);
      assert OpenHeaderAt(ds, k);
    }
  }

  /**
   After any prefix of the document, the indentation is 2 exactly when an
   array header or property has been seen, and `inArray` holds exactly when
   the latest of those was an array header.
   */
  lemma {:induction false} StateAfter(lines: seq<string>)
    ensures FormatLines(lines).1 == StateOf(lines)
  {
    if lines != [] {
      var n := |lines| - 1;
      var init := lines[..n];
      var l := lines[n];
      assert lines == init + [l];
      StateAfter(init);
      FormatLineState(FormatLines(init).1, l);
      ClassesSnoc(init, l);
      var cs := Classes(init);
      match ClassOf(Trim(l))
      case ArrayHeader => StateInHeader(cs);
      case Property => StateInProperty(cs);
      case c => StateInOther(cs, c);
    }
  }

  /** The text emitted for one line, by its class and the state before it. */
  lemma FormatLineText(st: FormatState, line: string)
    ensures var t := Trim(line);
      var c := ClassOf(t);
      FormatLine(st, line).0 ==
        if c == Comment || (c == Data && (st.inArray || Indent(line) > 0))
        then Spaces(st.indent) + t
        else t
  {
    assert Spaces(0) == [];
  }

  /** Emitted line `k` is line `k` formatted from the state the first `k` lines reach. */
  lemma {:induction false} EmittedFrom(lines: seq<string>, k: nat)
    requires k < |lines|
    ensures FormatLines(lines).0[k] == FormatLine(FormatLines(lines[..k]).1, lines[k]).0
  {
    var pre := lines[..k + 1];
    FormatLinesPrefix(lines, k + 1);
    assert pre[..k] == lines[..k];
    assert pre[k] == lines[k];
    LastEmitted(pre);
  }

  lemma LastEmitted(lines: seq<string>)
    requires lines != []
    ensures var n := |lines| - 1;
      FormatLines(lines).0[n] == FormatLine(FormatLines(lines[..n]).1, lines[n]).0
  {
  }

  /**
   Emitted line `k` in terms of the document: blank lines come out empty;
   array headers, properties and unindented data outside an array come out at
   column 0; comments, and data inside an array or originally indented, come
   out indented by 2 once a header or property has been seen.
   */
  lemma EmittedLine(lines: seq<string>, k: nat)
    requires k < |lines|
    ensures var before := StateOf(lines[..k]);
      var t := Trim(lines[k]);
      var c := ClassOf(t);
      FormatLines(lines).0[k] ==
        if c == Comment || (c == Data && (before.inArray || Indent(lines[k]) > 0))
        then Spaces(before.indent) + t
        else t
  {
    EmittedFrom(lines, k);
    StateAfter(lines[..k]);
    FormatLineText(StateOf(lines[..k]), lines[k]);
  }
}
