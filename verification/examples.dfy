/** Concrete documents worked through the model. */
module Examples {
  import opened Wrappers
  import opened Text
  import opened Decimal
  import opened Header
  import opened Scanner
  import opened Validation
  import opened Formatter

  lemma InlineHeaderParts()
    ensures Classify("a[3]: 1,2,3") == Some(HeaderMatch(Inline, "a", "3", "", ""))
  {
    var h := HeaderMatch(Inline, "a", "3", "", "");
    assert IsIdentifier("a") by { assert IsIdentStart('a'); }
    assert AllIn("3", Digits) by { assert IsDigit('3'); }
    assert WellFormed(h);
    assert Render(h) == "a[3]:";
    assert "a[3]:" <= "a[3]: 1,2,3";
    ClassifyIff("a[3]: 1,2,3", h);
  }

  const OneLine := "a[3]: 1,2,3"

  lemma OneLineView()
    ensures View(OneLine) == LineView(OneLine, 0, Some(HeaderMatch(Inline, "a", "3", "", "")))
  {
    InlineHeaderParts();
    PaddedTrim(0, OneLine);
    assert Spaces(0) + OneLine == OneLine;
  }

  const OneViews := [LineView(OneLine, 0, Some(HeaderMatch(Inline, "a", "3", "", "")))]

  lemma OneLineScan()
    ensures AllValid(OneViews) && ScanUpTo(OneViews, 1).arrays == [ArrayInfo("a", 3, 0, 0, ",", None, false, true)]
  {
    assert IsIdentifier("a") by { assert IsIdentStart('a'); }
    assert AllIn("3", Digits) by { assert IsDigit('3'); }
    assert ParseNat("3") == 3;
  }

  /**
   A one-line inline array: the values on the header line itself are not
   counted, so `a[3]: 1,2,3` is reported as declaring 3 but holding 0.
   */
  lemma HeaderLineValuesNotCounted()
    ensures Validate(OneLine) == [Warning("a", 3, 0, 0, 11)]
  {
    OneLineSplit();
    OneLineCheck();
    OneLineMismatch();
  }

  lemma OneLineSplit()
    ensures Split(OneLine, '\n') == [OneLine]
  {
    assert '\n' !in OneLine;
    SplitWithoutSeparator(OneLine, '\n');
  }

  lemma OneLineCheck()
    ensures Check([OneLine]) == Mismatches([ArrayInfo("a", 3, 0, 0, ",", None, false, true)], [OneLine])
  {
    OneLineView();
    assert Views([OneLine]) == OneViews;
    OneLineScan();
  }

  lemma OneLineMismatch()
    ensures Mismatches([ArrayInfo("a", 3, 0, 0, ",", None, false, true)], [OneLine]) == [Warning("a", 3, 0, 0, 11)]
  {
    var a := ArrayInfo("a", 3, 0, 0, ",", None, false, true);
    assert |OneLine| == 11;
    assert [a][..0] == [];
  }

  lemma EmptySplit()
    ensures Split("", '\n') == [[]]
  {
  }

  lemma BlankLine()
    ensures Trim([]) == [] && Classify([]) == None
    ensures FormatLine(Start, []) == ([], Start)
  {
  }

  /** The empty document has one empty line and no warnings. */
  lemma EmptyDocumentValid()
    ensures Validate("") == []
  {
    EmptySplit();
    BlankLine();
    forall line | line in Split("", '\n')
      ensures Classify(Trim(line)).None?
    {
      assert line == [];
    }
    NoHeadersNoWarnings("");
  }

  /** The empty document formats to itself. */
  lemma EmptyDocumentFormat()
    ensures Format("") == ""
  {
    EmptySplit();
    BlankLine();
    var lines: seq<string> := [[]];
    assert lines[..0] == [];
    assert FormatLines(lines).0 == lines;
    assert Emit(lines) == "\n";
    assert TrimEnd("\n") == TrimEnd([]);
  }

  /**
   The two-character escape `\t` cannot be the delimiter: the class
   `[,\|\\t]` takes one character, so `x[2\t]:` is no header at all.
   */
  lemma TabEscapeIsNoHeader()
    ensures Classify("x[2\\t]:") == None
  {
    var t := "x[2\\t]:";
    assert Span(t, 1, IdentChars) == 1;
    assert Span(t, 3, Digits) == 3;
    assert MatchBracket(t) == None;
    assert t[0] != '[';
  }

  /** The letter `t` is a delimiter: `x[2t]:` declares a list separated by `t`. */
  lemma LetterTDelimiter()
    ensures Classify("x[2t]:") == Some(HeaderMatch(Inline, "x", "2", "t", ""))
    ensures Items("atb", NewArray(HeaderMatch(Inline, "x", "2", "t", ""), 0)) == 2
  {
    LetterTHeader();
    LetterTItems();
  }

  lemma LetterTHeader()
    ensures Classify("x[2t]:") == Some(HeaderMatch(Inline, "x", "2", "t", ""))
  {
    var h := HeaderMatch(Inline, "x", "2", "t", "");
    assert IsIdentifier("x") by { assert IsIdentStart('x'); }
    assert AllIn("2", Digits) by { assert IsDigit('2'); }
    assert IsDelimiterCapture("t");
    assert WellFormed(h);
    assert Render(h) == "x[2t]:";
    ClassifyIff("x[2t]:", h);
  }

  lemma LetterTItems()
    ensures Items("atb", NewArray(HeaderMatch(Inline, "x", "2", "t", ""), 0)) == 2
  {
    assert "atb" == "a" + ['t'] + "b";
    SplitTwo("a", "b", 't');
  }

  /** A root array whose two body lines hold three values between them. */
  const RootDoc := "[2]:\n  a,b\n  c"

  const RootHeader := HeaderMatch(Root, [], "2", [], "")

  lemma SplitTwo(a: string, b: string, d: char)
    requires d !in a && d !in b
    ensures Split(a + [d] + b, d) == [a, b]
  {
    SplitAtSeparator(a, b, d);
    SplitWithoutSeparator(a, d);
    SplitWithoutSeparator(b, d);
  }

  lemma SplitFirst(a: string, rest: string, d: char)
    requires d !in a
    ensures Split(a + [d] + rest, d) == [a] + Split(rest, d)
  {
    SplitAtSeparator(a, rest, d);
    SplitWithoutSeparator(a, d);
  }

  lemma SplitThree(a: string, b: string, c: string, d: char)
    requires d !in a && d !in b && d !in c
    ensures Split(a + [d] + (b + [d] + c), d) == [a, b, c]
  {
    SplitFirst(a, b + [d] + c, d);
    SplitTwo(b, c, d);
  }

  lemma RootDocLines()
    ensures Split(RootDoc, '\n') == ["[2]:", "  a,b", "  c"]
  {
    assert RootDoc == "[2]:" + ['\n'] + ("  a,b" + ['\n'] + "  c");
    SplitThree("[2]:", "  a,b", "  c", '\n');
  }

  lemma RootDocHeaderView()
    ensures View("[2]:") == LineView("[2]:", 0, Some(RootHeader))
  {
    assert AllIn("2", Digits) by { assert IsDigit('2'); }
    assert WellFormed(RootHeader);
    assert Render(RootHeader) == "[2]:";
    ClassifyIff("[2]:", RootHeader);
    PaddedTrim(0, "[2]:");
    assert Spaces(0) + "[2]:" == "[2]:";
  }

  lemma RootDocBodyViews()
    ensures View("  a,b") == LineView("a,b", 2, None)
    ensures View("  c") == LineView("c", 2, None)
  {
    PaddedTrim(2, "a,b");
    PaddedTrim(2, "c");
    assert Spaces(2) + "a,b" == "  a,b";
    assert Spaces(2) + "c" == "  c";
    assert MatchBracket("a,b") == None by { assert Span("a,b", 1, IdentChars) == 1; }
    assert MatchBracket("c") == None by { assert Span("c", 1, IdentChars) == 1; }
  }

  lemma TwoValues()
    ensures |Split("a,b", ',')| == 2
  {
    assert "a,b" == "a" + [','] + "b";
    SplitTwo("a", "b", ',');
  }

  lemma OneValue()
    ensures |Split("c", ',')| == 1
  {
    SplitWithoutSeparator("c", ',');
  }

  const RootViews := [LineView("[2]:", 0, Some(RootHeader)), LineView("a,b", 2, None), LineView("c", 2, None)]

  const RootArray := ArrayInfo([], 2, 0, 0, ",", None, false, true)

  lemma RootDocViews()
    ensures Views(["[2]:", "  a,b", "  c"]) == RootViews
  {
    ViewsThree("[2]:", "  a,b", "  c");
    RootDocHeaderView();
    RootDocBodyViews();
  }

  lemma ViewsThree(a: string, b: string, c: string)
    ensures Views([a, b, c]) == [View(a), View(b), View(c)]
  {
  }

  lemma RootScanHeader()
    ensures AllValid(RootViews) && ScanUpTo(RootViews, 1) == ScanState([RootArray], true, 2)
  {
    assert AllIn("2", Digits) by { assert IsDigit('2'); }
    assert ParseNat("2") == 2;
  }

  lemma FirstBodyItems()
    ensures Items("a,b", RootArray) == 2
  {
    assert Separator(RootArray.delimiter) == ',';
    TwoValues();
  }

  lemma FirstBodyStep()
    ensures AllValid(RootViews)
    ensures Step(ScanState([RootArray], true, 2), RootViews[1], 1) == ScanState([RootArray.(actualLength := 2)], true, 2)
  {
    var st := ScanState([RootArray], true, 2);
    assert Valid(st);
    StepOnBody(st, RootViews[1], 1);
    FirstBodyItems();
  }

  lemma RootScanFirstBody()
    ensures AllValid(RootViews) && ScanUpTo(RootViews, 2) == ScanState([RootArray.(actualLength := 2)], true, 2)
  {
    RootScanHeader();
    FirstBodyStep();
    assert ScanUpTo(RootViews, 2) == Step(ScanUpTo(RootViews, 1), RootViews[1], 1);
  }

  lemma RootDocScan()
    ensures AllValid(RootViews) && ScanUpTo(RootViews, 3).arrays == [RootArray.(actualLength := 3)]
  {
    RootScanFirstBody();
    var st := ScanUpTo(RootViews, 2);
    assert ScanUpTo(RootViews, 3) == Step(st, RootViews[2], 2);
    StepOnBody(st, RootViews[2], 2);
    OneValue();
    assert Items("c", RootArray.(actualLength := 2)) == 1;
  }

  lemma RootDocCheck()
    ensures Check(["[2]:", "  a,b", "  c"]) == Mismatches([RootArray.(actualLength := 3)], ["[2]:", "  a,b", "  c"])
  {
    RootDocViews();
    RootDocScan();
  }

  lemma RootDocMismatch()
    ensures Mismatches([RootArray.(actualLength := 3)], ["[2]:", "  a,b", "  c"]) == [Warning([], 2, 3, 0, 4)]
  {
    var a := RootArray.(actualLength := 3);
    assert [a][..0] == [];
    assert |"[2]:"| == 4;
  }

  lemma RootDocMessage()
    ensures Message(Warning([], 2, 3, 0, 4)) == "Array \"[root]\" declared length 2 but has 3 items"
  {
    var pieces := "Array \"" + "[root]" + "\" declared length " + "2" + " but has " + "3" + " items";
    assert Message(Warning([], 2, 3, 0, 4)) == pieces by {
      assert NatToString(2) == "2" && NatToString(3) == "3";
    }
    RootMessageText();
  }

  lemma RootMessageText()
    ensures "Array \"" + "[root]" + "\" declared length " + "2" + " but has " + "3" + " items"
      == "Array \"[root]\" declared length 2 but has 3 items"
  {
  }

  /**
   Values of a root array are counted across its indented body lines:
   `[2]:` followed by `a,b` and `c` holds three, so one warning, on the
   header line, names the array `[root]`.
   */
  lemma RootArrayCountsBodyLines()
    ensures Validate(RootDoc) == [Warning([], 2, 3, 0, 4)]
    ensures Message(Validate(RootDoc)[0]) == "Array \"[root]\" declared length 2 but has 3 items"
  {
    RootDocLines();
    RootDocCheck();
    RootDocMismatch();
    RootDocMessage();
  }

  const ArrayDoc := "a[1]:\nx"

  lemma ArrayDocClassify()
    ensures Classify("a[1]:") == Some(HeaderMatch(Inline, "a", "1", "", ""))
  {
    var h := HeaderMatch(Inline, "a", "1", "", "");
    assert IsIdentifier("a") by { assert IsIdentStart('a'); }
    assert AllIn("1", Digits) by { assert IsDigit('1'); }
    assert WellFormed(h);
    assert Render(h) == "a[1]:";
    ClassifyIff("a[1]:", h);
  }

  lemma ArrayDocHeaderClass()
    ensures Trim("a[1]:") == "a[1]:" && ClassOf("a[1]:") == ArrayHeader
  {
    PaddedTrim(0, "a[1]:");
    assert Spaces(0) + "a[1]:" == "a[1]:";
    ArrayDocClassify();
  }

  lemma ArrayDocRowClass()
    ensures Trim("x") == "x" && Indent("x") == 0 && ClassOf("x") == Data
  {
    PaddedTrim(0, "x");
    assert Spaces(0) + "x" == "x";
    RowNotHeader();
    RowNotProperty();
  }

  lemma RowNotHeader()
    ensures !IsHeaderLine("x")
  {
    assert MatchBracket("x") == None by {
      assert Span("x", 1, IdentChars) == 1;
    }
  }

  lemma RowNotProperty()
    ensures !IsProperty("x")
  {
    assert Span("x", 1, IdentChars) == 1;
  }

  lemma ArrayDocHeader()
    ensures FormatLine(Start, "a[1]:") == ("a[1]:", FormatState(2, true))
  {
    ArrayDocHeaderClass();
    FormatLineText(Start, "a[1]:");
    FormatLineState(Start, "a[1]:");
  }

  lemma ArrayDocRow()
    ensures FormatLine(FormatState(2, true), "x") == ("  x", FormatState(2, true))
  {
    ArrayDocRowClass();
    FormatLineText(FormatState(2, true), "x");
    FormatLineState(FormatState(2, true), "x");
    assert Spaces(2) + "x" == "  x";
  }

  lemma FormatOne(a: string)
    ensures FormatLines([a]).0 == [FormatLine(Start, a).0]
    ensures FormatLines([a]).1 == FormatLine(Start, a).1
  {
    var one := [a];
    assert one[..|one| - 1] == [];
  }

  /** The loop over a two-line document. */
  lemma FormatTwo(a: string, b: string)
    ensures var first := FormatLine(Start, a);
      FormatLines([a, b]).0 == [first.0, FormatLine(first.1, b).0]
  {
    var lines := [a, b];
    assert lines[..|lines| - 1] == [a];
    FormatOne(a);
  }

  lemma EmitTwo(a: string, b: string)
    ensures Emit([a, b]) == a + "\n" + b + "\n"
  {
    var outs := [a, b];
    var one := [a];
    assert outs[..1] == one;
    assert one[..0] == [];
    assert Emit(one) == a + "\n";
  }

  lemma TrimFinalBreak(s: string)
    requires s != [] && !IsWs(s[|s| - 1])
    ensures TrimEnd(s + "\n") == s
  {
    assert (s + "\n")[..|s|] == s;
  }

  lemma ArrayDocOutput()
    ensures FormatLines(Split(ArrayDoc, '\n')).0 == ["a[1]:", "  x"]
  {
    assert ArrayDoc == "a[1]:" + ['\n'] + "x";
    SplitTwo("a[1]:", "x", '\n');
    FormatTwo("a[1]:", "x");
    ArrayDocHeader();
    ArrayDocRow();
  }

  lemma ArrayDocEmit()
    ensures Emit(["a[1]:", "  x"]) == "a[1]:\n  x" + "\n"
    ensures !IsWs("a[1]:\n  x"[|"a[1]:\n  x"| - 1])
  {
    EmitTwo("a[1]:", "  x");
    assert "a[1]:" + "\n" + "  x" + "\n" == "a[1]:\n  x" + "\n";
  }

  lemma FormatFromOutput(text: string, outs: seq<string>, r: string)
    requires FormatLines(Split(text, '\n')).0 == outs
    requires Emit(outs) == r + "\n"
    requires r != [] && !IsWs(r[|r| - 1])
    ensures Format(text) == r
  {
    TrimFinalBreak(r);
  }

  /** A row under an array header is indented by two spaces, and the trailing line break is dropped. */
  lemma FormatIndentsRows()
    ensures Format(ArrayDoc) == "a[1]:\n  x"
  {
    ArrayDocOutput();
    ArrayDocEmit();
    FormatFromOutput(ArrayDoc, ["a[1]:", "  x"], "a[1]:\n  x");
  }
}
