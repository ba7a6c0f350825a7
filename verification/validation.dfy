/**
 The end of `validateDocument`: the document is split into lines, scanned,
 and every tracked array whose declared length differs from its counted
 length yields one warning, anchored on the whole header line, in the order
 the headers appear.
 */
module Validation {
  import opened Text
  import opened Decimal
  import opened Header
  import opened Scanner

  /** A length-mismatch diagnostic: the array, both lengths, and the header line it spans (columns 0 to `width`). */
  datatype Warning = Warning(name: string, declared: nat, actual: nat, line: nat, width: nat)

  predicate Mismatched(a: ArrayInfo) {
    a.declaredLength != a.actualLength
  }

  function WarningFor(a: ArrayInfo, lines: seq<string>): Warning
    requires a.line < |lines|
  {
    Warning(a.name, a.declaredLength, a.actualLength, a.line, |lines[a.line]|)
  }

  predicate LinesIncrease(arrays: seq<ArrayInfo>) {
    forall k, l :: 0 <= k < l < |arrays| ==> arrays[k].line < arrays[l].line
  }

  predicate WarningsIncrease(ws: seq<Warning>) {
    forall k, l :: 0 <= k < l < |ws| ==> ws[k].line < ws[l].line
  }

  /** The check after the loop (src/extension.ts:114-129): one warning per mismatched array, in order. */
  function Mismatches(arrays: seq<ArrayInfo>, lines: seq<string>): (ws: seq<Warning>)
    requires forall k :: 0 <= k < |arrays| ==> arrays[k].line < |lines|
    ensures |ws| <= |arrays|
  {
    if arrays == [] then []
    else
      var a := arrays[|arrays| - 1];
      Mismatches(arrays[..|arrays| - 1], lines) + (if Mismatched(a) then [WarningFor(a, lines)] else [])
  }

  /** Every warning reports a mismatched array. */
  lemma {:induction false} MismatchesSound(arrays: seq<ArrayInfo>, lines: seq<string>)
    requires forall k :: 0 <= k < |arrays| ==> arrays[k].line < |lines|
    ensures forall w :: w in Mismatches(arrays, lines) ==>
      exists a :: a in arrays && Mismatched(a) && w == WarningFor(a, lines)
  {
    if arrays != [] {
      var init := arrays[..|arrays| - 1];
      MismatchesSound(init, lines);
      assert forall a :: a in init ==> a in arrays;
    }
  }

  /** Every mismatched array is reported. */
  lemma {:induction false} MismatchesComplete(arrays: seq<ArrayInfo>, lines: seq<string>)
    requires forall k :: 0 <= k < |arrays| ==> arrays[k].line < |lines|
    ensures forall j :: 0 <= j < |arrays| && Mismatched(arrays[j]) ==> WarningFor(arrays[j], lines) in Mismatches(arrays, lines)
  {
    if arrays != [] {
      var init := arrays[..|arrays| - 1];
      MismatchesComplete(init, lines);
      forall j | 0 <= j < |arrays| - 1 && Mismatched(arrays[j])
        ensures WarningFor(arrays[j], lines) in Mismatches(arrays, lines)
      {
        assert arrays[j] == init[j];
      }
    }
  }

  /** Warnings come in the order of their header lines. */
  lemma {:induction false} MismatchesOrdered(arrays: seq<ArrayInfo>, lines: seq<string>)
    requires forall k :: 0 <= k < |arrays| ==> arrays[k].line < |lines|
    requires LinesIncrease(arrays)
    ensures WarningsIncrease(Mismatches(arrays, lines))
  {
    if arrays != [] {
      var init := arrays[..|arrays| - 1];
      var last := arrays[|arrays| - 1];
      MismatchesOrdered(init, lines);
      MismatchesSound(init, lines);
      var ws0 := Mismatches(init, lines);
      forall k | 0 <= k < |ws0|
        ensures ws0[k].line < last.line
      {
        assert ws0[k] in ws0;
        var a :| a in init && Mismatched(a) && ws0[k] == WarningFor(a, lines);
        var j :| 0 <= j < |init| && init[j] == a;
        assert arrays[j] == a;
      }
      var ws := Mismatches(arrays, lines);
      assert ws == ws0 + (if Mismatched(last) then [WarningFor(last, lines)] else []);
      forall k, l | 0 <= k < l < |ws|
        ensures ws[k].line < ws[l].line
      {
        if l < |ws0| {
          assert ws[k] == ws0[k] && ws[l] == ws0[l];
          assert ws0[k].line < ws0[l].line;
        } else {
          assert ws[k] == ws0[k] && ws[l].line == last.line;
        }
      }
    }
  }

  /** The array name as the message shows it: `[root]` for the nameless root array. */
  function Label(name: string): (s: string)
    ensures s != []
  {
    if name == [] then "[root]" else name
  }

  /** `Array "<name>" declared length D but has C items` */
  function Message(w: Warning): string {
    "Array \"" + Label(w.name) + "\" declared length " + NatToString(w.declared) + " but has " + NatToString(w.actual) + " items"
  }

  /** Scanning the lines of a document and checking the arrays found. */
  function Check(lines: seq<string>): seq<Warning> {
    var vs := Views(lines);
    ScanIsRegionCount(vs, |vs|);
    Mismatches(ScanUpTo(vs, |vs|).arrays, lines)
  }

  /** `validateDocument` with validation enabled: the warnings for a document. */
  function Validate(text: string): seq<Warning> {
    Check(Split(text, '\n'))
  }

  /** The warning the region reading predicts for the header on line `h`. */
  function Expected(vs: seq<LineView>, lines: seq<string>, h: nat): Warning
    requires |vs| == |lines| && h < |vs| && ValidView(vs[h]) && vs[h].header.Some?
  {
    WarningFor(Fresh(vs, h).(actualLength := BodyCount(vs, h, |vs|)), lines)
  }

  /** The tracked arrays of a full scan, read through the region reading. */
  lemma FullScan(lines: seq<string>)
    ensures var vs := Views(lines);
      var st := ScanUpTo(vs, |vs|);
      var hs := HeaderLines(vs, |vs|);
      && |st.arrays| == |hs|
      && (forall k :: 0 <= k < |hs| ==> st.arrays[k] == Fresh(vs, hs[k]).(actualLength := BodyCount(vs, hs[k], |vs|)))
      && (forall k :: 0 <= k < |hs| ==> st.arrays[k].line == hs[k])
      && LinesIncrease(st.arrays)
  {
    var vs := Views(lines);
    var st := ScanUpTo(vs, |vs|);
    var hs := HeaderLines(vs, |vs|);
    ScanIsRegionCount(vs, |vs|);
    assert Agrees(vs, |vs|, st);
    forall k | 0 <= k < |hs|
      ensures st.arrays[k].line == hs[k]
    {
      assert st.arrays[k] == Fresh(vs, hs[k]).(actualLength := BodyCount(vs, hs[k], |vs|));
    }
  }

  /** Every warning is the one predicted for a header line whose body holds a different number of items. */
  lemma CheckSound(lines: seq<string>)
    ensures var vs := Views(lines);
      forall w :: w in Check(lines) ==>
        && w.line < |vs| && vs[w.line].header.Some?
        && w == Expected(vs, lines, w.line)
        && w.declared != w.actual
  {
    var vs := Views(lines);
    var st := ScanUpTo(vs, |vs|);
    FullScan(lines);
    MismatchesSound(st.arrays, lines);
    forall w | w in Check(lines)
      ensures w.line < |vs| && vs[w.line].header.Some? && w == Expected(vs, lines, w.line) && w.declared != w.actual
    {
      var a :| a in st.arrays && Mismatched(a) && w == WarningFor(a, lines);
      var k :| 0 <= k < |st.arrays| && st.arrays[k] == a;
    }
  }

  /** Every header line whose body holds a different number of items than declared gets its warning. */
  lemma CheckComplete(lines: seq<string>)
    ensures var vs := Views(lines);
      forall h :: 0 <= h < |vs| && vs[h].header.Some? && Fresh(vs, h).declaredLength != BodyCount(vs, h, |vs|) ==>
        Expected(vs, lines, h) in Check(lines)
  {
    var vs := Views(lines);
    var st := ScanUpTo(vs, |vs|);
    var hs := HeaderLines(vs, |vs|);
    FullScan(lines);
    MismatchesComplete(st.arrays, lines);
    forall h | 0 <= h < |vs| && vs[h].header.Some? && Fresh(vs, h).declaredLength != BodyCount(vs, h, |vs|)
      ensures Expected(vs, lines, h) in Check(lines)
    {
      HeaderLinesComplete(vs, |vs|, h);
      var k :| 0 <= k < |hs| && hs[k] == h;
      assert st.arrays[k] == Fresh(vs, h).(actualLength := BodyCount(vs, h, |vs|));
    }
  }

  /** Warnings come in the order of their header lines. */
  lemma CheckOrdered(lines: seq<string>)
    ensures WarningsIncrease(Check(lines))
  {
    var vs := Views(lines);
    FullScan(lines);
    MismatchesOrdered(ScanUpTo(vs, |vs|).arrays, lines);
  }

  /**
   The warnings of a document are exactly one per header line whose
   declared length differs from the items its body holds, each spanning
   its header line, in the order of the header lines.
   */
  lemma ValidateReportsMismatchedBodies(text: string)
    ensures var lines := Split(text, '\n');
      var vs := Views(lines);
      var ws := Validate(text);
      && WarningsIncrease(ws)
      && (forall w :: w in ws ==>
            && w.line < |vs| && vs[w.line].header.Some?
            && w == Expected(vs, lines, w.line)
            && w.declared != w.actual)
      && (forall h :: 0 <= h < |vs| && vs[h].header.Some? && Fresh(vs, h).declaredLength != BodyCount(vs, h, |vs|) ==>
            Expected(vs, lines, h) in ws)
  {
    var lines := Split(text, '\n');
    CheckSound(lines);
    CheckComplete(lines);
    CheckOrdered(lines);
  }

  /** A document without header lines, the empty document among them, gets no warnings. */
  lemma NoHeadersNoWarnings(text: string)
    requires forall line :: line in Split(text, '\n') ==> Classify(Trim(line)).None?
    ensures Validate(text) == []
  {
    var lines := Split(text, '\n');
    var vs := Views(lines);
    FullScan(lines);
    forall k | 0 <= k < |vs|
      ensures vs[k].header.None?
    {
      assert lines[k] in lines;
    }
    NoHeaderLines(vs, |vs|);
  }

  /** The two numbers in a warning's message read back as its declared and counted lengths. */
  lemma MessageReadsBack(w: Warning)
    ensures exists declared: string, counted: string ::
      && AllDigits(declared) && ParseNat(declared) == w.declared
      && AllDigits(counted) && ParseNat(counted) == w.actual
      && Message(w) == "Array \"" + Label(w.name) + "\" declared length " + declared + " but has " + counted + " items"
  {
    ParsePrinted(w.declared);
    ParsePrinted(w.actual);
    var declared := NatToString(w.declared);
    var counted := NatToString(w.actual);
    assert AllDigits(declared) && ParseNat(declared) == w.declared;
    assert AllDigits(counted) && ParseNat(counted) == w.actual;
  }
}
