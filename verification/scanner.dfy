/**
 The array-length check of `validateDocument`: one pass over the lines of a
 document, tracking arrays opened by header lines, counting their items on
 the lines of their indented body, and warning about every array whose
 counted length differs from its declared length.

 The pass is the left fold `ScanUpTo` of the state machine `Step`. Its
 independent reading is region-based: the body of the array declared on
 line `h` runs while lines are not headers and are blank, `//` comments, or
 indented to at least the header's indentation plus 2 (`Open`), and its
 count is the sum of what those lines contribute (`BodyCount`).
 `ScanIsRegionCount` proves the two agree.
 */
module Scanner {
  import opened Wrappers
  import opened Text
  import opened Decimal
  import opened Header

  /**
   A tracked array (the source's `ArrayInfo`). `isTabular` and `isInline`
   select the counting rule; a root array is `isInline` with the empty name.
   */
  datatype ArrayInfo = ArrayInfo(
    name: string,
    declaredLength: nat,
    actualLength: nat,
    line: nat,
    delimiter: string,
    fields: Option<seq<string>>,
    isTabular: bool,
    isInline: bool)

  /**
   The scanner's state: every array seen so far, whether the last of them
   is still being counted (the source's `currentArray`, which always refers
   to the array pushed last), and the indentation its body lines need.
   */
  datatype ScanState = ScanState(arrays: seq<ArrayInfo>, active: bool, indentLevel: nat)

  const Initial := ScanState([], false, 0)

  /** An active array exists, and the indentation level is reset together with it. */
  predicate Valid(st: ScanState) {
    && (st.active ==> |st.arrays| > 0)
    && (!st.active ==> st.indentLevel == 0)
  }

  function TrimAll(parts: seq<string>): (r: seq<string>)
    ensures |r| == |parts|
    ensures forall k :: 0 <= k < |r| ==> r[k] == Trim(parts[k])
  {
    seq(|parts|, k requires 0 <= k < |parts| => Trim(parts[k]))
  }

  /** The captured delimiter, or `','` when the optional group captured nothing (`match[3] || ','`). */
  function DelimiterOf(capture: string): (d: string)
    requires IsDelimiterCapture(capture)
    ensures |d| == 1 && IsDelimiterChar(d[0])
    ensures capture != [] ==> d == capture
    ensures capture == [] ==> d == ","
  {
    if capture == [] then "," else capture
  }

  /** The array a header line opens: nothing counted yet, anchored at line `i`. */
  function NewArray(h: HeaderMatch, i: nat): (a: ArrayInfo)
    requires WellFormed(h)
    ensures a.actualLength == 0 && a.line == i
    ensures a.declaredLength == ParseNat(h.digits)
    ensures |a.delimiter| == 1 && IsDelimiterChar(a.delimiter[0])
    ensures a.isTabular <==> h.shape.Tabular?
    ensures a.isInline <==> !h.shape.Tabular?
    ensures a.fields.Some? <==> h.shape.Tabular?
    ensures h.shape.Root? ==> a.name == [] && a.delimiter == ","
    ensures !h.shape.Root? ==> a.name == h.name && a.name != []
  {
    match h.shape
    case Tabular(f) =>
      ArrayInfo(h.name, ParseNat(h.digits), 0, i, DelimiterOf(h.delim), Some(TrimAll(Split(f, ','))), true, false)
    case Inline =>
      ArrayInfo(h.name, ParseNat(h.digits), 0, i, DelimiterOf(h.delim), None, false, true)
    case Root =>
      ArrayInfo([], ParseNat(h.digits), 0, i, ",", None, false, true)
  }

  /** Blank and `//` lines neither count toward an array nor close it. */
  predicate IsNeutral(trimmed: string) {
    trimmed == [] || "//" <= trimmed
  }

  /**
   The separator a body line is split on:
   `delimiter === '\\t' ? '\t' : delimiter || ','`. The first branch needs
   the two-character text backslash-t, which a one-character capture never
   is (see `SeparatorIsDelimiter`).
   */
  function Separator(delimiter: string): char {
    if delimiter == "\\t" then '\t'
    else if delimiter != [] then delimiter[0]
    else ','
  }

  /**
   Items one counted body line adds: a list-marker line adds one whatever
   the array, a tabular row adds one, and an inline or root line adds the
   number of pieces it splits into.
   */
  function Items(trimmed: string, a: ArrayInfo): nat {
    if "-" <= trimmed then 1
    else if a.isTabular then 1
    else if a.isInline then |Split(trimmed, Separator(a.delimiter))|
    else 0
  }

  /**
   What the loop body computes about line `i` before acting on it
   (src/extension.ts:35-40, 58, 75): the trimmed text, the indentation,
   and the header pattern it matches, if any.
   */
  datatype LineView = LineView(trimmed: string, indent: nat, header: Option<HeaderMatch>)

  predicate ValidView(v: LineView) {
    v.header.Some? ==> WellFormed(v.header.value)
  }

  function View(line: string): (v: LineView)
    ensures ValidView(v)
    ensures v.trimmed == Trim(line) && v.indent == Indent(line)
    ensures v.header.Some? ==> Render(v.header.value) <= v.trimmed
  {
    LineView(Trim(line), Indent(line), Classify(Trim(line)))
  }

  /** A line reports a header exactly when that header is well formed and starts the trimmed line. */
  lemma ViewHeaderIff(line: string, h: HeaderMatch)
    ensures View(line).header == Some(h) <==> WellFormed(h) && Render(h) <= Trim(line)
  {
    ClassifyIff(Trim(line), h);
  }

  function Views(lines: seq<string>): (vs: seq<LineView>)
    ensures |vs| == |lines|
    ensures forall k :: 0 <= k < |vs| ==> vs[k] == View(lines[k])
  {
    seq(|lines|, k requires 0 <= k < |lines| => View(lines[k]))
  }

  predicate AllValid(vs: seq<LineView>) {
    forall k :: 0 <= k < |vs| ==> ValidView(vs[k])
  }

  function Last<T>(s: seq<T>): T
    requires |s| > 0
  {
    s[|s| - 1]
  }

  /** One iteration of the loop over the lines (src/extension.ts:35-110), on line `i`. */
  function Step(st: ScanState, v: LineView, i: nat): (r: ScanState)
    requires Valid(st) && ValidView(v)
    ensures Valid(r)
    ensures |r.arrays| >= |st.arrays|
  {
    match v.header
    case Some(h) =>
      ScanState(st.arrays + [NewArray(h, i)], true, v.indent + 2)
    case None =>
      var arrays :=
        if st.active && v.indent >= st.indentLevel && !IsNeutral(v.trimmed) then
          var cur := Last(st.arrays);
          st.arrays[..|st.arrays| - 1] + [cur.(actualLength := cur.actualLength + Items(v.trimmed, cur))]
        else st.arrays;
      if st.active && v.indent < st.indentLevel && !IsNeutral(v.trimmed) then ScanState(arrays, false, 0)
      else ScanState(arrays, st.active, st.indentLevel)
  }

  /** The state after the first `n` lines. */
  function ScanUpTo(vs: seq<LineView>, n: nat): (st: ScanState)
    requires n <= |vs| && AllValid(vs)
    ensures Valid(st)
    decreases n
  {
    if n == 0 then Initial else Step(ScanUpTo(vs, n - 1), vs[n - 1], n - 1)
  }

  /**
   A header line appends exactly one fresh array, makes it the active one
   (replacing any earlier one), sets its body indentation to the header's
   plus 2, and counts nothing.
   */
  lemma StepOnHeader(st: ScanState, v: LineView, i: nat)
    requires Valid(st) && ValidView(v) && v.header.Some?
    ensures var r := Step(st, v, i);
      && r.arrays == st.arrays + [NewArray(v.header.value, i)]
      && r.active && r.indentLevel == v.indent + 2
  {
  }

  /**
   Any other line leaves every array but the last untouched; it adds to the
   last one only when that one is active, the line is not blank or a `//`
   comment, and it is indented to the active indentation level; and it
   closes the active array exactly when it is not blank or `//` and less
   indented than that.
   */
  lemma StepOnBody(st: ScanState, v: LineView, i: nat)
    requires Valid(st) && ValidView(v) && v.header.None?
    ensures var r := Step(st, v, i);
      var counted := st.active && v.indent >= st.indentLevel && !IsNeutral(v.trimmed);
      && |r.arrays| == |st.arrays|
      && (forall k :: 0 <= k < |st.arrays| - 1 ==> r.arrays[k] == st.arrays[k])
      && (!counted ==> r.arrays == st.arrays)
      && (counted ==> Last(r.arrays) == Last(st.arrays).(actualLength := Last(st.arrays).actualLength + Items(v.trimmed, Last(st.arrays))))
      && (r.active <==> st.active && (IsNeutral(v.trimmed) || v.indent >= st.indentLevel))
      && (r.active ==> r.indentLevel == st.indentLevel)
  {
  }

  // ----- The region-based reading of the scan -----

  /** The array the header on line `h` opens. */
  function Fresh(vs: seq<LineView>, h: nat): ArrayInfo
    requires h < |vs| && ValidView(vs[h]) && vs[h].header.Some?
  {
    NewArray(vs[h].header.value, h)
  }

  /** A line inside a body that does not end it: not a header, and blank, `//`, or indented enough. */
  predicate KeepsOpen(v: LineView, boundary: nat) {
    v.header.None? && (IsNeutral(v.trimmed) || v.indent >= boundary)
  }

  /** The body of the array declared on line `h` still extends through line `j`. */
  predicate Open(vs: seq<LineView>, h: nat, j: nat)
    requires h < |vs| && j < |vs|
  {
    forall m :: h < m <= j ==> KeepsOpen(vs[m], vs[h].indent + 2)
  }

  /** What a line inside a body adds to its array: nothing when blank or `//`. */
  function Contribution(v: LineView, a: ArrayInfo): nat {
    if IsNeutral(v.trimmed) then 0 else Items(v.trimmed, a)
  }

  /** The items of the array declared on line `h` found on its body lines among the first `n` lines. */
  function BodyCount(vs: seq<LineView>, h: nat, n: nat): nat
    requires h < |vs| && ValidView(vs[h]) && vs[h].header.Some? && n <= |vs|
    decreases n
  {
    if n <= h + 1 then 0
    else BodyCount(vs, h, n - 1) + (if Open(vs, h, n - 1) then Contribution(vs[n - 1], Fresh(vs, h)) else 0)
  }

  /** The indices of the header lines among the first `n` lines, in increasing order. */
  function HeaderLines(vs: seq<LineView>, n: nat): (hs: seq<nat>)
    requires n <= |vs|
    ensures forall k :: 0 <= k < |hs| ==> hs[k] < n && vs[hs[k]].header.Some?
    ensures forall k, l :: 0 <= k < l < |hs| ==> hs[k] < hs[l]
    decreases n
  {
    if n == 0 then []
    else HeaderLines(vs, n - 1) + (if vs[n - 1].header.Some? then [n - 1] else [])
  }

  /** Without header lines among the first `n` lines, none is listed. */
  lemma {:induction false} NoHeaderLines(vs: seq<LineView>, n: nat)
    requires n <= |vs| && forall k :: 0 <= k < n ==> vs[k].header.None?
    ensures HeaderLines(vs, n) == []
    decreases n
  {
    if n > 0 {
      NoHeaderLines(vs, n - 1);
    }
  }

  /** Every header line among the first `n` lines is listed. */
  lemma {:induction false} HeaderLinesComplete(vs: seq<LineView>, n: nat, j: nat)
    requires j < n <= |vs| && vs[j].header.Some?
    ensures j in HeaderLines(vs, n)
    decreases n
  {
    if j < n - 1 {
      HeaderLinesComplete(vs, n - 1, j);
    }
  }

  /** The body of `h` cannot reach past a later header. */
  lemma ClosedByHeader(vs: seq<LineView>, h: nat, g: nat, j: nat)
    requires h < g <= j < |vs| && vs[g].header.Some?
    ensures !Open(vs, h, j)
  {
    assert !KeepsOpen(vs[g], vs[h].indent + 2);
  }

  /**
   The state `st` is what the region reading predicts after `n` lines: one
   array per header line, in order, each with the fields its header gives
   and exactly the items its body contributed so far; an array is active
   exactly when it is the last one and its body is still open, and the
   active indentation level is then that body's boundary.
   */
  predicate Agrees(vs: seq<LineView>, n: nat, st: ScanState)
    requires n <= |vs| && AllValid(vs)
  {
    AgreesOn(vs, n, HeaderLines(vs, n), st)
  }

  /** `Agrees`, with the header lines `hs` given. */
  predicate AgreesOn(vs: seq<LineView>, n: nat, hs: seq<nat>, st: ScanState)
    requires n <= |vs| && AllValid(vs)
    requires forall k :: 0 <= k < |hs| ==> hs[k] < n && vs[hs[k]].header.Some?
  {
    && |st.arrays| == |hs|
    && (forall k :: 0 <= k < |hs| ==> st.arrays[k] == Fresh(vs, hs[k]).(actualLength := BodyCount(vs, hs[k], n)))
    && (st.active <==> |hs| > 0 && Open(vs, hs[|hs| - 1], n - 1))
    && (st.active ==> st.indentLevel == vs[hs[|hs| - 1]].indent + 2)
  }

  /** Once the body of `h` has ended, later lines add nothing to its count. */
  lemma BodyCountClosed(vs: seq<LineView>, h: nat, n: nat)
    requires h < |vs| && ValidView(vs[h]) && vs[h].header.Some? && h < n <= |vs|
    requires !Open(vs, h, n - 1)
    ensures BodyCount(vs, h, n) == BodyCount(vs, h, n - 1)
  {
  }

  lemma AgreesAfterHeader(vs: seq<LineView>, n: nat, prev: ScanState)
    requires 0 < n <= |vs| && AllValid(vs) && Valid(prev) && Agrees(vs, n - 1, prev)
    requires vs[n - 1].header.Some?
    ensures Agrees(vs, n, Step(prev, vs[n - 1], n - 1))
  {
    var st := Step(prev, vs[n - 1], n - 1);
    var hs0 := HeaderLines(vs, n - 1);
    var hs := HeaderLines(vs, n);
    StepOnHeader(prev, vs[n - 1], n - 1);
    assert hs == hs0 + [n - 1];
    assert |st.arrays| == |hs|;
    forall k | 0 <= k < |hs0|
      ensures st.arrays[k] == Fresh(vs, hs[k]).(actualLength := BodyCount(vs, hs[k], n))
    {
      var h := hs0[k];
      assert st.arrays[k] == prev.arrays[k];
      assert prev.arrays[k] == Fresh(vs, h).(actualLength := BodyCount(vs, h, n - 1));
      ClosedByHeader(vs, h, n - 1, n - 1);
      BodyCountClosed(vs, h, n);
    }
    assert st.arrays[|hs0|] == Fresh(vs, n - 1);
    assert BodyCount(vs, n - 1, n) == 0;
    assert Open(vs, n - 1, n - 1);
  }

  /** Extending a body by one line. */
  lemma OpenStep(vs: seq<LineView>, h: nat, j: nat)
    requires h < j < |vs|
    ensures Open(vs, h, j) <==> Open(vs, h, j - 1) && KeepsOpen(vs[j], vs[h].indent + 2)
  {
  }

  /** Only the actual length differs between a fresh array and its counted version, so the counting rule is the same. */
  lemma ItemsIgnoreCount(t: string, a: ArrayInfo, x: nat)
    ensures Items(t, a.(actualLength := x)) == Items(t, a)
  {
  }

  /** The last tracked array after a non-header line. */
  lemma LastBodyStep(vs: seq<LineView>, n: nat, prev: ScanState, h: nat)
    requires 0 < n <= |vs| && AllValid(vs) && Valid(prev) && Agrees(vs, n - 1, prev)
    requires vs[n - 1].header.None?
    requires var hs := HeaderLines(vs, n - 1); |hs| > 0 && h == hs[|hs| - 1]
    ensures var st := Step(prev, vs[n - 1], n - 1);
      && |st.arrays| == |prev.arrays|
      && Last(st.arrays) == Fresh(vs, h).(actualLength := BodyCount(vs, h, n))
      && (st.active <==> Open(vs, h, n - 1))
      && (st.active ==> st.indentLevel == vs[h].indent + 2)
  {
    LastCountStep(vs, n, prev, h);
    LastActiveStep(vs, n, prev, h);
  }

  /** What a non-header line adds to the last tracked array is what it adds to the last body. */
  lemma LastCountStep(vs: seq<LineView>, n: nat, prev: ScanState, h: nat)
    requires 0 < n <= |vs| && AllValid(vs) && Valid(prev) && Agrees(vs, n - 1, prev)
    requires vs[n - 1].header.None?
    requires var hs := HeaderLines(vs, n - 1); |hs| > 0 && h == hs[|hs| - 1]
    ensures var st := Step(prev, vs[n - 1], n - 1);
      && |st.arrays| == |prev.arrays|
      && Last(st.arrays) == Fresh(vs, h).(actualLength := BodyCount(vs, h, n))
  {
    var v := vs[n - 1];
    var a := Fresh(vs, h);
    var c0 := BodyCount(vs, h, n - 1);
    PrevLast(vs, n, prev, h);
    BodyCountStep(vs, h, n);
    StepOnBody(prev, v, n - 1);
    ItemsIgnoreCount(v.trimmed, a, c0);
  }

  /** Before a non-header line, the last tracked array is the last header's, with its body so far. */
  lemma PrevLast(vs: seq<LineView>, n: nat, prev: ScanState, h: nat)
    requires 0 < n <= |vs| && AllValid(vs) && Valid(prev) && Agrees(vs, n - 1, prev)
    requires var hs := HeaderLines(vs, n - 1); |hs| > 0 && h == hs[|hs| - 1]
    ensures h < n - 1 && |prev.arrays| > 0
    ensures Last(prev.arrays) == Fresh(vs, h).(actualLength := BodyCount(vs, h, n - 1))
    ensures prev.active <==> Open(vs, h, n - 2)
    ensures prev.active ==> prev.indentLevel == vs[h].indent + 2
  {
    var hs := HeaderLines(vs, n - 1);
    assert Last(prev.arrays) == prev.arrays[|hs| - 1];
  }

  /** One more line adds its items to a body exactly when the body stays open through it and the line is not blank or `//`. */
  lemma BodyCountStep(vs: seq<LineView>, h: nat, n: nat)
    requires h + 1 < n <= |vs| && ValidView(vs[h]) && vs[h].header.Some?
    ensures var v := vs[n - 1];
      BodyCount(vs, h, n) == BodyCount(vs, h, n - 1) +
        (if Open(vs, h, n - 2) && v.header.None? && v.indent >= vs[h].indent + 2 && !IsNeutral(v.trimmed)
         then Items(v.trimmed, Fresh(vs, h)) else 0)
  {
    OpenStep(vs, h, n - 1);
  }

  /** A non-header line leaves the scan active exactly when it keeps the last body open. */
  lemma LastActiveStep(vs: seq<LineView>, n: nat, prev: ScanState, h: nat)
    requires 0 < n <= |vs| && AllValid(vs) && Valid(prev) && Agrees(vs, n - 1, prev)
    requires vs[n - 1].header.None?
    requires var hs := HeaderLines(vs, n - 1); |hs| > 0 && h == hs[|hs| - 1]
    ensures var st := Step(prev, vs[n - 1], n - 1);
      && (st.active <==> Open(vs, h, n - 1))
      && (st.active ==> st.indentLevel == vs[h].indent + 2)
  {
    StepOnBody(prev, vs[n - 1], n - 1);
    assert h < n - 1;
    OpenStep(vs, h, n - 1);
    if prev.active {
      assert prev.indentLevel == vs[h].indent + 2;
    } else {
      assert !Open(vs, h, n - 2);
    }
  }

  /** A non-header line leaves the arrays before the last one as they were, and so does the region reading. */
  lemma EarlierAfterBody(vs: seq<LineView>, n: nat, prev: ScanState, k: nat)
    requires 0 < n <= |vs| && AllValid(vs) && Valid(prev) && Agrees(vs, n - 1, prev)
    requires vs[n - 1].header.None?
    requires k + 1 < |HeaderLines(vs, n - 1)|
    ensures var hs := HeaderLines(vs, n - 1);
      Step(prev, vs[n - 1], n - 1).arrays[k] == Fresh(vs, hs[k]).(actualLength := BodyCount(vs, hs[k], n))
  {
    var hs := HeaderLines(vs, n - 1);
    var h := hs[k];
    StepOnBody(prev, vs[n - 1], n - 1);
    assert prev.arrays[k] == Fresh(vs, h).(actualLength := BodyCount(vs, h, n - 1));
    ClosedByHeader(vs, h, hs[|hs| - 1], n - 1);
    BodyCountClosed(vs, h, n);
  }

  /** The facts that make a state agree with the region reading after a non-header line. */
  lemma AgreesWithoutHeader(vs: seq<LineView>, n: nat, st: ScanState)
    requires 0 < n <= |vs| && AllValid(vs) && vs[n - 1].header.None?
    requires var hs := HeaderLines(vs, n - 1);
      && |st.arrays| == |hs|
      && (forall k :: 0 <= k < |hs| - 1 ==> st.arrays[k] == Fresh(vs, hs[k]).(actualLength := BodyCount(vs, hs[k], n)))
      && (|hs| == 0 ==> !st.active)
      && (|hs| > 0 ==>
            var h := hs[|hs| - 1];
            && Last(st.arrays) == Fresh(vs, h).(actualLength := BodyCount(vs, h, n))
            && (st.active <==> Open(vs, h, n - 1))
            && (st.active ==> st.indentLevel == vs[h].indent + 2))
    ensures AgreesOn(vs, n, HeaderLines(vs, n - 1), st)
  {
    var hs := HeaderLines(vs, n - 1);
    forall k | 0 <= k < |hs|
      ensures st.arrays[k] == Fresh(vs, hs[k]).(actualLength := BodyCount(vs, hs[k], n))
    {
      if k == |hs| - 1 {
        assert st.arrays[k] == Last(st.arrays);
      }
    }
  }

  /** A line that is not a header adds no header line. */
  lemma HeaderLinesSkip(vs: seq<LineView>, n: nat)
    requires 0 < n <= |vs| && vs[n - 1].header.None?
    ensures HeaderLines(vs, n) == HeaderLines(vs, n - 1)
  {
  }

  lemma AgreesAfterBody(vs: seq<LineView>, n: nat, prev: ScanState)
    requires 0 < n <= |vs| && AllValid(vs) && Valid(prev) && Agrees(vs, n - 1, prev)
    requires vs[n - 1].header.None?
    ensures Agrees(vs, n, Step(prev, vs[n - 1], n - 1))
  {
    var st := Step(prev, vs[n - 1], n - 1);
    var hs := HeaderLines(vs, n - 1);
    StepOnBody(prev, vs[n - 1], n - 1);
    if |hs| > 0 {
      LastBodyStep(vs, n, prev, hs[|hs| - 1]);
      forall k | 0 <= k < |hs| - 1
        ensures st.arrays[k] == Fresh(vs, hs[k]).(actualLength := BodyCount(vs, hs[k], n))
      {
        EarlierAfterBody(vs, n, prev, k);
      }
    }
    AgreesWithoutHeader(vs, n, st);
    HeaderLinesSkip(vs, n);
  }

  /** The scan agrees with the region reading after every prefix of the document. */
  lemma {:induction false} ScanIsRegionCount(vs: seq<LineView>, n: nat)
    requires n <= |vs| && AllValid(vs)
    ensures Agrees(vs, n, ScanUpTo(vs, n))
    decreases n
  {
    if n > 0 {
      ScanIsRegionCount(vs, n - 1);
      if vs[n - 1].header.Some? {
        AgreesAfterHeader(vs, n, ScanUpTo(vs, n - 1));
      } else {
        AgreesAfterBody(vs, n, ScanUpTo(vs, n - 1));
      }
    }
  }

  // ----- Consequences -----

  lemma {:induction false} HeaderLinesPrefix(vs: seq<LineView>, m: nat, n: nat)
    requires m <= n <= |vs|
    ensures HeaderLines(vs, m) <= HeaderLines(vs, n)
    decreases n
  {
    if m < n {
      HeaderLinesPrefix(vs, m, n - 1);
    }
  }

  /** After a line that ends the body of `h`, its count is frozen. */
  lemma {:induction false} BodyCountFrozen(vs: seq<LineView>, h: nat, m: nat, n: nat)
    requires h < m <= n <= |vs| && ValidView(vs[h]) && vs[h].header.Some?
    requires m < |vs| && !KeepsOpen(vs[m], vs[h].indent + 2)
    ensures BodyCount(vs, h, n) == BodyCount(vs, h, m)
    decreases n
  {
    if n > m {
      BodyCountFrozen(vs, h, m, n - 1);
      assert !Open(vs, h, n - 1) by {
        assert !KeepsOpen(vs[m], vs[h].indent + 2);
      }
    }
  }

  /**
   No re-entry: once a line that is not blank or `//` is indented less than
   an array's body boundary (or another header appears), no later line
   changes that array's count, even if the indentation grows again.
   */
  lemma NoReentry(vs: seq<LineView>, k: nat, m: nat, n: nat)
    requires AllValid(vs) && m < |vs| && m <= n <= |vs|
    requires k < |HeaderLines(vs, m)|
    requires var h := HeaderLines(vs, m)[k];
      vs[m].header.Some? || (!IsNeutral(vs[m].trimmed) && vs[m].indent < vs[h].indent + 2)
    ensures k < |ScanUpTo(vs, m).arrays| && k < |ScanUpTo(vs, n).arrays|
    ensures ScanUpTo(vs, n).arrays[k].actualLength == ScanUpTo(vs, m).arrays[k].actualLength
  {
    ScanIsRegionCount(vs, m);
    ScanIsRegionCount(vs, n);
    HeaderLinesPrefix(vs, m, n);
    var hs := HeaderLines(vs, m);
    var h := hs[k];
    assert HeaderLines(vs, n)[k] == h;
    BodyCountFrozen(vs, h, m, n);
  }

  /** Counts never decrease from one line to the next. */
  lemma CountsNeverDecrease(vs: seq<LineView>, n: nat, k: nat)
    requires AllValid(vs) && n < |vs|
    requires k < |ScanUpTo(vs, n).arrays|
    ensures k < |ScanUpTo(vs, n + 1).arrays|
    ensures ScanUpTo(vs, n + 1).arrays[k].actualLength >= ScanUpTo(vs, n).arrays[k].actualLength
  {
    var st := ScanUpTo(vs, n);
    if vs[n].header.Some? {
      StepOnHeader(st, vs[n], n);
      assert ScanUpTo(vs, n + 1).arrays[k] == st.arrays[k];
    } else {
      StepOnBody(st, vs[n], n);
      if k == |st.arrays| - 1 {
        assert ScanUpTo(vs, n + 1).arrays[k] == Last(ScanUpTo(vs, n + 1).arrays);
      }
    }
  }

  /**
   The delimiter an array splits its lines on is the character its header
   captured, or a comma (always a comma for a root array); it is never a tab,
   since the tab branch of `Separator` is unreachable.
   */
  lemma SeparatorIsDelimiter(h: HeaderMatch, i: nat)
    requires WellFormed(h)
    ensures var a := NewArray(h, i);
      && Separator(a.delimiter) == (if h.delim == [] then ',' else h.delim[0])
      && Separator(a.delimiter) in {',', '|', '\\', 't'}
      && (h.shape.Root? ==> Separator(a.delimiter) == ',')
  {
  }

  /**
   What one counted line adds, by the array's kind: a list item adds one
   whatever the array, a tabular row adds one, and an inline or root line
   adds one more than the number of its delimiter characters, the delimiter
   being the header's captured character, or `,` when none was captured or
   the array is the root.
   */
  lemma ItemsByKind(trimmed: string, h: HeaderMatch, i: nat)
    requires WellFormed(h)
    ensures var sep := if h.shape.Root? || h.delim == [] then ',' else h.delim[0];
      Items(trimmed, NewArray(h, i)) ==
        if "-" <= trimmed || h.shape.Tabular? then 1 else Count(trimmed, sep) + 1
  {
    var a := NewArray(h, i);
    SeparatorIsDelimiter(h, i);
    JoinSplit(trimmed, Separator(a.delimiter));
  }
}
