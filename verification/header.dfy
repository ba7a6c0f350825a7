/**
 The three anchored header patterns of the extension, written as
 deterministic prefix matchers over a trimmed line:

   tabular  `^([a-zA-Z_][a-zA-Z0-9_]*)\[(\d+)([,\|\\t]?)\]\{([^}]*)\}\s*:`
   inline   `^([a-zA-Z_][a-zA-Z0-9_]*)\[(\d+)([,\|\\t]?)\]\s*:`
   root     `^\[(\d+)\]\s*:`

 and the top-level property pattern `^[a-zA-Z_][a-zA-Z0-9_]*\s*:` used by
 the formatter. Each pattern is deterministic (every repetition is followed
 by a character it cannot consume), so a greedy scan finds the only match.

 `Render` and `WellFormed` give the independent, generative reading of each
 pattern: a match is exactly a well-formed header whose text is a prefix of
 the line.
 */
module Header {
  import opened Wrappers
  import opened Text
  import opened Decimal

  predicate IsIdentStart(c: char) {
    'a' <= c <= 'z' || 'A' <= c <= 'Z' || c == '_'
  }

  predicate IsIdentChar(c: char) {
    IsIdentStart(c) || IsDigit(c)
  }

  /**
   The class `[,\|\\t]` as the regular-expression literal spells it: comma,
   pipe, backslash and the letter `t`. It matches one character, so the
   two-character escape `\t` can never be captured.
   */
  predicate IsDelimiterChar(c: char) {
    c == ',' || c == '|' || c == '\\' || c == 't'
  }

  /** The character classes the patterns repeat. */
  datatype CharClass = IdentChars | Digits | Blanks | NotCloseBrace

  predicate InClass(c: char, cls: CharClass) {
    match cls
    case IdentChars => IsIdentChar(c)
    case Digits => IsDigit(c)
    case Blanks => IsWs(c)
    case NotCloseBrace => c != '}'
  }

  predicate AllIn(s: string, cls: CharClass) {
    forall k :: 0 <= k < |s| ==> InClass(s[k], cls)
  }

  /** End of the greedy run of `cls` characters in `t` starting at `i`. */
  function Span(t: string, i: nat, cls: CharClass): (j: nat)
    requires i <= |t|
    ensures i <= j <= |t|
    ensures j < |t| ==> !InClass(t[j], cls)
    decreases |t| - i
  {
    if i < |t| && InClass(t[i], cls) then Span(t, i + 1, cls) else i
  }

  /** Every character of a greedy run is in its class. */
  lemma {:induction false} SpanAll(t: string, i: nat, cls: CharClass)
    requires i <= |t|
    ensures AllIn(t[i..Span(t, i, cls)], cls)
    decreases |t| - i
  {
    if i < |t| && InClass(t[i], cls) {
      SpanAll(t, i + 1, cls);
      var j := Span(t, i, cls);
      assert t[i..j] == [t[i]] + t[i + 1..j];
    }
  }

  /** What follows the bracket: a `{fields}` list, nothing, or (root) no name at all. */
  datatype Shape = Tabular(fieldText: string) | Inline | Root

  /**
   The capture groups of a header match (name, digits, delimiter, field
   list), plus the white space `\s*` consumed before the colon.
   */
  datatype HeaderMatch = HeaderMatch(shape: Shape, name: string, digits: string, delim: string, gap: string)

  /** The `name[digits delim]` prefix shared by the tabular and inline patterns; `end` is just past `]`. */
  datatype Bracket = Bracket(name: string, digits: string, delim: string, end: nat)

  predicate IsIdentifier(s: string) {
    |s| > 0 && IsIdentStart(s[0]) && AllIn(s, IdentChars)
  }

  /** What the optional group `([,\|\\t]?)` can capture. */
  predicate IsDelimiterCapture(s: string) {
    s == [] || (|s| == 1 && IsDelimiterChar(s[0]))
  }

  predicate WellFormed(h: HeaderMatch) {
    && |h.digits| > 0 && AllIn(h.digits, Digits)
    && AllIn(h.gap, Blanks)
    && match h.shape
       case Root => h.name == [] && h.delim == []
       case Inline => IsIdentifier(h.name) && IsDelimiterCapture(h.delim)
       case Tabular(f) => IsIdentifier(h.name) && IsDelimiterCapture(h.delim) && AllIn(f, NotCloseBrace)
  }

  function BracketText(name: string, digits: string, delim: string): string {
    name + "[" + digits + delim + "]"
  }

  /** The text a header match covers, from the start of the line to the colon. */
  function Render(h: HeaderMatch): string {
    match h.shape
    case Root => BracketText([], h.digits, []) + (h.gap + ":")
    case Inline => BracketText(h.name, h.digits, h.delim) + (h.gap + ":")
    case Tabular(f) => BracketText(h.name, h.digits, h.delim) + ("{" + f + "}") + (h.gap + ":")
  }

  /** `^([a-zA-Z_][a-zA-Z0-9_]*)\[(\d+)([,\|\\t]?)\]` */
  function MatchBracket(t: string): (r: Option<Bracket>)
    ensures r.Some? ==> r.value.end <= |t|
  {
    if |t| == 0 || !IsIdentStart(t[0]) then None
    else
      var n := Span(t, 1, IdentChars);
      if n == |t| || t[n] != '[' then None
      else
        var d := Span(t, n + 1, Digits);
        if d == n + 1 || d == |t| then None
        else if IsDelimiterChar(t[d]) then
          if d + 1 < |t| && t[d + 1] == ']' then Some(Bracket(t[..n], t[n + 1..d], t[d..d + 1], d + 2))
          else None
        else if t[d] == ']' then Some(Bracket(t[..n], t[n + 1..d], [], d + 1))
        else None
  }

  /** `\s*:` from position `i`: the white space before the colon. */
  function MatchColon(t: string, i: nat): Option<string>
    requires i <= |t|
  {
    var g := Span(t, i, Blanks);
    if g < |t| && t[g] == ':' then Some(t[i..g]) else None
  }

  /** The tabular pattern `name[N]{fields}:` (src/extension.ts:40). */
  function MatchTabular(t: string): Option<HeaderMatch> {
    match MatchBracket(t)
    case None => None
    case Some(b) => TabularTail(t, b)
  }

  /** What the tabular pattern requires after the bracket: `\{([^}]*)\}\s*:`. */
  function TabularTail(t: string, b: Bracket): Option<HeaderMatch>
    requires b.end <= |t|
  {
    if b.end < |t| && t[b.end] == '{' then
      var f := Span(t, b.end + 1, NotCloseBrace);
      if f == |t| then None
      else
        match MatchColon(t, f + 1)
        case None => None
        case Some(gap) => Some(HeaderMatch(Tabular(t[b.end + 1..f]), b.name, b.digits, b.delim, gap))
    else None
  }

  /** The inline pattern `name[N]:` (src/extension.ts:58). */
  function MatchInline(t: string): Option<HeaderMatch> {
    match MatchBracket(t)
    case None => None
    case Some(b) =>
      match MatchColon(t, b.end)
      case None => None
      case Some(gap) => Some(HeaderMatch(Inline, b.name, b.digits, b.delim, gap))
  }

  /** The root pattern `[N]:` (src/extension.ts:75). */
  function MatchRoot(t: string): Option<HeaderMatch> {
    if |t| == 0 || t[0] != '[' then None
    else
      var d := Span(t, 1, Digits);
      if d == 1 || d == |t| || t[d] != ']' then None
      else
        match MatchColon(t, d + 1)
        case None => None
        case Some(gap) => Some(HeaderMatch(Root, [], t[1..d], [], gap))
  }

  /** The patterns tried in the extension's order: tabular, then inline, then root. */
  function Classify(t: string): (r: Option<HeaderMatch>)
    ensures r.Some? ==> WellFormed(r.value) && Render(r.value) <= t
  {
    var tab := MatchTabular(t);
    if tab.Some? then TabularSound(t); tab
    else
      var inl := MatchInline(t);
      if inl.Some? then InlineSound(t); inl
      else if MatchRoot(t).Some? then RootSound(t); MatchRoot(t)
      else None
  }

  /** The top-level property pattern `^[a-zA-Z_][a-zA-Z0-9_]*\s*:` of the formatter. */
  predicate IsProperty(t: string) {
    |t| > 0 && IsIdentStart(t[0]) && MatchColon(t, Span(t, 1, IdentChars)).Some?
  }

  /** A prefix of `t` followed by the slice after it is a longer prefix. */
  lemma PrefixJoin(t: string, i: nat, n: nat)
    requires i + n <= |t|
    ensures t[..i] + t[i..i + n] <= t
  {
    assert t[..i] + t[i..i + n] == t[..i + n];
  }

  /** A text that starts with `p` is `p` followed by the rest. */
  lemma PrefixRest(p: string, t: string)
    requires p <= t
    ensures t == p + t[|p|..]
  {
  }

  /** A run that is all `cls` and stops at a non-`cls` character (or the end) is the greedy span. */
  lemma {:induction false} SpanAt(t: string, i: nat, j: nat, cls: CharClass)
    requires i <= j <= |t|
    requires AllIn(t[i..j], cls)
    requires j < |t| ==> !InClass(t[j], cls)
    ensures Span(t, i, cls) == j
    decreases j - i
  {
    if i < j {
      assert t[i..j][0] == t[i];
      assert t[i + 1..j] == t[i..j][1..];
      SpanAt(t, i + 1, j, cls);
    }
  }

  lemma ColonSound(t: string, i: nat)
    requires i <= |t| && MatchColon(t, i).Some?
    ensures var gap := MatchColon(t, i).value;
      AllIn(gap, Blanks) && i + |gap| < |t| && t[i..i + |gap| + 1] == gap + ":"
  {
    SpanAll(t, i, Blanks);
  }

  lemma ColonComplete(pre: string, gap: string, rest: string)
    requires AllIn(gap, Blanks)
    ensures MatchColon(pre + (gap + ":") + rest, |pre|) == Some(gap)
  {
    var t := pre + (gap + ":") + rest;
    var g := |pre| + |gap|;
    assert t[|pre|..g] == gap;
    assert t[g] == ':';
    SpanAt(t, |pre|, g, Blanks);
  }

  lemma BracketSound(t: string)
    requires MatchBracket(t).Some?
    ensures var b := MatchBracket(t).value;
      && IsIdentifier(b.name) && |b.digits| > 0 && AllIn(b.digits, Digits) && IsDelimiterCapture(b.delim)
      && b.end == |BracketText(b.name, b.digits, b.delim)|
      && t[..b.end] == BracketText(b.name, b.digits, b.delim)
  {
    var b := MatchBracket(t).value;
    var n := Span(t, 1, IdentChars);
    SpanAll(t, 1, IdentChars);
    var d := Span(t, n + 1, Digits);
    SpanAll(t, n + 1, Digits);
    assert t[..n] == [t[0]] + t[1..n];
    Cut(t, n, d, b.end);
    assert t[d..b.end] == b.delim + "]";
  }

  /** A prefix cut at one character `t[n]` and again at `d`. */
  lemma Cut<T>(t: seq<T>, n: nat, d: nat, e: nat)
    requires n < d <= e <= |t|
    ensures t[..e] == t[..n] + [t[n]] + t[n + 1..d] + t[d..e]
  {
    assert t[..e] == t[..n] + t[n..d] + t[d..e];
    assert t[n..d] == [t[n]] + t[n + 1..d];
  }

  lemma BracketComplete(name: string, digits: string, delim: string, rest: string)
    requires IsIdentifier(name) && |digits| > 0 && AllIn(digits, Digits) && IsDelimiterCapture(delim)
    ensures var text := BracketText(name, digits, delim);
      MatchBracket(text + rest) == Some(Bracket(name, digits, delim, |text|))
  {
    var t := BracketText(name, digits, delim) + rest;
    BracketTextAt(name, digits, delim, rest);
    BracketAt(t, |name|, |name| + 1 + |digits|, |name| + 1 + |digits| + |delim| + 1);
  }

  /** Where the pieces of a rendered bracket sit in a line that starts with it. */
  lemma BracketTextAt(name: string, digits: string, delim: string, rest: string)
    requires IsIdentifier(name) && |digits| > 0 && AllIn(digits, Digits) && IsDelimiterCapture(delim)
    ensures var t := BracketText(name, digits, delim) + rest;
      var n := |name|;
      var d := n + 1 + |digits|;
      && d + |delim| < |t| && IsIdentStart(t[0])
      && t[..n] == name && t[n] == '[' && t[n + 1..d] == digits && t[d..d + |delim|] == delim && t[d + |delim|] == ']'
      && Span(t, 1, IdentChars) == n && Span(t, n + 1, Digits) == d
  {
    BracketShape(name, digits, delim, rest);
    NameAt(name, "[" + digits + delim + "]" + rest);
    Middle(name + "[", digits, delim + "]" + rest);
    SpanOver(name + "[", digits, delim + "]" + rest, Digits);
    Middle(name + "[" + digits, delim, "]" + rest);
  }

  /** A rendered bracket followed by the rest of the line, grouped three ways. */
  lemma BracketShape(name: string, digits: string, delim: string, rest: string)
    ensures var t := BracketText(name, digits, delim) + rest;
      && t == name + ("[" + digits + delim + "]" + rest)
      && t == (name + "[") + digits + (delim + "]" + rest)
      && t == (name + "[" + digits) + delim + ("]" + rest)
  {
  }

  /** An identifier followed by `[`: the name run ends at the bracket. */
  lemma NameAt(name: string, tail: string)
    requires IsIdentifier(name) && tail != [] && tail[0] == '['
    ensures var t := name + tail;
      t[..|name|] == name && t[|name|] == '[' && IsIdentStart(t[0]) && Span(t, 1, IdentChars) == |name|
  {
    var t := name + tail;
    assert t == [name[0]] + name[1..] + tail;
    SpanOver([name[0]], name[1..], tail, IdentChars);
  }

  /** A greedy run over the middle piece of a three-part text stops where the third piece starts. */
  lemma SpanOver(a: string, b: string, c: string, cls: CharClass)
    requires AllIn(b, cls) && (c != [] ==> !InClass(c[0], cls))
    ensures Span(a + b + c, |a|, cls) == |a| + |b|
  {
    Middle(a, b, c);
    SpanAt(a + b + c, |a|, |a| + |b|, cls);
  }

  /** `MatchBracket` on a line whose name ends at `n`, digits at `d` and bracket at `e`. */
  lemma BracketAt(t: string, n: nat, d: nat, e: nat)
    requires n + 1 < d < e <= |t| && (e == d + 1 || e == d + 2)
    requires IsIdentStart(t[0]) && Span(t, 1, IdentChars) == n && t[n] == '['
    requires Span(t, n + 1, Digits) == d && t[e - 1] == ']'
    requires e == d + 2 ==> IsDelimiterChar(t[d])
    ensures MatchBracket(t) == Some(Bracket(t[..n], t[n + 1..d], t[d..e - 1], e))
  {
    assert n < |t| && d != n + 1 && d != |t|;
    if e == d + 1 {
      assert t[d] == ']' && !IsDelimiterChar(t[d]);
      assert t[d..e - 1] == [];
    } else {
      assert d + 1 < |t| && t[d + 1] == ']';
    }
  }

  /** The pieces of a three-part concatenation, read back by position. */
  lemma Middle<T>(a: seq<T>, b: seq<T>, c: seq<T>)
    ensures (a + b + c)[..|a|] == a
    ensures (a + b + c)[|a|..|a| + |b|] == b
    ensures |b| > 0 ==> (a + b + c)[|a|] == b[0]
    ensures |c| > 0 ==> (a + b + c)[|a| + |b|] == c[0]
  {
  }

  lemma TabularTailSound(t: string, b: Bracket)
    requires b.end <= |t| && TabularTail(t, b).Some?
    ensures var h := TabularTail(t, b).value;
      var r := "{" + h.shape.fieldText + "}" + (h.gap + ":");
      && h.shape.Tabular? && h.name == b.name && h.digits == b.digits && h.delim == b.delim
      && AllIn(h.shape.fieldText, NotCloseBrace) && AllIn(h.gap, Blanks)
      && b.end + |r| <= |t| && t[b.end..b.end + |r|] == r
  {
    var h := TabularTail(t, b).value;
    var f := Span(t, b.end + 1, NotCloseBrace);
    SpanAll(t, b.end + 1, NotCloseBrace);
    ColonSound(t, f + 1);
    var e := f + 1 + |h.gap| + 1;
    Enclosed(t, b.end, f, e);
  }

  /** A slice cut at two single characters: `t[a..e]` is `t[a]`, the run up to `c`, `t[c]`, and the rest. */
  lemma Enclosed<T>(t: seq<T>, a: nat, c: nat, e: nat)
    requires a < c < e <= |t|
    ensures t[a..e] == [t[a]] + t[a + 1..c] + [t[c]] + t[c + 1..e]
  {
    assert t[a..e] == [t[a]] + t[a + 1..c] + t[c..e];
    assert t[c..e] == [t[c]] + t[c + 1..e];
  }

  lemma TabularWellFormed(t: string)
    requires MatchTabular(t).Some?
    ensures MatchTabular(t).value.shape.Tabular? && WellFormed(MatchTabular(t).value)
  {
    var b := MatchBracket(t).value;
    assert MatchTabular(t) == TabularTail(t, b);
    BracketSound(t);
    TabularTailSound(t, b);
  }

  lemma TabularPrefix(t: string)
    requires MatchTabular(t).Some?
    ensures Render(MatchTabular(t).value) <= t
  {
    var b := MatchBracket(t).value;
    assert MatchTabular(t) == TabularTail(t, b);
    BracketSound(t);
    TabularTailSound(t, b);
    var h := TabularTail(t, b).value;
    var r := "{" + h.shape.fieldText + "}" + (h.gap + ":");
    assert Render(h) == BracketText(b.name, b.digits, b.delim) + r;
    PrefixJoin(t, b.end, |r|);
  }

  lemma TabularSound(t: string)
    requires MatchTabular(t).Some?
    ensures var h := MatchTabular(t).value;
      h.shape.Tabular? && WellFormed(h) && Render(h) <= t
  {
    TabularWellFormed(t);
    TabularPrefix(t);
  }

  /** A `{fields}` group after `pre`: the brace opens at `|pre|` and the field text runs to the closing brace. */
  lemma BraceSpan(pre: string, fields: string, suffix: string)
    requires AllIn(fields, NotCloseBrace)
    ensures var t := pre + ("{" + fields + "}") + suffix;
      var f := |pre| + 1 + |fields|;
      && t[|pre|] == '{'
      && f < |t| && Span(t, |pre| + 1, NotCloseBrace) == f
      && t[|pre| + 1..f] == fields
  {
    var t := pre + ("{" + fields + "}") + suffix;
    var f := |pre| + 1 + |fields|;
    assert t[|pre| + 1..f] == fields;
    assert t[f] == '}';
    SpanAt(t, |pre| + 1, f, NotCloseBrace);
  }

  lemma TabularTailComplete(text: string, h: HeaderMatch, rest: string, b: Bracket)
    requires h.shape.Tabular? && AllIn(h.shape.fieldText, NotCloseBrace) && AllIn(h.gap, Blanks)
    requires b == Bracket(h.name, h.digits, h.delim, |text|)
    ensures var t := text + ("{" + h.shape.fieldText + "}") + (h.gap + ":") + rest;
      b.end <= |t| && TabularTail(t, b) == Some(h)
  {
    var brace := "{" + h.shape.fieldText + "}";
    var colon := h.gap + ":";
    var t := text + brace + colon + rest;
    BraceSpan(text, h.shape.fieldText, colon + rest);
    assert t == text + brace + (colon + rest);
    ColonComplete(text + brace, h.gap, rest);
  }

  lemma TabularComplete(h: HeaderMatch, rest: string)
    requires h.shape.Tabular? && WellFormed(h)
    ensures MatchTabular(Render(h) + rest) == Some(h)
  {
    var text := BracketText(h.name, h.digits, h.delim);
    var brace := "{" + h.shape.fieldText + "}";
    var colon := h.gap + ":";
    var t := Render(h) + rest;
    assert t == text + (brace + colon + rest);
    BracketComplete(h.name, h.digits, h.delim, brace + colon + rest);
    assert t == text + brace + colon + rest;
    TabularTailComplete(text, h, rest, Bracket(h.name, h.digits, h.delim, |text|));
  }

  /** A line matches the tabular pattern exactly when a well-formed tabular header is a prefix of it. */
  lemma MatchTabularIff(t: string, h: HeaderMatch)
    ensures MatchTabular(t) == Some(h) <==> h.shape.Tabular? && WellFormed(h) && Render(h) <= t
  {
    if MatchTabular(t) == Some(h) {
      TabularSound(t);
    }
    if h.shape.Tabular? && WellFormed(h) && Render(h) <= t {
      var rest := t[|Render(h)|..];
      PrefixRest(Render(h), t);
      TabularComplete(h, rest);
    }
  }

  lemma InlineSound(t: string)
    requires MatchInline(t).Some?
    ensures var h := MatchInline(t).value;
      h.shape.Inline? && WellFormed(h) && Render(h) <= t
  {
    var h := MatchInline(t).value;
    var b := MatchBracket(t).value;
    BracketSound(t);
    ColonSound(t, b.end);
    assert t[..|Render(h)|] == t[..b.end] + t[b.end..b.end + |h.gap| + 1];
  }

  lemma InlineComplete(h: HeaderMatch, rest: string)
    requires h.shape.Inline? && WellFormed(h)
    ensures MatchInline(Render(h) + rest) == Some(h)
  {
    var text := BracketText(h.name, h.digits, h.delim);
    var t := Render(h) + rest;
    assert t == text + ((h.gap + ":") + rest);
    BracketComplete(h.name, h.digits, h.delim, (h.gap + ":") + rest);
    assert t == text + (h.gap + ":") + rest;
    ColonComplete(text, h.gap, rest);
  }

  /** A line matches the inline pattern exactly when a well-formed inline header is a prefix of it. */
  lemma MatchInlineIff(t: string, h: HeaderMatch)
    ensures MatchInline(t) == Some(h) <==> h.shape.Inline? && WellFormed(h) && Render(h) <= t
  {
    if MatchInline(t) == Some(h) {
      InlineSound(t);
    }
    if h.shape.Inline? && WellFormed(h) && Render(h) <= t {
      var rest := t[|Render(h)|..];
      PrefixRest(Render(h), t);
      InlineComplete(h, rest);
    }
  }

  lemma RootSound(t: string)
    requires MatchRoot(t).Some?
    ensures var h := MatchRoot(t).value;
      h.shape.Root? && WellFormed(h) && Render(h) <= t
  {
    var h := MatchRoot(t).value;
    var d := Span(t, 1, Digits);
    SpanAll(t, 1, Digits);
    ColonSound(t, d + 1);
    assert t[..|Render(h)|] == [t[0]] + t[1..d] + [t[d]] + t[d + 1..d + 2 + |h.gap|];
  }

  lemma RootComplete(h: HeaderMatch, rest: string)
    requires h.shape.Root? && WellFormed(h)
    ensures MatchRoot(Render(h) + rest) == Some(h)
  {
    var text := BracketText([], h.digits, []);
    var t := Render(h) + rest;
    var d := 1 + |h.digits|;
    assert t == "[" + h.digits + ("]" + (h.gap + ":") + rest);
    assert t[1..d] == h.digits;
    assert t[d] == ']';
    SpanAt(t, 1, d, Digits);
    assert t == text + (h.gap + ":") + rest;
    ColonComplete(text, h.gap, rest);
  }

  /** A line matches the root pattern exactly when a well-formed root header is a prefix of it. */
  lemma MatchRootIff(t: string, h: HeaderMatch)
    ensures MatchRoot(t) == Some(h) <==> h.shape.Root? && WellFormed(h) && Render(h) <= t
  {
    if MatchRoot(t) == Some(h) {
      RootSound(t);
    }
    if h.shape.Root? && WellFormed(h) && Render(h) <= t {
      var rest := t[|Render(h)|..];
      PrefixRest(Render(h), t);
      RootComplete(h, rest);
    }
  }

  /**
   The three header patterns are mutually exclusive: after `]` the tabular
   pattern needs `{` where the inline one needs `\s*:`, and the root pattern
   starts with `[`, which no identifier does. Nor does a property line match
   any of them, since after its identifier comes `\s*:` rather than `[`.
   */
  lemma PatternsExclusive(t: string)
    ensures !(MatchTabular(t).Some? && MatchInline(t).Some?)
    ensures !(MatchTabular(t).Some? && MatchRoot(t).Some?)
    ensures !(MatchInline(t).Some? && MatchRoot(t).Some?)
    ensures IsProperty(t) ==> Classify(t) == None
  {
  }

  /**
   Classification does not depend on the order the patterns are tried in:
   a line is classified as `h` exactly when `h` is a well-formed header of
   any shape whose text starts the line.
   */
  lemma ClassifyIff(t: string, h: HeaderMatch)
    ensures Classify(t) == Some(h) <==> WellFormed(h) && Render(h) <= t
  {
    PatternsExclusive(t);
    MatchTabularIff(t, h);
    MatchInlineIff(t, h);
    MatchRootIff(t, h);
  }
}
