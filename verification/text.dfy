/**
 Character-level string primitives of the JavaScript runtime that the
 extension leans on: `trim`, `trimStart`, `trimEnd`, `split` on a single
 character, `startsWith`, and `' '.repeat(n)`.

 Whitespace is a fixed small set (space, tab, carriage return, line feed);
 the Unicode space separators JavaScript also strips are not modelled.
 */
module Text {

  /** The characters `trim` and the regular-expression class `\s` treat as white space here. */
  predicate IsWs(c: char) {
    c == ' ' || c == '\t' || c == '\r' || c == '\n'
  }

  /** Length of the longest all-whitespace prefix of `s`. */
  function LeadingWs(s: string): (n: nat)
    ensures n <= |s|
    ensures forall k :: 0 <= k < n ==> IsWs(s[k])
    ensures n < |s| ==> !IsWs(s[n])
  {
    if s != [] && IsWs(s[0]) then 1 + LeadingWs(s[1..]) else 0
  }

  /** `s.trimStart()`. */
  function TrimStart(s: string): (r: string)
    ensures |r| <= |s| && r == s[|s| - |r|..]
    ensures r == [] || !IsWs(r[0])
    ensures forall k :: 0 <= k < |s| - |r| ==> IsWs(s[k])
  {
    s[LeadingWs(s)..]
  }

  /** `s.trimEnd()`. */
  function TrimEnd(s: string): (r: string)
    ensures r <= s
    ensures r == [] || !IsWs(r[|r| - 1])
    ensures forall k :: |r| <= k < |s| ==> IsWs(s[k])
  {
    if s != [] && IsWs(s[|s| - 1]) then TrimEnd(s[..|s| - 1]) else s
  }

  /** `s.trim()`: a slice of `s` that neither starts nor ends with white space. */
  function Trim(s: string): (r: string)
    ensures Indent(s) + |r| <= |s| && r == s[Indent(s)..Indent(s) + |r|]
    ensures r == [] || (!IsWs(r[0]) && !IsWs(r[|r| - 1]))
    ensures r == [] <==> forall k :: 0 <= k < |s| ==> IsWs(s[k])
    ensures forall k :: Indent(s) + |r| <= k < |s| ==> IsWs(s[k])
  {
    TrimEnd(TrimStart(s))
  }

  /**
   The indentation the extension computes for a line,
   `line.length - line.trimStart().length`: the number of leading
   white-space characters.
   */
  function Indent(line: string): (n: nat)
    ensures n <= |line|
    ensures forall k :: 0 <= k < n ==> IsWs(line[k])
    ensures n < |line| ==> !IsWs(line[n])
  {
    |line| - |TrimStart(line)|
  }

  /** `' '.repeat(n)`. */
  function Spaces(n: nat): (r: string)
    ensures |r| == n
    ensures forall k :: 0 <= k < n ==> r[k] == ' '
  {
    seq(n, _ => ' ')
  }

  /** Number of occurrences of `d` in `s`. */
  function Count(s: string, d: char): nat
  {
    if s == [] then 0 else Count(s[..|s| - 1], d) + (if s[|s| - 1] == d then 1 else 0)
  }

  /** Joins `parts`, putting one `d` between neighbours (`parts.join(d)`). */
  function Join(parts: seq<string>, d: char): string
  {
    if |parts| == 0 then []
    else if |parts| == 1 then parts[0]
    else Join(parts[..|parts| - 1], d) + [d] + parts[|parts| - 1]
  }

  /**
   `s.split(d)` for a one-character separator: the maximal `d`-free pieces
   between the occurrences of `d`. The empty string splits into one empty piece.
   */
  function Split(s: string, d: char): (parts: seq<string>)
    ensures |parts| >= 1
    ensures forall k :: 0 <= k < |parts| ==> d !in parts[k]
  {
    if s == [] then [[]] else Extend(Split(s[..|s| - 1], d), s[|s| - 1], d)
  }

  /** The pieces after one more character `c`: a separator starts a new empty piece, anything else grows the last one. */
  function Extend(parts: seq<string>, c: char, d: char): (r: seq<string>)
    requires |parts| >= 1
    requires forall k :: 0 <= k < |parts| ==> d !in parts[k]
    ensures |r| >= 1
    ensures forall k :: 0 <= k < |r| ==> d !in r[k]
  {
    if c == d then parts + [[]] else parts[..|parts| - 1] + [parts[|parts| - 1] + [c]]
  }

  /** There is one more piece than there are separators, and joining the pieces gives `s` back. */
  lemma {:induction false} JoinSplit(s: string, d: char)
    ensures |Split(s, d)| == Count(s, d) + 1
    ensures Join(Split(s, d), d) == s
  {
    if s != [] {
      var s' := s[..|s| - 1];
      var c := s[|s| - 1];
      assert s == s' + [c];
      JoinSplit(s', d);
      SplitSnoc(s', c, d);
      var init := Split(s', d);
      if c != d && |init| > 1 {
        var p := init[..|init| - 1];
        assert p[..|p| - 1] == init[..|init| - 2];
        assert Join(init, d) == Join(p, d) + [d] + init[|init| - 1];
      }
    }
  }

  /** A string without the separator is one piece. */
  lemma {:induction false} SplitWithoutSeparator(s: string, d: char)
    requires d !in s
    ensures Split(s, d) == [s]
  {
    if s != [] {
      assert d !in s[..|s| - 1];
      SplitWithoutSeparator(s[..|s| - 1], d);
      assert s[..|s| - 1] + [s[|s| - 1]] == s;
    }
  }

  /** Splitting a string extended by one character, as `Split` computes it. */
  lemma SplitSnoc(s: string, c: char, d: char)
    ensures Split(s + [c], d) == Extend(Split(s, d), c, d)
  {
    assert (s + [c])[..|s + [c]| - 1] == s;
  }

  /** Extending the last of several groups of pieces extends the whole. */
  lemma ExtendAppend(pa: seq<string>, pb: seq<string>, c: char, d: char)
    requires |pb| >= 1
    requires forall k :: 0 <= k < |pa| ==> d !in pa[k]
    requires forall k :: 0 <= k < |pb| ==> d !in pb[k]
    ensures forall k :: 0 <= k < |pa + pb| ==> d !in (pa + pb)[k]
    ensures Extend(pa + pb, c, d) == pa + Extend(pb, c, d)
  {
    var all := pa + pb;
    assert forall k :: 0 <= k < |all| ==> d !in all[k] by {
      forall k | 0 <= k < |all| ensures d !in all[k] {
        if k < |pa| { assert all[k] == pa[k]; } else { assert all[k] == pb[k - |pa|]; }
      }
    }
    if c != d {
      assert all[..|all| - 1] == pa + pb[..|pb| - 1];
    }
  }

  /** Splitting distributes over a separator occurrence. */
  lemma {:induction false} SplitAtSeparator(a: string, b: string, d: char)
    ensures Split(a + [d] + b, d) == Split(a, d) + Split(b, d)
    decreases |b|
  {
    if b == [] {
      SplitSnoc(a, d, d);
      assert a + [d] + b == a + [d];
    } else {
      var b' := b[..|b| - 1];
      var c := b[|b| - 1];
      var s' := a + [d] + b';
      assert a + [d] + b == s' + [c];
      assert b == b' + [c];
      SplitAtSeparator(a, b', d);
      SplitSnoc(s', c, d);
      SplitSnoc(b', c, d);
      ExtendAppend(Split(a, d), Split(b', d), c, d);
    }
  }

  /** `split` undoes `join` when no piece contains the separator. */
  lemma {:induction false} SplitJoin(parts: seq<string>, d: char)
    requires |parts| >= 1
    requires forall k :: 0 <= k < |parts| ==> d !in parts[k]
    ensures Split(Join(parts, d), d) == parts
  {
    if |parts| == 1 {
      SplitWithoutSeparator(parts[0], d);
    } else {
      var init := parts[..|parts| - 1];
      var last := parts[|parts| - 1];
      SplitJoin(init, d);
      SplitAtSeparator(Join(init, d), last, d);
      SplitWithoutSeparator(last, d);
      assert init + [last] == parts;
    }
  }

  /** A trimmed, non-empty text indented by `n` spaces has indentation `n` and trims back to itself. */
  lemma PaddedTrim(n: nat, t: string)
    requires t != [] && !IsWs(t[0]) && !IsWs(t[|t| - 1])
    ensures Indent(Spaces(n) + t) == n
    ensures Trim(Spaces(n) + t) == t
  {
    var s := Spaces(n) + t;
    assert s[n] == t[0];
    assert TrimStart(s) == t;
    assert TrimEnd(t) == t;
  }
}
