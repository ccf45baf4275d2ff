/** Whitespace normalisation of a serialised source: `normalizeWhitespace`
    collapses every run of `\s` characters to one space and then trims. */
module Whitespace {

  /** The characters that `\s` matches in a JavaScript regular expression;
      `String.prototype.trim` removes exactly the same set. */
  const WhitespaceChars: set<char> :=
    {'\t', '\n', '\U{000B}', '\U{000C}', '\r', ' ', '\U{00A0}', '\U{1680}',
     '\U{2000}', '\U{2001}', '\U{2002}', '\U{2003}', '\U{2004}', '\U{2005}', '\U{2006}',
     '\U{2007}', '\U{2008}', '\U{2009}', '\U{200A}',
     '\U{2028}', '\U{2029}', '\U{202F}', '\U{205F}', '\U{3000}', '\U{FEFF}'}

  predicate IsWhitespace(c: char) {
    c in WhitespaceChars
  }

  /** Removes the maximal run of whitespace at the front of `s`. */
  function DropLeadingWs(s: string): (r: string)
    ensures |r| <= |s| && r == s[|s| - |r|..]
    ensures r == [] || !IsWhitespace(r[0])
    ensures forall i :: 0 <= i < |s| - |r| ==> IsWhitespace(s[i])
  {
    if s == [] || !IsWhitespace(s[0]) then s else DropLeadingWs(s[1..])
  }

  /** Removes the maximal run of whitespace at the end of `s`. */
  function DropTrailingWs(s: string): (r: string)
    ensures |r| <= |s| && r == s[..|r|]
    ensures r == [] || !IsWhitespace(r[|r| - 1])
    ensures forall i :: |r| <= i < |s| ==> IsWhitespace(s[i])
  {
    if s == [] || !IsWhitespace(s[|s| - 1]) then s else DropTrailingWs(s[..|s| - 1])
  }

  /** `s.replace(/\s+/g, ' ')`: each maximal run of whitespace becomes one space. */
  function CollapseRuns(s: string): string
    decreases |s|
  {
    if s == [] then []
    else if IsWhitespace(s[0]) then " " + CollapseRuns(DropLeadingWs(s))
    else [s[0]] + CollapseRuns(s[1..])
  }

  /** `s.trim()`. */
  function Trim(s: string): string {
    DropTrailingWs(DropLeadingWs(s))
  }

  /** `normalizeWhitespace(s)`: collapse the runs, then trim. */
  function NormalizeWs(s: string): string {
    Trim(CollapseRuns(s))
  }

  /** Characters `i` and `i + 1` of `s` are both whitespace. */
  predicate WsPairAt(s: string, i: nat)
    requires i + 1 < |s|
  {
    IsWhitespace(s[i]) && IsWhitespace(s[i + 1])
  }

  /** Every whitespace character is a plain space and no two are adjacent. */
  ghost predicate SingleSpaced(s: string) {
    (forall i :: 0 <= i < |s| && IsWhitespace(s[i]) ==> s[i] == ' ')
    && (forall i: nat :: i + 1 < |s| ==> !WsPairAt(s, i))
  }

  /** What `normalizeWhitespace` promises of its result: single-spaced, with no
      whitespace at either end. */
  ghost predicate Normalized(s: string) {
    SingleSpaced(s) && (s != [] ==> !IsWhitespace(s[0]) && !IsWhitespace(s[|s| - 1]))
  }

  /** The non-whitespace characters of `s`, in order. */
  function Visible(s: string): string {
    if s == [] then []
    else if IsWhitespace(s[0]) then Visible(s[1..])
    else [s[0]] + Visible(s[1..])
  }

  lemma {:induction false} VisibleAppend(a: string, b: string)
    ensures Visible(a + b) == Visible(a) + Visible(b)
  {
    if a != [] {
      assert (a + b)[0] == a[0] && (a + b)[1..] == a[1..] + b;
      VisibleAppend(a[1..], b);
    } else {
      assert a + b == b;
    }
  }

  lemma SingleSpacedSlice(s: string, lo: nat, hi: nat)
    requires lo <= hi <= |s| && SingleSpaced(s)
    ensures SingleSpaced(s[lo..hi])
  {
    var t := s[lo..hi];
    forall i: nat | i + 1 < |t|
      ensures !WsPairAt(t, i)
    {
      assert t[i] == s[lo + i] && t[i + 1] == s[lo + i + 1];
      assert !WsPairAt(s, lo + i);
    }
  }

  /** A character put in front of a single-spaced string keeps it single-spaced
      when it is a space followed by no whitespace, or is not whitespace. */
  lemma SingleSpacedCons(h: char, c: string)
    requires SingleSpaced(c)
    requires IsWhitespace(h) ==> h == ' ' && (c == [] || !IsWhitespace(c[0]))
    ensures SingleSpaced([h] + c)
  {
    var x := [h] + c;
    forall i: nat | i + 1 < |x|
      ensures !WsPairAt(x, i)
    {
      if i > 0 {
        assert x[i] == c[i - 1] && x[i + 1] == c[i];
        assert !WsPairAt(c, i - 1);
      }
    }
  }

  /** Collapsing yields a single-spaced string that is empty, or starts with
      whitespace, exactly when the input is. */
  lemma {:induction false} CollapseRunsShape(s: string)
    ensures SingleSpaced(CollapseRuns(s))
    ensures (CollapseRuns(s) == []) == (s == [])
    ensures s != [] ==> (IsWhitespace(CollapseRuns(s)[0]) <==> IsWhitespace(s[0]))
    decreases |s|
  {
    if s != [] {
      if IsWhitespace(s[0]) {
        var rest := DropLeadingWs(s);
        CollapseRunsShape(rest);
        var c := CollapseRuns(rest);
        SingleSpacedCons(' ', c);
        assert CollapseRuns(s) == [' '] + c;
      } else {
        CollapseRunsShape(s[1..]);
        var c := CollapseRuns(s[1..]);
        SingleSpacedCons(s[0], c);
        assert CollapseRuns(s) == [s[0]] + c;
      }
    }
  }

  /** `s.trim()` is a slice of `s`. */
  lemma TrimSlice(c: string) returns (lo: nat)
    ensures lo + |Trim(c)| <= |c| && Trim(c) == c[lo..lo + |Trim(c)|]
  {
    lo := |c| - |DropLeadingWs(c)|;
  }

  /** `s.trim()` has no whitespace at either end. */
  lemma TrimEnds(c: string)
    ensures Trim(c) != [] ==> !IsWhitespace(Trim(c)[0]) && !IsWhitespace(Trim(c)[|Trim(c)| - 1])
  {
    var t := DropLeadingWs(c);
    var u := DropTrailingWs(t);
    if u != [] {
      assert u[0] == t[0];
    }
  }

  /** A slice of a single-spaced string with no whitespace at its ends is
      normalised. */
  lemma NormalizedSlice(c: string, lo: nat, hi: nat, t: string)
    requires SingleSpaced(c) && lo <= hi <= |c| && t == c[lo..hi]
    requires t != [] ==> !IsWhitespace(t[0]) && !IsWhitespace(t[|t| - 1])
    ensures Normalized(t)
  {
    SingleSpacedSlice(c, lo, hi);
  }

  /** Trimming a single-spaced string leaves a normalised one. */
  lemma TrimSingleSpaced(c: string)
    requires SingleSpaced(c)
    ensures Normalized(Trim(c))
  {
    var t := Trim(c);
    var lo := TrimSlice(c);
    TrimEnds(c);
    NormalizedSlice(c, lo, lo + |t|, t);
  }

  /** The result of `normalizeWhitespace` has no leading or trailing whitespace
      and no two adjacent whitespace characters, and each of them is a space. */
  lemma NormalizeWsIsNormalized(s: string)
    ensures Normalized(NormalizeWs(s))
  {
    CollapseRunsShape(s);
    TrimSingleSpaced(CollapseRuns(s));
  }

  /** A single-spaced string that starts with whitespace starts with one
      space followed by a visible character or nothing. */
  lemma SingleSpacedHead(s: string)
    requires SingleSpaced(s) && s != [] && IsWhitespace(s[0])
    ensures s[0] == ' ' && (|s| > 1 ==> !IsWhitespace(s[1]))
  {
    if |s| > 1 {
      assert !WsPairAt(s, 0);
    }
  }

  /** In a single-spaced string, a leading whitespace character is a lone
      space. */
  lemma SingleSpacedDrop(s: string)
    requires SingleSpaced(s) && s != [] && IsWhitespace(s[0])
    ensures s == " " + s[1..] && DropLeadingWs(s) == s[1..]
  {
    SingleSpacedHead(s);
    var t := s[1..];
    assert t == [] || !IsWhitespace(t[0]) by {
      if t != [] { assert t[0] == s[1]; }
    }
    assert DropLeadingWs(s) == DropLeadingWs(t) == t;
    assert s == [s[0]] + t;
  }

  /** A single-spaced string is left unchanged by collapsing. */
  lemma {:induction false} CollapseRunsFixed(s: string)
    requires SingleSpaced(s)
    ensures CollapseRuns(s) == s
    decreases |s|
  {
    if s != [] {
      assert SingleSpaced(s[1..]) by {
        SingleSpacedSlice(s, 1, |s|);
        assert s[1..|s|] == s[1..];
      }
      CollapseRunsFixed(s[1..]);
      if IsWhitespace(s[0]) {
        SingleSpacedDrop(s);
      } else {
        assert s == [s[0]] + s[1..];
      }
    }
  }

  /** A normalised string is a fixed point of `normalizeWhitespace`. */
  lemma NormalizedIsFixed(s: string)
    requires Normalized(s)
    ensures NormalizeWs(s) == s
  {
    CollapseRunsFixed(s);
  }

  /** `normalizeWhitespace` is idempotent. */
  lemma NormalizeWsIdempotent(s: string)
    ensures NormalizeWs(NormalizeWs(s)) == NormalizeWs(s)
  {
    NormalizeWsIsNormalized(s);
    NormalizedIsFixed(NormalizeWs(s));
  }

  lemma {:induction false} DropLeadingWsVisible(s: string)
    ensures Visible(DropLeadingWs(s)) == Visible(s)
    decreases |s|
  {
    if s != [] && IsWhitespace(s[0]) {
      DropLeadingWsVisible(s[1..]);
    }
  }

  lemma {:induction false} DropTrailingWsVisible(s: string)
    ensures Visible(DropTrailingWs(s)) == Visible(s)
    decreases |s|
  {
    if s != [] && IsWhitespace(s[|s| - 1]) {
      var init := s[..|s| - 1];
      DropTrailingWsVisible(init);
      assert s == init + [s[|s| - 1]];
      VisibleAppend(init, [s[|s| - 1]]);
    }
  }

  lemma {:induction false} CollapseRunsVisible(s: string)
    ensures Visible(CollapseRuns(s)) == Visible(s)
    decreases |s|
  {
    if s != [] {
      if IsWhitespace(s[0]) {
        var rest := DropLeadingWs(s);
        CollapseRunsVisible(rest);
        DropLeadingWsVisible(s);
        VisibleAppend(" ", CollapseRuns(rest));
      } else {
        CollapseRunsVisible(s[1..]);
        VisibleAppend([s[0]], CollapseRuns(s[1..]));
      }
    }
  }

  /** `normalizeWhitespace` keeps every non-whitespace character, in order. */
  lemma NormalizeWsKeepsVisible(s: string)
    ensures Visible(NormalizeWs(s)) == Visible(s)
  {
    CollapseRunsVisible(s);
    DropLeadingWsVisible(CollapseRuns(s));
    DropTrailingWsVisible(DropLeadingWs(CollapseRuns(s)));
  }

  /** A run of whitespace in front of a text that starts visibly is dropped whole. */
  lemma {:induction false} DropAllWs(w: string, b: string)
    requires forall i :: 0 <= i < |w| ==> IsWhitespace(w[i])
    requires b == [] || !IsWhitespace(b[0])
    ensures DropLeadingWs(w + b) == b
    decreases |w|
  {
    if w == [] {
      assert w + b == b;
    } else {
      assert (w + b)[1..] == w[1..] + b;
      DropAllWs(w[1..], b);
    }
  }

  /** Dropping the leading whitespace of a text that ends visibly stops inside it. */
  lemma {:induction false} DropLeadingWsAppend(x: string, y: string)
    requires x != [] && !IsWhitespace(x[|x| - 1])
    ensures DropLeadingWs(x + y) == DropLeadingWs(x) + y
    decreases |x|
  {
    if IsWhitespace(x[0]) {
      assert (x + y)[1..] == x[1..] + y;
      DropLeadingWsAppend(x[1..], y);
    }
  }

  /** One step of `CollapseRuns` at a visible character. */
  lemma CollapseRunsVisibleHead(s: string)
    requires s != [] && !IsWhitespace(s[0])
    ensures CollapseRuns(s) == [s[0]] + CollapseRuns(s[1..])
  {
  }

  /** One step of `CollapseRuns` at a whitespace character. */
  lemma CollapseRunsWsHead(s: string)
    requires s != [] && IsWhitespace(s[0])
    ensures CollapseRuns(s) == " " + CollapseRuns(DropLeadingWs(s))
  {
  }

  /** The leading run of a text that starts with whitespace and ends visibly
      is dropped without reaching what follows the text. */
  lemma DropRunInside(a: string, y: string)
    requires a != [] && IsWhitespace(a[0]) && !IsWhitespace(a[|a| - 1])
    ensures var rest := DropLeadingWs(a);
      DropLeadingWs(a + y) == rest + y && 0 < |rest| < |a| && rest[|rest| - 1] == a[|a| - 1]
      && (a + y)[0] == a[0]
  {
    DropLeadingWsAppend(a, y);
  }

  lemma Regroup(h: string, x: string, y: string, z: string)
    ensures h + (x + y + z) == h + x + y + z
  {
  }

  /** A run of whitespace between two visible characters becomes exactly one
      space, whatever characters it holds and however long it is. */
  lemma {:induction false} CollapseRunsJoin(a: string, w: string, b: string)
    requires w != [] && forall i :: 0 <= i < |w| ==> IsWhitespace(w[i])
    requires a == [] || !IsWhitespace(a[|a| - 1])
    requires b == [] || !IsWhitespace(b[0])
    ensures CollapseRuns(a + (w + b)) == CollapseRuns(a) + " " + CollapseRuns(b)
    decreases |a|, 1
  {
    if a == [] {
      assert a + (w + b) == w + b;
      DropAllWs(w, b);
      CollapseRunsWsHead(w + b);
    } else if IsWhitespace(a[0]) {
      JoinAfterRun(a, w, b);
    } else {
      JoinAfterVisible(a, w, b);
    }
  }

  /** `CollapseRunsJoin` when `a` starts with a run of whitespace. */
  lemma {:induction false} JoinAfterRun(a: string, w: string, b: string)
    requires w != [] && forall i :: 0 <= i < |w| ==> IsWhitespace(w[i])
    requires a != [] && IsWhitespace(a[0]) && !IsWhitespace(a[|a| - 1])
    requires b == [] || !IsWhitespace(b[0])
    ensures CollapseRuns(a + (w + b)) == CollapseRuns(a) + " " + CollapseRuns(b)
    decreases |a|, 0
  {
    var rest := DropLeadingWs(a);
    DropRunInside(a, w + b);
    CollapseRunsWsHead(a + (w + b));
    CollapseRunsWsHead(a);
    CollapseRunsJoin(rest, w, b);
    Regroup(" ", CollapseRuns(rest), " ", CollapseRuns(b));
  }

  /** `CollapseRunsJoin` when `a` starts with a visible character. */
  lemma {:induction false} JoinAfterVisible(a: string, w: string, b: string)
    requires w != [] && forall i :: 0 <= i < |w| ==> IsWhitespace(w[i])
    requires a != [] && !IsWhitespace(a[0]) && !IsWhitespace(a[|a| - 1])
    requires b == [] || !IsWhitespace(b[0])
    ensures CollapseRuns(a + (w + b)) == CollapseRuns(a) + " " + CollapseRuns(b)
    decreases |a|, 0
  {
    var t := a + (w + b);
    assert t[0] == a[0] && t[1..] == a[1..] + (w + b);
    CollapseRunsVisibleHead(t);
    CollapseRunsVisibleHead(a);
    CollapseRunsJoin(a[1..], w, b);
    Regroup([a[0]], CollapseRuns(a[1..]), " ", CollapseRuns(b));
  }
}
