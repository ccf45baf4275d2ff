/** The two anchored patterns that recognise a serialised source made of one
    ICU placeholder: a plural with `=1`/`one` and `other` branches, or a
    gender select with `m` and `f` branches.

      plural: ^<x id="(ICU.*?)" equiv-text="\{.+?, plural, (=1|one) \{...\} other \{...\}\}"\/>$
      select: ^<x id="(ICU.*?)" equiv-text="\{.+?, select, m \{...\} f \{...\}\}"\/>$

    The dots are unescaped, so each stands for any one character other than
    a line terminator; the patterns carry no `s` or `m` flag. */
module IcuShapes {
  import opened Wrappers

  /** The characters that `.` does not match without the `s` flag. */
  predicate IsLineTerminator(c: char) {
    c == '\n' || c == '\r' || c == '\U{2028}' || c == '\U{2029}'
  }

  predicate NoLineTerminator(s: string) {
    forall i :: 0 <= i < |s| ==> !IsLineTerminator(s[i])
  }

  /** One position of a fixed-length piece of pattern: a literal character or `.`. */
  datatype PatChar = Lit(c: char) | AnyChar

  predicate FitsChar(c: char, p: PatChar) {
    match p
    case Lit(l) => c == l
    case AnyChar => !IsLineTerminator(c)
  }

  predicate FitsPattern(s: string, p: seq<PatChar>) {
    |s| == |p| && forall i :: 0 <= i < |s| ==> FitsChar(s[i], p[i])
  }

  function Literal(s: string): (p: seq<PatChar>)
    ensures |p| == |s| && forall i :: 0 <= i < |s| ==> p[i] == Lit(s[i])
  {
    seq(|s|, i requires 0 <= i < |s| => Lit(s[i]))
  }

  /** `\{...\}`: braces around three arbitrary characters. */
  const BracedDots: seq<PatChar> := [Lit('{'), AnyChar, AnyChar, AnyChar, Lit('}')]

  datatype Shape = Plural | GenderSelect

  /** What must follow the `.+?` variable name, up to the end of the input. */
  function PluralEnding(one: string): seq<PatChar> {
    Literal(", plural, " + one + " ") + BracedDots + Literal(" other ") + BracedDots + Literal("}\"/>")
  }

  const GenderEnding: seq<PatChar> :=
    Literal(", select, m ") + BracedDots + Literal(" f ") + BracedDots + Literal("}\"/>")

  const Opening: string := "<x id=\""
  const EquivOpen: string := "\" equiv-text=\"{"

  /** `x` is a non-empty variable name (`.+?`) followed by exactly `ending`. */
  predicate VarThenEnding(x: string, ending: seq<PatChar>) {
    |x| > |ending| && NoLineTerminator(x[..|x| - |ending|]) && FitsPattern(x[|x| - |ending|..], ending)
  }

  /** What follows `equiv-text="{` fits the shape; `(=1|one)` admits either form. */
  predicate EndsInShape(x: string, shape: Shape) {
    match shape
    case Plural => VarThenEnding(x, PluralEnding("=1")) || VarThenEnding(x, PluralEnding("one"))
    case GenderSelect => VarThenEnding(x, GenderEnding)
  }

  /** The anchored pattern matches the whole of `s` with a capture group
      (`ICU.*?`) of length `n`. */
  predicate MatchesWithId(s: string, shape: Shape, n: nat) {
    3 <= n && |Opening| + n + |EquivOpen| <= |s|
    && s[..|Opening|] == Opening
    && s[|Opening|..|Opening| + 3] == "ICU"
    && NoLineTerminator(s[|Opening|..|Opening| + n])
    && s[|Opening| + n..|Opening| + n + |EquivOpen|] == EquivOpen
    && EndsInShape(s[|Opening| + n + |EquivOpen|..], shape)
  }

  /** The lazy `.*?` tries the shortest id first: the least length from `n`
      on for which the rest of the pattern matches. */
  function ShortestIdFrom(s: string, shape: Shape, n: nat): (r: Option<nat>)
    ensures r.Some? ==> n <= r.value && MatchesWithId(s, shape, r.value)
                        && forall m :: n <= m < r.value ==> !MatchesWithId(s, shape, m)
    ensures r.None? ==> forall m :: n <= m ==> !MatchesWithId(s, shape, m)
    decreases |s| - n
  {
    if |s| < |Opening| + n then None
    else if MatchesWithId(s, shape, n) then Some(n)
    else ShortestIdFrom(s, shape, n + 1)
  }

  /** `s.match(expression)`, reduced to what the converter reads of it:
      `matches[1]`, the captured id, or `None` when there is no match. */
  function MatchShape(s: string, shape: Shape): (r: Option<string>)
    ensures r.None? ==> forall n :: !MatchesWithId(s, shape, n)
    ensures r.Some? ==> var id := r.value;
      MatchesWithId(s, shape, |id|) && s[|Opening|..|Opening| + |id|] == id
      && (forall m: nat :: m < |id| ==> !MatchesWithId(s, shape, m))
      && |id| >= 3 && id[..3] == "ICU" && NoLineTerminator(id)
  {
    match ShortestIdFrom(s, shape, 0)
    case None => None
    case Some(n) =>
      CapturedId(s, shape, n);
      Some(s[|Opening|..|Opening| + n])
  }

  /** The capture of a match is `n` characters starting with `ICU` and
      holding no line terminator. */
  lemma CapturedId(s: string, shape: Shape, n: nat)
    requires MatchesWithId(s, shape, n)
    ensures var id := s[|Opening|..|Opening| + n];
            |id| == n && id[..3] == "ICU" && NoLineTerminator(id)
  {
    var id := s[|Opening|..|Opening| + n];
    assert id[..3] == s[|Opening|..|Opening| + 3];
  }

  /** The placeholder the converter writes in place of any source of the
      shape, whatever its variable name and `=1`/`one` form:
        `<x id="` id `" equiv-text="{num, plural, one {...} other {...}}"/>`
        `<x id="` id `" equiv-text="{gender, select, m {...} f {...}}"/>` */
  function Canonical(shape: Shape, id: string): string {
    Opening + id + EquivOpen + CanonicalVariable(shape) + CanonicalEnding(shape)
  }

  /** The variable name that the canonical placeholder uses. */
  function CanonicalVariable(shape: Shape): string {
    match shape
    case Plural => "num"
    case GenderSelect => "gender"
  }

  /** The text after the variable name in each canonical placeholder. */
  function CanonicalEnding(shape: Shape): string {
    match shape
    case Plural => ", plural, " + "one" + " " + "{...}" + " other " + "{...}" + "}\"/>"
    case GenderSelect => ", select, m " + "{...}" + " f " + "{...}" + "}\"/>"
  }

  /** The literal that each ending has eleven characters from its end: the
      `r` of `other` against the `f` of the select. */
  function Marker(shape: Shape): char {
    match shape
    case Plural => 'r'
    case GenderSelect => 'f'
  }

  lemma PluralEndingMarker(one: string)
    ensures |PluralEnding(one)| >= 11 && PluralEnding(one)[|PluralEnding(one)| - 11] == Lit('r')
  {
    var tail := Literal(" other ") + BracedDots + Literal("}\"/>");
    assert PluralEnding(one) == Literal(", plural, " + one + " ") + BracedDots + tail;
    assert tail[|tail| - 11] == Lit('r');
  }

  lemma GenderEndingMarker()
    ensures |GenderEnding| >= 11 && GenderEnding[|GenderEnding| - 11] == Lit('f')
  {
    var tail := Literal(" f ") + BracedDots + Literal("}\"/>");
    assert GenderEnding == Literal(", select, m ") + BracedDots + tail;
    assert tail[|tail| - 11] == Lit('f');
  }

  /** A text that ends in `ending` carries the literal at the position of
      `ending`'s marker. */
  lemma EndingMarker(x: string, ending: seq<PatChar>, m: char)
    requires VarThenEnding(x, ending) && |ending| >= 11 && ending[|ending| - 11] == Lit(m)
    ensures x[|x| - 11] == m
  {
    var fitted := x[|x| - |ending|..];
    assert FitsChar(fitted[|ending| - 11], ending[|ending| - 11]);
    assert fitted[|ending| - 11] == x[|x| - 11];
  }

  /** A text after `equiv-text="{` that fits a shape has that shape's marker
      eleven characters from its end. */
  lemma EndsInShapeMarker(x: string, shape: Shape)
    requires EndsInShape(x, shape)
    ensures |x| >= 11 && x[|x| - 11] == Marker(shape)
  {
    if shape == GenderSelect {
      GenderEndingMarker();
      EndingMarker(x, GenderEnding, 'f');
    } else if VarThenEnding(x, PluralEnding("=1")) {
      PluralEndingMarker("=1");
      EndingMarker(x, PluralEnding("=1"), 'r');
    } else {
      PluralEndingMarker("one");
      EndingMarker(x, PluralEnding("one"), 'r');
    }
  }

  /** Every input that matches a shape has that shape's marker eleven
      characters from its end. */
  lemma MatchHasMarker(s: string, shape: Shape, n: nat)
    requires MatchesWithId(s, shape, n)
    ensures |s| >= 11 && s[|s| - 11] == Marker(shape)
  {
    var x := s[|Opening| + n + |EquivOpen|..];
    EndsInShapeMarker(x, shape);
    assert x[|x| - 11] == s[|s| - 11];
  }

  /** No source has both shapes, so the order of the two tests never decides
      between them. */
  lemma ShapesExclusive(s: string)
    ensures !(MatchShape(s, Plural).Some? && MatchShape(s, GenderSelect).Some?)
  {
    if MatchShape(s, Plural).Some? && MatchShape(s, GenderSelect).Some? {
      MatchHasMarker(s, Plural, |MatchShape(s, Plural).value|);
      MatchHasMarker(s, GenderSelect, |MatchShape(s, GenderSelect).value|);
    }
  }

  lemma FitsAppend(a: string, p: seq<PatChar>, b: string, q: seq<PatChar>)
    requires FitsPattern(a, p) && FitsPattern(b, q)
    ensures FitsPattern(a + b, p + q)
  {
    forall i | 0 <= i < |a + b|
      ensures FitsChar((a + b)[i], (p + q)[i])
    {
      if i >= |a| {
        assert (a + b)[i] == b[i - |a|] && (p + q)[i] == q[i - |a|];
      }
    }
  }

  lemma FitsLiteral(s: string)
    ensures FitsPattern(s, Literal(s))
  {
  }

  lemma BracedDotsFit()
    ensures FitsPattern("{...}", BracedDots)
  {
  }

  /** The text `a {...} b {...} c` fits the pattern made of the same
      literals around two `\{...\}` pieces. */
  lemma TwoBracesFit(a: string, b: string, c: string)
    ensures FitsPattern(a + "{...}" + b + "{...}" + c,
                        Literal(a) + BracedDots + Literal(b) + BracedDots + Literal(c))
  {
    FitsLiteral(a);
    FitsLiteral(b);
    FitsLiteral(c);
    BracedDotsFit();
    FitsAppend(a, Literal(a), "{...}", BracedDots);
    FitsAppend(a + "{...}", Literal(a) + BracedDots, b, Literal(b));
    FitsAppend(a + "{...}" + b, Literal(a) + BracedDots + Literal(b), "{...}", BracedDots);
    FitsAppend(a + "{...}" + b + "{...}", Literal(a) + BracedDots + Literal(b) + BracedDots, c, Literal(c));
  }

  lemma CanonicalEndingFits(shape: Shape)
    ensures FitsPattern(CanonicalEnding(shape), if shape == Plural then PluralEnding("one") else GenderEnding)
  {
    if shape == Plural {
      TwoBracesFit(", plural, " + "one" + " ", " other ", "}\"/>");
    } else {
      TwoBracesFit(", select, m ", " f ", "}\"/>");
    }
  }

  /** An opening, a capturable id, `equiv-text="{` and a text that ends in
      the shape, put together, match with exactly that id. */
  lemma AssembledMatches(id: string, tail: string, shape: Shape)
    requires |id| >= 3 && id[..3] == "ICU" && NoLineTerminator(id)
    requires EndsInShape(tail, shape)
    ensures MatchesWithId(Opening + id + EquivOpen + tail, shape, |id|)
  {
    var c := Opening + id + EquivOpen + tail;
    var k := |Opening| + |id| + |EquivOpen|;
    assert c[..|Opening|] == Opening;
    assert c[|Opening|..|Opening| + |id|] == id;
    assert c[|Opening|..|Opening| + 3] == id[..3];
    assert c[|Opening| + |id|..k] == EquivOpen;
    assert c[k..] == tail;
  }

  /** A non-empty name without line terminators followed by a text that
      fits `ending` is a variable name then that ending. */
  lemma NameThenEnding(v: string, e: string, ending: seq<PatChar>)
    requires v != [] && NoLineTerminator(v) && FitsPattern(e, ending)
    ensures VarThenEnding(v + e, ending)
  {
    var x := v + e;
    assert x[..|x| - |ending|] == v;
    assert x[|x| - |ending|..] == e;
  }

  lemma CanonicalTailInShape(shape: Shape)
    ensures EndsInShape(CanonicalVariable(shape) + CanonicalEnding(shape), shape)
  {
    var ending := if shape == Plural then PluralEnding("one") else GenderEnding;
    CanonicalEndingFits(shape);
    NameThenEnding(CanonicalVariable(shape), CanonicalEnding(shape), ending);
  }

  /** The canonical placeholder for an id the pattern can capture matches the
      shape with that id. */
  lemma CanonicalMatches(shape: Shape, id: string)
    requires |id| >= 3 && id[..3] == "ICU" && NoLineTerminator(id)
    ensures MatchesWithId(Canonical(shape, id), shape, |id|)
  {
    var v, e := CanonicalVariable(shape), CanonicalEnding(shape);
    assert Opening + id + EquivOpen + v + e == Opening + id + EquivOpen + (v + e);
    CanonicalTailInShape(shape);
    AssembledMatches(id, v + e, shape);
  }

  /** A prefix without line terminators can join the variable name, so it
      keeps a text in shape. */
  lemma PrefixKeepsShape(y: string, x: string, shape: Shape)
    requires EndsInShape(x, shape) && NoLineTerminator(y)
    ensures EndsInShape(y + x, shape)
  {
    forall ending: seq<PatChar> | VarThenEnding(x, ending)
      ensures VarThenEnding(y + x, ending)
    {
      var z := y + x;
      assert z[|z| - |ending|..] == x[|x| - |ending|..];
      assert z[..|z| - |ending|] == y + x[..|x| - |ending|];
    }
  }

  /** The only `{` of an occurrence of `" equiv-text="{` is its last character. */
  lemma BraceEndsEquivOpen(c: string, p: nat)
    requires p + |EquivOpen| <= |c| && c[p..p + |EquivOpen|] == EquivOpen
    ensures forall i :: p <= i < p + |EquivOpen| && c[i] == '{' ==> i == p + |EquivOpen| - 1
  {
    forall i | p <= i < p + |EquivOpen| - 1
      ensures c[i] != '{'
    {
      assert c[i] == EquivOpen[i - p];
    }
  }

  /** `" equiv-text="{` ends in its only `{`, so an occurrence of it that
      starts inside the id of a canonical placeholder ends inside the id. */
  lemma EquivOpenInsideId(c: string, id: string, m: nat)
    requires |Opening| + |id| + |EquivOpen| <= |c| && c[|Opening| + |id|..|Opening| + |id| + |EquivOpen|] == EquivOpen
    requires m < |id| && |Opening| + m + |EquivOpen| <= |c|
    requires c[|Opening| + m..|Opening| + m + |EquivOpen|] == EquivOpen
    ensures m + |EquivOpen| <= |id|
  {
    var j := |Opening| + m + |EquivOpen| - 1;
    BraceEndsEquivOpen(c, |Opening| + |id|);
    assert c[j] == c[|Opening| + m..|Opening| + m + |EquivOpen|][|EquivOpen| - 1] == '{';
  }

  /** Any piece of a text without line terminators has none. */
  lemma NoLineTerminatorSlice(t: string, i: nat, j: nat)
    requires NoLineTerminator(t) && i <= j <= |t|
    ensures NoLineTerminator(t[i..j])
  {
    var p := t[i..j];
    forall k | 0 <= k < |p| ensures !IsLineTerminator(p[k]) {
      assert p[k] == t[i + k];
    }
  }

  lemma NoLineTerminatorJoin(a: string, b: string)
    requires NoLineTerminator(a) && NoLineTerminator(b)
    ensures NoLineTerminator(a + b)
  {
    var p := a + b;
    forall k | 0 <= k < |p| ensures !IsLineTerminator(p[k]) {
      if k >= |a| { assert p[k] == b[k - |a|]; }
    }
  }

  lemma EquivOpenOneLine()
    ensures NoLineTerminator(EquivOpen)
  {
  }

  /** The text after a shorter `" equiv-text="{` inside the id is the rest of
      the id, the original `" equiv-text="{` and the original tail, so it is
      in shape too. */
  lemma TailAfterShorter(s: string, shape: Shape, n: nat, m: nat)
    requires m + |EquivOpen| <= n && |Opening| + n + |EquivOpen| <= |s|
    requires NoLineTerminator(s[|Opening|..|Opening| + n])
    requires s[|Opening| + n..|Opening| + n + |EquivOpen|] == EquivOpen
    requires EndsInShape(s[|Opening| + n + |EquivOpen|..], shape)
    ensures EndsInShape(s[|Opening| + m + |EquivOpen|..], shape)
  {
    var o, e := |Opening|, |EquivOpen|;
    var id, rest, equiv := s[o..o + n], s[o + m + e..o + n], s[o + n..o + n + e];
    assert rest == id[m + e..n];
    NoLineTerminatorSlice(id, m + e, n);
    EquivOpenOneLine();
    NoLineTerminatorJoin(rest, equiv);
    assert s[o + m + e..o + n + e] == rest + equiv;
    PrefixKeepsShapeAt(s, o + m + e, o + n + e, shape);
  }

  /** `PrefixKeepsShape` for two suffixes of one text. */
  lemma PrefixKeepsShapeAt(t: string, i: nat, j: nat, shape: Shape)
    requires i <= j <= |t| && EndsInShape(t[j..], shape) && NoLineTerminator(t[i..j])
    ensures EndsInShape(t[i..], shape)
  {
    PrefixKeepsShape(t[i..j], t[j..], shape);
    assert t[i..] == t[i..j] + t[j..];
  }

  /** A shorter capture whose `" equiv-text="{` lies inside the id of a
      match would match the same source. */
  lemma ShorterCaptureMatches(s: string, shape: Shape, n: nat, m: nat)
    requires MatchesWithId(s, shape, n)
    requires 3 <= m && m + |EquivOpen| <= n && s[|Opening| + m..|Opening| + m + |EquivOpen|] == EquivOpen
    ensures MatchesWithId(s, shape, m)
  {
    var o := |Opening|;
    var id := s[o..o + n];
    assert s[o..o + m] == id[0..m];
    NoLineTerminatorSlice(id, 0, m);
    TailAfterShorter(s, shape, n, m);
  }

  /** A match of length `n` with no shorter match is what `MatchShape` returns. */
  lemma MatchesShortest(s: string, shape: Shape, n: nat)
    requires MatchesWithId(s, shape, n)
    requires forall m: nat :: m < n ==> !MatchesWithId(s, shape, m)
    ensures MatchShape(s, shape) == Some(s[|Opening|..|Opening| + n])
  {
    var r := MatchShape(s, shape);
    assert r.Some?;
  }

  /** The canonical placeholder spells out the id after `<x id="`. */
  lemma CanonicalId(shape: Shape, id: string)
    ensures |Opening| + |id| <= |Canonical(shape, id)|
    ensures Canonical(shape, id)[|Opening|..|Opening| + |id|] == id
  {
    var o, n := |Opening|, |id|;
    var head := Opening + id;
    PrefixSlice(head + EquivOpen + CanonicalVariable(shape), CanonicalEnding(shape), o, o + n);
    PrefixSlice(head + EquivOpen, CanonicalVariable(shape), o, o + n);
    PrefixSlice(head, EquivOpen, o, o + n);
  }

  /** A range inside the first part of a concatenation reads the first part. */
  lemma PrefixSlice(x: string, y: string, i: nat, j: nat)
    requires i <= j <= |x|
    ensures (x + y)[i..j] == x[i..j]
  {
  }

  /** Texts that agree on a range agree on every range inside it. */
  lemma SameSlices(a: string, b: string, lo: nat, hi: nat, i: nat, j: nat)
    requires lo <= i <= j <= hi <= |a| && hi <= |b| && a[lo..hi] == b[lo..hi]
    ensures a[i..j] == b[i..j]
  {
    forall k | i <= k < j ensures a[k] == b[k] {
      assert a[k] == a[lo..hi][k - lo];
    }
  }

  /** When `c` and `s` both match with the same id, a shorter capture that
      matches `c` also matches `s`. */
  lemma ShorterTransfers(s: string, c: string, shape: Shape, id: string, m: nat)
    requires MatchesWithId(s, shape, |id|) && s[|Opening|..|Opening| + |id|] == id
    requires |Opening| + |id| + |EquivOpen| <= |c| && c[|Opening|..|Opening| + |id|] == id
    requires c[|Opening| + |id|..|Opening| + |id| + |EquivOpen|] == EquivOpen
    requires 3 <= m < |id| && c[|Opening| + m..|Opening| + m + |EquivOpen|] == EquivOpen
    ensures MatchesWithId(s, shape, m)
  {
    var o, e := |Opening|, |EquivOpen|;
    EquivOpenInsideId(c, id, m);
    SameSlices(s, c, o, o + |id|, o + m, o + m + e);
    assert s[o + m..o + m + e] == EquivOpen;
    ShorterCaptureMatches(s, shape, |id|, m);
  }

  /** No capture shorter than `id` matches the canonical placeholder for a
      matched source: it would match the source as well. */
  lemma NoShorterInCanonical(s: string, shape: Shape)
    requires MatchShape(s, shape).Some?
    ensures var id := MatchShape(s, shape).value;
      forall m: nat :: m < |id| ==> !MatchesWithId(Canonical(shape, id), shape, m)
  {
    var id := MatchShape(s, shape).value;
    var c := Canonical(shape, id);
    CanonicalMatches(shape, id);
    CanonicalId(shape, id);
    forall m: nat | m < |id|
      ensures !MatchesWithId(c, shape, m)
    {
      if MatchesWithId(c, shape, m) {
        ShorterTransfers(s, c, shape, id, m);
      }
    }
  }

  /** The canonical placeholder written for a matched source has the same
      shape again, and the pattern captures the same id from it, so the
      rewriting never leaves its family nor changes the id. */
  lemma CanonicalKeepsShape(s: string, shape: Shape)
    requires MatchShape(s, shape).Some?
    ensures MatchShape(Canonical(shape, MatchShape(s, shape).value), shape) == MatchShape(s, shape)
  {
    var id := MatchShape(s, shape).value;
    var c := Canonical(shape, id);
    CanonicalMatches(shape, id);
    NoShorterInCanonical(s, shape);
    CanonicalId(shape, id);
    MatchesShortest(c, shape, |id|);
  }
}
