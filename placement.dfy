/** The two placeholder loops of the pre-pass taken whole (main.js:244-246, 265-267, 324-326).
    Each loop runs once per entry of a table read with `s.match`, and each turn replaces the
    first remaining match. Turn i therefore writes placeholder i over the i-th match of the
    original text, which is the text recorded as table entry i. That holds because a
    placeholder can neither start nor complete a match, so each turn's first match is the next
    original one. */
module Placement {
  import opened JsStrings
  import opened Patterns
  import opened Directives
  import opened PrePass

  /* ---------------------------------------------------------------- `attr={{…}}` */

  /** A closing `}}` on the line after position a. */
  ghost predicate ClosedAfter(t: string, a: nat) {
    exists q :: a <= q && ContainsAt(t, q, "}}") && NoBreak(t, a, q)
  }

  lemma ClosedAfterSuffix(t: string, k: nat, h: nat)
    requires k + h <= |t|
    ensures ClosedAfter(t[k..], h) <==> ClosedAfter(t, k + h)
  {
    if ClosedAfter(t[k..], h) {
      var q :| h <= q && ContainsAt(t[k..], q, "}}") && NoBreak(t[k..], h, q);
      ContainsAtSuffix(t, k, q, "}}");
      NoBreakSuffix(t, k, h, q);
      assert k + h <= k + q && ContainsAt(t, k + q, "}}") && NoBreak(t, k + h, k + q);
    }
    if ClosedAfter(t, k + h) {
      var q :| k + h <= q && ContainsAt(t, q, "}}") && NoBreak(t, k + h, q);
      ContainsAtSuffix(t, k, q - k, "}}");
      NoBreakSuffix(t, k, h, q - k);
      assert h <= q - k && ContainsAt(t[k..], q - k, "}}") && NoBreak(t[k..], h, q - k);
    }
  }

  /** `attr={{.*}}` matches at k exactly when a head at k has a `}}` after it on its line. */
  lemma AttrTwigMatchAt(t: string, f: AttrFamily, k: nat)
    requires k <= |t|
    ensures var head := f.Name() + "={{";
      MatchAt(AttrTwig(f), t, k).Some? <==> ContainsAt(t, k, head) && ClosedAfter(t, k + |head|)
  {
    var head := f.Name() + "={{";
    var h := |head|;
    var x := t[k..];
    if ContainsAt(t, k, head) {
      assert x[..h] == t[k..k + h];
      LastOnLine(x, "}}", h);
      ClosedAfterSuffix(t, k, h);
    } else if h <= |x| {
      assert x[..h] == t[k..k + h];
    }
  }

  /** The head of every family ends with `{`, holds no `"` and no line terminator. */
  lemma HeadShape(f: AttrFamily)
    ensures var head := f.Name() + "={{";
      && |head| >= 3 && head[|head| - 1] == '{' && Lacks(head, '"')
      && forall i :: 0 <= i < |head| ==> !IsLineTerminator(head[i])
  {
    match f
    case ClassAttr =>
    case CheckedAttr =>
    case SelectedAttr =>
  }

  /** A family placeholder holds no `{` and no `$` and ends with `"`. */
  lemma PlaceholderShape(f: AttrFamily, i: nat)
    ensures PlaceholderShaped(FamilyPlaceholder(f, i))
  {
    PlaceholdersNoDollar("", f, i);
    FamilyTextsLackBrace(f);
    LacksFive(f.Name(), "=\"", TemplateAttr(f), NatToString(i), "\"", '{');
  }

  lemma FamilyTextsLackBrace(f: AttrFamily)
    ensures Lacks(f.Name(), '{') && Lacks(TemplateAttr(f), '{')
  {
    match f
    case ClassAttr =>
    case CheckedAttr =>
    case SelectedAttr =>
  }

  lemma LacksFive(a: string, b: string, c: string, d: string, e: string, ch: char)
    requires Lacks(a, ch) && Lacks(b, ch) && Lacks(c, ch) && Lacks(d, ch) && Lacks(e, ch)
    ensures Lacks(a + b + c + d + e, ch)
  {
  }

  /** A head (ending with `{`, holding no `"`) cannot overlap a text that holds no `{` and ends
      with `"`. */
  lemma NoHeadOverlap(u: string, j: nat, p: string, head: string, k: nat)
    requires j + |p| <= |u| && u[j..j + |p|] == p && p != [] && p[|p| - 1] == '"' && Lacks(p, '{')
    requires head != [] && head[|head| - 1] == '{' && Lacks(head, '"')
    requires k < j + |p| && j < k + |head|
    ensures !ContainsAt(u, k, head)
  {
    var h := |head|;
    if k + h - 1 < j + |p| {
      assert u[k + h - 1] == p[k + h - 1 - j] != '{';
      assert k + h <= |u| ==> u[k..k + h][h - 1] == u[k + h - 1];
    } else {
      var z := j + |p| - 1;
      assert u[z] == p[|p| - 1] == '"';
      assert k + h <= |u| ==> u[k..k + h][z - k] == u[z];
    }
  }

  /** A `}}` closing a head at k in u, which keeps t up to the match at j after k, closes it in
      t as well: either it lies before j, or the line runs on to j and the `}}` that closes j. */
  lemma CloseCarriesBack(t: string, u: string, j: nat, head: string, k: nat)
    requires ContainsAt(t, j, head) && ClosedAfter(t, j + |head|)
    requires forall i :: 0 <= i < |head| ==> !IsLineTerminator(head[i])
    requires k + |head| <= j <= |u| && u[..j] == t[..j]
    ensures ClosedAfter(u, k + |head|) ==> ClosedAfter(t, k + |head|)
  {
    var h := |head|;
    if ClosedAfter(u, k + h) {
      var q :| k + h <= q && ContainsAt(u, q, "}}") && NoBreak(u, k + h, q);
      if q + 2 <= j {
        assert t[q..q + 2] == u[..j][q..q + 2] == u[q..q + 2];
        assert forall i :: k + h <= i < q ==> t[i] == u[..j][i] == u[i];
        assert ContainsAt(t, q, "}}") && NoBreak(t, k + h, q);
      } else {
        var e :| j + h <= e && ContainsAt(t, e, "}}") && NoBreak(t, j + h, e);
        assert t[j..j + h] == head;
        forall i | k + h <= i < e
          ensures !IsLineTerminator(t[i])
        {
          if i < j {
            assert t[i] == u[..j][i] == u[i];
            if q <= i {
              assert u[q..q + 2][0] == u[q];
            }
          } else if i < j + h {
            assert t[i] == head[i - j];
          }
        }
        assert ContainsAt(t, e, "}}") && NoBreak(t, k + h, e);
      }
    }
  }

  /** re matches at i exactly when head occurs at i and a `}}` closes it on its line: the shape
      of `attr={{.*}}`. */
  ghost predicate HeadClosedRe(re: Regex, head: string) {
    forall s: string, i: nat {:trigger MatchAt(re, s, i)} :: i <= |s| ==>
      (MatchAt(re, s, i).Some? <==> ContainsAt(s, i, head) && ClosedAfter(s, i + |head|))
  }

  /** A head that ends with `{` and holds no `"` and no line terminator. */
  predicate HeadShaped(head: string) {
    head != [] && head[|head| - 1] == '{' && Lacks(head, '"')
    && forall i :: 0 <= i < |head| ==> !IsLineTerminator(head[i])
  }

  /** A placeholder that holds no `{` and no `$` and ends with `"`. */
  predicate PlaceholderShaped(p: string) {
    p != [] && p[|p| - 1] == '"' && Lacks(p, '{') && NoDollar(p)
  }

  lemma AttrTwigHeadClosed(f: AttrFamily)
    ensures HeadClosedRe(AttrTwig(f), f.Name() + "={{") && HeadShaped(f.Name() + "={{")
  {
    HeadShape(f);
    forall s: string, i: nat | i <= |s|
      ensures MatchAt(AttrTwig(f), s, i).Some? <==> ContainsAt(s, i, f.Name() + "={{") && ClosedAfter(s, i + |f.Name() + "={{"|)
    {
      AttrTwigMatchAt(s, f, i);
    }
  }

  /** Replacing the first match m of t by p leaves no match starting at k before the end of p. */
  lemma HeadCleanAt(re: Regex, head: string, t: string, m: Match, p: string, k: nat)
    requires HeadClosedRe(re, head) && HeadShaped(head) && PlaceholderShaped(p)
    requires m.start < m.end <= |t| && MatchAt(re, t, m.start).Some?
    requires forall j :: 0 <= j < m.start ==> MatchAt(re, t, j).None?
    requires k < m.start + |p|
    ensures MatchAt(re, t[..m.start] + p + t[m.end..], k).None?
  {
    var u := t[..m.start] + p + t[m.end..];
    assert MatchAt(re, u, k).Some? <==> ContainsAt(u, k, head) && ClosedAfter(u, k + |head|);
    if k + |head| > m.start {
      assert u[m.start..m.start + |p|] == p;
      NoHeadOverlap(u, m.start, p, head, k);
    } else {
      assert MatchAt(re, t, k).None?;
      assert MatchAt(re, t, m.start).Some?;
      assert u[..m.start] == t[..m.start];
      ContainsAtPrefix(t, u, m.start, k, head);
      CloseCarriesBack(t, u, m.start, head, k);
    }
  }

  /** One turn of a loop replacing the first match by p, on a text x + y whose first |x|
      positions hold no match: the first match of y becomes p, and the text up to p still holds
      no match. */
  lemma HeadTurn(re: Regex, head: string, t: string, x: string, y: string, m: Match, p: string)
    requires HeadClosedRe(re, head) && HeadShaped(head) && PlaceholderShaped(p)
    requires t == x + y && forall k :: 0 <= k < |x| ==> MatchAt(re, t, k).None?
    requires Find(re, y) == Some(m)
    ensures var w := x + y[..m.start] + p;
      && ReplaceFirst(re, t, p) == w + y[m.end..]
      && forall k :: 0 <= k < |w| ==> MatchAt(re, ReplaceFirst(re, t, p), k).None?
  {
    var mt := Match(|x| + m.start, |x| + m.end, m.caps);
    assert Find(re, t) == Some(mt) by {
      FindPastPrefix(re, x, y);
    }
    assert ReplaceFirst(re, t, p) == t[..mt.start] + p + t[mt.end..] by {
      SubstitutePlain(p, mt.caps, t[mt.start..mt.end], t[..mt.start], t[mt.end..]);
    }
    assert t[..mt.start] == x + y[..m.start];
    assert t[mt.end..] == y[m.end..];
    FindFromSpec(re, t, 0);
    forall k | 0 <= k < mt.start + |p|
      ensures MatchAt(re, t[..mt.start] + p + t[mt.end..], k).None?
    {
      HeadCleanAt(re, head, t, mt, p, k);
    }
  }

  /** t is s with its first n matches ms replaced by reps, and no match of re starts before
      the part of s that follows them. */
  ghost predicate Placed(re: Regex, t: string, s: string, ms: seq<Match>, reps: seq<string>, n: nat) {
    Ordered(s, 0, ms) && n <= |ms| && |reps| == |ms|
    && var w := Woven(s, ms, reps, n);
    && t == w + s[Resume(0, ms, n)..]
    && forall k :: 0 <= k < |w| ==> MatchAt(re, t, k).None?
  }

  /** Turn n of the loop: the next match of s is the first match left in t. */
  lemma HeadLoopStep(re: Regex, head: string, t: string, s: string, ms: seq<Match>, reps: seq<string>, n: nat)
    requires HeadClosedRe(re, head) && HeadShaped(head)
    requires Placed(re, t, s, ms, reps, n) && n < |ms| && PlaceholderShaped(reps[n])
    requires FindFrom(re, s, Resume(0, ms, n)) == Some(ms[n])
    ensures Placed(re, ReplaceFirst(re, t, reps[n]), s, ms, reps, n + 1)
  {
    var e := Resume(0, ms, n);
    var y := s[e..];
    var m := Match(ms[n].start - e, ms[n].end - e, ms[n].caps);
    PlacedPieces(re, t, s, ms, reps, n);
    HeadTurn(re, head, t, Woven(s, ms, reps, n), y, m, reps[n]);
    PlacedNext(re, ReplaceFirst(re, t, reps[n]), s, ms, reps, n, Woven(s, ms, reps, n + 1), y[m.end..]);
  }

  /** What turn n works on: t is the woven part followed by the rest y of s, whose first match
      is match n, shifted; weaving that match in gives the woven part of turn n + 1. */
  lemma PlacedPieces(re: Regex, t: string, s: string, ms: seq<Match>, reps: seq<string>, n: nat)
    requires Placed(re, t, s, ms, reps, n) && n < |ms|
    requires FindFrom(re, s, Resume(0, ms, n)) == Some(ms[n])
    ensures var e := Resume(0, ms, n); var y := s[e..];
      var m := Match(ms[n].start - e, ms[n].end - e, ms[n].caps); var w := Woven(s, ms, reps, n);
      && t == w + y && (forall k :: 0 <= k < |w| ==> MatchAt(re, t, k).None?)
      && Find(re, y) == Some(m)
      && w + y[..m.start] + reps[n] == Woven(s, ms, reps, n + 1)
      && y[m.end..] == s[Resume(0, ms, n + 1)..]
  {
    var e := Resume(0, ms, n);
    FindFromShift(re, s, e, s[e..], 0);
    WovenNext(s, ms, reps, n);
  }

  lemma PlacedNext(re: Regex, r: string, s: string, ms: seq<Match>, reps: seq<string>, n: nat, w: string, rest: string)
    requires Ordered(s, 0, ms) && n < |ms| && |reps| == |ms|
    requires w == Woven(s, ms, reps, n + 1) && rest == s[Resume(0, ms, n + 1)..] && r == w + rest
    requires forall k :: 0 <= k < |w| ==> MatchAt(re, r, k).None?
    ensures Placed(re, r, s, ms, reps, n + 1)
  {
    assert Woven(s, ms, reps, n + 1) == w;
    assert forall k :: 0 <= k < |Woven(s, ms, reps, n + 1)| ==> MatchAt(re, r, k).None?;
  }

  /** One more match woven in. */
  lemma WovenNext(s: string, ms: seq<Match>, reps: seq<string>, n: nat)
    requires Ordered(s, 0, ms) && n < |ms| && |reps| == |ms|
    ensures var e := Resume(0, ms, n); var y := s[e..];
      && Woven(s, ms, reps, n + 1) == Woven(s, ms, reps, n) + y[..ms[n].start - e] + reps[n]
      && s[Resume(0, ms, n + 1)..] == y[ms[n].end - e..]
  {
    var e := Resume(0, ms, n);
    var y := s[e..];
    assert e <= ms[n].start <= ms[n].end <= |s|;
    assert s[e..ms[n].start] == y[..ms[n].start - e];
    assert s[ms[n].end..] == y[ms[n].end - e..];
  }

  /** n turns of a loop whose turn i replaces the first match of re by reps[i]. */
  function ReplaceEach(re: Regex, s: string, reps: seq<string>, n: nat): string
    requires n <= |reps|
  {
    if n == 0 then s else ReplaceFirst(re, ReplaceEach(re, s, reps, n - 1), reps[n - 1])
  }

  /** After n turns of a loop that replaces the first match by a placeholder, with one
      placeholder per match of s, the first n matches have become placeholders 0 .. n - 1 and
      no match starts before the rest of s. */
  lemma {:induction false} HeadLoop(re: Regex, head: string, s: string, reps: seq<string>, n: nat)
    requires HeadClosedRe(re, head) && HeadShaped(head)
    requires |reps| == |Matches(re, s)| && n <= |reps|
    requires forall i :: 0 <= i < |reps| ==> PlaceholderShaped(reps[i])
    ensures Placed(re, ReplaceEach(re, s, reps, n), s, Matches(re, s), reps, n)
  {
    var ms := Matches(re, s);
    if n == 0 {
      MatchesOrdered(re, s);
      assert s[0..] == s;
    } else {
      HeadLoop(re, head, s, reps, n - 1);
      MatchesNext(re, s, n - 1);
      HeadLoopStep(re, head, ReplaceEach(re, s, reps, n - 1), s, ms, reps, n - 1);
    }
  }

  /** The placeholders of one family, by index. */
  function FamilyPlaceholders(f: AttrFamily, n: nat): (ps: seq<string>)
    ensures |ps| == n && forall i :: 0 <= i < n ==> ps[i] == FamilyPlaceholder(f, i)
  {
    seq(n, i requires 0 <= i => FamilyPlaceholder(f, i))
  }

  /** The family loop is the generic loop over its placeholders. */
  lemma {:induction false} PlaceAttrsEach(s: string, f: AttrFamily, n: nat, total: nat)
    requires n <= total
    ensures PlaceAttrs(s, f, n) == ReplaceEach(AttrTwig(f), s, FamilyPlaceholders(f, total), n)
  {
    if n > 0 {
      PlaceAttrsEach(s, f, n - 1, total);
    }
  }

  /** The whole family loop (main.js:317-327): with one turn per entry of the table read by
      `s.match`, match i, which is table entry i, has become placeholder i; the text between the
      matches is kept and no `attr={{…}}` text is left. */
  lemma PlaceAttrsAll(s: string, f: AttrFamily)
    ensures var ms := Matches(AttrTwig(f), s); var table := MatchTexts(AttrTwig(f), s);
      && Ordered(s, 0, ms) && |table| == |ms|
      && (forall i :: 0 <= i < |ms| ==> table[i] == s[ms[i].start..ms[i].end])
      && PlaceAttrs(s, f, |table|) == Woven(s, ms, FamilyPlaceholders(f, |ms|), |ms|) + s[Resume(0, ms, |ms|)..]
      && !Test(AttrTwig(f), PlaceAttrs(s, f, |table|))
  {
    var re := AttrTwig(f);
    var ms := Matches(re, s);
    var reps := FamilyPlaceholders(f, |ms|);
    MatchesChain(re, s, 0);
    assert forall i :: 0 <= i < |reps| ==> PlaceholderShaped(reps[i]) by {
      forall i | 0 <= i < |reps| {
        PlaceholderShape(f, i);
      }
    }
    AttrTwigHeadClosed(f);
    HeadLoop(re, f.Name() + "={{", s, reps, |ms|);
    PlaceAttrsEach(s, f, |ms|, |ms|);
    PlacedAll(re, PlaceAttrs(s, f, |ms|), s, ms, reps);
  }

  /** Once every match is placed, none is left. */
  lemma PlacedAll(re: Regex, t: string, s: string, ms: seq<Match>, reps: seq<string>)
    requires Placed(re, t, s, ms, reps, |ms|) && FindFrom(re, s, Resume(0, ms, |ms|)).None?
    ensures !Test(re, t)
  {
    var w := Woven(s, ms, reps, |ms|);
    var e := Resume(0, ms, |ms|);
    var y := s[e..];
    FindFromShift(re, s, e, y, 0);
    FindPastPrefix(re, w, y);
  }

  /* ---------------------------------------------------------------- `(<.*){{.*}}(.*>)` */

  /** A tag read at k: `<` at k, then `{{` at A, `}}` at B and `>` at C, in that order, on one
      line. */
  ghost predicate TagShape(t: string, k: nat, A: nat, B: nat, C: nat) {
    k < A && A + 2 <= B && B + 2 <= C < |t| && t[k] == '<' && ContainsAt(t, A, "{{")
    && ContainsAt(t, B, "}}") && t[C] == '>' && NoBreak(t, k + 1, C)
  }

  /** A tag match at k: its groups and end, where the greedy `.*` parts put `>` at the last one
      on the line and `}}` at the last one before it. */
  lemma TagMatchShape(t: string, k: nat, mt: Match) returns (A: nat, B: nat, C: nat)
    requires k <= |t| && MatchAt(TwigTag, t, k) == Some(mt)
    ensures TagShape(t, k, A, B, C)
    ensures mt == Match(k, C + 1, [t[k..A], t[B + 2..C + 1]])
    ensures forall q :: B < q <= C - 2 ==> !ContainsAt(t, q, "}}")
    ensures forall q :: C < q < |t| && NoBreak(t, k + 1, q) ==> t[q] != '>'
  {
    var v := t[k..];
    var (a, b, c) := TwigTagAt(v).value;
    A, B, C := k + a, k + b, k + c;
    assert mt == Match(k, C + 1, [v[..a], v[b + 2..c + 1]]);
    assert v[..a] == t[k..A] && v[b + 2..c + 1] == t[B + 2..C + 1];
    TagAtFacts(v);
    TagFactsShift(t, k, a, b, c);
  }

  /** The tag read at the start of v, in v's own positions. */
  lemma TagAtFacts(v: string)
    requires TwigTagAt(v).Some?
    ensures var (a, b, c) := TwigTagAt(v).value;
      && v[0] == '<' && ContainsAt(v, a, "{{") && ContainsAt(v, b, "}}") && v[c] == '>' && NoBreak(v, 1, c)
      && (forall q :: b < q <= c - 2 ==> !ContainsAt(v, q, "}}"))
      && (forall q :: c < q < |v| && NoBreak(v, 1, q) ==> v[q] != '>')
  {
    var (a, b, c) := TwigTagAt(v).value;
    assert v[..1] == "<";
    assert ContainsAt(v, c, ">");
    assert v[c..c + 1] == [v[c]];
    LineEndCovers(v, 1, c);
    forall q | c < q < |v| && NoBreak(v, 1, q)
      ensures v[q] != '>'
    {
      LineEndCovers(v, 1, q);
      assert !ContainsAt(v, q, ">");
      assert v[q..q + 1] == [v[q]];
    }
  }

  /** The same facts read in t, for v = t[k..]. */
  lemma TagFactsShift(t: string, k: nat, a: nat, b: nat, c: nat)
    requires k <= |t| && 1 <= a && a + 2 <= b && b + 2 <= c < |t| - k
    requires var v := t[k..];
      && v[0] == '<' && ContainsAt(v, a, "{{") && ContainsAt(v, b, "}}") && v[c] == '>' && NoBreak(v, 1, c)
      && (forall q :: b < q <= c - 2 ==> !ContainsAt(v, q, "}}"))
      && (forall q :: c < q < |v| && NoBreak(v, 1, q) ==> v[q] != '>')
    ensures TagShape(t, k, k + a, k + b, k + c)
    ensures forall q :: k + b < q <= k + c - 2 ==> !ContainsAt(t, q, "}}")
    ensures forall q :: k + c < q < |t| && NoBreak(t, k + 1, q) ==> t[q] != '>'
  {
    var v := t[k..];
    NoBreakSuffix(t, k, 1, c);
    ContainsAtSuffix(t, k, a, "{{");
    ContainsAtSuffix(t, k, b, "}}");
    forall q | k + b < q <= k + c - 2
      ensures !ContainsAt(t, q, "}}")
    {
      ContainsAtSuffix(t, k, q - k, "}}");
    }
    forall q | k + c < q < |t| && NoBreak(t, k + 1, q)
      ensures t[q] != '>'
    {
      NoBreakSuffix(t, k, 1, q - k);
    }
  }

  /** Any `<`, `{{`, `}}`, `>` in order on one line make a tag match. */
  lemma TagShapeMatch(t: string, k: nat, A: nat, B: nat, C: nat)
    requires TagShape(t, k, A, B, C)
    ensures MatchAt(TwigTag, t, k).Some?
  {
    var v := t[k..];
    NoBreakSuffix(t, k, 1, C - k);
    LineEndCovers(v, 1, C - k);
    assert v[C - k..C - k + 1] == [t[C]];
    assert ContainsAt(v, C - k, ">");
    ContainsAtSuffix(t, k, A - k, "{{");
    ContainsAtSuffix(t, k, B - k, "}}");
    assert v[..1] == "<";
  }

  /** Before the tag being replaced, a match after the turn was already one before it: either
      its line ends before the splice, or the replaced tag completes it. */
  lemma TagCleanBefore(t: string, u: string, i: nat, a: nat, b: nat, c: nat, k: nat)
    requires TagShape(t, i, a, b, c) && a <= |u| && u[..a] == t[..a] && k < i
    ensures MatchAt(TwigTag, u, k).Some? ==> MatchAt(TwigTag, t, k).Some?
  {
    if MatchAt(TwigTag, u, k).Some? {
      var A, B, C := TagMatchShape(u, k, MatchAt(TwigTag, u, k).value);
      var A', B', C' := ShapeBefore(t, u, i, a, b, c, k, A, B, C);
      TagShapeMatch(t, k, A', B', C');
    }
  }

  /** The positions of such a tag read in t. */
  lemma ShapeBefore(t: string, u: string, i: nat, a: nat, b: nat, c: nat, k: nat, A: nat, B: nat, C: nat)
    returns (A': nat, B': nat, C': nat)
    requires TagShape(t, i, a, b, c) && a <= |u| && u[..a] == t[..a] && k < i
    requires TagShape(u, k, A, B, C)
    ensures TagShape(t, k, A', B', C')
  {
    assert forall j :: 0 <= j < a ==> u[j] == t[j] by {
      forall j | 0 <= j < a
        ensures u[j] == t[j]
      {
        assert u[j] == u[..a][j];
      }
    }
    if C < a {
      ContainsAtPrefix(u, t, a, A, "{{");
      ContainsAtPrefix(u, t, a, B, "}}");
      A', B', C' := A, B, C;
    } else {
      A', B', C' := a, b, c;
    }
  }

  /** A `}}` after the placeholder of the turn, with a `>` after it on its line, would be a
      `}}` of the replaced tag after its last one. */
  lemma TagCloseTail(t: string, P: string, i: nat, a: nat, b: nat, c: nat, k: nat, B: nat, C: nat)
    requires TagShape(t, i, a, b, c)
    requires i <= k < a + |P| + (c + 1 - (b + 2))
    requires var u := t[..a] + P + t[b + 2..];
      k < B && B + 2 <= C < |u| && ContainsAt(u, B, "}}") && u[C] == '>' && NoBreak(u, k + 1, C)
    ensures B >= a + |P| ==>
      var q := B - a - |P| + b + 2; var r := C - a - |P| + b + 2;
      b < q && q + 2 <= r < |t| && ContainsAt(t, q, "}}") && t[r] == '>' && NoBreak(t, i + 1, r)
  {
    var u := t[..a] + P + t[b + 2..];
    if B >= a + |P| {
      var q := B - a - |P| + b + 2;
      var r := C - a - |P| + b + 2;
      assert forall j :: a + |P| <= j < |u| ==> u[j] == t[j - a - |P| + b + 2];
      assert u[B..B + 2] == t[q..q + 2];
      forall j | i + 1 <= j < r
        ensures !IsLineTerminator(t[j])
      {
        if j > c {
          var jj := j + a + |P| - b - 2;
          assert k + 1 <= jj < C && u[jj] == t[j];
        }
      }
    }
  }

  /** A `}}` cannot touch the placeholder, which holds no `}`. */
  lemma TagCloseNotInPlaceholder(t: string, P: string, a: nat, b: nat, B: nat)
    requires a <= |t| && b + 2 <= |t| && P != []
    requires ContainsAt(t[..a] + P + t[b + 2..], B, "}}")
    ensures a <= B < a + |P| ==> P[B - a] == '}'
    ensures B + 1 == a ==> P[0] == '}'
  {
    var u := t[..a] + P + t[b + 2..];
    assert u[B] == '}' && u[B + 1] == '}';
    assert forall j :: a <= j < a + |P| ==> u[j] == P[j - a];
  }

  /** From the start of the replaced tag to the end of its replacement, a match after the turn
      would need a `{{ ... }}` inside the tag's first group. */
  lemma TagCleanFrom(t: string, P: string, i: nat, a: nat, b: nat, c: nat, k: nat)
    requires TagShape(t, i, a, b, c)
    requires forall q :: b < q <= c - 2 ==> !ContainsAt(t, q, "}}")
    requires forall q :: c < q < |t| && NoBreak(t, i + 1, q) ==> t[q] != '>'
    requires Lacks(P, '}') && P != []
    requires i <= k < a + |P| + (c + 1 - (b + 2))
    ensures MatchAt(TwigTag, t[..a] + P + t[b + 2..], k).Some? ==> Contains(t[i..a], "{{")
  {
    var u := t[..a] + P + t[b + 2..];
    if MatchAt(TwigTag, u, k).Some? {
      var A, B, C := TagMatchShape(u, k, MatchAt(TwigTag, u, k).value);
      ShapeFrom(t, P, i, a, b, c, k, A, B, C);
    }
  }

  /** A tag read after the turn from inside the replacement has its `{{ ... }}` inside the
      first group of the replaced tag. */
  lemma ShapeFrom(t: string, P: string, i: nat, a: nat, b: nat, c: nat, k: nat, A: nat, B: nat, C: nat)
    requires TagShape(t, i, a, b, c)
    requires forall q :: b < q <= c - 2 ==> !ContainsAt(t, q, "}}")
    requires forall q :: c < q < |t| && NoBreak(t, i + 1, q) ==> t[q] != '>'
    requires Lacks(P, '}') && P != []
    requires i <= k < a + |P| + (c + 1 - (b + 2))
    requires TagShape(t[..a] + P + t[b + 2..], k, A, B, C)
    ensures Contains(t[i..a], "{{")
  {
    var u := t[..a] + P + t[b + 2..];
    assert B < a + |P| by {
      TagCloseTail(t, P, i, a, b, c, k, B, C);
      NoCloseAfter(t, i, b, c, B - a - |P| + b + 2, C - a - |P| + b + 2);
    }
    assert B < a by {
      TagCloseNotInPlaceholder(t, P, a, b, B);
      LacksAt(P, '}', B - a);
    }
    assert B + 1 != a by {
      TagCloseNotInPlaceholder(t, P, a, b, B);
      LacksAt(P, '}', 0);
    }
    assert ContainsAt(t, A, "{{") by {
      assert u[..a] == t[..a];
      ContainsAtPrefix(u, t, a, A, "{{");
    }
    ContainsAtSlice(t, i, a, A, "{{");
    AbsentMeansNotContains(t[i..a], "{{");
  }

  lemma LacksAt(s: string, ch: char, j: int)
    requires Lacks(s, ch)
    ensures 0 <= j < |s| ==> s[j] != ch
  {
  }

  /** Past the last `}}` of a tag, no `}}` is followed by a `>` on the tag's line. */
  lemma NoCloseAfter(t: string, i: nat, b: nat, c: nat, q: int, r: int)
    requires c < |t|
    requires forall q :: b < q <= c - 2 ==> !ContainsAt(t, q, "}}")
    requires forall q :: c < q < |t| && NoBreak(t, i + 1, q) ==> t[q] != '>'
    ensures b < q && q + 2 <= r < |t| && NoBreak(t, i + 1, r) ==> !ContainsAt(t, q, "}}") || t[r] != '>'
  {
    if b < q && q + 2 <= r < |t| && NoBreak(t, i + 1, r) {
      if r <= c {
        assert !ContainsAt(t, q, "}}");
      } else {
        assert t[r] != '>';
      }
    }
  }

  /** No match is left before the end of the replaced tag, at a + |P| + (c - b - 1). */
  lemma TagCleanUpTo(t: string, P: string, i: nat, a: nat, b: nat, c: nat, u: string, n: nat)
    requires TagShape(t, i, a, b, c) && u == t[..a] + P + t[b + 2..] && n == a + |P| + (c + 1 - (b + 2))
    requires forall q :: b < q <= c - 2 ==> !ContainsAt(t, q, "}}")
    requires forall q :: c < q < |t| && NoBreak(t, i + 1, q) ==> t[q] != '>'
    requires forall k :: 0 <= k < i ==> MatchAt(TwigTag, t, k).None?
    requires Lacks(P, '}') && P != [] && !Contains(t[i..a], "{{")
    ensures forall k :: 0 <= k < n ==> MatchAt(TwigTag, u, k).None?
  {
    forall k | 0 <= k < n
      ensures MatchAt(TwigTag, u, k).None?
    {
      if k < i {
        assert u[..a] == t[..a];
        TagCleanBefore(t, u, i, a, b, c, k);
      } else {
        TagCleanFrom(t, P, i, a, b, c, k);
      }
    }
  }

  lemma Rejoin(t: string, i: nat, a: nat, b: nat, e: nat, P: string)
    requires i <= a <= b + 2 <= e <= |t|
    ensures t[..i] + t[i..a] + P + t[b + 2..e] + t[e..] == t[..a] + P + t[b + 2..]
  {
    assert t[..i] + t[i..a] == t[..a];
    assert t[b + 2..e] + t[e..] == t[b + 2..];
  }

  /** A placeholder for `$1P$2`: non-empty, and holding no `}` and no `$`. */
  predicate TagSafe(P: string) {
    P != [] && Lacks(P, '}') && NoDollar(P)
  }

  /** t with the match m replaced by its first group, P and its second group. */
  function Spliced(t: string, m: Match, P: string): string
    requires m.start <= m.end <= |t|
  {
    t[..m.start] + Group(m, 1) + P + Group(m, 2) + t[m.end..]
  }

  /** Splicing P between the groups of m leaves no match up to the end of the splice. */
  ghost predicate SplicedClean(re: Regex, t: string, m: Match, P: string) {
    m.start <= m.end <= |t| && |m.caps| == 2
    && forall k :: 0 <= k < m.start + |Group(m, 1)| + |P| + |Group(m, 2)| ==> MatchAt(re, Spliced(t, m, P), k).None?
  }

  /** What the tag loop needs of the tag regex: replacing the first match of re in t, at i, by
      its groups around P leaves no match before the end of what was written, when its first
      group holds no `{{`. */
  ghost predicate TagTurnClean(re: Regex, t: string, i: nat, P: string) {
    i <= |t| && TagSafe(P) && MatchAt(re, t, i).Some?
    && (forall k :: 0 <= k < i ==> MatchAt(re, t, k).None?)
    && !Contains(Group(MatchAt(re, t, i).value, 1), "{{")
    ==> SplicedClean(re, t, MatchAt(re, t, i).value, P)
  }

  /** re is a tag regex: every such turn is clean. */
  ghost predicate TagRe(re: Regex) {
    forall t: string, i: nat, P: string {:trigger TagTurnClean(re, t, i, P)} :: TagTurnClean(re, t, i, P)
  }

  lemma TagCleanSpliced(t: string, i: nat, P: string)
    requires i <= |t| && TagSafe(P) && MatchAt(TwigTag, t, i).Some?
    requires forall k :: 0 <= k < i ==> MatchAt(TwigTag, t, k).None?
    requires !Contains(Group(MatchAt(TwigTag, t, i).value, 1), "{{")
    ensures SplicedClean(TwigTag, t, MatchAt(TwigTag, t, i).value, P)
  {
    var mt := MatchAt(TwigTag, t, i).value;
    var a, b, c := TagMatchShape(t, i, mt);
    var u := t[..a] + P + t[b + 2..];
    var n := a + |P| + (c + 1 - (b + 2));
    TagCleanUpTo(t, P, i, a, b, c, u, n);
    assert Spliced(t, mt, P) == u by {
      Rejoin(t, i, a, b, c + 1, P);
    }
  }

  /** `(<.*){{.*}}(.*>)` is such a regex. */
  lemma TwigTagRe()
    ensures TagRe(TwigTag)
  {
    forall t: string, i: nat, P: string |
      i <= |t| && TagSafe(P) && MatchAt(TwigTag, t, i).Some?
      && (forall k :: 0 <= k < i ==> MatchAt(TwigTag, t, k).None?)
      && !Contains(Group(MatchAt(TwigTag, t, i).value, 1), "{{")
      ensures SplicedClean(TwigTag, t, MatchAt(TwigTag, t, i).value, P)
    {
      TagCleanSpliced(t, i, P);
    }
  }

  /** The first match of y is the first match of x + y when x holds none. */
  lemma FirstPastPrefix(re: Regex, t: string, x: string, y: string, m: Match)
    requires t == x + y && forall k :: 0 <= k < |x| ==> MatchAt(re, t, k).None?
    requires Find(re, y) == Some(m)
    ensures MatchAt(re, t, |x| + m.start) == Some(Match(|x| + m.start, |x| + m.end, m.caps))
    ensures forall k :: 0 <= k < |x| + m.start ==> MatchAt(re, t, k).None?
  {
    FindPastPrefix(re, x, y);
    FindFromSpec(re, t, 0);
  }

  /** One turn of a loop replacing the first match by `$1P$2`, on a text x + y whose first |x|
      positions hold no match: the first match of y becomes its first group, P and its second
      group, and up to the end of those no match is left, provided the first group holds no
      `{{`. */
  lemma TagTurn(re: Regex, t: string, x: string, y: string, m: Match, P: string)
    requires TagRe(re) && TagSafe(P)
    requires t == x + y && forall k :: 0 <= k < |x| ==> MatchAt(re, t, k).None?
    requires Find(re, y) == Some(m) && !Contains(Group(m, 1), "{{")
    ensures var w := x + y[..m.start] + (Group(m, 1) + P + Group(m, 2));
      && ReplaceFirst(re, t, "$1" + P + "$2") == w + y[m.end..]
      && forall k :: 0 <= k < |w| ==> MatchAt(re, ReplaceFirst(re, t, "$1" + P + "$2"), k).None?
  {
    var mt := Match(|x| + m.start, |x| + m.end, m.caps);
    FirstPastPrefix(re, t, x, y, m);
    assert TagTurnClean(re, t, mt.start, P);
    TagTurnSplice(re, t, x, y, m, P);
    TagTurnWeave(t, x, y, m, P);
  }

  /** The replacement of that turn is the splice of the shifted match. */
  lemma TagTurnSplice(re: Regex, t: string, x: string, y: string, m: Match, P: string)
    requires NoDollar(P) && t == x + y && forall k :: 0 <= k < |x| ==> MatchAt(re, t, k).None?
    requires Find(re, y) == Some(m) && |m.caps| == 2 && |x| + m.end <= |t|
    ensures ReplaceFirst(re, t, "$1" + P + "$2") == Spliced(t, Match(|x| + m.start, |x| + m.end, m.caps), P)
  {
    assert Find(re, t) == Some(Match(|x| + m.start, |x| + m.end, m.caps)) by {
      FindPastPrefix(re, x, y);
    }
    ReplaceFirstAround(re, t, P);
  }

  /** The splice of the shifted match is the woven text followed by the rest of y. */
  lemma TagTurnWeave(t: string, x: string, y: string, m: Match, P: string)
    requires t == x + y && m.start <= m.end <= |y|
    ensures var w := x + y[..m.start] + (Group(m, 1) + P + Group(m, 2));
      && Spliced(t, Match(|x| + m.start, |x| + m.end, m.caps), P) == w + y[m.end..]
      && |w| == |x| + m.start + |Group(m, 1)| + |P| + |Group(m, 2)|
  {
    assert t[..|x| + m.start] == x + y[..m.start];
    assert t[|x| + m.end..] == y[m.end..];
  }

  /** Turn n of the tag loop: the next match of s is the first match left in t. */
  lemma TagLoopStep(re: Regex, t: string, s: string, ms: seq<Match>, reps: seq<string>, P: string, T: string, n: nat)
    requires TagRe(re) && TagSafe(P) && T == "$1" + P + "$2"
    requires Placed(re, t, s, ms, reps, n) && n < |ms|
    requires FindFrom(re, s, Resume(0, ms, n)) == Some(ms[n]) && !Contains(Group(ms[n], 1), "{{")
    requires reps[n] == Group(ms[n], 1) + P + Group(ms[n], 2)
    ensures Placed(re, ReplaceFirst(re, t, T), s, ms, reps, n + 1)
  {
    var e := Resume(0, ms, n);
    var y := s[e..];
    var m := Match(ms[n].start - e, ms[n].end - e, ms[n].caps);
    var x := Woven(s, ms, reps, n);
    var w := Woven(s, ms, reps, n + 1);
    PlacedPieces(re, t, s, ms, reps, n);
    assert Group(m, 1) == Group(ms[n], 1) && Group(m, 2) == Group(ms[n], 2);
    assert w == x + y[..m.start] + (Group(m, 1) + P + Group(m, 2));
    TagTurn(re, t, x, y, m, P);
    PlacedNext(re, ReplaceFirst(re, t, T), s, ms, reps, n, w, y[m.end..]);
  }

  /** The replacement templates `$1P$2` of a loop. */
  function Templates(ps: seq<string>): (ts: seq<string>)
    ensures |ts| == |ps| && forall i :: 0 <= i < |ps| ==> ts[i] == "$1" + ps[i] + "$2"
  {
    seq(|ps|, i requires 0 <= i < |ps| => "$1" + ps[i] + "$2")
  }

  /** What each template writes over its match: the match's two groups around P. */
  function Pieces(ms: seq<Match>, ps: seq<string>): (rs: seq<string>)
    requires |ms| == |ps|
    ensures |rs| == |ps| && forall i :: 0 <= i < |ps| ==> rs[i] == Group(ms[i], 1) + ps[i] + Group(ms[i], 2)
  {
    seq(|ps|, i requires 0 <= i < |ps| => Group(ms[i], 1) + ps[i] + Group(ms[i], 2))
  }

  /** Turn i of a tag loop: placeholder ps[i] is safe, the first group of match i holds no `{{`,
      the template is `$1P$2` and writes the two groups around P. */
  ghost predicate TagTurnAt(ms: seq<Match>, ps: seq<string>, ts: seq<string>, reps: seq<string>, i: nat) {
    i < |ms| && i < |ps| && i < |ts| && i < |reps|
    && TagSafe(ps[i]) && !Contains(Group(ms[i], 1), "{{")
    && ts[i] == "$1" + ps[i] + "$2" && reps[i] == Group(ms[i], 1) + ps[i] + Group(ms[i], 2)
  }

  ghost predicate TagTurns(ms: seq<Match>, ps: seq<string>, ts: seq<string>, reps: seq<string>) {
    |ps| == |ms| && |ts| == |ms| && |reps| == |ms|
    && forall i: nat {:trigger TagTurnAt(ms, ps, ts, reps, i)} :: i < |ms| ==> TagTurnAt(ms, ps, ts, reps, i)
  }

  /** After n turns of a loop that replaces the first match by `$1P$2`, with one P per match of
      s, the first n matches have become their groups around P, and no match starts before the
      rest of s. */
  lemma {:induction false} TagLoop(re: Regex, s: string, ms: seq<Match>, ps: seq<string>,
                                   ts: seq<string>, reps: seq<string>, n: nat)
    requires TagRe(re) && ms == Matches(re, s) && TagTurns(ms, ps, ts, reps) && n <= |ms|
    ensures Placed(re, ReplaceEach(re, s, ts, n), s, ms, reps, n)
  {
    if n == 0 {
      MatchesOrdered(re, s);
      assert s[0..] == s;
    } else {
      TagLoop(re, s, ms, ps, ts, reps, n - 1);
      MatchesNext(re, s, n - 1);
      assert TagTurnAt(ms, ps, ts, reps, n - 1);
      assert TagSafe(ps[n - 1]) && ts[n - 1] == "$1" + ps[n - 1] + "$2";
      assert Placed(re, ReplaceEach(re, s, ts, n - 1), s, ms, reps, n - 1);
      assert FindFrom(re, s, Resume(0, ms, n - 1)) == Some(ms[n - 1]);
      assert !Contains(Group(ms[n - 1], 1), "{{");
      assert reps[n - 1] == Group(ms[n - 1], 1) + ps[n - 1] + Group(ms[n - 1], 2);
      TagLoopStep(re, ReplaceEach(re, s, ts, n - 1), s, ms, reps, ps[n - 1], ts[n - 1], n - 1);
    }
  }

  /** The placeholders of the tag loop with a given prefix, by index. */
  function TagPlaceholders(prefix: string, n: nat): (ps: seq<string>)
    ensures |ps| == n && forall i :: 0 <= i < n ==> ps[i] == TagPlaceholder(prefix, i)
  {
    seq(n, i requires 0 <= i => TagPlaceholder(prefix, i))
  }

  /** The tag loop is the generic loop over its templates. */
  lemma {:induction false} PlaceTagsEach(s: string, prefix: string, n: nat, total: nat)
    requires n <= total
    ensures PlaceTags(s, prefix, n) == ReplaceEach(TwigTag, s, Templates(TagPlaceholders(prefix, total)), n)
  {
    if n > 0 {
      PlaceTagsEach(s, prefix, n - 1, total);
      TagRepAround(prefix, n - 1);
    }
  }

  lemma TagPlaceholderSafe(prefix: string, i: nat)
    requires NoDollar(prefix) && Lacks(prefix, '}')
    ensures TagSafe(TagPlaceholder(prefix, i))
  {
    PlaceholdersNoDollar(prefix, ClassAttr, i);
    var d := NatToString(i);
    assert Lacks(d, '}');
    assert Lacks(prefix + d + "='" + prefix + d + "'", '}');
  }

  /** No tag matched in s has a `{{` in its first group `(<.*)`: each holds one `{{ ... }}`
      expression, or several of which the first group takes none. */
  predicate SingleExpressionTags(s: string) {
    var ms := Matches(TwigTag, s);
    forall k :: 0 <= k < |ms| ==> !Contains(Group(ms[k], 1), "{{")
  }

  /** The whole tag loop (main.js:244-246, 265-267): with one turn per entry of the table read
      by `s.match`, tag i, which gave table entry i, has its `{{ ... }}` replaced by
      placeholder i, the text between the tags is kept, and no tag with `{{ ... }}` is left. */
  lemma PlaceTagsAll(s: string, prefix: string)
    requires NoDollar(prefix) && Lacks(prefix, '}') && SingleExpressionTags(s)
    ensures var ms := Matches(TwigTag, s); var table := TagEntries(s);
      && Ordered(s, 0, ms) && |table| == |ms|
      && (forall i :: 0 <= i < |ms| ==> table[i] == TagEntry(s[ms[i].start..ms[i].end]))
      && PlaceTags(s, prefix, |table|)
         == Woven(s, ms, Pieces(ms, TagPlaceholders(prefix, |ms|)), |ms|) + s[Resume(0, ms, |ms|)..]
      && !Test(TwigTag, PlaceTags(s, prefix, |table|))
  {
    var ms := Matches(TwigTag, s);
    var ps := TagPlaceholders(prefix, |ms|);
    MatchesChain(TwigTag, s, 0);
    TwigTagRe();
    assert TagTurns(ms, ps, Templates(ps), Pieces(ms, ps)) by {
      forall i: nat | i < |ms| ensures TagTurnAt(ms, ps, Templates(ps), Pieces(ms, ps), i) {
        TagPlaceholderSafe(prefix, i);
      }
    }
    TagLoop(TwigTag, s, ms, ps, Templates(ps), Pieces(ms, ps), |ms|);
    PlaceTagsEach(s, prefix, |ms|, |ms|);
    PlacedAll(TwigTag, PlaceTags(s, prefix, |ms|), s, ms, Pieces(ms, ps));
  }
}
