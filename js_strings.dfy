/** String primitives with the meaning JavaScript gives them: the character classes of regular
    expressions, `indexOf`, `String.prototype.replace` with a string pattern (including the `$`
    patterns of its replacement string), a global replace of a literal pattern, and the decimal
    rendering and parsing of array indices.
 */
module JsStrings {

  datatype Option<T> = None | Some(value: T) {
    function GetOr(default: T): T {
      match this
      case Some(v) => v
      case None => default
    }
  }

  /** The text JavaScript produces when `undefined` is turned into a string. */
  const Undefined: string := "undefined"

  /** The characters `.` does not match in a regular expression without the `s` flag. */
  predicate IsLineTerminator(c: char) {
    c == '\n' || c == '\r' || c == '\U{2028}' || c == '\U{2029}'
  }

  /** The class `\s`: white space and line terminators. */
  predicate IsSpace(c: char) {
    c == ' ' || c == '\t' || c == '\U{B}' || c == '\U{C}' || c == '\U{A0}' || c == '\U{FEFF}'
    || c == '\U{1680}' || ('\U{2000}' <= c <= '\U{200A}') || c == '\U{202F}' || c == '\U{205F}'
    || c == '\U{3000}' || IsLineTerminator(c)
  }

  /** The class `\w`. */
  predicate IsWordChar(c: char) {
    ('a' <= c <= 'z') || ('A' <= c <= 'Z') || ('0' <= c <= '9') || c == '_'
  }

  predicate IsDigit(c: char) {
    '0' <= c <= '9'
  }

  function DigitValue(c: char): (d: nat)
    requires IsDigit(c)
    ensures d < 10
  {
    (c as int) - ('0' as int)
  }

  predicate StartsWith(s: string, prefix: string) {
    |prefix| <= |s| && s[..|prefix|] == prefix
  }

  /** `lit` occurs in `s` at position `i`. */
  predicate ContainsAt(s: string, i: nat, lit: string) {
    i + |lit| <= |s| && s[i..i + |lit|] == lit
  }

  /** The end of the line holding position i: the first line terminator at or after i, or |s|. */
  function LineEnd(s: string, i: nat): (e: nat)
    requires i <= |s|
    ensures i <= e <= |s|
    ensures e < |s| ==> IsLineTerminator(s[e])
    ensures forall k :: i <= k < e ==> !IsLineTerminator(s[k])
    decreases |s| - i
  {
    if i == |s| || IsLineTerminator(s[i]) then i else LineEnd(s, i + 1)
  }

  /** The end of the run of `\s` characters that starts at i. */
  function SpaceRunEnd(s: string, i: nat): (e: nat)
    requires i <= |s|
    ensures i <= e <= |s|
    ensures e < |s| ==> !IsSpace(s[e])
    ensures forall k :: i <= k < e ==> IsSpace(s[k])
    decreases |s| - i
  {
    if i == |s| || !IsSpace(s[i]) then i else SpaceRunEnd(s, i + 1)
  }

  /** The end of the run of `\w` characters that starts at i. */
  function WordRunEnd(s: string, i: nat): (e: nat)
    requires i <= |s|
    ensures i <= e <= |s|
    ensures e < |s| ==> !IsWordChar(s[e])
    ensures forall k :: i <= k < e ==> IsWordChar(s[k])
    decreases |s| - i
  {
    if i == |s| || !IsWordChar(s[i]) then i else WordRunEnd(s, i + 1)
  }

  /** A text with no line terminator after i ends its line at its end. */
  lemma LineEndWhole(s: string, i: nat)
    requires i <= |s| && forall k :: i <= k < |s| ==> !IsLineTerminator(s[k])
    ensures LineEnd(s, i) == |s|
  {
  }

  /** The end of a line read from a suffix is the end of the same line in the whole string. */
  lemma LineEndSuffix(s: string, k: nat, j: nat)
    requires k + j <= |s|
    ensures LineEnd(s[k..], j) + k == LineEnd(s, k + j)
    decreases |s| - k - j
  {
    if k + j < |s| && !IsLineTerminator(s[k + j]) {
      LineEndSuffix(s, k, j + 1);
    }
  }

  /** No line terminator in s[a..b): a `.*` can run from a to b. */
  predicate NoBreak(s: string, a: nat, b: nat)
    requires b <= |s|
  {
    forall i :: a <= i < b ==> !IsLineTerminator(s[i])
  }

  /** A position is on the line that holds a exactly when no terminator lies between them. */
  lemma LineEndCovers(s: string, a: nat, c: nat)
    requires a <= c <= |s|
    ensures c <= LineEnd(s, a) <==> NoBreak(s, a, c)
  {
  }

  /** Two strings that agree on their first n characters agree on what occurs there. */
  lemma ContainsAtPrefix(s: string, u: string, n: nat, k: nat, lit: string)
    requires n <= |s| && n <= |u| && s[..n] == u[..n] && k + |lit| <= n
    ensures ContainsAt(s, k, lit) <==> ContainsAt(u, k, lit)
  {
    assert s[k..k + |lit|] == s[..n][k..k + |lit|];
    assert u[k..k + |lit|] == u[..n][k..k + |lit|];
  }

  /** An occurrence in a suffix is an occurrence in the whole string. */
  lemma ContainsAtSuffix(s: string, k: nat, q: nat, lit: string)
    requires k <= |s|
    ensures ContainsAt(s[k..], q, lit) <==> ContainsAt(s, k + q, lit)
  {
    if k + q + |lit| <= |s| {
      assert s[k..][q..q + |lit|] == s[k + q..k + q + |lit|];
    }
  }

  /** An occurrence inside the slice s[i..j] is one of the slice. */
  lemma ContainsAtSlice(s: string, i: nat, j: nat, q: nat, lit: string)
    requires i <= q && q + |lit| <= j <= |s| && ContainsAt(s, q, lit)
    ensures ContainsAt(s[i..j], q - i, lit)
  {
    ContainsAtSuffix(s, i, q - i, lit);
    assert s[i..][..j - i] == s[i..j][..j - i];
    ContainsAtPrefix(s[i..], s[i..j], j - i, q - i, lit);
  }

  lemma NoBreakSuffix(s: string, k: nat, a: nat, b: nat)
    requires k + b <= |s|
    ensures NoBreak(s[k..], a, b) <==> NoBreak(s, k + a, k + b)
  {
    if !NoBreak(s, k + a, k + b) {
      var i :| k + a <= i < k + b && IsLineTerminator(s[i]);
      assert s[k..][i - k] == s[i];
    }
  }

  /** The greedy `.*lit` that starts at h on its line finds lit exactly when lit occurs at or
      after h with no line terminator in between. */
  lemma LastOnLine(s: string, lit: string, h: nat)
    requires h <= |s|
    ensures LastAt(s, lit, h, LineEnd(s, h)).Some? <==>
      exists q :: h <= q && ContainsAt(s, q, lit) && NoBreak(s, h, q)
  {
    match LastAt(s, lit, h, LineEnd(s, h))
    case Some(q) =>
      LineEndCovers(s, h, q);
    case None =>
      if exists q :: h <= q && ContainsAt(s, q, lit) && NoBreak(s, h, q) {
        var q :| h <= q && ContainsAt(s, q, lit) && NoBreak(s, h, q);
        LineEndCovers(s, h, q);
      }
  }

  lemma SpaceRunEndSuffix(s: string, k: nat, j: nat)
    requires k + j <= |s|
    ensures SpaceRunEnd(s[k..], j) + k == SpaceRunEnd(s, k + j)
    decreases |s| - k - j
  {
    if k + j < |s| && IsSpace(s[k + j]) {
      SpaceRunEndSuffix(s, k, j + 1);
    }
  }

  /** `s.indexOf(lit, i)`: the first occurrence of lit at or after i. */
  function IndexOfFrom(s: string, lit: string, i: nat): (r: Option<nat>)
    ensures r.Some? ==> i <= r.value && ContainsAt(s, r.value, lit)
    ensures r.Some? ==> forall k :: i <= k < r.value ==> !ContainsAt(s, k, lit)
    ensures r.None? ==> forall k :: i <= k ==> !ContainsAt(s, k, lit)
    decreases |s| - i
  {
    if i + |lit| > |s| then None
    else if s[i..i + |lit|] == lit then Some(i)
    else IndexOfFrom(s, lit, i + 1)
  }

  function IndexOf(s: string, lit: string): Option<nat> {
    IndexOfFrom(s, lit, 0)
  }

  /** `s.includes(lit)`. */
  predicate Contains(s: string, lit: string) {
    IndexOf(s, lit).Some?
  }

  /** lit occurs nowhere in s. */
  ghost predicate Absent(s: string, lit: string) {
    forall k :: 0 <= k ==> !ContainsAt(s, k, lit)
  }

  lemma AbsentMeansNotContains(s: string, lit: string)
    ensures Absent(s, lit) <==> !Contains(s, lit)
  {
  }

  /** The largest q in [lo, hi] at which lit occurs: the end of a greedy `.*` followed by lit. */
  function LastAt(s: string, lit: string, lo: nat, hi: nat): (r: Option<nat>)
    ensures r.Some? ==> lo <= r.value <= hi && ContainsAt(s, r.value, lit)
    ensures r.Some? ==> forall k :: r.value < k <= hi ==> !ContainsAt(s, k, lit)
    ensures r.None? ==> forall k :: lo <= k <= hi ==> !ContainsAt(s, k, lit)
    decreases hi
  {
    if hi < lo then None
    else if ContainsAt(s, hi, lit) then Some(hi)
    else if hi == lo then None
    else LastAt(s, lit, lo, hi - 1)
  }

  /** A text that ends with lit has its last occurrence there. */
  lemma LastAtEnd(s: string, lit: string, lo: nat)
    requires |lit| > 0 && lo + |lit| <= |s| && s[|s| - |lit|..] == lit
    ensures LastAt(s, lit, lo, |s|) == Some(|s| - |lit|)
  {
    var e := |s| - |lit|;
    assert ContainsAt(s, e, lit);
    LastAtDown(s, lit, lo, |s|, e);
  }

  lemma {:induction false} LastAtDown(s: string, lit: string, lo: nat, hi: nat, e: nat)
    requires lo <= e <= hi && ContainsAt(s, e, lit) && e + |lit| == |s| && |lit| > 0
    ensures LastAt(s, lit, lo, hi) == Some(e)
    decreases hi
  {
    if hi > e {
      assert !ContainsAt(s, hi, lit);
      LastAtDown(s, lit, lo, hi - 1, e);
    }
  }

  /** The last occurrence of lit in [lo, hi] is q when none follows it there. */
  lemma {:induction false} LastAtIs(s: string, lit: string, lo: nat, hi: nat, q: nat)
    requires lo <= q <= hi && ContainsAt(s, q, lit)
    requires forall k :: q < k <= hi ==> !ContainsAt(s, k, lit)
    ensures LastAt(s, lit, lo, hi) == Some(q)
    decreases hi
  {
    if hi > q {
      LastAtIs(s, lit, lo, hi - 1, q);
    }
  }

  lemma FourParts(p: string, x: string, q: string, y: string)
    ensures var t := p + x + q + y; var a := |p| + |x|;
      && t[..|p|] == p && t[|p|..a] == x && t[a..a + |q|] == q && t[a + |q|..] == y
  {
  }

  /** The five parts of a text put together from five. */
  lemma FiveParts(p: string, x: string, q: string, y: string, r: string)
    ensures var t := p + x + q + y + r; var a := |p| + |x|; var b := a + |q|;
      && t[..|p|] == p && t[|p|..a] == x && t[a..b] == q && t[b..|t| - |r|] == y && t[|t| - |r|..] == r
  {
  }

  lemma SliceOfSlice(s: string, i: nat, k: nat, a: nat, b: nat)
    requires i <= k <= |s| && a <= b <= k - i
    ensures s[i..k][a..b] == s[i + a..i + b]
  {
    assert forall t :: 0 <= t < b - a ==> s[i..k][a..b][t] == s[i + a..i + b][t];
  }

  /** No occurrence of lit starts before position n of s. */
  predicate FreeBefore(s: string, n: nat, lit: string) {
    forall k :: 0 <= k < n ==> !ContainsAt(s, k, lit)
  }

  lemma ContainsAtShift(x: string, y: string, k: nat, lit: string)
    ensures ContainsAt(x + y, |x| + k, lit) <==> ContainsAt(y, k, lit)
  {
    if k + |lit| <= |y| {
      assert (x + y)[|x| + k..|x| + k + |lit|] == y[k..k + |lit|];
    }
  }

  /** When no occurrence starts inside x, the first occurrence in x + y is the first one in y. */
  lemma IndexOfShift(x: string, y: string, lit: string)
    requires FreeBefore(x + y, |x|, lit)
    ensures IndexOf(x + y, lit) == (match IndexOf(y, lit) case None => None case Some(j) => Some(|x| + j))
  {
    IndexOfFromSkip(x + y, lit, 0, |x|);
    IndexOfFromShift(x, y, lit, 0);
  }

  /** A search from i finds what a search from n finds when no occurrence starts in between. */
  lemma {:induction false} IndexOfFromSkip(s: string, lit: string, i: nat, n: nat)
    requires i <= n <= |s| && FreeBefore(s, n, lit)
    ensures IndexOfFrom(s, lit, i) == IndexOfFrom(s, lit, n)
    decreases n - i
  {
    if i < n {
      assert !ContainsAt(s, i, lit);
      IndexOfFromSkip(s, lit, i + 1, n);
    }
  }

  /** A search in x + y from |x| + i is the search in y from i, shifted by |x|. */
  lemma {:induction false} IndexOfFromShift(x: string, y: string, lit: string, i: nat)
    requires i <= |y|
    ensures IndexOfFrom(x + y, lit, |x| + i)
         == (match IndexOfFrom(y, lit, i) case None => None case Some(j) => Some(|x| + j))
    decreases |y| - i
  {
    if i + |lit| <= |y| {
      assert (x + y)[|x| + i..|x| + i + |lit|] == y[i..i + |lit|];
      if y[i..i + |lit|] != lit {
        IndexOfFromShift(x, y, lit, i + 1);
      }
    }
  }

  /** No occurrence of lit starts inside the text before its first occurrence. */
  lemma FreeBeforeFirst(s: string, lit: string, i: nat)
    requires |lit| > 0 && IndexOf(s, lit) == Some(i)
    ensures Absent(s[..i], lit)
  {
    forall k | 0 <= k
      ensures !ContainsAt(s[..i], k, lit)
    {
      if k + |lit| <= i {
        SliceOfSlice(s, 0, i, k, k + |lit|);
        assert !ContainsAt(s, k, lit);
      }
    }
  }

  /** No occurrence of lit in x + c + y when there is none in x or y, c starts with a character
      lit does not hold, and lit's first character is not in c. */
  lemma FreeJoin(x: string, c: string, y: string, lit: string)
    requires |lit| > 0 && c != []
    requires Absent(x, lit) && Absent(y, lit)
    requires forall k :: 0 <= k < |lit| ==> lit[k] != c[0]
    requires forall k :: 0 <= k < |c| ==> c[k] != lit[0]
    ensures Absent(x + c + y, lit)
  {
    var s := x + c + y;
    forall k | 0 <= k
      ensures !ContainsAt(s, k, lit)
    {
      if k + |lit| <= |s| {
        if k + |lit| <= |x| {
          assert x[k..k + |lit|] == s[k..k + |lit|];
          assert !ContainsAt(x, k, lit);
        } else if k < |x| {
          assert s[k..k + |lit|][|x| - k] == c[0];
        } else if k < |x| + |c| {
          assert s[k..k + |lit|][0] == c[k - |x|];
        } else {
          assert s == (x + c) + y;
          ContainsAtShift(x + c, y, k - |x| - |c|, lit);
          assert !ContainsAt(y, k - |x| - |c|, lit);
        }
      }
    }
  }

  /** A text none of whose characters starts lit holds no occurrence of it. */
  lemma NoFirstChar(s: string, lit: string)
    requires |lit| > 0 && forall k :: 0 <= k < |s| ==> s[k] != lit[0]
    ensures Absent(s, lit)
  {
    forall k | 0 <= k
      ensures !ContainsAt(s, k, lit)
    {
      if k + |lit| <= |s| {
        assert s[k..k + |lit|][0] == s[k];
      }
    }
  }

  /** ch is not a character of lit. */
  predicate NotIn(ch: char, lit: string) {
    forall j :: 0 <= j < |lit| ==> lit[j] != ch
  }

  /** No occurrence of lit in a + b when there is none in either and the last character of a
      cannot be part of one. */
  lemma AbsentJoin(a: string, b: string, lit: string)
    requires |lit| > 0 && a != [] && Absent(a, lit) && Absent(b, lit) && NotIn(a[|a| - 1], lit)
    ensures Absent(a + b, lit)
  {
    var s := a + b;
    forall k | 0 <= k
      ensures !ContainsAt(s, k, lit)
    {
      if k + |lit| <= |s| {
        var w := s[k..k + |lit|];
        if k + |lit| <= |a| {
          assert w == a[k..k + |lit|];
          assert !ContainsAt(a, k, lit);
        } else if k < |a| {
          assert w[|a| - 1 - k] == a[|a| - 1];
        } else {
          assert w == b[k - |a|..k - |a| + |lit|];
          assert !ContainsAt(b, k - |a|, lit);
        }
      }
    }
  }

  /** No occurrence of lit in a + b when there is none in either and the first character of b
      cannot be part of one. */
  lemma AbsentJoinRight(a: string, b: string, lit: string)
    requires |lit| > 0 && b != [] && Absent(a, lit) && Absent(b, lit) && NotIn(b[0], lit)
    ensures Absent(a + b, lit)
  {
    var s := a + b;
    forall k | 0 <= k
      ensures !ContainsAt(s, k, lit)
    {
      if k + |lit| <= |s| {
        var w := s[k..k + |lit|];
        if k + |lit| <= |a| {
          assert w == a[k..k + |lit|];
          assert !ContainsAt(a, k, lit);
        } else if k < |a| {
          assert w[|a| - k] == b[0];
        } else {
          assert w == b[k - |a|..k - |a| + |lit|];
          assert !ContainsAt(b, k - |a|, lit);
        }
      }
    }
  }

  /** No occurrence of lit in pre + c + post when there is none in each piece and the characters
      on both sides of c cannot be part of one. */
  lemma AbsentFramed(pre: string, c: string, post: string, lit: string)
    requires |lit| > 0 && pre != [] && post != []
    requires Absent(pre, lit) && Absent(c, lit) && Absent(post, lit)
    requires forall j :: 0 <= j < |lit| ==> lit[j] != pre[|pre| - 1] && lit[j] != post[0]
    ensures Absent(pre + c + post, lit)
  {
    AbsentJoinRight(c, post, lit);
    AbsentJoin(pre, c + post, lit);
    assert pre + c + post == pre + (c + post);
  }

  /** The numeric value of a `$n` or `$nn` group reference. */
  function CaptureRef(t: string, caps: seq<string>): (r: Option<(nat, string)>)
    requires 2 <= |t| && t[0] == '$' && IsDigit(t[1])
    ensures r.Some? ==> 2 <= r.value.0 <= 3 && r.value.0 <= |t|
  {
    var one := DigitValue(t[1]);
    if 3 <= |t| && IsDigit(t[2]) && 1 <= one * 10 + DigitValue(t[2]) <= |caps| then
      Some((3, caps[one * 10 + DigitValue(t[2]) - 1]))
    else if 1 <= one <= |caps| then Some((2, caps[one - 1]))
    else None
  }

  /** GetSubstitution: the replacement string t of a `replace` call with its `$` patterns expanded.
      `$$` is a dollar sign, `$&` the matched text, `` $` `` the text before the match, `$'` the
      text after it, `$n`/`$nn` a capture group when that group exists (an undefined group is the
      empty string), and every other `$` is literal. */
  function Substitute(t: string, caps: seq<string>, matched: string, before: string, after: string): string
    decreases |t|
  {
    if t == [] then []
    else if t[0] == '$' && 2 <= |t| then
      if t[1] == '$' then "$" + Substitute(t[2..], caps, matched, before, after)
      else if t[1] == '&' then matched + Substitute(t[2..], caps, matched, before, after)
      else if t[1] == '`' then before + Substitute(t[2..], caps, matched, before, after)
      else if t[1] == '\'' then after + Substitute(t[2..], caps, matched, before, after)
      else if IsDigit(t[1]) then
        match CaptureRef(t, caps)
        case Some((n, c)) => c + Substitute(t[n..], caps, matched, before, after)
        case None => t[..2] + Substitute(t[2..], caps, matched, before, after)
      else "$" + Substitute(t[1..], caps, matched, before, after)
    else [t[0]] + Substitute(t[1..], caps, matched, before, after)
  }

  /** No character of s is ch. */
  predicate Lacks(s: string, ch: char) {
    forall k :: 0 <= k < |s| ==> s[k] != ch
  }

  predicate NoColon(s: string) {
    forall k :: 0 <= k < |s| ==> s[k] != ':'
  }

  predicate NoDollar(t: string) {
    forall k :: 0 <= k < |t| ==> t[k] != '$'
  }

  lemma {:induction false} SubstituteLiteral(t: string, rest: string, caps: seq<string>, matched: string, before: string, after: string)
    requires NoDollar(t)
    ensures Substitute(t + rest, caps, matched, before, after) == t + Substitute(rest, caps, matched, before, after)
    decreases |t|
  {
    if t != [] {
      assert (t + rest)[0] == t[0];
      assert (t + rest)[1..] == t[1..] + rest;
      SubstituteLiteral(t[1..], rest, caps, matched, before, after);
    } else {
      assert t + rest == rest;
    }
  }

  /** A replacement with no `$` in it is inserted as it is. */
  lemma SubstitutePlain(t: string, caps: seq<string>, matched: string, before: string, after: string)
    requires NoDollar(t)
    ensures Substitute(t, caps, matched, before, after) == t
  {
    SubstituteLiteral(t, [], caps, matched, before, after);
    assert t + [] == t;
  }

  /** A `$n` reference (n a single digit, fewer than ten groups) is replaced by group n. */
  lemma SubstituteRef(pre: string, n: nat, rest: string, caps: seq<string>, matched: string, before: string, after: string)
    requires NoDollar(pre) && 1 <= n <= |caps| < 10
    ensures Substitute(pre + ['$', ('0' as int + n) as char] + rest, caps, matched, before, after)
         == pre + caps[n - 1] + Substitute(rest, caps, matched, before, after)
  {
    var t := ['$', ('0' as int + n) as char] + rest;
    Associative(pre, ['$', ('0' as int + n) as char], rest);
    SubstituteLiteral(pre, t, caps, matched, before, after);
    SubstituteRefHead(n, rest, caps, matched, before, after);
    Associative(pre, caps[n - 1], Substitute(rest, caps, matched, before, after));
  }

  lemma SubstituteRefHead(n: nat, rest: string, caps: seq<string>, matched: string, before: string, after: string)
    requires 1 <= n <= |caps| < 10
    ensures Substitute(['$', ('0' as int + n) as char] + rest, caps, matched, before, after)
         == caps[n - 1] + Substitute(rest, caps, matched, before, after)
  {
    var t := ['$', ('0' as int + n) as char] + rest;
    assert t[2..] == rest;
    assert DigitValue(t[1]) == n;
    assert CaptureRef(t, caps) == Some((2, caps[n - 1]));
  }

  /** A `$n` reference to a group the expression does not have stays in the output as it is. */
  lemma SubstituteMissingGroup(pre: string, n: nat, post: string, caps: seq<string>, matched: string, before: string, after: string)
    requires NoDollar(pre) && NoDollar(post) && |caps| < n <= 9
    requires post == [] || !IsDigit(post[0])
    ensures Substitute(pre + ['$', ('0' as int + n) as char] + post, caps, matched, before, after)
         == pre + ['$', ('0' as int + n) as char] + post
  {
    var r := ['$', ('0' as int + n) as char];
    var t := r + post;
    Associative(pre, r, post);
    SubstituteLiteral(pre, t, caps, matched, before, after);
    assert t[2..] == post && t[..2] == r;
    assert DigitValue(t[1]) == n;
    assert CaptureRef(t, caps) == None;
    SubstitutePlain(post, caps, matched, before, after);
    Associative(pre, r, post);
  }

  /** A template `pre$2post` with a second group inserts that group between pre and post. */
  lemma SubstituteSecond(pre: string, post: string, caps: seq<string>, matched: string, before: string, after: string)
    requires NoDollar(pre) && NoDollar(post) && 2 <= |caps| < 10
    ensures Substitute(pre + "$2" + post, caps, matched, before, after) == pre + caps[1] + post
  {
    assert "$2" == ['$', ('0' as int + 2) as char];
    SubstituteRef(pre, 2, post, caps, matched, before, after);
    SubstitutePlain(post, caps, matched, before, after);
  }

  /** A template `pre$2mid$4post` inserts groups 2 and 4 in place. */
  lemma SubstituteSecondFourth(pre: string, mid: string, post: string, caps: seq<string>, matched: string, before: string, after: string)
    requires NoDollar(pre) && NoDollar(mid) && NoDollar(post) && 4 <= |caps| < 10
    ensures Substitute(pre + "$2" + mid + "$4" + post, caps, matched, before, after) == pre + caps[1] + mid + caps[3] + post
  {
    var tail := mid + "$4" + post;
    var done := mid + caps[3] + post;
    assert pre + "$2" + mid + "$4" + post == pre + "$2" + tail;
    assert Substitute(pre + "$2" + tail, caps, matched, before, after)
        == pre + caps[1] + Substitute(tail, caps, matched, before, after) by {
      assert "$2" == ['$', ('0' as int + 2) as char];
      SubstituteRef(pre, 2, tail, caps, matched, before, after);
    }
    assert Substitute(tail, caps, matched, before, after) == done by {
      assert "$4" == ['$', ('0' as int + 4) as char];
      SubstituteRef(mid, 4, post, caps, matched, before, after);
      SubstitutePlain(post, caps, matched, before, after);
    }
    assert pre + caps[1] + done == pre + caps[1] + mid + caps[3] + post;
  }

  /** A template `$1mid$2` puts the first two groups around mid. */
  lemma SubstituteFirstSecond(mid: string, caps: seq<string>, matched: string, before: string, after: string)
    requires NoDollar(mid) && 2 <= |caps| < 10
    ensures Substitute("$1" + mid + "$2", caps, matched, before, after) == caps[0] + mid + caps[1]
  {
    assert "$1" == ['$', ('0' as int + 1) as char];
    assert "$1" + mid + "$2" == "" + ['$', ('0' as int + 1) as char] + (mid + "$2" + "");
    SubstituteRef("", 1, mid + "$2" + "", caps, matched, before, after);
    SubstituteSecond(mid, "", caps, matched, before, after);
  }

  /** A template `$1mid$3` puts groups 1 and 3 around mid. */
  lemma SubstituteFirstThird(mid: string, caps: seq<string>, matched: string, before: string, after: string)
    requires NoDollar(mid) && 3 <= |caps| < 10
    ensures Substitute("$1" + mid + "$3", caps, matched, before, after) == caps[0] + mid + caps[2]
  {
    assert "$1" + mid + "$3" == "" + ['$', ('0' as int + 1) as char] + (mid + "$3");
    SubstituteRef("", 1, mid + "$3", caps, matched, before, after);
    assert mid + "$3" == mid + ['$', ('0' as int + 3) as char] + "";
    SubstituteRef(mid, 3, "", caps, matched, before, after);
  }

  /** A `$` pattern cannot straddle the join of a and b: a does not end with `$` or a digit, or b
      does not start with a character that could continue a pattern. */
  predicate SubstJoins(a: string, b: string) {
    a == [] || b == [] || (a[|a| - 1] != '$' && !IsDigit(a[|a| - 1]))
    || (b[0] != '$' && b[0] != '&' && b[0] != '`' && b[0] != '\'' && !IsDigit(b[0]))
  }

  lemma CaptureRefJoin(a: string, b: string, caps: seq<string>)
    requires 2 <= |a| && a[0] == '$' && IsDigit(a[1]) && SubstJoins(a, b)
    ensures CaptureRef(a + b, caps) == CaptureRef(a, caps)
  {
    var t := a + b;
    assert t[0] == a[0] && t[1] == a[1];
    if 3 <= |a| {
      assert t[2] == a[2];
    }
  }

  /** The length of the `$` pattern or plain character that t starts with. */
  function SubstStep(t: string, caps: seq<string>): (n: nat)
    requires t != []
    ensures 1 <= n <= |t|
  {
    if t[0] == '$' && 2 <= |t| then
      if t[1] == '$' || t[1] == '&' || t[1] == '`' || t[1] == '\'' then 2
      else if IsDigit(t[1]) then
        match CaptureRef(t, caps)
        case Some((n, _)) => n
        case None => 2
      else 1
    else 1
  }

  /** What that first pattern or character becomes. */
  function SubstHead(t: string, caps: seq<string>, matched: string, before: string, after: string): string
    requires t != []
  {
    if t[0] == '$' && 2 <= |t| then
      if t[1] == '$' then "$"
      else if t[1] == '&' then matched
      else if t[1] == '`' then before
      else if t[1] == '\'' then after
      else if IsDigit(t[1]) then
        match CaptureRef(t, caps)
        case Some((_, c)) => c
        case None => t[..2]
      else "$"
    else [t[0]]
  }

  lemma SubstituteUnfold(t: string, caps: seq<string>, matched: string, before: string, after: string)
    requires t != []
    ensures Substitute(t, caps, matched, before, after)
         == SubstHead(t, caps, matched, before, after) + Substitute(t[SubstStep(t, caps)..], caps, matched, before, after)
  {
  }

  lemma StepJoin(a: string, b: string, caps: seq<string>, matched: string, before: string, after: string)
    requires a != [] && SubstJoins(a, b)
    ensures SubstStep(a + b, caps) == SubstStep(a, caps)
    ensures SubstHead(a + b, caps, matched, before, after) == SubstHead(a, caps, matched, before, after)
    ensures SubstJoins(a[SubstStep(a, caps)..], b)
  {
    var t := a + b;
    assert t[0] == a[0];
    if 2 <= |a| {
      assert t[1] == a[1] && t[..2] == a[..2];
      if a[0] == '$' && IsDigit(a[1]) {
        CaptureRefJoin(a, b, caps);
      }
    } else if b != [] {
      assert t[1] == b[0];
    }
  }

  /** The first step of expanding a + b is the first step of expanding a, when no `$` pattern
      lies across the cut. */
  lemma SubstituteJoinHead(a: string, b: string, caps: seq<string>, matched: string, before: string, after: string)
    requires a != [] && SubstJoins(a, b)
    ensures SubstJoins(a[SubstStep(a, caps)..], b)
    ensures Substitute(a + b, caps, matched, before, after)
         == SubstHead(a, caps, matched, before, after) + Substitute(a[SubstStep(a, caps)..] + b, caps, matched, before, after)
  {
    StepJoin(a, b, caps, matched, before, after);
    SubstituteUnfold(a + b, caps, matched, before, after);
    assert (a + b)[SubstStep(a, caps)..] == a[SubstStep(a, caps)..] + b;
  }

  /** Expanding a replacement string piece by piece gives the whole expansion when no `$`
      pattern lies across the cut. */
  lemma {:induction false} SubstituteJoin(a: string, b: string, caps: seq<string>, matched: string, before: string, after: string)
    requires SubstJoins(a, b)
    ensures Substitute(a + b, caps, matched, before, after)
         == Substitute(a, caps, matched, before, after) + Substitute(b, caps, matched, before, after)
    decreases |a|
  {
    if a == [] {
      assert a + b == b;
    } else {
      var rest := a[SubstStep(a, caps)..];
      SubstituteJoinHead(a, b, caps, matched, before, after);
      SubstituteUnfold(a, caps, matched, before, after);
      SubstituteJoin(rest, b, caps, matched, before, after);
      Associative(SubstHead(a, caps, matched, before, after), Substitute(rest, caps, matched, before, after),
                  Substitute(b, caps, matched, before, after));
    }
  }

  /** The replacement string has no pattern that refers to a match: its `$` signs are literal or
      written `$$`. */
  predicate PlainRefs(t: string)
    decreases |t|
  {
    if t == [] then true
    else if t[0] == '$' && 2 <= |t| then
      if t[1] == '$' then PlainRefs(t[2..])
      else if t[1] == '&' || t[1] == '`' || t[1] == '\'' || IsDigit(t[1]) then false
      else PlainRefs(t[1..])
    else PlainRefs(t[1..])
  }

  /** The text such a replacement string inserts: `$$` becomes `$`. */
  function Unescape(t: string): string
    decreases |t|
  {
    if t == [] then []
    else if t[0] == '$' && 2 <= |t| && t[1] == '$' then "$" + Unescape(t[2..])
    else [t[0]] + Unescape(t[1..])
  }

  /** A replacement string with plain references inserts the same text whatever the match. */
  lemma {:induction false} SubstituteUnescape(t: string, caps: seq<string>, matched: string, before: string, after: string)
    requires PlainRefs(t)
    ensures Substitute(t, caps, matched, before, after) == Unescape(t)
    decreases |t|
  {
    if t == [] {
    } else if t[0] == '$' && 2 <= |t| && t[1] == '$' {
      SubstituteUnescape(t[2..], caps, matched, before, after);
    } else {
      SubstituteUnescape(t[1..], caps, matched, before, after);
    }
  }

  lemma Associative(a: string, b: string, c: string)
    ensures a + b + c == a + (b + c)
  {
  }

  lemma EmptyPrefix(a: string, b: string, c: string)
    ensures a[..0] + b + c == b + c
  {
  }

  lemma EmptyMiddle(a: string, b: string)
    ensures a + "" + b == a + b
  {
  }

  /** `s.replace(lit, rep)` with a string pattern: only the first occurrence is replaced. */
  function ReplaceFirstLit(s: string, lit: string, rep: string): string {
    match IndexOf(s, lit)
    case None => s
    case Some(i) => s[..i] + Substitute(rep, [], lit, s[..i], s[i + |lit|..]) + s[i + |lit|..]
  }

  lemma UndefinedNoDollar()
    ensures NoDollar(Undefined)
  {
  }

  /** A literal replace at the first occurrence i, with a replacement without `$`. */
  lemma ReplaceFirstLitAt(s: string, lit: string, rep: string, i: nat)
    requires IndexOf(s, lit) == Some(i) && NoDollar(rep)
    ensures ReplaceFirstLit(s, lit, rep) == s[..i] + rep + s[i + |lit|..]
  {
    SubstitutePlain(rep, [], lit, s[..i], s[i + |lit|..]);
  }

  /** A literal replace in a + y, when no occurrence starts inside a, acts on y's first one. */
  lemma ReplaceFirstLitAfter(a: string, y: string, lit: string, rep: string, j: nat)
    requires FreeBefore(a + y, |a|, lit) && IndexOf(y, lit) == Some(j) && NoDollar(rep)
    ensures ReplaceFirstLit(a + y, lit, rep) == a + y[..j] + rep + y[j + |lit|..]
  {
    var w := a + y;
    var i := |a| + j;
    assert IndexOf(w, lit) == Some(i) by { IndexOfShift(a, y, lit); }
    assert ReplaceFirstLit(w, lit, rep) == w[..i] + rep + w[i + |lit|..] by { ReplaceFirstLitAt(w, lit, rep, i); }
    assert w[..i] == a + y[..j] && w[i + |lit|..] == y[j + |lit|..] by { JoinSlices(a, y, j, |lit|); }
  }

  lemma JoinSlices(a: string, y: string, j: nat, m: nat)
    requires j + m <= |y|
    ensures (a + y)[..|a| + j] == a + y[..j] && (a + y)[|a| + j + m..] == y[j + m..]
  {
  }

  /** `s.replace(/lit/g, rep)` for a pattern made of literal characters, from position i on. */
  function ReplaceAllLitFrom(s: string, lit: string, rep: string, i: nat): string
    requires |lit| > 0 && i <= |s|
    decreases |s| - i
  {
    match IndexOfFrom(s, lit, i)
    case None => s[i..]
    case Some(k) =>
      s[i..k] + Substitute(rep, [], lit, s[..k], s[k + |lit|..]) + ReplaceAllLitFrom(s, lit, rep, k + |lit|)
  }

  function ReplaceAllLit(s: string, lit: string, rep: string): string
    requires |lit| > 0
  {
    ReplaceAllLitFrom(s, lit, rep, 0)
  }

  /** The decimal rendering of n, as a template literal `${n}` produces it. */
  function NatToString(n: nat): (r: string)
    ensures |r| > 0
    ensures forall k :: 0 <= k < |r| ==> IsDigit(r[k])
    ensures r[0] == '0' ==> n == 0 && r == "0"
    decreases n
  {
    if n < 10 then [('0' as int + n) as char]
    else NatToString(n / 10) + [('0' as int + n % 10) as char]
  }

  /** The value of a string of decimal digits. */
  function DigitsValue(s: string): nat
    requires forall k :: 0 <= k < |s| ==> IsDigit(s[k])
    decreases |s|
  {
    if s == [] then 0 else DigitsValue(s[..|s| - 1]) * 10 + DigitValue(s[|s| - 1])
  }

  /** The array index a property key denotes: JavaScript reads `table[key]` as an element only
      when the key is the canonical decimal form of an index, with no sign and no leading zero. */
  function ParseIndex(key: string): Option<nat> {
    if key != [] && (forall k :: 0 <= k < |key| ==> IsDigit(key[k])) && (key[0] != '0' || |key| == 1)
    then Some(DigitsValue(key))
    else None
  }

  /** `table[key]`: the element, or None when JavaScript would produce `undefined`. */
  function Lookup(table: seq<string>, key: string): Option<string> {
    match ParseIndex(key)
    case Some(n) => if n < |table| then Some(table[n]) else None
    case None => None
  }

  lemma {:induction false} DigitsValueOfNatToString(n: nat)
    ensures DigitsValue(NatToString(n)) == n
    decreases n
  {
    var r := NatToString(n);
    if n >= 10 {
      DigitsValueOfNatToString(n / 10);
      assert r[..|r| - 1] == NatToString(n / 10);
    }
  }

  lemma {:induction false} NatToStringOfDigitsValue(s: string)
    requires s != [] && (forall k :: 0 <= k < |s| ==> IsDigit(s[k])) && (s[0] != '0' || |s| == 1)
    ensures NatToString(DigitsValue(s)) == s
    decreases |s|
  {
    if |s| > 1 {
      var init := s[..|s| - 1];
      NatToStringOfDigitsValue(init);
      NonZeroLead(init);
      var v := DigitsValue(s);
      assert v / 10 == DigitsValue(init) && v % 10 == DigitValue(s[|s| - 1]);
      assert s == init + [s[|s| - 1]];
    }
  }

  lemma {:induction false} NonZeroLead(s: string)
    requires s != [] && (forall k :: 0 <= k < |s| ==> IsDigit(s[k])) && s[0] != '0'
    ensures DigitsValue(s) >= 1
    decreases |s|
  {
    if |s| > 1 {
      NonZeroLead(s[..|s| - 1]);
    }
  }

  /** Index round trip: the key `${i}` written by the placeholder pre-pass reads back as index i,
      and it is the only key that does. */
  lemma IndexKeyRoundTrip(key: string, n: nat)
    ensures ParseIndex(NatToString(n)) == Some(n)
    ensures ParseIndex(key) == Some(n) ==> key == NatToString(n)
  {
    DigitsValueOfNatToString(n);
    if ParseIndex(key) == Some(n) {
      NatToStringOfDigitsValue(key);
    }
  }

  /** A placeholder key `${i}` always reads back table[i] from the table it was recorded in. */
  lemma LookupPlaceholder(table: seq<string>, i: nat)
    ensures Lookup(table, NatToString(i)) == if i < |table| then Some(table[i]) else None
  {
    IndexKeyRoundTrip(NatToString(i), i);
  }
}
