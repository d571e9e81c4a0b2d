/** The directive converters of main.js: each Templo directive is rewritten to its Twig form by
    one regular-expression replace, `::end::` is resolved against the block stack, and a
    `::switch` is expanded into an if/elseif chain over its `::case::` directives. */
module Directives {
  import opened JsStrings
  import opened Patterns

  /** The kinds of block an opening directive leaves for `::end::` to close (main.js:40-45). */
  datatype Block = IfBlock | ForBlock | SetBlock {
    function Name(): string {
      match this
      case IfBlock => "if"
      case ForBlock => "for"
      case SetBlock => "set"
    }
  }

  /** convertIf on a node value: the `::if` rewrite, then the logical operators of the whole value
      (main.js:342-361). */
  function ConvertIf(v: string): string {
    var a := ReplaceAll(IfTemplo, v, "{% if $2 %}");
    var b := if Test(NotTemplo, a) then ReplaceAll(NotTemplo, a, "$1not $3") else a;
    var c := if Test(AndTemplo, b) then ReplaceAll(AndTemplo, b, "$1and$3") else b;
    if Test(OrTemplo, c) then ReplaceAll(OrTemplo, c, "$1or$3") else c
  }

  function ConvertElseIf(v: string): string {
    ReplaceAll(ElseIfTemplo, v, "{% elseif $2 %}")
  }

  function ConvertElse(v: string): string {
    ReplaceAll(ElseTemplo, v, "{% else %}")
  }

  function ConvertForeach(v: string): string {
    ReplaceAll(ForeachTemplo, v, "{% for $2 in $4 %}")
  }

  /** The template names a group the pattern does not have, so `$2` stays in the output. */
  function ConvertRawContent(v: string): string {
    ReplaceAll(RawContentTemplo, v, "{% block $2 %}{% endblock %}")
  }

  function ConvertRaw(v: string): string {
    ReplaceAll(RawTemplo, v, "{{ $2|raw }}")
  }

  function ConvertFill(v: string): string {
    ReplaceAll(FillTemplo, v, "{% set $2 %}")
  }

  function ConvertSet(v: string): string {
    ReplaceAll(SetTemplo, v, "{% set $2 %}")
  }

  function ConvertPrint(v: string): string {
    ReplaceAll(PrintTemplo, v, "{{$2}}")
  }

  /** Every `!` of s starts a `!=`, so none of them is one that convertIf rewrites. */
  predicate BangsAreInequalities(s: string) {
    forall k :: 0 <= k < |s| && s[k] == '!' ==> k + 1 < |s| && s[k + 1] == '='
  }

  /** On one line x!y, where y is not empty, does not start with `=` and has no `!` but in `!=`,
      the `!` after x is the last one `(.*)(!)([^=].*)` can take: the expression matches the whole
      line there, and convertIf's `$1not $3` turns that `!` alone into `not ` (main.js:347-350). */
  lemma NotRewrite(w: string, x: string, y: string)
    requires w == x + "!" + y && NoBreak(w, 0, |w|)
    requires y != [] && y[0] != '=' && BangsAreInequalities(y)
    ensures Test(NotTemplo, w) && ReplaceAll(NotTemplo, w, "$1not $3") == x + "not " + y
  {
    NotWholeLine(w, x, y);
    RewriteWholeLine(NotTemplo, w, x, "!", y, "not ");
    assert "$1" + "not " + "$3" == "$1not $3";
  }

  /** An expression `(.*)(op)(.*)` matching a whole text, rewritten by `$1word$3`. */
  lemma RewriteWholeLine(re: Regex, w: string, x: string, op: string, y: string, word: string)
    requires w != [] && re(w) == Some(Hit(|w|, [x, op, y])) && NoDollar(word)
    ensures Test(re, w) && ReplaceAll(re, w, "$1" + word + "$3") == x + word + y
  {
    ReplaceWhole(re, w, "$1" + word + "$3", [x, op, y]);
    SubstituteFirstThird(word, [x, op, y], w, "", "");
  }

  lemma NotWholeLine(w: string, x: string, y: string)
    requires w == x + "!" + y && NoBreak(w, 0, |w|)
    requires y != [] && y[0] != '=' && BangsAreInequalities(y)
    ensures NotTemplo(w) == Some(Hit(|w|, [x, "!", y]))
  {
    var q := |x|;
    LineEndWhole(w, 0);
    LineEndWhole(w, q + 2);
    assert w[q] == '!' && w[q + 1] == y[0];
    forall j | q < j < |w| && w[j] == '!'
      ensures j + 1 < |w| && w[j + 1] == '='
    {
      assert y[j - q - 1] == w[j];
      assert j - q < |y| ==> y[j - q] == w[j + 1];
    }
    LastBangIs(w, |w|, q);
    assert w[..q] == x && w[q + 1..|w|] == y;
  }

  /** On one line x op y, where the op after x is the last, `(.*)(op)(.*)` matches the whole line
      there, and a template `$1word$3` turns that op alone into word (main.js:352-360). */
  lemma OperatorRewrite(re: Regex, op: string, word: string, w: string, x: string, y: string)
    requires |op| == 2 && re(w) == Operator(w, op) && NoDollar(word)
    requires w == x + op + y && NoBreak(w, 0, |w|)
    requires forall k :: |x| < k ==> !ContainsAt(w, k, op)
    ensures Test(re, w) && ReplaceAll(re, w, "$1" + word + "$3") == x + word + y
  {
    LineEndWhole(w, 0);
    LineEndWhole(w, |x| + 2);
    assert w[|x|..|x| + 2] == op;
    LastAtIs(w, op, 0, |w|, |x|);
    assert w[..|x|] == x && w[|x| + 2..|w|] == y;
    assert re(w) == Some(Hit(|w|, [x, op, y]));
    RewriteWholeLine(re, w, x, op, y, word);
  }

  function RemoveTemploDoubleColon(v: string): string {
    ReplaceAll(DoubleColon, v, "")
  }

  /* ---------------------------------------------------------------- placeholders */

  /** The placeholder prefixes the pre-pass writes for the DOM parser (main.js:49-54). */
  const TemplateMacro: string := "TEMPLATE_MACRO_"
  const TemplateCond: string := "TEMPLATE_COND_"
  const TemplateUse: string := "TEMPLATE_USE"

  function TemplateAttr(f: AttrFamily): string {
    match f
    case ClassAttr => "TEMPLATE_ATTR_CLASS_"
    case CheckedAttr => "TEMPLATE_ATTR_CHECKED_"
    case SelectedAttr => "TEMPLATE_ATTR_SELECTED_"
  }

  /** `s.substring(start)`: JavaScript clamps a start past the end to the empty string. */
  function SubstringFrom(s: string, start: nat): string {
    if start <= |s| then s[start..] else ""
  }

  /** `s.substring(0, s.indexOf(c))`: the text before the first c, or "" when c is absent (an
      end of -1 is clamped to 0). */
  function BeforeFirst(s: string, c: string): string {
    match IndexOf(s, c)
    case None => ""
    case Some(i) => s[..i]
  }

  /** fillInTwigMacro (main.js:466-470): the key is the text between the first
      `TEMPLATE_MACRO_` and the next `=`; the first `TEMPLATE_MACRO_<key>='TEMPLATE_MACRO_<key>'`
      is replaced by the macro table's entry for that key (`undefined` when there is none). An
      absent `TEMPLATE_MACRO_` gives indexOf -1 and a start of 14. */
  function FillInTwigMacro(v: string, macros: seq<string>): string {
    var start := match IndexOf(v, TemplateMacro) case None => 14 case Some(i) => i + |TemplateMacro|;
    var key := BeforeFirst(SubstringFrom(v, start), "=");
    ReplaceFirstLit(v, MacroPlaceholder(key), Lookup(macros, key).GetOr(Undefined))
  }

  /** The attribute text the pre-pass puts into a tag in place of macro call number key
      (main.js:245). */
  function MacroPlaceholder(key: string): string {
    TemplateMacro + key + "='" + TemplateMacro + key + "'"
  }

  /* ---------------------------------------------------------------- double colons */

  lemma NoPairJoin(x: string, y: string)
    requires Absent(x, "::") && Absent(y, "::")
    requires x == [] || x[|x| - 1] != ':'
    ensures Absent(x + y, "::")
  {
    forall k | 0 <= k
      ensures !ContainsAt(x + y, k, "::")
    {
      if k + 2 <= |x| {
        assert (x + y)[k..k + 2] == x[k..k + 2];
        assert !ContainsAt(x, k, "::");
      } else if k < |x| {
        assert (x + y)[k] == x[|x| - 1];
      } else {
        ContainsAtShift(x, y, k - |x|, "::");
        assert !ContainsAt(y, k - |x|, "::");
      }
    }
  }

  /** The text before the first `::` at or after i holds no `::` and does not end in a colon. */
  lemma PieceBeforePair(s: string, i: nat, k: nat)
    requires i <= k && IndexOfFrom(s, "::", i) == Some(k)
    ensures Absent(s[i..k], "::") && (s[i..k] == [] || s[i..k][|s[i..k]| - 1] != ':')
  {
    var piece := s[i..k];
    assert ContainsAt(s, k, "::");
    forall j | 0 <= j
      ensures !ContainsAt(piece, j, "::")
    {
      if j + 2 <= |piece| {
        SliceOfSlice(s, i, k, j, j + 2);
        assert !ContainsAt(s, i + j, "::");
      }
    }
    if piece != [] {
      assert piece[|piece| - 1] == s[k - 1];
      assert s[k..k + 2] == "::";
      assert s[k - 1..k + 1] == [s[k - 1], s[k]];
      assert !ContainsAt(s, k - 1, "::");
    }
  }

  lemma NoPairFrom(s: string, i: nat)
    requires i <= |s| && IndexOfFrom(s, "::", i).None?
    ensures Absent(s[i..], "::")
  {
    forall k | 0 <= k
      ensures !ContainsAt(s[i..], k, "::")
    {
      assert s[..i] + s[i..] == s;
      ContainsAtShift(s[..i], s[i..], k, "::");
    }
  }

  lemma StripDone(s: string, i: nat)
    requires i <= |s| && IndexOfFrom(s, "::", i).None?
    ensures Absent(ReplaceAllFrom(DoubleColon, s, "", i), "::")
  {
    FindFromLiteral("::", s, i);
    ReplaceAllFromDone(DoubleColon, s, "", i);
    NoPairFrom(s, i);
  }

  lemma StripStep(s: string, i: nat, k: nat)
    requires i <= |s| && IndexOfFrom(s, "::", i) == Some(k)
    requires Absent(ReplaceAllFrom(DoubleColon, s, "", k + 2), "::")
    ensures Absent(ReplaceAllFrom(DoubleColon, s, "", i), "::")
  {
    FindFromLiteral("::", s, i);
    var m := Match(k, k + 2, []);
    ReplaceAllFromStep(DoubleColon, s, "", i, m);
    assert Expand("", m, s) == "";
    PieceBeforePair(s, i, k);
    var rest := ReplaceAllFrom(DoubleColon, s, "", k + 2);
    NoPairJoin(s[i..k], rest);
    EmptyMiddle(s[i..k], rest);
  }

  lemma {:induction false} StripFromLeavesNoPair(s: string, i: nat)
    requires i <= |s|
    ensures Absent(ReplaceAllFrom(DoubleColon, s, "", i), "::")
    decreases |s| - i
  {
    match IndexOfFrom(s, "::", i)
    case None =>
      StripDone(s, i);
    case Some(k) =>
      StripFromLeavesNoPair(s, k + 2);
      StripStep(s, i, k);
  }

  /** removeTemploDoubleColon leaves no `::` behind, even where removing one pair brings two
      colons together (main.js:332-334). */
  lemma RemoveTemploDoubleColonLeavesNone(v: string)
    ensures !Contains(RemoveTemploDoubleColon(v), "::")
  {
    StripFromLeavesNoPair(v, 0);
    AbsentMeansNotContains(RemoveTemploDoubleColon(v), "::");
  }

  /** Removing the double colons twice is removing them once. */
  lemma RemoveTemploDoubleColonIdempotent(v: string)
    ensures RemoveTemploDoubleColon(RemoveTemploDoubleColon(v)) == RemoveTemploDoubleColon(v)
  {
    var once := RemoveTemploDoubleColon(v);
    RemoveTemploDoubleColonLeavesNone(v);
    FindFromLiteral("::", once, 0);
    ReplaceWithoutMatch(DoubleColon, once, "");
  }

  /* ---------------------------------------------------------------- ::end:: */

  const EndDirective: string := "::end::"

  /** The name `previousStatement.pop()` produces: the top of the stack, or `undefined`. */
  function TopName(stack: seq<Block>): string {
    if stack == [] then Undefined else stack[|stack| - 1].Name()
  }

  /** `previousStatement` after a `pop()`: an empty stack stays empty. */
  function Popped(stack: seq<Block>): seq<Block> {
    if stack == [] then [] else stack[..|stack| - 1]
  }

  /** The closing tag one `::end::` becomes. */
  function CloseTag(stack: seq<Block>): (r: string)
    ensures r != [] && r[0] == '{' && NoColon(r)
  {
    "{% end" + TopName(stack) + " %}"
  }

  /** convertEnd (main.js:373-381) read left to right: each `::end::` is replaced by the closing
      tag named after the current top of the stack, which is then popped. */
  function ResolveEnds(v: string, stack: seq<Block>): (string, seq<Block>)
    decreases |v|
  {
    match IndexOf(v, EndDirective)
    case None => (v, stack)
    case Some(i) =>
      var rest := ResolveEnds(v[i + 7..], Popped(stack));
      (v[..i] + CloseTag(stack) + rest.0, rest.1)
  }

  /** The number of `::end::` directives of v, counted left to right. */
  function EndCount(v: string): nat
    decreases |v|
  {
    match IndexOf(v, EndDirective)
    case None => 0
    case Some(i) => 1 + EndCount(v[i + 7..])
  }

  /** A prefix in which no `::end::` starts changes neither the resolution of what follows nor the
      count. */
  lemma ResolveEndsUnfold(v: string, stack: seq<Block>, i: nat)
    requires IndexOf(v, EndDirective) == Some(i)
    ensures ResolveEnds(v, stack)
         == (v[..i] + CloseTag(stack) + ResolveEnds(v[i + 7..], Popped(stack)).0, ResolveEnds(v[i + 7..], Popped(stack)).1)
    ensures EndCount(v) == 1 + EndCount(v[i + 7..])
  {
  }

  lemma ResolveEndsNone(v: string, stack: seq<Block>)
    requires IndexOf(v, EndDirective).None?
    ensures ResolveEnds(v, stack) == (v, stack) && EndCount(v) == 0
  {
  }

  lemma ResolveEndsPrefix(x: string, y: string, stack: seq<Block>)
    requires FreeBefore(x + y, |x|, EndDirective)
    ensures ResolveEnds(x + y, stack) == (x + ResolveEnds(y, stack).0, ResolveEnds(y, stack).1)
    ensures EndCount(x + y) == EndCount(y)
  {
    IndexOfShift(x, y, EndDirective);
    match IndexOf(y, EndDirective)
    case None =>
      ResolveEndsNone(x + y, stack);
      ResolveEndsNone(y, stack);
    case Some(j) =>
      ResolveEndsShifted(x, y, stack, j);
  }

  lemma ResolveEndsShifted(x: string, y: string, stack: seq<Block>, j: nat)
    requires IndexOf(y, EndDirective) == Some(j) && IndexOf(x + y, EndDirective) == Some(|x| + j)
    ensures ResolveEnds(x + y, stack) == (x + ResolveEnds(y, stack).0, ResolveEnds(y, stack).1)
    ensures EndCount(x + y) == EndCount(y)
  {
    var v := x + y;
    assert v[..|x| + j] == x + y[..j];
    assert v[|x| + j + 7..] == y[j + 7..];
    ResolveEndsAligned(v, y, x, stack, |x| + j, j);
  }

  /** Two values whose first `::end::` is followed by the same text, and whose text before it
      differs by a prefix x, resolve alike up to that prefix. */
  lemma ResolveEndsAligned(v: string, y: string, x: string, stack: seq<Block>, i: nat, j: nat)
    requires IndexOf(v, EndDirective) == Some(i) && IndexOf(y, EndDirective) == Some(j)
    requires v[..i] == x + y[..j] && v[i + 7..] == y[j + 7..]
    ensures ResolveEnds(v, stack) == (x + ResolveEnds(y, stack).0, ResolveEnds(y, stack).1)
    ensures EndCount(v) == EndCount(y)
  {
    EndCountAligned(v, y, i, j);
    var r := ResolveEnds(y[j + 7..], Popped(stack));
    var c := CloseTag(stack);
    ResolveEndsUnfold(v, stack, i);
    ResolveEndsUnfold(y, stack, j);
    assert ResolveEnds(v[i + 7..], Popped(stack)) == r;
    assert ResolveEnds(v, stack) == (x + y[..j] + c + r.0, r.1);
    PrefixJoin(x, y[..j], c, r.0);
  }

  lemma PrefixJoin(x: string, a: string, b: string, c: string)
    ensures x + a + b + c == x + (a + b + c)
  {
  }

  lemma EndCountAligned(v: string, y: string, i: nat, j: nat)
    requires IndexOf(v, EndDirective) == Some(i) && IndexOf(y, EndDirective) == Some(j)
    requires v[i + 7..] == y[j + 7..]
    ensures EndCount(v) == EndCount(y)
  {
  }

  /** One step of the loop of convertEnd: replacing the first `::end::` and popping the stack
      leaves the same resolution ahead, with one directive fewer. */
  lemma ResolveEndsStep(v: string, stack: seq<Block>, i: nat)
    requires IndexOf(v, EndDirective) == Some(i)
    ensures var w := v[..i] + CloseTag(stack) + v[i + 7..];
      ResolveEnds(w, Popped(stack)) == ResolveEnds(v, stack) && EndCount(w) + 1 == EndCount(v)
  {
    var c := CloseTag(stack);
    EndFreeBeforeTag(v, i, c);
    ResolveEndsPrefix(v[..i] + c, v[i + 7..], Popped(stack));
    ResolveEndsUnfold(v, stack, i);
  }

  /** Once the first `::end::` of v is replaced by a closing tag, no `::end::` starts before the
      text that followed it. */
  lemma EndFreeBeforeTag(v: string, i: nat, c: string)
    requires IndexOf(v, EndDirective) == Some(i) && c != [] && c[0] == '{' && NoColon(c)
    ensures FreeBefore(v[..i] + c + v[i + 7..], i + |c|, EndDirective)
  {
    var w := v[..i] + c + v[i + 7..];
    forall k | 0 <= k < i + |c|
      ensures !ContainsAt(w, k, EndDirective)
    {
      if k + 7 <= i {
        EndFreeBeforeTagLeft(v, i, c, k);
      } else if k < i {
        EndFreeBeforeTagAcross(v, i, c, k);
      } else {
        EndFreeBeforeTagInside(v, i, c, k);
      }
    }
  }

  lemma EndFreeBeforeTagLeft(v: string, i: nat, c: string, k: nat)
    requires IndexOf(v, EndDirective) == Some(i) && k + 7 <= i
    ensures !ContainsAt(v[..i] + c + v[i + 7..], k, EndDirective)
  {
    var w := v[..i] + c + v[i + 7..];
    assert w[k..k + 7] == v[k..k + 7];
    assert !ContainsAt(v, k, EndDirective);
  }

  lemma EndFreeBeforeTagAcross(v: string, i: nat, c: string, k: nat)
    requires i + 7 <= |v| && c != [] && c[0] == '{' && k < i < k + 7
    ensures !ContainsAt(v[..i] + c + v[i + 7..], k, EndDirective)
  {
    var w := v[..i] + c + v[i + 7..];
    if k + 7 <= |w| {
      assert w[k..k + 7][i - k] == c[0];
    }
  }

  lemma EndFreeBeforeTagInside(v: string, i: nat, c: string, k: nat)
    requires i + 7 <= |v| && NoColon(c) && i <= k < i + |c|
    ensures !ContainsAt(v[..i] + c + v[i + 7..], k, EndDirective)
  {
    var w := v[..i] + c + v[i + 7..];
    if k + 7 <= |w| {
      assert w[k] == c[k - i] != ':';
      assert w[k..k + 7][0] == w[k];
      assert EndDirective[0] == ':';
    }
  }

  /** convertEnd leaves no `::end::` in the value. */
  lemma {:induction false} ResolveEndsLeavesNone(v: string, stack: seq<Block>)
    ensures Absent(ResolveEnds(v, stack).0, EndDirective)
    decreases |v|
  {
    match IndexOf(v, EndDirective)
    case None =>
    case Some(i) =>
      ResolveEndsLeavesNone(v[i + 7..], Popped(stack));
      FreeBeforeFirst(v, EndDirective, i);
      ResolveEndsUnfold(v, stack, i);
      FreeJoin(v[..i], CloseTag(stack), ResolveEnds(v[i + 7..], Popped(stack)).0, EndDirective);
  }

  function Min(a: nat, b: nat): nat {
    if a < b then a else b
  }

  /** The stack loses one entry per `::end::`, from the top, until it is empty. */
  lemma {:induction false} ResolveEndsStack(v: string, stack: seq<Block>)
    ensures ResolveEnds(v, stack).1 == stack[..|stack| - Min(EndCount(v), |stack|)]
    decreases |v|
  {
    match IndexOf(v, EndDirective)
    case None =>
    case Some(i) =>
      ResolveEndsStack(v[i + 7..], Popped(stack));
      if stack != [] {
        assert Popped(stack)[..|Popped(stack)| - Min(EndCount(v[i + 7..]), |Popped(stack)|)]
            == stack[..|stack| - Min(EndCount(v), |stack|)];
      }
  }

  /** n `::end::` directives in a row. */
  function Ends(n: nat): string {
    if n == 0 then "" else EndDirective + Ends(n - 1)
  }

  /** The closing tags for the blocks stack[|stack| - 1 - k], k from `from` up to n: read off the
      stack by position, innermost block first. */
  function Closings(stack: seq<Block>, from: nat, n: nat): string
    requires from <= n <= |stack|
    decreases n - from
  {
    if from == n then "" else "{% end" + stack[|stack| - 1 - from].Name() + " %}" + Closings(stack, from + 1, n)
  }

  /** Last in, first out: n `::end::` directives close the n innermost open blocks, innermost
      first, and leave the rest of the stack open. */
  lemma {:induction false} EndsCloseInnermostFirst(stack: seq<Block>, n: nat)
    requires n <= |stack|
    ensures ResolveEnds(Ends(n), stack) == (Closings(stack, 0, n), stack[..|stack| - n])
  {
    ClosingsShift(stack, n, 0);
    assert stack[..|stack| - 0] == stack;
  }

  lemma {:induction false} ClosingsShift(stack: seq<Block>, n: nat, from: nat)
    requires from <= n <= |stack|
    ensures ResolveEnds(Ends(n - from), stack[..|stack| - from]) == (Closings(stack, from, n), stack[..|stack| - n])
    decreases n - from
  {
    if from < n {
      ClosingsShift(stack, n, from + 1);
      EndsHead(n - from);
      ClosingsStep(stack, n, from);
      ResolveEndsCons(Ends(n - from), stack[..|stack| - from], Ends(n - (from + 1)),
        Closings(stack, from + 1, n), stack[..|stack| - n]);
    } else {
      assert IndexOf(Ends(0), EndDirective) == None;
      ResolveEndsNone(Ends(0), stack[..|stack| - from]);
    }
  }

  lemma ResolveEndsCons(v: string, st: seq<Block>, rest: string, a: string, b: seq<Block>)
    requires IndexOf(v, EndDirective) == Some(0) && v[7..] == rest
    requires ResolveEnds(rest, Popped(st)) == (a, b)
    ensures ResolveEnds(v, st) == (CloseTag(st) + a, b)
  {
    ResolveEndsLeadingEnd(v, st);
  }

  lemma ClosingsStep(stack: seq<Block>, n: nat, from: nat)
    requires from < n <= |stack|
    ensures Closings(stack, from, n) == CloseTag(stack[..|stack| - from]) + Closings(stack, from + 1, n)
    ensures Popped(stack[..|stack| - from]) == stack[..|stack| - (from + 1)]
  {
    var st := stack[..|stack| - from];
    assert TopName(st) == stack[|stack| - 1 - from].Name();
  }

  lemma ResolveEndsLeadingEnd(v: string, st: seq<Block>)
    requires IndexOf(v, EndDirective) == Some(0)
    ensures ResolveEnds(v, st) == (CloseTag(st) + ResolveEnds(v[7..], Popped(st)).0, ResolveEnds(v[7..], Popped(st)).1)
  {
    LeadingEndText(v, st);
    LeadingEndStack(v, st);
  }

  lemma LeadingEndText(v: string, st: seq<Block>)
    requires IndexOf(v, EndDirective) == Some(0)
    ensures ResolveEnds(v, st).0 == CloseTag(st) + ResolveEnds(v[7..], Popped(st)).0
  {
    ResolveEndsUnfold(v, st, 0);
    EmptyPrefix(v, CloseTag(st), ResolveEnds(v[7..], Popped(st)).0);
  }


  lemma LeadingEndStack(v: string, st: seq<Block>)
    requires IndexOf(v, EndDirective) == Some(0)
    ensures ResolveEnds(v, st).1 == ResolveEnds(v[7..], Popped(st)).1
  {
    ResolveEndsUnfold(v, st, 0);
  }

  /** A run of m > 0 `::end::` directives starts with one, followed by the other m - 1. */
  lemma EndsHead(m: nat)
    requires m > 0
    ensures IndexOf(Ends(m), EndDirective) == Some(0)
    ensures Ends(m)[7..] == Ends(m - 1) && Ends(m)[..0] == ""
  {
    var v := Ends(m);
    assert v[..7] == EndDirective;
    assert ContainsAt(v, 0, EndDirective);
  }

  /** An `::end::` with nothing open closes `undefined`, as `[].pop()` yields undefined. */
  lemma EndOnEmptyStack()
    ensures ResolveEnds(EndDirective, []) == ("{% endundefined %}", [])
  {
    EndsHead(1);
    assert Ends(1) == EndDirective;
    ResolveEndsUnfold(EndDirective, [], 0);
    assert IndexOf("", EndDirective) == None;
    ResolveEndsNone("", []);
    assert "" + CloseTag([]) + "" == "{% endundefined %}";
  }

  /** A single `::end::` closes the top of the stack and pops it. */
  lemma SingleEnd(stack: seq<Block>)
    ensures ResolveEnds(EndDirective, stack) == (CloseTag(stack), Popped(stack))
  {
    EndsHead(1);
    assert Ends(1) == EndDirective;
    ResolveEndsLeadingEnd(EndDirective, stack);
    assert EndDirective[7..] == "";
    assert IndexOf("", EndDirective) == None;
    ResolveEndsNone("", Popped(stack));
    assert CloseTag(stack) + "" == CloseTag(stack);
  }

  /** The closing tag convertEnd uses, replacing the first `::end::` as the regular expression
      END_TEMPLO_REGEX does (main.js:377). */
  lemma ReplaceFirstEnd(v: string, stack: seq<Block>, i: nat)
    requires IndexOf(v, EndDirective) == Some(i)
    ensures ReplaceFirst(EndTemplo, v, CloseTag(stack)) == v[..i] + CloseTag(stack) + v[i + 7..]
  {
    var c := CloseTag(stack);
    assert NoDollar(c);
    ReplaceFirstLiteral(EndDirective, v, c, i);
  }

  lemma TestEnd(v: string)
    ensures Test(EndTemplo, v) <==> IndexOf(v, EndDirective).Some?
  {
    FindFromLiteral(EndDirective, v, 0);
  }

  /* ---------------------------------------------------------------- ::switch and ::case:: */

  /** The text of a case test before the switch condition: `if` for the first case, `elseif`
      after it (main.js:418). */
  function CaseOpen(pos: nat): string {
    "{% " + (if pos == 0 then "if" else "elseif") + " "
  }

  function CaseClose(pos: nat): string {
    ".index == " + NatToString(pos) + " %}\n"
  }

  /** The Twig test one `::case::` becomes at case position pos (main.js:419). */
  function CaseHeader(cond: string, pos: nat): string {
    CaseOpen(pos) + cond + CaseClose(pos)
  }

  /** convertCase on a value (main.js:417-423): the first `::case::`, its whitespace and the rest
      of the line become the test followed by that rest of the line. */
  function CaseStep(v: string, cond: string, pos: nat): string {
    ReplaceFirst(CaseTemplo, v, CaseHeader(cond, pos) + "$1")
  }

  /** A `::case::` directive starts at position k of v: the keyword and a whitespace character. */
  predicate CaseAt(v: string, k: nat) {
    k + 9 <= |v| && v[k] == ':' && v[k + 1] == ':' && v[k + 2] == 'c' && v[k + 3] == 'a'
    && v[k + 4] == 's' && v[k + 5] == 'e' && v[k + 6] == ':' && v[k + 7] == ':' && IsSpace(v[k + 8])
  }

  /** CASE_TEMPLO_REGEX matches exactly where a `::case::` directive starts. */
  lemma CaseMatchAt(v: string, k: nat)
    requires k <= |v|
    ensures MatchAt(CaseTemplo, v, k).Some? <==> CaseAt(v, k)
  {
    if k + 9 <= |v| {
      assert v[k..][..8] == v[k..k + 8];
      assert v[k..][8] == v[k + 8];
    }
  }

  /** A value with a `::case::` directive anywhere passes CASE_TEMPLO_REGEX's test. */
  lemma CaseAtTests(v: string, k: nat)
    requires CaseAt(v, k)
    ensures Test(CaseTemplo, v)
  {
    FindFromSpec(CaseTemplo, v, 0);
    CaseMatchAt(v, k);
  }

  lemma CaseAtInside(x: string, y: string, z: string, j: nat)
    requires CaseAt(y, j)
    ensures CaseAt(x + y + z, |x| + j)
  {
    var s := x + y + z;
    assert forall k :: |x| + j <= k < |x| + j + 9 ==> s[k] == y[k - |x|];
  }

  lemma NoDollarJoin(a: string, b: string)
    requires NoDollar(a) && NoDollar(b)
    ensures NoDollar(a + b)
  {
  }

  lemma CaseHeaderNoDollar(cond: string, pos: nat)
    requires NoDollar(cond)
    ensures NoDollar(CaseHeader(cond, pos))
  {
    NoDollarJoin(CaseOpen(pos), cond);
    NoDollarJoin(CaseOpen(pos) + cond, CaseClose(pos));
  }

  /** `s.replace(regex, rep)` once a match exists. */
  lemma ReplaceFirstFound(re: Regex, s: string, rep: string)
    requires Test(re, s)
    ensures var m := Find(re, s).value;
      ReplaceFirst(re, s, rep) == s[..m.start] + Expand(rep, m, s) + s[m.end..]
  {
  }

  /** A replacement `h$1`, h without `$`, over a match with one group. */
  lemma ExpandHeadGroup(h: string, m: Match, s: string)
    requires NoDollar(h) && |m.caps| == 1 && m.start <= m.end <= |s|
    ensures Expand(h + "$1", m, s) == h + Group(m, 1)
  {
    var matched, before, after := s[m.start..m.end], s[..m.start], s[m.end..];
    SubstituteLiteral(h, "$1", m.caps, matched, before, after);
    assert "$1" == ['$', ('0' as int + 1) as char] + "";
    SubstituteRefHead(1, "", m.caps, matched, before, after);
  }

  lemma Regroup(p: string, a: string, c: string, b: string, g: string, q: string)
    ensures p + (a + c + b + g) + q == p + a + c + (b + g + q)
  {
  }

  /** The first `::case::` of v is replaced by the test, which carries the switch condition as it
      is when the condition has no `$`. */
  lemma CaseStepSplices(v: string, cond: string, pos: nat)
    requires NoDollar(cond) && Test(CaseTemplo, v)
    ensures var m := Find(CaseTemplo, v).value;
      CaseStep(v, cond, pos) == v[..m.start] + CaseOpen(pos) + cond + (CaseClose(pos) + Group(m, 1) + v[m.end..])
  {
    var m := Find(CaseTemplo, v).value;
    var h := CaseHeader(cond, pos);
    FindFromSpec(CaseTemplo, v, 0);
    assert |m.caps| == 1;
    CaseHeaderNoDollar(cond, pos);
    ReplaceFirstFound(CaseTemplo, v, h + "$1");
    ExpandHeadGroup(h, m, v);
    Regroup(v[..m.start], CaseOpen(pos), cond, CaseClose(pos), Group(m, 1), v[m.end..]);
  }

  /** A switch condition holding a `::case::` directive keeps one in every value the loop of
      convertSwitch produces. */
  lemma CaseStepKeepsCase(v: string, cond: string, pos: nat, j: nat)
    requires NoDollar(cond) && CaseAt(cond, j) && Test(CaseTemplo, v)
    ensures Test(CaseTemplo, CaseStep(v, cond, pos))
  {
    var m := Find(CaseTemplo, v).value;
    CaseStepSplices(v, cond, pos);
    var x := v[..m.start] + CaseOpen(pos);
    CaseAtInside(x, cond, CaseClose(pos) + Group(m, 1) + v[m.end..], j);
    CaseAtTests(CaseStep(v, cond, pos), |x| + j);
  }

  /** The loop of convertSwitch (main.js:411-413) as written, run for at most fuel rounds: None
      when the fuel runs out while the value still has a `::case::`. */
  function AsWrittenCaseLoop(v: string, cond: string, pos: nat, fuel: nat): (r: Option<(string, nat)>)
    ensures r.Some? ==> !Test(CaseTemplo, r.value.0)
    decreases fuel
  {
    if !Test(CaseTemplo, v) then Some((v, pos))
    else if fuel == 0 then None
    else AsWrittenCaseLoop(CaseStep(v, cond, pos), cond, pos + 1, fuel - 1)
  }

  /** The loop never ends when the switch condition itself holds a `::case::` directive: no
      amount of fuel suffices. */
  lemma {:induction false} SwitchLoopDiverges(v: string, cond: string, pos: nat, fuel: nat, j: nat)
    requires NoDollar(cond) && CaseAt(cond, j) && Test(CaseTemplo, v)
    ensures AsWrittenCaseLoop(v, cond, pos, fuel).None?
    decreases fuel
  {
    if fuel > 0 {
      CaseStepKeepsCase(v, cond, pos, j);
      SwitchLoopDiverges(CaseStep(v, cond, pos), cond, pos + 1, fuel - 1, j);
    }
  }

  const ExampleCondition: string := "x:: ::case:: a ::end"
  const SwitchExample: string := "::switch" + " " + ExampleCondition + "::"

  /** On `::switch x:: ::case:: a ::end::` the greedy group of SWITCH_TEMPLO_REGEX runs to the
      last `::` of the line, so the recorded condition takes in the case directive. */
  lemma SwitchExampleCondition()
    ensures Test(SwitchTemplo, SwitchExample)
    ensures Group(Find(SwitchTemplo, SwitchExample).value, 1) == ExampleCondition
  {
    var v := SwitchExample;
    assert forall k :: 0 <= k < |ExampleCondition| ==> !IsLineTerminator(ExampleCondition[k]);
    SwitchWhole(ExampleCondition);
    assert v[0..] == v;
    assert MatchAt(SwitchTemplo, v, 0) == Some(Match(0, |v|, [ExampleCondition]));
  }

  /** convertSwitch never returns on that input: whatever the fuel, the loop is still running. */
  lemma SwitchExampleDiverges(fuel: nat)
    ensures AsWrittenCaseLoop(SwitchExample, ExampleCondition, 0, fuel).None?
  {
    assert CaseAt(ExampleCondition, 4);
    CaseAtInside("::switch" + " ", ExampleCondition, "::", 4);
    CaseAtTests(SwitchExample, 13);
    SwitchLoopDiverges(SwitchExample, ExampleCondition, 0, fuel, 4);
  }

  /** The corrected loop of convertSwitch: the `::case::` directives of v at or after c are
      converted once each, left to right, at case positions pos, pos + 1, ...; each becomes the
      test convertCase inserts for it, and the search resumes at the text after the directive's
      whitespace, so the text a test brings in is never searched again. The result is the value
      and the next case position. */
  function Cases(v: string, cond: string, pos: nat, c: nat): (string, nat)
    requires c <= |v|
    decreases |v| - c
  {
    match NextCase(v, c)
    case None => (v, pos)
    case Some(k) =>
      var h := CaseTest(v, k, cond, pos);
      Cases(CaseSplice(v, k, h), cond, pos + 1, k + |h|)
  }

  /** One turn of the corrected case loop: the case found from c is spliced in, and the search
      resumes after its test, nearer the end of the text. */
  lemma CasesUnfold(v: string, cond: string, pos: nat, c: nat)
    requires c <= |v| && NextCase(v, c).Some?
    ensures var k := NextCase(v, c).value;
      var h := CaseTest(v, k, cond, pos);
      var w := CaseSplice(v, k, h);
      k + |h| <= |w| && |w| - (k + |h|) < |v| - c
      && Cases(v, cond, pos, c) == Cases(w, cond, pos + 1, k + |h|)
  {
  }

  /** The match CASE_TEMPLO_REGEX makes at a `::case::` directive at k: the directive, its
      whitespace and the rest of the line, whose text is group 1. */
  function CaseMatch(v: string, k: nat): (m: Match)
    requires CaseAt(v, k)
    ensures m.start == k < SpaceRunEnd(v, k + 8) <= m.end <= |v|
  {
    var w := SpaceRunEnd(v, k + 8);
    var e := LineEnd(v, w);
    Match(k, e, [v[w..e]])
  }

  lemma CaseMatchIs(v: string, k: nat)
    requires CaseAt(v, k)
    ensures MatchAt(CaseTemplo, v, k) == Some(CaseMatch(v, k))
  {
    var t := v[k..];
    var w := SpaceRunEnd(v, k + 8);
    var e := LineEnd(v, w);
    SpaceRunEndSuffix(v, k, 8);
    LineEndSuffix(v, k, w - k);
    assert t[..8] == v[k..k + 8];
    assert t[w - k..e - k] == v[w..e];
  }

  /** The test convertCase inserts for the directive at k: the part of its replacement string
      before `$1`, with the `$` patterns expanded against the directive's match (main.js:419-420). */
  function CaseTest(v: string, k: nat, cond: string, pos: nat): string
    requires CaseAt(v, k)
  {
    Expand(CaseHeader(cond, pos), CaseMatch(v, k), v)
  }

  lemma CaseHeaderEnds(cond: string, pos: nat)
    ensures var h := CaseHeader(cond, pos); |h| >= 2 && h[0] == '{' && h[|h| - 1] == '\n'
  {
  }

  /** At the first directive, convertCase is the splice of its test: whatever the switch
      condition, the corrected loop does at each directive what convertCase does. */
  lemma CaseStepIsSplice(v: string, cond: string, pos: nat, k: nat)
    requires NextCase(v, 0) == Some(k)
    ensures CaseStep(v, cond, pos) == CaseSplice(v, k, CaseTest(v, k, cond, pos))
  {
    var m := CaseMatch(v, k);
    var w := SpaceRunEnd(v, k + 8);
    var h := CaseHeader(cond, pos);
    var matched, before, after := v[m.start..m.end], v[..m.start], v[m.end..];
    assert Find(CaseTemplo, v) == Some(m) by {
      CaseMatchIs(v, k);
      NextCaseFirst(v, 0);
      forall j | 0 <= j < k ensures MatchAt(CaseTemplo, v, j).None? {
        CaseMatchAt(v, j);
      }
      FindIs(CaseTemplo, v, k);
    }
    assert Expand(h + "$1", m, v) == Expand(h, m, v) + v[w..m.end] by {
      CaseHeaderEnds(cond, pos);
      SubstituteJoin(h, "$1", m.caps, matched, before, after);
      assert "$1" == ['$', ('0' as int + 1) as char] + "";
      SubstituteRefHead(1, "", m.caps, matched, before, after);
    }
    Associative(Expand(h, m, v), v[w..m.end], v[m.end..]);
    assert v[w..m.end] + v[m.end..] == v[w..];
  }

  /** The first `::case::` directive at or after c. */
  function NextCase(v: string, c: nat): (r: Option<nat>)
    requires c <= |v|
    ensures r.Some? ==> c <= r.value && CaseAt(v, r.value)
    decreases |v| - c
  {
    if c == |v| then None else if CaseAt(v, c) then Some(c) else NextCase(v, c + 1)
  }

  /** NextCase is the first directive from c: none starts before it, and none at all when it is
      None. */
  lemma {:induction false} NextCaseFirst(v: string, c: nat)
    requires c <= |v|
    ensures NextCase(v, c).Some? ==> forall k :: c <= k < NextCase(v, c).value ==> !CaseAt(v, k)
    ensures NextCase(v, c).None? ==> forall k :: c <= k <= |v| ==> !CaseAt(v, k)
    decreases |v| - c
  {
    if c < |v| && !CaseAt(v, c) {
      NextCaseFirst(v, c + 1);
    }
  }

  /** NextCase finds what CASE_TEMPLO_REGEX finds. */
  lemma NextCaseIsMatch(v: string, c: nat)
    requires c <= |v|
    ensures match FindFrom(CaseTemplo, v, c)
            case None => NextCase(v, c).None?
            case Some(m) => NextCase(v, c) == Some(m.start)
  {
    FindFromSpec(CaseTemplo, v, c);
    NextCaseFirst(v, c);
    match FindFrom(CaseTemplo, v, c)
    case None =>
      forall k | c <= k <= |v| ensures !CaseAt(v, k) {
        CaseMatchAt(v, k);
      }
    case Some(m) =>
      CaseMatchAt(v, m.start);
      forall k | c <= k < m.start ensures !CaseAt(v, k) {
        CaseMatchAt(v, k);
      }
  }

  /** The text a converted case leaves: v up to the directive, the test, and v from the end of
      the directive's whitespace on. */
  function CaseSplice(v: string, start: nat, h: string): string
    requires start + 8 <= |v|
  {
    v[..start] + h + v[SpaceRunEnd(v, start + 8)..]
  }

  /** The number of `::case::` directives of v that start at or after c. */
  function CaseCount(v: string, c: nat): nat
    requires c <= |v|
    decreases |v| - c
  {
    if c == |v| then 0 else (if CaseAt(v, c) then 1 else 0) + CaseCount(v, c + 1)
  }

  lemma {:induction false} CaseCountSkip(v: string, i: nat, j: nat)
    requires i <= j <= |v|
    requires forall k :: i <= k < j ==> !CaseAt(v, k)
    ensures CaseCount(v, i) == CaseCount(v, j)
    decreases j - i
  {
    if i < j {
      CaseCountSkip(v, i + 1, j);
    }
  }

  lemma {:induction false} CaseCountShift(s: string, d: nat, y: string, k: nat)
    requires d <= |s| && s[d..] == y && k <= |y|
    ensures CaseCount(s, d + k) == CaseCount(y, k)
    decreases |y| - k
  {
    if k < |y| {
      assert forall n :: d + k <= n < |s| ==> s[n] == y[n - d];
      CaseCountShift(s, d, y, k + 1);
    }
  }

  /** No `::case::` starts inside another one or inside the whitespace that follows it. */
  lemma NoCaseInsideRun(v: string, s: nat, k: nat)
    requires CaseAt(v, s)
    requires s < k < SpaceRunEnd(v, s + 8)
    ensures !CaseAt(v, k)
  {
  }

  /** The first directive at or after c counts one, and the next ones start past its whitespace. */
  lemma CaseCountAtNext(v: string, c: nat, k: nat)
    requires c <= |v| && NextCase(v, c) == Some(k)
    ensures CaseCount(v, c) == 1 + CaseCount(v, SpaceRunEnd(v, k + 8))
  {
    NextCaseFirst(v, c);
    CaseCountSkip(v, c, k);
    var w := SpaceRunEnd(v, k + 8);
    forall j | k + 1 <= j < w ensures !CaseAt(v, j) {
      NoCaseInsideRun(v, k, j);
    }
    CaseCountSkip(v, k + 1, w);
  }

  lemma CaseCountAfterSplice(v: string, start: nat, h: string)
    requires start + 8 <= |v|
    ensures CaseCount(CaseSplice(v, start, h), start + |h|) == CaseCount(v, SpaceRunEnd(v, start + 8))
  {
    var w := SpaceRunEnd(v, start + 8);
    var v' := CaseSplice(v, start, h);
    assert v'[start + |h|..] == v[w..];
    CaseCountShift(v', start + |h|, v[w..], 0);
    CaseCountShift(v, w, v[w..], 0);
  }

  /** The case position advances by exactly one per `::case::` directive of the value. */
  lemma {:induction false} CasesCount(v: string, cond: string, pos: nat, c: nat)
    requires c <= |v|
    ensures Cases(v, cond, pos, c).1 == pos + CaseCount(v, c)
    decreases |v| - c
  {
    if NextCase(v, c).None? {
      NextCaseFirst(v, c);
      CaseCountSkip(v, c, |v|);
    } else {
      var v', c' := CasesStep(v, cond, pos, c, pos + 1);
      CasesCount(v', cond, pos + 1, c');
    }
  }

  /** CasesUnfold with the turn's directive, test and resumed state named by the caller. */
  lemma CasesAdvance(v: string, cond: string, pos: nat, c: nat, k: nat, h: string, v': string, c': nat)
    requires c <= |v| && NextCase(v, c) == Some(k) && h == CaseTest(v, k, cond, pos)
    requires v' == CaseSplice(v, k, h) && c' == k + |h|
    ensures c' <= |v'| && |v'| - c' < |v| - c
    ensures Cases(v, cond, pos, c) == Cases(v', cond, pos + 1, c')
  {
  }

  /** One turn of the corrected loop consumes exactly one directive; the next turn is at the
      position p. */
  lemma CasesStep(v: string, cond: string, pos: nat, c: nat, p: nat) returns (v': string, c': nat)
    requires c <= |v| && NextCase(v, c).Some? && p == pos + 1
    ensures var k := NextCase(v, c).value; var h := CaseTest(v, k, cond, pos);
      v' == CaseSplice(v, k, h) && c' == k + |h|
    ensures c' <= |v'| && |v'| - c' < |v| - c
    ensures Cases(v, cond, pos, c) == Cases(v', cond, p, c')
    ensures CaseCount(v, c) == 1 + CaseCount(v', c')
  {
    var k := NextCase(v, c).value;
    var h := CaseTest(v, k, cond, pos);
    v' := CaseSplice(v, k, h);
    c' := k + |h|;
    assert c' <= |v'| && |v'| - c' < |v| - c && Cases(v, cond, pos, c) == Cases(v', cond, p, c') by {
      CasesUnfold(v, cond, pos, c);
    }
    CaseCountTurn(v, c, k, h);
  }

  /** Splicing a test at the first directive from c leaves one directive fewer after the test. */
  lemma CaseCountTurn(v: string, c: nat, k: nat, h: string)
    requires c <= |v| && NextCase(v, c) == Some(k)
    ensures k + |h| <= |CaseSplice(v, k, h)|
    ensures CaseCount(v, c) == 1 + CaseCount(CaseSplice(v, k, h), k + |h|)
  {
    CaseCountAtNext(v, c, k);
    CaseCountAfterSplice(v, k, h);
  }

  /** No `::case::` directive starts before c. */
  predicate CaseFree(v: string, c: nat) {
    forall j :: 0 <= j < c ==> !CaseAt(v, j)
  }

  /** A value where no directive starts fails CASE_TEMPLO_REGEX's test. */
  lemma CaseFreeNoTest(v: string)
    requires CaseFree(v, |v|)
    ensures !Test(CaseTemplo, v)
  {
    FindFromSpec(CaseTemplo, v, 0);
    if Test(CaseTemplo, v) {
      CaseMatchAt(v, Find(CaseTemplo, v).value.start);
    }
  }

  /** With no directive before c, the first directive from c is the first of the value. */
  lemma {:induction false} NextCaseFrom(v: string, c: nat, k: nat)
    requires c <= k && CaseAt(v, k) && forall j :: c <= j < k ==> !CaseAt(v, j)
    ensures NextCase(v, c) == Some(k)
    decreases k - c
  {
    if c < k {
      NextCaseFrom(v, c + 1, k);
    }
  }

  /** A test whose switch condition has plain `$` signs holds that condition with `$$` read as
      `$`, whatever the directive it replaces. */
  lemma CaseTestPlain(v: string, k: nat, cond: string, pos: nat)
    requires CaseAt(v, k) && PlainRefs(cond)
    ensures CaseTest(v, k, cond, pos) == CaseOpen(pos) + Unescape(cond) + CaseClose(pos)
  {
    var m := CaseMatch(v, k);
    var matched, before, after := v[m.start..m.end], v[..m.start], v[m.end..];
    var o, cl := CaseOpen(pos), CaseClose(pos);
    assert NoDollar(o) && NoDollar(cl) && cl[0] == '.';
    SubstituteJoin(o + cond, cl, m.caps, matched, before, after);
    SubstituteJoin(o, cond, m.caps, matched, before, after);
    SubstitutePlain(o, m.caps, matched, before, after);
    SubstitutePlain(cl, m.caps, matched, before, after);
    SubstituteUnescape(cond, m.caps, matched, before, after);
  }

  /** A test brings in no directive when its condition holds none: the text around the
      condition has no `:` and the closing text starts with `.`. */
  lemma HeaderCaseFree(mid: string, pos: nat)
    requires CaseFree(mid, |mid|)
    ensures var h := CaseOpen(pos) + mid + CaseClose(pos); CaseFree(h, |h|)
  {
    var o, cl := CaseOpen(pos), CaseClose(pos);
    var h := o + mid + cl;
    assert NoColon(o) && NoColon(cl) && cl[0] == '.';
    forall j | 0 <= j < |h| ensures !CaseAt(h, j) {
      if j < |o| {
        assert h[j] == o[j];
      } else if j + 9 <= |o| + |mid| {
        assert !CaseAt(mid, j - |o|);
        assert forall n :: j <= n < j + 9 ==> h[n] == mid[n - |o|];
      } else if j < |o| + |mid| {
        assert h[|o| + |mid|] == cl[0];
      } else {
        assert h[j] == cl[j - |o| - |mid|];
      }
    }
  }

  /** A splice of a directive-free test, which starts with `{` and ends with a line break, at the
      first directive leaves no directive before the end of the test. */
  lemma SpliceCaseFree(v: string, k: nat, h: string)
    requires CaseAt(v, k) && CaseFree(v, k) && CaseFree(h, |h|)
    requires |h| >= 2 && h[0] == '{' && h[|h| - 1] == '\n'
    ensures CaseFree(CaseSplice(v, k, h), k + |h|)
  {
    var s := CaseSplice(v, k, h);
    assert s[k] == '{' && s[k + |h| - 1] == '\n';
    forall j | 0 <= j < k + |h| ensures !CaseAt(s, j) {
      if j + 9 <= k {
        assert !CaseAt(v, j);
        assert forall n :: j <= n < j + 9 ==> s[n] == v[n];
      } else if j + 9 <= k + |h| && k <= j {
        assert !CaseAt(h, j - k);
        assert forall n :: j <= n < j + 9 ==> s[n] == h[n - k];
      }
    }
  }

  /** The condition of the agreement: no directive before c, fewer directives from c than the
      fuel, and a switch condition with plain `$` signs and no directive once `$$` reads `$`. */
  predicate AgreeFrom(v: string, cond: string, c: nat, fuel: nat) {
    c <= |v| && CaseFree(v, c) && CaseCount(v, c) < fuel
    && PlainRefs(cond) && CaseFree(Unescape(cond), |Unescape(cond)|)
  }

  /** The loop as written, given enough fuel, ends with the corrected loop's value and position. */
  predicate Agrees(v: string, cond: string, pos: nat, c: nat, fuel: nat)
    requires c <= |v|
  {
    AsWrittenCaseLoop(v, cond, pos, fuel) == Some(Cases(v, cond, pos, c))
  }

  /** The corrected loop and the loop as written agree wherever the condition has plain `$`
      signs and, read with `$$` as `$`, holds no `::case::` directive: the loop as written then
      ends after one round per directive with the corrected loop's value and position. */
  lemma {:induction false} CasesAgree(v: string, cond: string, pos: nat, c: nat, fuel: nat)
    requires AgreeFrom(v, cond, c, fuel)
    ensures Agrees(v, cond, pos, c, fuel)
    decreases fuel
  {
    var next := NextCase(v, c);
    if next.None? {
      CasesAgreeDone(v, cond, pos, c, fuel);
    } else {
      var p, f := pos + 1, fuel - 1;
      var v', c' := CasesTurn(v, cond, pos, c, next.value, fuel, p, f);
      CasesAgree(v', cond, p, c', f);
    }
  }

  /** Once no directive is left from c, both loops stop with the value and the position. */
  lemma CasesAgreeDone(v: string, cond: string, pos: nat, c: nat, fuel: nat)
    requires c <= |v| && CaseFree(v, c) && NextCase(v, c).None?
    ensures Agrees(v, cond, pos, c, fuel)
  {
    assert !Test(CaseTemplo, v) by {
      NextCaseFirst(v, c);
      CaseFreeNoTest(v);
    }
    AsWrittenDone(v, cond, pos, fuel);
  }

  /** One turn of both loops at the directive k: the loop as written replaces it as the corrected
      loop does, and the corrected loop resumes after the test, where no directive starts before
      and one directive fewer is left. */
  lemma CasesTurn(v: string, cond: string, pos: nat, c: nat, k: nat, fuel: nat, p: nat, f: nat)
      returns (v': string, c': nat)
    requires AgreeFrom(v, cond, c, fuel) && NextCase(v, c) == Some(k) && p == pos + 1 && f + 1 == fuel
    ensures AgreeFrom(v', cond, c', f) && |v'| - c' < |v| - c
    ensures Agrees(v', cond, p, c', f) ==> Agrees(v, cond, pos, c, fuel)
  {
    var h := CaseTest(v, k, cond, pos);
    v', c' := CasesStep(v, cond, pos, c, p);
    assert CaseFree(v, k) by {
      NextCaseFirst(v, c);
    }
    assert AsWrittenCaseLoop(v, cond, pos, fuel) == AsWrittenCaseLoop(v', cond, p, f) by {
      CaseAtTests(v, k);
      NextCaseFrom(v, 0, k);
      CaseStepIsSplice(v, cond, pos, k);
      AsWrittenStep(v, cond, pos, fuel, p, f);
    }
    assert CaseFree(v', c') by {
      CaseTestPlain(v, k, cond, pos);
      HeaderCaseFree(Unescape(cond), pos);
      CaseHeaderEnds(Unescape(cond), pos);
      SpliceCaseFree(v, k, h);
    }
    assert Cases(v, cond, pos, c) == Cases(v', cond, p, c');
  }

  lemma AsWrittenDone(v: string, cond: string, pos: nat, fuel: nat)
    requires !Test(CaseTemplo, v)
    ensures AsWrittenCaseLoop(v, cond, pos, fuel) == Some((v, pos))
  {
  }

  lemma AsWrittenStep(v: string, cond: string, pos: nat, fuel: nat, p: nat, f: nat)
    requires Test(CaseTemplo, v) && p == pos + 1 && f + 1 == fuel
    ensures AsWrittenCaseLoop(v, cond, pos, fuel) == AsWrittenCaseLoop(CaseStep(v, cond, pos), cond, p, f)
  {
  }

  /** convertSwitch's loop as written ends, with the corrected loop's result, on every value whose
      switch condition has plain `$` signs and no `::case::` directive once `$$` is read as `$`:
      one round per directive and one more to see that none is left. convertSwitch starts it at
      position 0 (main.js:410). */
  lemma SwitchLoopAgrees(v: string, cond: string, pos: nat)
    requires PlainRefs(cond) && CaseFree(Unescape(cond), |Unescape(cond)|)
    ensures Agrees(v, cond, pos, 0, CaseCount(v, 0) + 1)
  {
    var fuel := CaseCount(v, 0) + 1;
    assert AgreeFrom(v, cond, 0, fuel);
    CasesAgree(v, cond, pos, 0, fuel);
  }
}
