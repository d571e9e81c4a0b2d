/** The conversion of one text node's value by convertToTwig (main.js:83-124): a fixed-priority
    cascade of directive rewrites that also opens and closes blocks on the block stack and keeps
    the state of the most recent `::switch`. */
module TextConversion {
  import opened JsStrings
  import opened Patterns
  import opened Directives

  /** The part of the per-document state (main.js:57-60) that converting a text value reads and
      changes: the block stack `previousStatement` and the switch state. */
  datatype Conv = Conv(stack: seq<Block>, casePos: nat, caseCond: string)

  /** The start of a document: nothing open and no switch seen yet. */
  const Fresh: Conv := Conv([], 0, "")

  /** A `::switch`: convertSwitch (main.js:408-414) records the condition, converts the cases of
      the value from position 0 on and erases the switch directive; the switch then opens an `if`
      (main.js:85-87). The case loop is the terminating one of Directives.Cases. */
  function SwitchStage(st: Conv, v: string): (Conv, string) {
    if Test(SwitchTemplo, v) then
      var cond := Group(Find(SwitchTemplo, v).value, 1);
      var cases := Cases(v, cond, 0, 0);
      (Conv(st.stack + [IfBlock], cases.1, cond), ReplaceFirst(SwitchTemplo, cases.0, ""))
    else (st, v)
  }

  /** A `::case::` outside a switch's own value: convertCase (main.js:417-423, called at 88-90). */
  function CaseStage(st: Conv, v: string): (Conv, string) {
    if Test(CaseTemplo, v) then (st.(casePos := st.casePos + 1), CaseStep(v, st.caseCond, st.casePos))
    else (st, v)
  }

  /** The if/elseif/else/end chain (main.js:91-103): only the first directive kind present is
      converted. */
  function BranchStage(st: Conv, v: string): (Conv, string) {
    if Test(IfTemplo, v) then (st.(stack := st.stack + [IfBlock]), ConvertIf(v))
    else if Test(ElseIfTemplo, v) then (st, ConvertElseIf(v))
    else if Test(ElseTemplo, v) then (st, ConvertElse(v))
    else if Test(EndTemplo, v) then
      var r := ResolveEnds(v, st.stack);
      (st.(stack := r.1), r.0)
    else (st, v)
  }

  /** One of the later independent rewrites (main.js:104-124): when the pattern occurs, the value
      is converted and the blocks in push are opened. */
  function RewriteStage(st: Conv, v: string, re: Regex, convert: string -> string, push: seq<Block>): (Conv, string) {
    if Test(re, v) then (st.(stack := st.stack + push), convert(v)) else (st, v)
  }

  /** foreach, raw content, raw, fill, set and print, in that order (main.js:104-124). */
  function RewriteStages(st: Conv, v: string): (Conv, string) {
    var a := RewriteStage(st, v, ForeachTemplo, ConvertForeach, [ForBlock]);
    var b := RewriteStage(a.0, a.1, RawContentTemplo, ConvertRawContent, []);
    var c := RewriteStage(b.0, b.1, RawTemplo, ConvertRaw, []);
    var d := RewriteStage(c.0, c.1, FillTemplo, ConvertFill, [SetBlock]);
    var e := RewriteStage(d.0, d.1, SetTemplo, ConvertSet, [SetBlock]);
    RewriteStage(e.0, e.1, PrintTemplo, ConvertPrint, [])
  }

  /** A macro call placeholder left in text is filled in from the macro table (main.js:125-127). */
  function MacroStage(v: string, macros: seq<string>): string {
    if Contains(v, TemplateMacro) then FillInTwigMacro(v, macros) else v
  }

  /** The whole cascade on one text value, given the macro table. */
  function Cascade(st: Conv, v: string, macros: seq<string>): (Conv, string) {
    var a := SwitchStage(st, v);
    var b := CaseStage(a.0, a.1);
    var c := BranchStage(b.0, b.1);
    var d := RewriteStages(c.0, c.1);
    (d.0, MacroStage(d.1, macros))
  }

  /* ---------------------------------------------------------------- text without directives */

  /** Every match of re begins with `::`. */
  ghost predicate ColonLed(re: Regex) {
    forall t :: re(t).Some? ==> |t| >= 2 && t[0] == ':' && t[1] == ':'
  }

  /** Every match of re begins with head (and re needs at least that much text). */
  ghost predicate Led(re: Regex, head: string) {
    forall t :: re(t).Some? ==> StartsWith(t, head)
  }

  lemma LedByColons(re: Regex, head: string)
    requires Led(re, head) && |head| >= 2 && head[0] == ':' && head[1] == ':'
    ensures ColonLed(re)
  {
    forall t | re(t).Some?
      ensures |t| >= 2 && t[0] == ':' && t[1] == ':'
    {
      assert t[..|head|][0] == t[0] && t[..|head|][1] == t[1];
    }
  }

  /** An expression led by `::` does not occur in a text without colons. */
  lemma ColonFreeUnmatched(re: Regex, head: string, v: string)
    requires Led(re, head) && |head| >= 2 && head[0] == ':' && head[1] == ':' && NoColon(v)
    ensures !Test(re, v)
  {
    LedByColons(re, head);
    NoLeadNoMatch(re, ':', v);
  }

  lemma RewriteStagesQuiet(st: Conv, v: string)
    requires NoColon(v)
    ensures RewriteStages(st, v) == (st, v)
  {
    assert Led(ForeachTemplo, "::foreach"); ColonFreeUnmatched(ForeachTemplo, "::foreach", v);
    assert Led(RawContentTemplo, "::raw"); ColonFreeUnmatched(RawContentTemplo, "::raw", v);
    assert Led(RawTemplo, "::raw"); ColonFreeUnmatched(RawTemplo, "::raw", v);
    assert Led(FillTemplo, "::fill"); ColonFreeUnmatched(FillTemplo, "::fill", v);
    assert Led(SetTemplo, "::set"); ColonFreeUnmatched(SetTemplo, "::set", v);
    assert Led(PrintTemplo, "::"); ColonFreeUnmatched(PrintTemplo, "::", v);
  }

  lemma BranchStageQuiet(st: Conv, v: string)
    requires NoColon(v)
    ensures BranchStage(st, v) == (st, v)
  {
    assert Led(IfTemplo, "::if"); ColonFreeUnmatched(IfTemplo, "::if", v);
    assert Led(ElseIfTemplo, "::elseif"); ColonFreeUnmatched(ElseIfTemplo, "::elseif", v);
    assert Led(ElseTemplo, "::else::"); ColonFreeUnmatched(ElseTemplo, "::else::", v);
    assert Led(EndTemplo, "::end::"); ColonFreeUnmatched(EndTemplo, "::end::", v);
  }

  /** Text without `::` and without a macro placeholder passes the cascade unchanged and leaves the
      state as it was. */
  lemma CascadeQuiet(st: Conv, v: string, macros: seq<string>)
    requires NoColon(v) && !Contains(v, TemplateMacro)
    ensures Cascade(st, v, macros) == (st, v)
  {
    assert Led(SwitchTemplo, "::switch"); ColonFreeUnmatched(SwitchTemplo, "::switch", v);
    assert Led(CaseTemplo, "::case::"); ColonFreeUnmatched(CaseTemplo, "::case::", v);
    BranchStageQuiet(st, v);
    RewriteStagesQuiet(st, v);
  }

  /* ---------------------------------------------------------------- single directive lines */

  /** A line `head c::` holding one directive and nothing else. */
  function Line(head: string, c: string): string {
    head + " " + c + "::"
  }

  /** The opening of a directive: `::` and a word without colons. */
  predicate IsHead(head: string) {
    |head| >= 3 && head[0] == ':' && head[1] == ':' && forall k :: 2 <= k < |head| ==> head[k] != ':'
  }

  /** One line of text, without colons. */
  predicate Plain(c: string) {
    forall k :: 0 <= k < |c| ==> c[k] != ':' && !IsLineTerminator(c[k])
  }

  /** A value whose only colons are its first two and its last two characters. */
  predicate ColonsAtEnds(v: string) {
    5 <= |v| && forall k :: 2 <= k < |v| - 2 ==> v[k] != ':'
  }

  lemma LineColons(head: string, c: string)
    requires IsHead(head) && NoColon(c)
    ensures ColonsAtEnds(Line(head, c))
  {
    var v := Line(head, c);
    forall k | 2 <= k < |v| - 2
      ensures v[k] != ':'
    {
      if k < |head| {
        assert v[k] == head[k];
      } else if k > |head| {
        assert v[k] == c[k - |head| - 1];
      }
    }
  }

  /** In such a value an expression led by `::` can only match at position 0. */
  lemma OnlyAtStart(re: Regex, other: string, v: string)
    requires Led(re, other) && |other| >= 3 && other[0] == ':' && other[1] == ':'
    requires ColonsAtEnds(v)
    ensures Test(re, v) ==> re(v).Some? && StartsWith(v, other)
  {
    if Test(re, v) {
      var m := Find(re, v).value;
      FindFromSpec(re, v, 0);
      var t := v[m.start..];
      assert re(t).Some?;
      assert t[..|other|][0] == t[0] && t[..|other|][1] == t[1];
      if m.start > 0 {
        assert false;
      }
      assert t == v;
    }
  }

  /** A directive whose head differs from v at position k does not occur in v. */
  lemma Unmatched(re: Regex, other: string, v: string, k: nat)
    requires Led(re, other) && |other| >= 3 && other[0] == ':' && other[1] == ':'
    requires ColonsAtEnds(v) && k < |other| && k < |v| && v[k] != other[k]
    ensures !Test(re, v)
  {
    OnlyAtStart(re, other, v);
  }

  /** The rewrite of a whole directive line `head c::` by the template pre$2post. */
  lemma LineConverts(re: Regex, head: string, c: string, pre: string, post: string)
    requires re(Line(head, c)) == HeadDelim(Line(head, c), head, "::")
    requires forall k :: 0 <= k < |c| ==> !IsLineTerminator(c[k])
    requires NoDollar(pre) && NoDollar(post)
    ensures Test(re, Line(head, c)) && ReplaceAll(re, Line(head, c), pre + "$2" + post) == pre + c + post
  {
    var v := Line(head, c);
    HeadDelimWhole(head, c);
    var caps := [head + " ", c, "::"];
    ReplaceWhole(re, v, pre + "$2" + post, caps);
    SubstituteSecond(pre, post, caps, v, "", "");
  }

  lemma FramedNoColon(pre: string, c: string, post: string)
    requires NoColon(pre) && NoColon(c) && NoColon(post)
    ensures NoColon(pre + c + post)
  {
  }

  /** The text a template writes around the directive's expression: no colons, no `$`, no
      character that could start a macro placeholder, and no placeholder character next to the
      expression. */
  predicate Frame(pre: string, post: string) {
    && pre != [] && post != [] && NotIn(pre[|pre| - 1], TemplateMacro) && NotIn(post[0], TemplateMacro)
    && NoColon(pre) && NoColon(post) && NoDollar(pre) && NoDollar(post)
    && Lacks(pre, 'T') && Lacks(post, 'T')
  }

  /** A converted directive `pre c post` holds no macro placeholder when c holds none. */
  lemma FramedNoMacro(pre: string, c: string, post: string)
    requires !Contains(c, TemplateMacro) && Frame(pre, post)
    ensures !Contains(pre + c + post, TemplateMacro)
  {
    NoFirstChar(pre, TemplateMacro);
    NoFirstChar(post, TemplateMacro);
    AbsentMeansNotContains(c, TemplateMacro);
    AbsentFramed(pre, c, post, TemplateMacro);
    AbsentMeansNotContains(pre + c + post, TemplateMacro);
  }

  /** What a directive line `head c::` that the template pre$2post rewrites becomes, and that the
      rest of the cascade leaves it alone. */
  lemma FramedQuiet(pre: string, c: string, post: string)
    requires Plain(c) && !Contains(c, TemplateMacro) && Frame(pre, post)
    ensures NoColon(pre + c + post) && !Contains(pre + c + post, TemplateMacro)
    ensures !Test(PrintTemplo, pre + c + post)
  {
    FramedNoColon(pre, c, post);
    FramedNoMacro(pre, c, post);
    assert Led(PrintTemplo, "::");
    ColonFreeUnmatched(PrintTemplo, "::", pre + c + post);
  }

  lemma SetFrame()
    ensures Frame("{% set ", " %}") && "{% set $2 %}" == "{% set " + "$2" + " %}"
  {
  }

  /** The directives tried before `::set` do not occur in a `::set` line. */
  lemma SetLineSkips(c: string)
    requires NoColon(c)
    ensures var v := Line("::set", c);
      && !Test(SwitchTemplo, v) && !Test(CaseTemplo, v) && !Test(IfTemplo, v) && !Test(ElseIfTemplo, v)
      && !Test(ElseTemplo, v) && !Test(EndTemplo, v)
  {
    var v := Line("::set", c);
    LineColons("::set", c);
    assert Led(SwitchTemplo, "::switch"); Unmatched(SwitchTemplo, "::switch", v, 3);
    assert Led(CaseTemplo, "::case::"); Unmatched(CaseTemplo, "::case::", v, 2);
    assert Led(IfTemplo, "::if"); Unmatched(IfTemplo, "::if", v, 2);
    assert Led(ElseIfTemplo, "::elseif"); Unmatched(ElseIfTemplo, "::elseif", v, 2);
    assert Led(ElseTemplo, "::else::"); Unmatched(ElseTemplo, "::else::", v, 2);
    assert Led(EndTemplo, "::end::"); Unmatched(EndTemplo, "::end::", v, 2);
  }

  lemma SetLineSkipsRewrites(c: string)
    requires NoColon(c)
    ensures var v := Line("::set", c);
      !Test(ForeachTemplo, v) && !Test(RawContentTemplo, v) && !Test(RawTemplo, v) && !Test(FillTemplo, v)
  {
    var v := Line("::set", c);
    LineColons("::set", c);
    assert Led(ForeachTemplo, "::foreach"); Unmatched(ForeachTemplo, "::foreach", v, 2);
    assert Led(RawContentTemplo, "::raw"); Unmatched(RawContentTemplo, "::raw", v, 2);
    assert Led(RawTemplo, "::raw"); Unmatched(RawTemplo, "::raw", v, 2);
    assert Led(FillTemplo, "::fill"); Unmatched(FillTemplo, "::fill", v, 2);
  }

  /** `::set c::` becomes `{% set c %}` and opens a set block. */
  lemma RenderSet(st: Conv, c: string, macros: seq<string>)
    requires Plain(c) && !Contains(c, TemplateMacro)
    ensures Cascade(st, Line("::set", c), macros) == (st.(stack := st.stack + [SetBlock]), "{% set " + c + " %}")
  {
    SetLineSkips(c);
    SetLineSkipsRewrites(c);
    SetFrame();
    LineConverts(SetTemplo, "::set", c, "{% set ", " %}");
    FramedQuiet("{% set ", c, " %}");
  }

  lemma FramedLacks(pre: string, c: string, post: string, ch: char)
    requires Lacks(pre, ch) && Lacks(c, ch) && Lacks(post, ch)
    ensures Lacks(pre + c + post, ch)
  {
  }

  /** A value the cascade has already converted, free of colons and placeholders, passes the rest
      of it unchanged. */
  lemma TailQuiet(st: Conv, out: string, macros: seq<string>)
    requires NoColon(out) && !Contains(out, TemplateMacro)
    ensures RewriteStages(st, out) == (st, out) && MacroStage(out, macros) == out
  {
    RewriteStagesQuiet(st, out);
  }

  /** A value with none of the switch, case and branch directives reaches the later rewrites
      unchanged. */
  lemma CascadeFront(st: Conv, v: string, macros: seq<string>)
    requires !Test(SwitchTemplo, v) && !Test(CaseTemplo, v) && !Test(IfTemplo, v) && !Test(ElseIfTemplo, v)
    requires !Test(ElseTemplo, v) && !Test(EndTemplo, v)
    ensures Cascade(st, v, macros) == (RewriteStages(st, v).0, MacroStage(RewriteStages(st, v).1, macros))
  {
  }

  /* if */

  lemma IfFrame()
    ensures Frame("{% if ", " %}") && "{% if $2 %}" == "{% if " + "$2" + " %}"
    ensures Lacks("{% if ", '!') && Lacks(" %}", '!') && Lacks("{% if ", '&') && Lacks(" %}", '&')
    ensures Lacks("{% if ", '|') && Lacks(" %}", '|')
  {
  }

  lemma NotNeedsBang()
    ensures forall t :: Lacks(t, '!') ==> NotTemplo(t).None?
  {
  }

  lemma OperatorNeedsFirst(op: string)
    requires |op| == 2
    ensures forall t :: Lacks(t, op[0]) ==> Operator(t, op).None?
  {
  }

  /** An expression that needs the character ch finds nothing in a text without it. */
  lemma NeedsChar(re: Regex, ch: char, s: string)
    requires forall t :: Lacks(t, ch) ==> re(t).None?
    requires Lacks(s, ch)
    ensures !Test(re, s)
  {
    forall k | 0 <= k <= |s|
      ensures MatchAt(re, s, k).None?
    {
      assert Lacks(s[k..], ch);
    }
    SkipNoMatch(re, s, 0, |s|);
  }

  /** Without `!`, `&` and `|` the logical-operator rewrites of convertIf do nothing. */
  lemma NoOperators(a: string)
    requires Lacks(a, '!') && Lacks(a, '&') && Lacks(a, '|')
    ensures !Test(NotTemplo, a) && !Test(AndTemplo, a) && !Test(OrTemplo, a)
  {
    NotNeedsBang();
    NeedsChar(NotTemplo, '!', a);
    OperatorNeedsFirst("&&");
    NeedsChar(AndTemplo, '&', a);
    OperatorNeedsFirst("||");
    NeedsChar(OrTemplo, '|', a);
  }

  lemma IfLineSkips(c: string)
    requires NoColon(c)
    ensures !Test(SwitchTemplo, Line("::if", c)) && !Test(CaseTemplo, Line("::if", c))
  {
    var v := Line("::if", c);
    LineColons("::if", c);
    assert Led(SwitchTemplo, "::switch"); Unmatched(SwitchTemplo, "::switch", v, 2);
    assert Led(CaseTemplo, "::case::"); Unmatched(CaseTemplo, "::case::", v, 2);
  }

  /** `::if c::` becomes `{% if c %}` and opens an if block. */
  lemma RenderIf(st: Conv, c: string, macros: seq<string>)
    requires Plain(c) && Lacks(c, '!') && Lacks(c, '&') && Lacks(c, '|') && !Contains(c, TemplateMacro)
    ensures Cascade(st, Line("::if", c), macros) == (st.(stack := st.stack + [IfBlock]), "{% if " + c + " %}")
  {
    var out := "{% if " + c + " %}";
    IfLineSkips(c);
    IfFrame();
    LineConverts(IfTemplo, "::if", c, "{% if ", " %}");
    FramedLacks("{% if ", c, " %}", '!');
    FramedLacks("{% if ", c, " %}", '&');
    FramedLacks("{% if ", c, " %}", '|');
    NoOperators(out);
    assert ConvertIf(Line("::if", c)) == out;
    FramedQuiet("{% if ", c, " %}");
    TailQuiet(st.(stack := st.stack + [IfBlock]), out, macros);
  }

  /** `::if c::` on one colon-free line first becomes `{% if c %}`, all of it on one line. */
  lemma IfLine(c: string)
    requires Plain(c)
    ensures var w := "{% if " + c + " %}";
      && ReplaceAll(IfTemplo, Line("::if", c), "{% if $2 %}") == w && NoBreak(w, 0, |w|)
  {
    IfFrame();
    LineConverts(IfTemplo, "::if", c, "{% if ", " %}");
    assert NoBreak("{% if ", 0, 6) && NoBreak(" %}", 0, 3);
    FramedOneLine("{% if ", c, " %}");
  }

  /** In x op y with op a doubled character that y lacks, the op after x is the last. */
  lemma LastDouble(x: string, op: string, y: string)
    requires |op| == 2 && op[1] == op[0] && Lacks(y, op[0])
    ensures forall k :: |x| < k ==> !ContainsAt(x + op + y, k, op)
  {
    var w := x + op + y;
    forall k | |x| < k
      ensures !ContainsAt(w, k, op)
    {
      if k + 2 <= |w| {
        assert w[k + 1] == y[k - |x| - 1];
        assert w[k..k + 2][1] == w[k + 1];
      }
    }
  }

  /** A colon-free line between two one-line frames is one line. */
  lemma FramedOneLine(pre: string, c: string, post: string)
    requires NoBreak(pre, 0, |pre|) && Plain(c) && NoBreak(post, 0, |post|)
    ensures NoBreak(pre + c + post, 0, |pre + c + post|)
  {
    var w := pre + c + post;
    forall i | 0 <= i < |w|
      ensures !IsLineTerminator(w[i])
    {
      if i < |pre| {
        assert w[i] == pre[i];
      } else if i < |pre| + |c| {
        assert w[i] == c[i - |pre|];
      } else {
        assert w[i] == post[i - |pre| - |c|];
      }
    }
  }

  /** convertIf, unfolded over its intermediate texts. */
  lemma ConvertIfThrough(v: string, w: string, r1: string, r2: string, r3: string)
    requires ReplaceAll(IfTemplo, v, "{% if $2 %}") == w
    requires r1 == (if Test(NotTemplo, w) then ReplaceAll(NotTemplo, w, "$1not $3") else w)
    requires r2 == (if Test(AndTemplo, r1) then ReplaceAll(AndTemplo, r1, "$1and$3") else r1)
    requires r3 == (if Test(OrTemplo, r2) then ReplaceAll(OrTemplo, r2, "$1or$3") else r2)
    ensures ConvertIf(v) == r3
  {
  }

  lemma LacksJoin(p: string, m: string, q: string, ch: char)
    requires Lacks(p, ch) && Lacks(m, ch) && Lacks(q, ch)
    ensures Lacks(p + m + q, ch)
  {
  }

  /** `{% if a op b %}` read as x op y, with x = `{% if a` and y = `b %}`. */
  lemma IfSplit(a: string, op: string, b: string)
    ensures "{% if " + (a + op + b) + " %}" == ("{% if " + a) + op + (b + " %}")
    ensures ("{% if " + a) + op + (b + " %}") == "{% if " + a + op + b + " %}"
  {
  }

  /** The two halves of `{% if a op b %}` around op keep what a and b lack. */
  lemma IfHalvesLack(a: string, b: string, ch: char)
    requires Lacks(a, ch) && Lacks(b, ch) && (ch == '!' || ch == '&' || ch == '|')
    ensures Lacks("{% if " + a, ch) && Lacks(b + " %}", ch)
  {
    IfFrame();
    LacksJoin("{% if ", a, "", ch);
    LacksJoin("", b, " %}", ch);
    assert "{% if " + a + "" == "{% if " + a && "" + b + " %}" == b + " %}";
  }

  /** On one line x!y, where y is not empty, does not start with `=` and has no `!` but in `!=`,
      and no `&` or `|` anywhere: convertIf's operator rewrites turn that `!` into `not ` and
      nothing else. */
  lemma OpsNot(x: string, y: string)
    requires NoBreak(x + "!" + y, 0, |x + "!" + y|)
    requires y != [] && y[0] != '=' && BangsAreInequalities(y)
    requires Lacks(x, '&') && Lacks(y, '&') && Lacks(x, '|') && Lacks(y, '|')
    ensures var w := x + "!" + y; var r := x + "not " + y;
      && Test(NotTemplo, w) && ReplaceAll(NotTemplo, w, "$1not $3") == r
      && !Test(AndTemplo, r) && !Test(OrTemplo, r)
  {
    var w := x + "!" + y;
    var r := x + "not " + y;
    NotRewrite(w, x, y);
    LacksJoin(x, "not ", y, '&');
    OperatorNeedsFirst("&&");
    NeedsChar(AndTemplo, '&', r);
    LacksJoin(x, "not ", y, '|');
    OperatorNeedsFirst("||");
    NeedsChar(OrTemplo, '|', r);
  }

  /** On one line x&&y, with no `!` or `|` and no `&` in y: the `&&` after x becomes `and`. */
  lemma OpsAnd(x: string, y: string)
    requires NoBreak(x + "&&" + y, 0, |x + "&&" + y|)
    requires Lacks(x, '!') && Lacks(y, '!') && Lacks(x, '|') && Lacks(y, '|') && Lacks(y, '&')
    ensures var w := x + "&&" + y; var r := x + "and" + y;
      && !Test(NotTemplo, w) && Test(AndTemplo, w) && ReplaceAll(AndTemplo, w, "$1and$3") == r
      && !Test(OrTemplo, r)
  {
    var w := x + "&&" + y;
    var r := x + "and" + y;
    LacksJoin(x, "&&", y, '!');
    NotNeedsBang();
    NeedsChar(NotTemplo, '!', w);
    LastDouble(x, "&&", y);
    assert AndTemplo(w) == Operator(w, "&&");
    OperatorRewrite(AndTemplo, "&&", "and", w, x, y);
    assert "$1" + "and" + "$3" == "$1and$3";
    LacksJoin(x, "and", y, '|');
    OperatorNeedsFirst("||");
    NeedsChar(OrTemplo, '|', r);
  }

  /** On one line x||y, with no `!` or `&` and no `|` in y: the `||` after x becomes `or`. */
  lemma OpsOr(x: string, y: string)
    requires NoBreak(x + "||" + y, 0, |x + "||" + y|)
    requires Lacks(x, '!') && Lacks(y, '!') && Lacks(x, '&') && Lacks(y, '&') && Lacks(y, '|')
    ensures var w := x + "||" + y;
      && !Test(NotTemplo, w) && !Test(AndTemplo, w) && Test(OrTemplo, w)
      && ReplaceAll(OrTemplo, w, "$1or$3") == x + "or" + y
  {
    var w := x + "||" + y;
    LacksJoin(x, "||", y, '!');
    NotNeedsBang();
    NeedsChar(NotTemplo, '!', w);
    LacksJoin(x, "||", y, '&');
    OperatorNeedsFirst("&&");
    NeedsChar(AndTemplo, '&', w);
    LastDouble(x, "||", y);
    assert OrTemplo(w) == Operator(w, "||");
    OperatorRewrite(OrTemplo, "||", "or", w, x, y);
    assert "$1" + "or" + "$3" == "$1or$3";
  }

  /** `::if a!b::`, where b has no `!` but in `!=`: the `!` becomes `not `. The `!`s of a are
      left as they are: only the last `!` of a line is rewritten (main.js:347-350). */
  lemma IfNot(a: string, b: string)
    requires Plain(a) && Plain(b) && (b == [] || b[0] != '=') && BangsAreInequalities(b)
    requires Lacks(a, '&') && Lacks(b, '&') && Lacks(a, '|') && Lacks(b, '|')
    ensures ConvertIf(Line("::if", a + "!" + b)) == "{% if " + a + "not " + b + " %}"
  {
    var c := a + "!" + b;
    var x := "{% if " + a;
    var y := b + " %}";
    IfLine(c);
    IfSplit(a, "!", b);
    IfSplit(a, "not ", b);
    IfHalvesLack(a, b, '&');
    IfHalvesLack(a, b, '|');
    assert BangsAreInequalities(y) && y[0] != '=' by {
      forall k | 0 <= k < |y| && y[k] == '!'
        ensures k + 1 < |y| && y[k + 1] == '='
      {
        assert k < |b| && b[k] == '!';
      }
    }
    OpsNot(x, y);
    ConvertIfThrough(Line("::if", c), x + "!" + y, x + "not " + y, x + "not " + y, x + "not " + y);
  }

  /** `::if a&&b::`, where b has no `&`: the `&&` becomes `and`. The `&&`s of a are left as they
      are: only the last `&&` of a line is rewritten (main.js:352-355). */
  lemma IfAnd(a: string, b: string)
    requires Plain(a) && Plain(b) && Lacks(a, '!') && Lacks(b, '!') && Lacks(b, '&')
    requires Lacks(a, '|') && Lacks(b, '|')
    ensures ConvertIf(Line("::if", a + "&&" + b)) == "{% if " + a + "and" + b + " %}"
  {
    var c := a + "&&" + b;
    var x := "{% if " + a;
    var y := b + " %}";
    IfLine(c);
    IfSplit(a, "&&", b);
    IfSplit(a, "and", b);
    IfHalvesLack(a, b, '!');
    IfHalvesLack(a, b, '|');
    IfHalvesLack("", b, '&');
    OpsAnd(x, y);
    ConvertIfThrough(Line("::if", c), x + "&&" + y, x + "&&" + y, x + "and" + y, x + "and" + y);
  }

  /** `::if a||b::`, where b has no `|`: the `||` becomes `or`. The `||`s of a are left as they
      are: only the last `||` of a line is rewritten (main.js:357-360). */
  lemma IfOr(a: string, b: string)
    requires Plain(a) && Plain(b) && Lacks(a, '!') && Lacks(b, '!') && Lacks(a, '&') && Lacks(b, '&')
    requires Lacks(b, '|')
    ensures ConvertIf(Line("::if", a + "||" + b)) == "{% if " + a + "or" + b + " %}"
  {
    var c := a + "||" + b;
    var x := "{% if " + a;
    var y := b + " %}";
    IfLine(c);
    IfSplit(a, "||", b);
    IfSplit(a, "or", b);
    IfHalvesLack(a, b, '!');
    IfHalvesLack(a, b, '&');
    IfHalvesLack("", b, '|');
    OpsOr(x, y);
    ConvertIfThrough(Line("::if", c), x + "||" + y, x + "||" + y, x + "||" + y, x + "or" + y);
  }

  /* elseif */

  lemma ElseIfFrame()
    ensures Frame("{% elseif ", " %}") && "{% elseif $2 %}" == "{% elseif " + "$2" + " %}"
  {
  }

  lemma ElseIfLineSkips(c: string)
    requires NoColon(c)
    ensures var v := Line("::elseif", c);
      !Test(SwitchTemplo, v) && !Test(CaseTemplo, v) && !Test(IfTemplo, v)
  {
    var v := Line("::elseif", c);
    LineColons("::elseif", c);
    assert Led(SwitchTemplo, "::switch"); Unmatched(SwitchTemplo, "::switch", v, 2);
    assert Led(CaseTemplo, "::case::"); Unmatched(CaseTemplo, "::case::", v, 2);
    assert Led(IfTemplo, "::if"); Unmatched(IfTemplo, "::if", v, 2);
  }

  /** `::elseif c::` becomes `{% elseif c %}`; the stack is unchanged. */
  lemma RenderElseIf(st: Conv, c: string, macros: seq<string>)
    requires Plain(c) && !Contains(c, TemplateMacro)
    ensures Cascade(st, Line("::elseif", c), macros) == (st, "{% elseif " + c + " %}")
  {
    var out := "{% elseif " + c + " %}";
    ElseIfLineSkips(c);
    ElseIfFrame();
    LineConverts(ElseIfTemplo, "::elseif", c, "{% elseif ", " %}");
    FramedQuiet("{% elseif ", c, " %}");
    TailQuiet(st, out, macros);
  }

  /* else and end */

  lemma ElseSkips()
    ensures var v := "::else::";
      !Test(SwitchTemplo, v) && !Test(CaseTemplo, v) && !Test(IfTemplo, v) && !Test(ElseIfTemplo, v)
  {
    var v := "::else::";
    assert ColonsAtEnds(v);
    assert Led(SwitchTemplo, "::switch"); Unmatched(SwitchTemplo, "::switch", v, 2);
    assert Led(CaseTemplo, "::case::"); Unmatched(CaseTemplo, "::case::", v, 2);
    assert Led(IfTemplo, "::if"); Unmatched(IfTemplo, "::if", v, 2);
    assert Led(ElseIfTemplo, "::elseif"); Unmatched(ElseIfTemplo, "::elseif", v, 6);
  }

  /** `::else::` becomes `{% else %}`; the stack is unchanged. */
  lemma RenderElse(st: Conv, macros: seq<string>)
    ensures Cascade(st, "::else::", macros) == (st, "{% else %}")
  {
    ElseSkips();
    ElseConverts();
    TailQuiet(st, "{% else %}", macros);
  }

  lemma ElseText()
    ensures NoDollar("{% else %}") && Lacks("{% else %}", 'T') && NoColon("{% else %}")
  {
  }

  lemma ElseConverts()
    ensures Test(ElseTemplo, "::else::") && ConvertElse("::else::") == "{% else %}"
    ensures NoColon("{% else %}") && !Contains("{% else %}", TemplateMacro)
  {
    var out := "{% else %}";
    ElseText();
    LiteralWhole("::else::");
    ReplaceWhole(ElseTemplo, "::else::", out, []);
    SubstitutePlain(out, [], "::else::", "", "");
    NoFirstChar(out, TemplateMacro);
    AbsentMeansNotContains(out, TemplateMacro);
  }

  lemma EndSkips()
    ensures var v := "::end::";
      && !Test(SwitchTemplo, v) && !Test(CaseTemplo, v) && !Test(IfTemplo, v) && !Test(ElseIfTemplo, v)
      && !Test(ElseTemplo, v)
  {
    var v := "::end::";
    assert ColonsAtEnds(v);
    assert Led(SwitchTemplo, "::switch"); Unmatched(SwitchTemplo, "::switch", v, 2);
    assert Led(CaseTemplo, "::case::"); Unmatched(CaseTemplo, "::case::", v, 2);
    assert Led(IfTemplo, "::if"); Unmatched(IfTemplo, "::if", v, 2);
    assert Led(ElseIfTemplo, "::elseif"); Unmatched(ElseIfTemplo, "::elseif", v, 3);
    assert Led(ElseTemplo, "::else::"); Unmatched(ElseTemplo, "::else::", v, 3);
  }

  lemma CloseTagNoMacro(stack: seq<Block>)
    ensures !Contains(CloseTag(stack), TemplateMacro)
  {
    var r := CloseTag(stack);
    assert Lacks(r, 'T');
    NoFirstChar(r, TemplateMacro);
    AbsentMeansNotContains(r, TemplateMacro);
  }

  /** `::end::` closes the innermost open block and pops it; with nothing open it closes
      `undefined`. */
  lemma RenderEnd(st: Conv, macros: seq<string>)
    ensures Cascade(st, "::end::", macros) == (st.(stack := Popped(st.stack)), CloseTag(st.stack))
  {
    EndSkips();
    TestEnd(EndDirective);
    SingleEnd(st.stack);
    CloseTagNoMacro(st.stack);
    TailQuiet(st.(stack := Popped(st.stack)), CloseTag(st.stack), macros);
  }

  /** A directive line whose head starts with a letter that switch, case, if, elseif, else and
      end do not start with matches none of them. */
  lemma HeadSkipsBranches(head: string, c: string)
    requires IsHead(head) && NoColon(c) && head[2] !in {'s', 'c', 'i', 'e'}
    ensures var v := Line(head, c);
      && !Test(SwitchTemplo, v) && !Test(CaseTemplo, v) && !Test(IfTemplo, v) && !Test(ElseIfTemplo, v)
      && !Test(ElseTemplo, v) && !Test(EndTemplo, v)
  {
    var v := Line(head, c);
    LineColons(head, c);
    assert v[2] == head[2];
    assert Led(SwitchTemplo, "::switch"); Unmatched(SwitchTemplo, "::switch", v, 2);
    assert Led(CaseTemplo, "::case::"); Unmatched(CaseTemplo, "::case::", v, 2);
    assert Led(IfTemplo, "::if"); Unmatched(IfTemplo, "::if", v, 2);
    assert Led(ElseIfTemplo, "::elseif"); Unmatched(ElseIfTemplo, "::elseif", v, 2);
    assert Led(ElseTemplo, "::else::"); Unmatched(ElseTemplo, "::else::", v, 2);
    assert Led(EndTemplo, "::end::"); Unmatched(EndTemplo, "::end::", v, 2);
  }

  /* foreach */

  /** Colon-free text matches none of the rewrites after foreach. */
  lemma LaterUnmatched(out: string)
    requires NoColon(out)
    ensures !Test(RawContentTemplo, out) && !Test(RawTemplo, out) && !Test(FillTemplo, out)
    ensures !Test(SetTemplo, out) && !Test(PrintTemplo, out)
  {
    assert Led(RawContentTemplo, "::raw"); ColonFreeUnmatched(RawContentTemplo, "::raw", out);
    assert Led(RawTemplo, "::raw"); ColonFreeUnmatched(RawTemplo, "::raw", out);
    assert Led(FillTemplo, "::fill"); ColonFreeUnmatched(FillTemplo, "::fill", out);
    assert Led(SetTemplo, "::set"); ColonFreeUnmatched(SetTemplo, "::set", out);
    assert Led(PrintTemplo, "::"); ColonFreeUnmatched(PrintTemplo, "::", out);
  }

  /** Once the foreach rewrite has produced colon-free text, the later rewrites leave it alone. */
  lemma AfterForeach(st: Conv, v: string, out: string)
    requires Test(ForeachTemplo, v) && ConvertForeach(v) == out && NoColon(out)
    ensures RewriteStages(st, v) == (st.(stack := st.stack + [ForBlock]), out)
  {
    LaterUnmatched(out);
  }

  lemma ForeachText()
    ensures "{% for $2 in $4 %}" == "{% for " + "$2" + " in " + "$4" + " %}"
    ensures NoDollar("{% for ") && NoDollar(" in ") && NoDollar(" %}")
  {
  }

  lemma ForeachLine(x: string, y: string)
    ensures Line("::foreach", x + " " + y) == "::foreach " + x + " " + y + "::"
  {
  }

  /** The rewrite of `::foreach x y::` by `{% for $2 in $4 %}`. */
  lemma ForeachConverts(x: string, y: string)
    requires forall k :: 0 <= k < |x| ==> !IsSpace(x[k])
    requires forall k :: 0 <= k < |y| ==> !IsSpace(y[k])
    ensures var v := Line("::foreach", x + " " + y);
      Test(ForeachTemplo, v) && ConvertForeach(v) == "{% for " + x + " in " + y + " %}"
  {
    var v := Line("::foreach", x + " " + y);
    ForeachText();
    ForeachLine(x, y);
    ForeachWhole(x, y);
    var caps := ["::foreach ", x, " ", y, "::"];
    ReplaceWhole(ForeachTemplo, v, "{% for $2 in $4 %}", caps);
    SubstituteSecondFourth("{% for ", " in ", " %}", caps, v, "", "");
  }

  lemma ForeachFrames()
    ensures Frame(" in ", " %}") && Lacks("{% for ", 'T') && NoColon("{% for ") && NotIn(' ', TemplateMacro)
  {
  }

  lemma ForeachOutput(x: string, y: string)
    requires Plain(x) && Plain(y) && !Contains(x, TemplateMacro) && !Contains(y, TemplateMacro)
    ensures var out := "{% for " + x + " in " + y + " %}";
      NoColon(out) && !Contains(out, TemplateMacro)
  {
    var tail := " in " + y + " %}";
    ForeachFrames();
    FramedQuiet(" in ", y, " %}");
    NoFirstChar("{% for ", TemplateMacro);
    AbsentMeansNotContains(x, TemplateMacro);
    AbsentMeansNotContains(tail, TemplateMacro);
    AbsentFramed("{% for ", x, tail, TemplateMacro);
    FramedNoColon("{% for ", x, tail);
    ForeachJoin(x, y);
    AbsentMeansNotContains("{% for " + x + tail, TemplateMacro);
  }

  lemma ForeachJoin(x: string, y: string)
    ensures "{% for " + x + (" in " + y + " %}") == "{% for " + x + " in " + y + " %}"
  {
  }

  /** `::foreach x y::` becomes `{% for x in y %}` and opens a for block. */
  lemma RenderForeach(st: Conv, x: string, y: string, macros: seq<string>)
    requires Plain(x) && Plain(y) && !Contains(x, TemplateMacro) && !Contains(y, TemplateMacro)
    requires forall k :: 0 <= k < |x| ==> !IsSpace(x[k])
    requires forall k :: 0 <= k < |y| ==> !IsSpace(y[k])
    ensures Cascade(st, Line("::foreach", x + " " + y), macros)
         == (st.(stack := st.stack + [ForBlock]), "{% for " + x + " in " + y + " %}")
  {
    var v := Line("::foreach", x + " " + y);
    var out := "{% for " + x + " in " + y + " %}";
    FramedNoColon(x, " ", y);
    HeadSkipsBranches("::foreach", x + " " + y);
    ForeachConverts(x, y);
    ForeachOutput(x, y);
    AfterForeach(st, v, out);
  }

  /* raw content and raw */

  /** The directives tried before the raw ones do not occur in a `::raw` line. */
  lemma RawLineSkips(c: string)
    requires NoColon(c)
    ensures var v := Line("::raw", c);
      && !Test(SwitchTemplo, v) && !Test(CaseTemplo, v) && !Test(IfTemplo, v) && !Test(ElseIfTemplo, v)
      && !Test(ElseTemplo, v) && !Test(EndTemplo, v) && !Test(ForeachTemplo, v)
  {
    var v := Line("::raw", c);
    LineColons("::raw", c);
    assert Led(SwitchTemplo, "::switch"); Unmatched(SwitchTemplo, "::switch", v, 2);
    assert Led(CaseTemplo, "::case::"); Unmatched(CaseTemplo, "::case::", v, 2);
    assert Led(IfTemplo, "::if"); Unmatched(IfTemplo, "::if", v, 2);
    assert Led(ElseIfTemplo, "::elseif"); Unmatched(ElseIfTemplo, "::elseif", v, 2);
    assert Led(ElseTemplo, "::else::"); Unmatched(ElseTemplo, "::else::", v, 2);
    assert Led(EndTemplo, "::end::"); Unmatched(EndTemplo, "::end::", v, 2);
    assert Led(ForeachTemplo, "::foreach"); Unmatched(ForeachTemplo, "::foreach", v, 2);
  }

  lemma RawContentLine()
    ensures Line("::raw", "__content__") == "::raw __content__::"
    ensures RawContent("::raw __content__::") == Some(Hit(19, []))
  {
    assert ContainsAt("::raw __content__::", 6, "__content__::");
  }

  /** A colon-free argument of `::raw` that the raw-content expression accepts is `__content__`. */
  lemma RawContentForces(c: string)
    requires NoColon(c) && Test(RawContentTemplo, Line("::raw", c))
    ensures c == "__content__"
  {
    var v := Line("::raw", c);
    LineColons("::raw", c);
    assert Led(RawContentTemplo, "::raw");
    OnlyAtStart(RawContentTemplo, "::raw", v);
    assert RawContent(v).Some?;
    assert ContainsAt(v, 6, "__content__::");
    var w := v[6..19];
    assert w == "__content__::";
    assert w[11] == ':';
    assert v[17] == ':';
    assert |v| == |c| + 8;
    assert |c| == 11;
    assert v[6..17] == c;
    assert w[..11] == v[6..17];
  }

  /** `::raw c::` is the raw-content directive only for c = `__content__`. */
  lemma RawContentOnly(c: string)
    requires NoColon(c)
    ensures Test(RawContentTemplo, Line("::raw", c)) <==> c == "__content__"
  {
    if Test(RawContentTemplo, Line("::raw", c)) {
      RawContentForces(c);
    }
    if c == "__content__" {
      RawContentLine();
      ReplaceWhole(RawContentTemplo, Line("::raw", c), "", []);
    }
  }

  lemma RawContentText()
    ensures "{% block $2 %}{% endblock %}" == "{% block " + ['$', ('0' as int + 2) as char] + " %}{% endblock %}"
    ensures NoDollar("{% block ") && NoDollar(" %}{% endblock %}") && !IsDigit(' ')
    ensures NoColon("{% block $2 %}{% endblock %}")
  {
  }

  /** A whole-text match without groups leaves a template that names group n as it is. */
  lemma ReplaceWholeMissingGroup(re: Regex, t: string, pre: string, n: nat, post: string)
    requires t != [] && re(t) == Some(Hit(|t|, []))
    requires NoDollar(pre) && NoDollar(post) && 0 < n <= 9 && (post == [] || !IsDigit(post[0]))
    ensures ReplaceAll(re, t, pre + ['$', ('0' as int + n) as char] + post) == pre + ['$', ('0' as int + n) as char] + post
  {
    ReplaceWhole(re, t, pre + ['$', ('0' as int + n) as char] + post, []);
    SubstituteMissingGroup(pre, n, post, [], t, "", "");
  }

  /** The raw-content template keeps its `$2`: the expression has no groups. */
  lemma RawContentConverts()
    ensures ConvertRawContent("::raw __content__::") == "{% block $2 %}{% endblock %}"
  {
    RawContentLine();
    RawContentText();
    ReplaceWholeMissingGroup(RawContentTemplo, "::raw __content__::", "{% block ", 2, " %}{% endblock %}");
  }

  lemma RawContentOutput()
    ensures !Contains("{% block $2 %}{% endblock %}", TemplateMacro)
  {
    NoFirstChar("{% block $2 %}{% endblock %}", TemplateMacro);
    AbsentMeansNotContains("{% block $2 %}{% endblock %}", TemplateMacro);
  }

  /** When raw content is the first later rewrite that fires and gives colon-free text, the rest
      leave it alone. */
  lemma AfterRawContent(st: Conv, v: string, out: string)
    requires !Test(ForeachTemplo, v) && Test(RawContentTemplo, v) && ConvertRawContent(v) == out && NoColon(out)
    ensures RewriteStages(st, v) == (st, out)
  {
    assert st.stack + [] == st.stack;
    LaterUnmatched(out);
  }

  /** When raw is the first later rewrite that fires and gives colon-free text, the rest leave it
      alone. */
  lemma AfterRaw(st: Conv, v: string, out: string)
    requires !Test(ForeachTemplo, v) && !Test(RawContentTemplo, v) && Test(RawTemplo, v)
    requires ConvertRaw(v) == out && NoColon(out)
    ensures RewriteStages(st, v) == (st, out)
  {
    assert st.stack + [] == st.stack;
    assert Led(FillTemplo, "::fill"); ColonFreeUnmatched(FillTemplo, "::fill", out);
    assert Led(SetTemplo, "::set"); ColonFreeUnmatched(SetTemplo, "::set", out);
    assert Led(PrintTemplo, "::"); ColonFreeUnmatched(PrintTemplo, "::", out);
  }

  /** `::raw __content__::` becomes `{% block $2 %}{% endblock %}` as written: the template names a
      group the expression does not have, and the stack is unchanged. */
  lemma RenderRawContent(st: Conv, macros: seq<string>)
    ensures Cascade(st, Line("::raw", "__content__"), macros) == (st, "{% block $2 %}{% endblock %}")
  {
    var v := Line("::raw", "__content__");
    var out := "{% block $2 %}{% endblock %}";
    RawContentLine();
    assert NoColon("__content__");
    RawLineSkips("__content__");
    RawContentOnly("__content__");
    CascadeFront(st, v, macros);
    RawContentConverts();
    RawContentText();
    AfterRawContent(st, v, out);
    RawContentOutput();
  }

  lemma RawFrame()
    ensures Frame("{{ ", "|raw }}") && "{{ $2|raw }}" == "{{ " + "$2" + "|raw }}"
  {
  }

  /** `::raw c::` becomes `{{ c|raw }}`; the stack is unchanged. */
  lemma RenderRaw(st: Conv, c: string, macros: seq<string>)
    requires Plain(c) && !Contains(c, TemplateMacro) && c != "__content__"
    ensures Cascade(st, Line("::raw", c), macros) == (st, "{{ " + c + "|raw }}")
  {
    var v := Line("::raw", c);
    var out := "{{ " + c + "|raw }}";
    RawLineSkips(c);
    RawContentOnly(c);
    CascadeFront(st, v, macros);
    RawFrame();
    LineConverts(RawTemplo, "::raw", c, "{{ ", "|raw }}");
    FramedQuiet("{{ ", c, "|raw }}");
    AfterRaw(st, v, out);
  }

  /* fill */

  lemma FillLineSkipsRewrites(c: string)
    requires NoColon(c)
    ensures var v := Line("::fill", c);
      !Test(ForeachTemplo, v) && !Test(RawContentTemplo, v) && !Test(RawTemplo, v)
  {
    var v := Line("::fill", c);
    LineColons("::fill", c);
    assert Led(ForeachTemplo, "::foreach"); Unmatched(ForeachTemplo, "::foreach", v, 3);
    assert Led(RawContentTemplo, "::raw"); Unmatched(RawContentTemplo, "::raw", v, 2);
    assert Led(RawTemplo, "::raw"); Unmatched(RawTemplo, "::raw", v, 2);
  }

  /** When fill is the first later rewrite that fires and gives colon-free text, it opens a set
      block and the rest leave the text alone. */
  lemma AfterFill(st: Conv, v: string, out: string)
    requires !Test(ForeachTemplo, v) && !Test(RawContentTemplo, v) && !Test(RawTemplo, v) && Test(FillTemplo, v)
    requires ConvertFill(v) == out && NoColon(out)
    ensures RewriteStages(st, v) == (st.(stack := st.stack + [SetBlock]), out)
  {
    assert st.stack + [] == st.stack;
    assert Led(SetTemplo, "::set"); ColonFreeUnmatched(SetTemplo, "::set", out);
    assert Led(PrintTemplo, "::"); ColonFreeUnmatched(PrintTemplo, "::", out);
  }

  /** `::fill c::` becomes `{% set c %}` and opens a set block. */
  lemma RenderFill(st: Conv, c: string, macros: seq<string>)
    requires Plain(c) && !Contains(c, TemplateMacro)
    ensures Cascade(st, Line("::fill", c), macros) == (st.(stack := st.stack + [SetBlock]), "{% set " + c + " %}")
  {
    var v := Line("::fill", c);
    var out := "{% set " + c + " %}";
    HeadSkipsBranches("::fill", c);
    FillLineSkipsRewrites(c);
    SetFrame();
    LineConverts(FillTemplo, "::fill", c, "{% set ", " %}");
    FramedQuiet("{% set ", c, " %}");
    AfterFill(st, v, out);
  }

  /* print */

  /** Every match of re begins with head and a whitespace character. */
  ghost predicate SpaceLed(re: Regex, head: string) {
    forall t :: re(t).Some? ==> HeadSpace(t, head)
  }

  predicate Spaceless(c: string) {
    forall k :: 0 <= k < |c| ==> !IsSpace(c[k])
  }

  /** A print line `::c::`. */
  function PrintLine(c: string): string {
    "::" + c + "::"
  }

  lemma PrintLineColons(c: string)
    requires NoColon(c) && c != []
    ensures ColonsAtEnds(PrintLine(c))
  {
    var v := PrintLine(c);
    forall k | 2 <= k < |v| - 2
      ensures v[k] != ':'
    {
      assert v[k] == c[k - 2];
    }
  }

  /** A directive that needs whitespace after its head does not occur in a spaceless print line. */
  lemma SpacelessUnmatched(re: Regex, head: string, c: string)
    requires Led(re, head) && SpaceLed(re, head) && |head| >= 3 && head[0] == ':' && head[1] == ':'
    requires NoColon(c) && c != [] && Spaceless(c)
    ensures !Test(re, PrintLine(c))
  {
    var v := PrintLine(c);
    PrintLineColons(c);
    OnlyAtStart(re, head, v);
    forall k | 0 <= k < |v|
      ensures !IsSpace(v[k])
    {
      if 2 <= k < |v| - 2 {
        assert v[k] == c[k - 2];
      }
    }
    assert !HeadSpace(v, head);
  }

  /** A literal directive `::w::` occurs in the print line `::c::` only when c is w. */
  lemma LiteralLineOnly(re: Regex, w: string, c: string)
    requires Led(re, "::" + w + "::") && NoColon(w) && NoColon(c) && c != []
    requires Test(re, PrintLine(c))
    ensures c == w
  {
    var v := PrintLine(c);
    var lit := "::" + w + "::";
    PrintLineColons(c);
    OnlyAtStart(re, lit, v);
    assert v[..|lit|] == lit;
    assert v[|w| + 2] == lit[|w| + 2] == ':';
    assert |w| == |c|;
    assert c == v[2..|c| + 2] == lit[2..|w| + 2] == w;
  }

  lemma ElseLiteral() ensures Led(ElseTemplo, "::" + "else" + "::") && NoColon("else") {}
  lemma EndLiteral() ensures Led(EndTemplo, "::" + "end" + "::") && NoColon("end") {}

  lemma PrintLineSkips(c: string)
    requires NoColon(c) && c != [] && Spaceless(c) && c != "else" && c != "end"
    ensures var v := PrintLine(c);
      && !Test(SwitchTemplo, v) && !Test(CaseTemplo, v) && !Test(IfTemplo, v) && !Test(ElseIfTemplo, v)
      && !Test(ElseTemplo, v) && !Test(EndTemplo, v)
  {
    var v := PrintLine(c);
    assert Led(SwitchTemplo, "::switch"); assert SpaceLed(SwitchTemplo, "::switch"); SpacelessUnmatched(SwitchTemplo, "::switch", c);
    assert Led(CaseTemplo, "::case::"); assert SpaceLed(CaseTemplo, "::case::"); SpacelessUnmatched(CaseTemplo, "::case::", c);
    assert Led(IfTemplo, "::if"); assert SpaceLed(IfTemplo, "::if"); SpacelessUnmatched(IfTemplo, "::if", c);
    assert Led(ElseIfTemplo, "::elseif"); assert SpaceLed(ElseIfTemplo, "::elseif"); SpacelessUnmatched(ElseIfTemplo, "::elseif", c);
    if Test(ElseTemplo, v) {
      ElseLiteral();
      LiteralLineOnly(ElseTemplo, "else", c);
    }
    if Test(EndTemplo, v) {
      EndLiteral();
      LiteralLineOnly(EndTemplo, "end", c);
    }
  }

  lemma PrintLineSkipsRewrites(c: string)
    requires NoColon(c) && c != [] && Spaceless(c)
    ensures var v := PrintLine(c);
      && !Test(ForeachTemplo, v) && !Test(RawContentTemplo, v) && !Test(RawTemplo, v)
      && !Test(FillTemplo, v) && !Test(SetTemplo, v)
  {
    assert Led(ForeachTemplo, "::foreach"); assert SpaceLed(ForeachTemplo, "::foreach"); SpacelessUnmatched(ForeachTemplo, "::foreach", c);
    assert Led(RawContentTemplo, "::raw"); assert SpaceLed(RawContentTemplo, "::raw"); SpacelessUnmatched(RawContentTemplo, "::raw", c);
    assert Led(RawTemplo, "::raw"); assert SpaceLed(RawTemplo, "::raw"); SpacelessUnmatched(RawTemplo, "::raw", c);
    assert Led(FillTemplo, "::fill"); assert SpaceLed(FillTemplo, "::fill"); SpacelessUnmatched(FillTemplo, "::fill", c);
    assert Led(SetTemplo, "::set"); assert SpaceLed(SetTemplo, "::set"); SpacelessUnmatched(SetTemplo, "::set", c);
  }

  lemma PrintFrame()
    ensures Frame("{{", "}}") && "{{$2}}" == "{{" + "$2" + "}}"
  {
  }

  lemma PrintConverts(c: string)
    requires Plain(c)
    ensures Test(PrintTemplo, PrintLine(c)) && ConvertPrint(PrintLine(c)) == "{{" + c + "}}"
  {
    var v := PrintLine(c);
    PrintWhole(c);
    ReplaceWhole(PrintTemplo, v, "{{$2}}", ["::", c, "::"]);
    PrintFrame();
    SubstituteSecond("{{", "}}", ["::", c, "::"], v, "", "");
  }

  lemma AfterPrint(st: Conv, v: string, out: string)
    requires !Test(ForeachTemplo, v) && !Test(RawContentTemplo, v) && !Test(RawTemplo, v)
    requires !Test(FillTemplo, v) && !Test(SetTemplo, v) && Test(PrintTemplo, v) && ConvertPrint(v) == out
    ensures RewriteStages(st, v) == (st, out)
  {
    assert st.stack + [] == st.stack;
  }

  /** A bare `::c::`, where c is a single word other than `else` and `end`, is printed as
      `{{c}}`; the stack is unchanged. */
  lemma RenderPrint(st: Conv, c: string, macros: seq<string>)
    requires Plain(c) && Spaceless(c) && c != [] && c != "else" && c != "end" && !Contains(c, TemplateMacro)
    ensures Cascade(st, PrintLine(c), macros) == (st, "{{" + c + "}}")
  {
    var v := PrintLine(c);
    var out := "{{" + c + "}}";
    PrintLineSkips(c);
    PrintLineSkipsRewrites(c);
    CascadeFront(st, v, macros);
    PrintConverts(c);
    AfterPrint(st, v, out);
    PrintFrame();
    FramedNoMacro("{{", c, "}}");
  }

  /* switch */

  /** A line whose only colons sit at its ends holds no `::case::` directive. */
  lemma NoCaseInLine(v: string)
    requires ColonsAtEnds(v)
    ensures NextCase(v, 0).None?
  {
    forall k | 0 <= k <= |v|
      ensures !CaseAt(v, k)
    {
      if k + 9 <= |v| {
        assert v[k + 6] != ':';
      }
    }
  }

  /** `::switch c::` alone on its line: the switch state records c with no case converted yet, an
      `if` block is opened and the directive is erased. */
  lemma RenderSwitch(st: Conv, c: string, macros: seq<string>)
    requires Plain(c)
    ensures Cascade(st, Line("::switch", c), macros) == (Conv(st.stack + [IfBlock], 0, c), "")
  {
    var v := Line("::switch", c);
    var st' := Conv(st.stack + [IfBlock], 0, c);
    assert SwitchStage(st, v) == (st', "") by {
      SwitchWhole(c);
      assert |v| == |c| + 11;
      ReplaceWhole(SwitchTemplo, v, "", [c]);
      LineColons("::switch", c);
      NoCaseInLine(v);
      assert Cases(v, c, 0, 0) == (v, 0);
    }
    assert NoColon("");
    assert Led(CaseTemplo, "::case::"); ColonFreeUnmatched(CaseTemplo, "::case::", "");
    BranchStageQuiet(st', "");
    RewriteStagesQuiet(st', "");
  }

  /* case */

  /** An expression led by head does not occur in a text where head occurs nowhere. */
  lemma AbsentHeadUnmatched(re: Regex, head: string, v: string)
    requires Led(re, head) && Absent(v, head)
    ensures !Test(re, v)
  {
    forall k | 0 <= k <= |v|
      ensures MatchAt(re, v, k).None?
    {
      if re(v[k..]).Some? {
        assert StartsWith(v[k..], head);
        assert v[k..][..|head|] == v[k..k + |head|];
        assert ContainsAt(v, k, head);
      }
    }
    SkipNoMatch(re, v, 0, |v|);
  }

  /** A line `::case:: x`. */
  function CaseLine(x: string): string {
    "::case:: " + x
  }

  lemma CaseKeywordNoSwitch()
    ensures Absent("::case:: ", "::switch") && NotIn(' ', "::switch")
  {
    var s := "::case:: ";
    forall k | 0 <= k
      ensures !ContainsAt(s, k, "::switch")
    {
      if k + 8 <= |s| {
        assert s[k..k + 8][2] == s[k + 2];
      }
    }
  }

  lemma CaseLineNoSwitch(x: string)
    requires NoColon(x)
    ensures !Test(SwitchTemplo, CaseLine(x))
  {
    CaseKeywordNoSwitch();
    NoFirstChar(x, "::switch");
    AbsentJoin("::case:: ", x, "::switch");
    assert Led(SwitchTemplo, "::switch");
    AbsentHeadUnmatched(SwitchTemplo, "::switch", CaseLine(x));
  }

  /** The case expression takes the whole line, its group the text after the whitespace. */
  lemma CaseLineMatch(x: string)
    requires Plain(x) && (x == [] || !IsSpace(x[0]))
    ensures Case(CaseLine(x)) == Some(Hit(|CaseLine(x)|, [x]))
  {
    var v := CaseLine(x);
    assert StartsWith(v, "::case::") && IsSpace(v[8]);
    assert SpaceRunEnd(v, 9) == 9;
    assert SpaceRunEnd(v, 8) == 9;
    forall k | 9 <= k < |v|
      ensures !IsLineTerminator(v[k])
    {
      assert v[k] == x[k - 9];
    }
    LineEndWhole(v, 9);
    assert v[9..] == x;
    assert HeadSpace(v, "::case::");
    assert Case(v) == Some(Hit(LineEnd(v, 9), [v[9..LineEnd(v, 9)]]));
    assert LineEnd(v, 9) == |v|;
    assert v[9..LineEnd(v, 9)] == x;
    assert Case(v) == Some(Hit(|v|, [x]));
  }

  lemma CaseHeaderText(cond: string, pos: nat)
    ensures NoColon(CaseOpen(pos)) && NoColon(CaseClose(pos))
    ensures Lacks(CaseOpen(pos), 'T') && Lacks(CaseClose(pos), 'T')
    ensures CaseOpen(pos)[|CaseOpen(pos)| - 1] == ' ' && CaseClose(pos)[0] == '.'
    ensures CaseClose(pos)[|CaseClose(pos)| - 1] == '\n'
    ensures NotIn(' ', TemplateMacro) && NotIn('.', TemplateMacro) && NotIn('\n', TemplateMacro)
  {
    var n := NatToString(pos);
    assert CaseClose(pos) == ".index == " + n + " %}\n";
    assert forall k :: 0 <= k < |n| ==> n[k] != ':' && n[k] != 'T';
  }

  lemma CaseConverts(x: string, cond: string, pos: nat)
    requires Plain(x) && (x == [] || !IsSpace(x[0])) && NoDollar(cond)
    ensures Test(CaseTemplo, CaseLine(x)) && CaseStep(CaseLine(x), cond, pos) == CaseHeader(cond, pos) + x
  {
    var v := CaseLine(x);
    var h := CaseHeader(cond, pos);
    CaseLineMatch(x);
    ReplaceWhole(CaseTemplo, v, h + "$1", [x]);
    CaseHeaderNoDollar(cond, pos);
    assert h + "$1" == h + ['$', ('0' as int + 1) as char] + "";
    SubstituteRef(h, 1, "", [x], v, "", "");
  }

  lemma CaseOutput(x: string, cond: string, pos: nat)
    requires Plain(x) && NoColon(cond) && !Contains(x, TemplateMacro) && !Contains(cond, TemplateMacro)
    ensures NoColon(CaseHeader(cond, pos) + x) && !Contains(CaseHeader(cond, pos) + x, TemplateMacro)
  {
    var o := CaseOpen(pos);
    var cl := CaseClose(pos);
    CaseHeaderText(cond, pos);
    NoFirstChar(o, TemplateMacro);
    NoFirstChar(cl, TemplateMacro);
    AbsentMeansNotContains(cond, TemplateMacro);
    AbsentMeansNotContains(x, TemplateMacro);
    AbsentFramed(o, cond, cl, TemplateMacro);
    var h := o + cond + cl;
    assert h[|h| - 1] == cl[|cl| - 1];
    AbsentJoin(h, x, TemplateMacro);
    AbsentMeansNotContains(h + x, TemplateMacro);
    FramedNoColon(o, cond, cl);
    FramedNoColon(h, x, "");
    assert h + x + "" == h + x;
  }

  /** `::case:: x` outside a switch's own value: the test for the current case position, with the
      recorded switch condition, replaces the keyword, the position advances by one and the stack
      is unchanged. */
  lemma RenderCase(st: Conv, x: string, macros: seq<string>)
    requires Plain(x) && (x == [] || !IsSpace(x[0])) && !Contains(x, TemplateMacro)
    requires Plain(st.caseCond) && NoDollar(st.caseCond) && !Contains(st.caseCond, TemplateMacro)
    ensures Cascade(st, CaseLine(x), macros)
         == (st.(casePos := st.casePos + 1), CaseHeader(st.caseCond, st.casePos) + x)
  {
    var v := CaseLine(x);
    var out := CaseHeader(st.caseCond, st.casePos) + x;
    var st' := st.(casePos := st.casePos + 1);
    CaseLineNoSwitch(x);
    CaseConverts(x, st.caseCond, st.casePos);
    assert CaseStage(st, v) == (st', out);
    CaseOutput(x, st.caseCond, st.casePos);
    BranchStageQuiet(st', out);
    TailQuiet(st', out, macros);
  }
}
