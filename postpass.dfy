/** The string steps of main (main.js:504-537) after the document is serialised, and the macro
    library conversion convertMacroDefinitions (main.js:485-493): the placeholder values of
    converted attributes are removed, the `<div macro>` wrappers put around `macros.insert` calls
    are dropped, the `::use` placeholder tag becomes `{% extends %}`, the remaining `::` are
    removed and the XHTML namespace the serializer adds is taken out again. */
module PostPass {
  import opened JsStrings
  import opened Patterns
  import opened Directives
  import opened TextConversion
  import opened Walk
  import opened PrePass

  /** The attribute value text removeTwigMacroAttributeValues deletes (main.js:473). */
  const AttributeValue: string := "=\"TEMPLATE_ATTRIBUTE\""

  /** The `::use` placeholder tag as the serializer writes it back (main.js:442). */
  const UseOpenTag: string := "<html TEMPLATE_USE=\"TEMPLATE_USE\" xmlns=\"http://www.w3.org/1999/xhtml\">"

  const EndBlock: string := "{% endblock %}"

  /** The namespace attribute the serializer adds and main.js:537 removes. */
  const XmlNamespace: string := " xmlns=\"http://www.w3.org/1999/xhtml\""

  /* ---------------------------------------------------------------- attribute values */

  /** removeTwigMacroAttributeValues (main.js:472-478) read as a function: while the value text
      occurs, its first occurrence is deleted. A deletion may join two pieces into a new
      occurrence, which a later round deletes in turn. (`string.match` makes an expression of the
      text, which has no special characters, so it matches where `indexOf` finds it.) */
  function StripAttributeValues(s: string): (r: string)
    ensures |r| <= |s| && (|r| == |s| <==> !Contains(s, AttributeValue))
    decreases |s|
  {
    match IndexOf(s, AttributeValue)
    case None => s
    case Some(i) => StripAttributeValues(s[..i] + s[i + |AttributeValue|..])
  }

  /** The loop of removeTwigMacroAttributeValues; it ends because every round shortens the text. */
  method RemoveTwigMacroAttributeValues(s: string) returns (r: string)
    ensures r == StripAttributeValues(s)
    ensures !Contains(r, AttributeValue)
  {
    r := s;
    while Contains(r, AttributeValue)
      invariant StripAttributeValues(r) == StripAttributeValues(s)
      decreases |r|
    {
      ValueStripStep(r);
      r := ReplaceFirstLit(r, AttributeValue, "");
    }
  }

  /** One round of the loop deletes the first value text, which is the first step of the function. */
  lemma ValueStripStep(r: string)
    requires Contains(r, AttributeValue)
    ensures |ReplaceFirstLit(r, AttributeValue, "")| < |r|
    ensures StripAttributeValues(ReplaceFirstLit(r, AttributeValue, "")) == StripAttributeValues(r)
  {
    var i := IndexOf(r, AttributeValue).value;
    var shorter := r[..i] + r[i + |AttributeValue|..];
    ReplaceFirstLitAt(r, AttributeValue, "", i);
    assert r[..i] + "" + r[i + |AttributeValue|..] == shorter;
  }

  /** No value text is left. */
  lemma {:induction false} StripLeavesNone(s: string)
    ensures !Contains(StripAttributeValues(s), AttributeValue)
    decreases |s|
  {
    match IndexOf(s, AttributeValue)
    case None =>
    case Some(i) => StripLeavesNone(s[..i] + s[i + |AttributeValue|..]);
  }

  /** Removing the value texts a second time changes nothing. */
  lemma StripIdempotent(s: string)
    ensures StripAttributeValues(StripAttributeValues(s)) == StripAttributeValues(s)
  {
    StripLeavesNone(s);
  }

  /* ---------------------------------------------------------------- the `::use` template */

  /** `templateUseFileName.replace(".mtt", ".twig")` (main.js:440). */
  function TwigFileName(name: string): string {
    ReplaceFirstLit(name, ".mtt", ".twig")
  }

  function Extends(twig: string): string {
    "{% extends " + twig + " %}\n{% block content %}"
  }

  /** fillInUseTemplate (main.js:436-445): with a recorded `::use` file, the placeholder tag
      becomes the extends and block tags and the first `</html>` ends the block. The extends text
      is a replacement string, so `$` patterns in the file name are expanded. */
  function FillInUseTemplate(s: string, name: string): (r: string)
    ensures name == "" ==> r == s
    ensures !Contains(s, UseOpenTag) && !Contains(s, HtmlClose) ==> r == s
  {
    if name == "" then s
    else ReplaceFirstLit(ReplaceFirstLit(s, UseOpenTag, Extends(TwigFileName(name))), HtmlClose, EndBlock)
  }

  lemma ExtendsPlain(twig: string)
    requires NoDollar(twig) && Lacks(twig, '<')
    ensures NoDollar(Extends(twig)) && Lacks(Extends(twig), '<') && Extends(twig)[0] == '{'
  {
  }

  /** `</html>` can start neither inside a text without `<` nor across its first character `{`. */
  lemma CloseFreeBefore(x: string, e: string, y: string)
    requires Absent(x, HtmlClose) && Lacks(e, '<') && e != [] && e[0] == '{'
    ensures FreeBefore(x + e + y, |x| + |e|, HtmlClose)
  {
    var w := x + e + y;
    forall k | 0 <= k < |x| + |e|
      ensures !ContainsAt(w, k, HtmlClose)
    {
      if k + 7 <= |w| {
        if k + 7 <= |x| {
          assert w[k..k + 7] == x[k..k + 7];
          assert !ContainsAt(x, k, HtmlClose);
        } else if k < |x| {
          assert w[k..k + 7][|x| - k] == e[0];
        } else {
          assert w[k..k + 7][0] == e[k - |x|];
        }
      }
    }
  }

  lemma UseTagReplaced(x: string, y: string, e: string)
    requires FreeBefore(x + UseOpenTag + y, |x|, UseOpenTag) && NoDollar(e)
    ensures ReplaceFirstLit(x + UseOpenTag + y, UseOpenTag, e) == x + e + y
  {
    var s := x + UseOpenTag + y;
    assert s == x + (UseOpenTag + y);
    assert ContainsAt(UseOpenTag + y, 0, UseOpenTag);
    IndexOfShift(x, UseOpenTag + y, UseOpenTag);
    ReplaceFirstLitAt(s, UseOpenTag, e, |x|);
    assert s[..|x|] == x && s[|x| + |UseOpenTag|..] == y;
  }

  lemma CloseReplaced(x: string, e: string, y: string, j: nat)
    requires Absent(x, HtmlClose) && Lacks(e, '<') && e != [] && e[0] == '{'
    requires IndexOf(y, HtmlClose) == Some(j)
    ensures ReplaceFirstLit(x + e + y, HtmlClose, EndBlock) == x + e + y[..j] + EndBlock + y[j + |HtmlClose|..]
  {
    CloseFreeBefore(x, e, y);
    ReplaceFirstLitAfter(x + e, y, HtmlClose, EndBlock, j);
  }

  /** With a recorded file name, a document `x <placeholder tag> y` becomes `x {% extends %} y`
      with y's first `</html>` turned into the end of the block, when x holds neither tag and the
      name has no `$` or `<`. */
  lemma FillInUseTemplateWraps(x: string, y: string, name: string, j: nat)
    requires name != ""
    requires FreeBefore(x + UseOpenTag + y, |x|, UseOpenTag) && Absent(x, HtmlClose)
    requires NoDollar(TwigFileName(name)) && Lacks(TwigFileName(name), '<')
    requires IndexOf(y, HtmlClose) == Some(j)
    ensures FillInUseTemplate(x + UseOpenTag + y, name)
         == x + Extends(TwigFileName(name)) + y[..j] + EndBlock + y[j + |HtmlClose|..]
  {
    var e := Extends(TwigFileName(name));
    ExtendsPlain(TwigFileName(name));
    UseTagReplaced(x, y, e);
    CloseReplaced(x, e, y, j);
  }

  /* ---------------------------------------------------------------- macro call wrappers */

  /** removeDivAroundMacroUsage (main.js:480-483): the expression names `macros.insert`, so only
      wrappers around calls whose name starts with `insert` are removed. */
  function RemoveDivAroundMacroUsage(s: string): string {
    ReplaceAll(DivAroundMacro, s, "$1")
  }

  const DivHead: string := "<div " + "macro=\"macro\">" + " {{ macros."
  const DivTail: string := " }} </div>"

  /** The wrapper the pre-pass puts around a macro call in text, as the serializer writes it. */
  function DivWrapper(call: string): string {
    DivHead + call + DivTail
  }

  predicate OneLine(c: string) {
    forall k :: 0 <= k < |c| ==> !IsLineTerminator(c[k])
  }

  /** The closing `\s}}\s</div>` at the end of a text is the last one a search from hi down finds. */
  lemma {:induction false} LastDivCloseAtEnd(t: string, lo: nat, hi: nat)
    requires 10 <= |t| && lo <= |t| - 10 <= hi
    requires IsSpace(t[|t| - 10]) && ContainsAt(t, |t| - 9, "}}") && IsSpace(t[|t| - 7])
    requires ContainsAt(t, |t| - 6, "</div>")
    ensures LastDivClose(t, lo, hi) == Some(|t| - 10)
    decreases hi
  {
    if hi > |t| - 10 {
      LastDivCloseAtEnd(t, lo, hi - 1);
    }
  }

  lemma SubstituteFirst(caps: seq<string>, matched: string, before: string, after: string)
    requires 1 <= |caps| < 10
    ensures Substitute("$1", caps, matched, before, after) == caps[0]
  {
    assert "$1" == "" + ['$', ('0' as int + 1) as char] + "";
    SubstituteRef("", 1, "", caps, matched, before, after);
  }

  /** The parts of a wrapper text. */
  lemma WrapperParts(call: string)
    ensures var t := DivWrapper(call);
      |t| == |DivHead| + |call| + |DivTail| && t[..30] == DivHead && t[30..30 + |call|] == call &&
      t[30 + |call|..] == DivTail
  {
  }

  /** The first group of the wrapper expression is the `{{ … }}` around the call. */
  lemma WrapperExpression(call: string)
    ensures var t := DivWrapper(call); 30 <= |t| - 7 && t[20..|t| - 7] == "{{ macros." + call + " }}"
  {
    var t := DivWrapper(call);
    var n := |t|;
    var head := DivHead[20..];
    var tail := DivTail[..3];
    assert head == "{{ macros." && tail == " }}";
    assert DivHead == DivHead[..20] + head;
    assert DivTail == tail + DivTail[3..];
    assert t == DivHead[..20] + (head + call + tail) + DivTail[3..];
  }

  /** The opening of the wrapper matches the head of the expression. */
  lemma DivHeadMatches(t: string)
    requires 30 <= |t| && t[..30] == DivHead
    ensures HeadSpace(t, "<div") && ContainsAt(t, 5, "macro=\"macro\">") && IsSpace(t[19])
    ensures ContainsAt(t, 20, "{{") && IsSpace(t[22]) && ContainsAt(t, 23, "macros") && !IsLineTerminator(t[29])
  {
    assert t[..4] == DivHead[..4];
    assert t[5..19] == DivHead[5..19];
    assert t[20..22] == DivHead[20..22];
    assert t[23..29] == DivHead[23..29];
  }

  lemma DivTailMatches(t: string)
    requires 10 <= |t| && t[|t| - 10..] == DivTail
    ensures IsSpace(t[|t| - 10]) && ContainsAt(t, |t| - 9, "}}") && IsSpace(t[|t| - 7])
    ensures ContainsAt(t, |t| - 6, "</div>")
  {
    var n := |t|;
    assert t[n - 9..n - 7] == DivTail[1..3];
    assert t[n - 6..] == DivTail[4..];
  }

  lemma TailOneLine()
    ensures OneLine(DivTail)
  {
    forall k | 0 <= k < |DivTail|
      ensures !IsLineTerminator(DivTail[k])
    {
      assert DivTail[k] in " }</div>";
    }
  }

  /** The whole one-line wrapper of an `insert…` call is one match. */
  lemma DivInsertMatch(c: string)
    requires OneLine(c)
    ensures var t := DivWrapper("insert" + c);
      DivAroundMacro(t) == Some(Hit(|t|, [t[20..|t| - 7], t[36..|t| - 10]]))
  {
    var t := DivWrapper("insert" + c);
    var n := |t|;
    WrapperParts("insert" + c);
    DivHeadMatches(t);
    DivTailMatches(t);
    assert t[30..36] == "insert";
    var tail := t[n - 10..];
    assert tail == DivTail;
    TailOneLine();
    forall k | 36 <= k < n
      ensures !IsLineTerminator(t[k])
    {
      if k < n - 10 {
        assert t[k] == c[k - 36];
      } else {
        assert t[k] == tail[k - (n - 10)];
      }
    }
    LineEndWhole(t, 36);
    LastDivCloseAtEnd(t, 36, n);
  }

  /** A wrapped `macros.insert…` call on one line is unwrapped to its `{{ … }}` expression. */
  lemma DivUnwrapsInsert(c: string)
    requires OneLine(c)
    ensures RemoveDivAroundMacroUsage(DivWrapper("insert" + c)) == "{{ macros." + "insert" + c + " }}"
  {
    var t := DivWrapper("insert" + c);
    var n := |t|;
    var caps := [t[20..n - 7], t[36..n - 10]];
    DivInsertMatch(c);
    ReplaceWhole(DivAroundMacro, t, "$1", caps);
    SubstituteFirst(caps, t, "", "");
    WrapperExpression("insert" + c);
    Associative("{{ macros.", "insert", c);
  }

  /** Every match of the wrapper expression starts with `<d`. */
  lemma DivNeedsOpening(t: string)
    ensures DivAroundMacroAt(t).Some? ==> 2 <= |t| && t[0] == '<' && t[1] == 'd'
  {
    if DivAroundMacroAt(t).Some? {
      assert t[..4] == "<div";
    }
  }

  /** A wrapper around a call whose name does not start with `insert` is left in place. */
  lemma DivKeepsOtherCalls(call: string)
    requires 6 <= |call| && call[..6] != "insert" && Lacks(call, '<')
    ensures RemoveDivAroundMacroUsage(DivWrapper(call)) == DivWrapper(call)
  {
    var t := DivWrapper(call);
    var n := |t|;
    WrapperParts(call);
    forall k | 0 <= k <= n
      ensures MatchAt(DivAroundMacro, t, k).None?
    {
      if k == 0 {
        assert t[0..] == t;
        assert t[30..36] == call[..6];
      } else if k < n {
        DivNeedsOpening(t[k..]);
        if k < 30 {
          assert t[k] == DivHead[k];
          assert t[k] != '<';
        } else if k < 30 + |call| {
          assert t[k] == call[k - 30];
        } else if k + 1 < n {
          assert t[k] == DivTail[k - (n - 10)];
          assert t[k + 1] == DivTail[k + 1 - (n - 10)];
          assert t[k] != '<' || t[k + 1] != 'd';
        }
      }
    }
    SkipNoMatch(DivAroundMacro, t, 0, n);
    ReplaceWithoutMatch(DivAroundMacro, t, "$1");
  }

  /* ---------------------------------------------------------------- the macro library */

  /** convertMacroDefinitions (main.js:485-493): each `<macro name="…">` opens a Twig macro, each
      `</macro>` closes one, the first `<macros>` and `</macros>` are dropped and the `::` print
      directives are converted. */
  function ConvertMacroDefinitions(s: string): string {
    var a := ReplaceAll(MacroStartTag, s, "{% macro $1 %}");
    var b := ReplaceAll(MacroEndTag, a, "{% endmacro %}");
    var c := ReplaceFirst(MacrosStartTag, b, "");
    var d := ReplaceFirst(MacrosEndTag, c, "");
    ConvertPrint(d)
  }

  /** A replace with the `g` flag over x + t + y whose only match is t, read at position |x|. */
  lemma ReplaceAllOnce(re: Regex, x: string, t: string, y: string, rep: string, caps: seq<string>)
    requires t != [] && re(t + y) == Some(Hit(|t|, caps))
    requires forall k :: 0 <= k < |x| ==> MatchAt(re, x + t + y, k).None?
    requires !Test(re, y)
    ensures ReplaceAll(re, x + t + y, rep) == x + Substitute(rep, caps, t, x, y) + y
  {
    var s := x + t + y;
    var d := |x| + |t|;
    var m := Match(|x|, d, caps);
    OnlyMatchAt(re, x, t, y, caps);
    assert s[d..] == y;
    FindFromShift(re, s, d, y, 0);
    assert FindFrom(re, s, d).None?;
    ReplaceAllFromStep(re, s, rep, 0, m);
    ReplaceAllFromDone(re, s, rep, d);
    assert s[0..|x|] == x && s[|x|..d] == t && s[..|x|] == x;
    var e := Substitute(rep, caps, t, x, y);
    assert Expand(rep, m, s) == e;
    assert ReplaceAllFrom(re, s, rep, 0) == x + e + y;
  }

  /** The first match of x + t + y is t when no match starts inside x. */
  lemma OnlyMatchAt(re: Regex, x: string, t: string, y: string, caps: seq<string>)
    requires t != [] && re(t + y) == Some(Hit(|t|, caps))
    requires forall k :: 0 <= k < |x| ==> MatchAt(re, x + t + y, k).None?
    ensures Find(re, x + t + y) == Some(Match(|x|, |x| + |t|, caps))
  {
    var u := t + y;
    assert x + t + y == x + u;
    assert u[0..] == u;
    assert MatchAt(re, u, 0) == Some(Match(0, |t|, caps));
    FindIs(re, u, 0);
    FindPastPrefix(re, x, u);
  }

  /** A replace without the `g` flag over x + t + y whose first match is t. */
  lemma ReplaceFirstOnce(re: Regex, x: string, t: string, y: string, rep: string, caps: seq<string>)
    requires t != [] && re(t + y) == Some(Hit(|t|, caps))
    requires forall k :: 0 <= k < |x| ==> MatchAt(re, x + t + y, k).None?
    ensures ReplaceFirst(re, x + t + y, rep) == x + Substitute(rep, caps, t, x, y) + y
  {
    var s := x + t + y;
    OnlyMatchAt(re, x, t, y, caps);
    assert s[..|x|] == x && s[|x|..|x| + |t|] == t && s[|x| + |t|..] == y;
  }

  /** A literal expression matches at the start of a text that starts with it. */
  lemma LiteralHead(lit: string, y: string)
    requires |lit| > 0
    ensures LiteralRe(lit)(lit + y) == Some(Hit(|lit|, []))
  {
    assert (lit + y)[..|lit|] == lit;
  }

  /** A literal expression finds nothing before the first occurrence of its text. */
  lemma LiteralFreeBefore(lit: string, s: string, n: nat)
    requires |lit| > 0 && n <= |s| && FreeBefore(s, n, lit)
    ensures forall k :: 0 <= k < n ==> MatchAt(LiteralRe(lit), s, k).None?
  {
    forall k | 0 <= k < n
      ensures MatchAt(LiteralRe(lit), s, k).None?
    {
      LiteralMatch(lit, s, k);
    }
  }

  lemma LiteralAbsent(lit: string, y: string)
    requires |lit| > 0 && Absent(y, lit)
    ensures !Test(LiteralRe(lit), y)
  {
    FindFromLiteral(lit, y, 0);
  }

  /** A replace with `/g` of a literal that occurs once, after x, by a template without `$`. */
  lemma ReplaceLiteralOnce(lit: string, x: string, y: string, rep: string)
    requires |lit| > 0 && FreeBefore(x + lit + y, |x|, lit) && Absent(y, lit) && NoDollar(rep)
    ensures ReplaceAll(LiteralRe(lit), x + lit + y, rep) == x + rep + y
  {
    LiteralFreeBefore(lit, x + lit + y, |x|);
    LiteralHead(lit, y);
    LiteralAbsent(lit, y);
    ReplaceAllOnce(LiteralRe(lit), x, lit, y, rep, []);
    SubstitutePlain(rep, [], lit, x, y);
  }

  /** A text in which every `<` is followed by `/`: no opening tag starts in it. */
  predicate OnlyClosing(t: string) {
    forall k :: 0 <= k < |t| && t[k] == '<' ==> k + 1 < |t| && t[k + 1] == '/'
  }

  /** Every match of MACRO_START_TAG_TEMPLO starts with `<m` and has a space at 6. */
  lemma MacroStartNeeds(t: string)
    ensures MacroStart(t).Some? ==> 13 <= |t| && t[0] == '<' && t[1] == 'm' && t[6] == ' '
  {
    if MacroStart(t).Some? {
      assert t[..13] == "<macro name=\"";
    }
  }

  lemma NoMacroStart(y: string)
    requires OnlyClosing(y)
    ensures !Test(MacroStartTag, y)
  {
    forall k | 0 <= k <= |y|
      ensures MatchAt(MacroStartTag, y, k).None?
    {
      MacroStartNeeds(y[k..]);
      if k < |y| && y[k] == '<' {
        assert y[k..][1] == y[k + 1];
      } else if k < |y| {
        assert y[k..][0] == y[k];
      }
    }
    SkipNoMatch(MacroStartTag, y, 0, |y|);
  }

  /** The start tag of a macro definition. */
  function MacroOpen(n: string): string {
    "<macro name=\"" + n + "\">"
  }

  /** The Twig tag a macro definition starts with. */
  function MacroHead(n: string): string {
    "{% macro " + n + " %}"
  }

  /** A name on one line, without quotes, brackets or colons. */
  predicate PlainName(n: string) {
    forall k :: 0 <= k < |n| ==> !IsLineTerminator(n[k]) && n[k] != '"' && n[k] != '<' && n[k] != ':'
  }

  /** A text without quotes, brackets or colons. */
  predicate PlainBody(b: string) {
    forall k :: 0 <= k < |b| ==> b[k] != '"' && b[k] != '<' && b[k] != ':'
  }

  /** `<macro name="n">` followed by text without quotes is one match, with group n. */
  lemma MacroStartMatch(n: string, y: string)
    requires n != [] && PlainName(n) && Lacks(y, '"')
    ensures MacroStartTag(MacroOpen(n) + y) == Some(Hit(|MacroOpen(n)|, [n]))
  {
    var u := MacroOpen(n) + y;
    var q := 13 + |n|;
    assert u[..13] == "<macro name=\"" && u[13..q] == n && u[q..q + 2] == "\">" && u[q + 2..] == y by {
      FourParts("<macro name=\"", n, "\">", y);
    }
    assert forall k :: 13 <= k < q ==> !IsLineTerminator(u[k]) by {
      forall k | 13 <= k < q
        ensures !IsLineTerminator(u[k])
      {
        assert u[k] == u[13..q][k - 13];
      }
    }
    assert forall k :: q + 1 <= k < |u| ==> u[k] != '"' by {
      forall k | q + 1 <= k < |u|
        ensures u[k] != '"'
      {
        if k == q + 1 {
          assert u[k] == u[q..q + 2][1];
        } else {
          assert u[k] == u[q + 2..][k - q - 2];
        }
      }
    }
    MacroOpenLine(u, q);
  }

  /** A line `<macro name="…">…` whose name ends at the first quote after it: the group is the
      name. */
  lemma MacroOpenLine(u: string, q: nat)
    requires 14 <= q && q + 2 <= |u| && u[..13] == "<macro name=\"" && u[q..q + 2] == "\">"
    requires forall k :: 13 <= k < q ==> !IsLineTerminator(u[k])
    requires forall k :: q + 1 <= k < |u| ==> u[k] != '"'
    ensures MacroStartTag(u) == Some(Hit(q + 2, [u[13..q]]))
  {
    var e := LineEnd(u, 13);
    assert e >= q;
    forall k | q < k <= e
      ensures !ContainsAt(u, k, "\">")
    {
      if k + 2 <= |u| {
        assert u[k..k + 2][0] == u[k];
      }
    }
    LastAtIs(u, "\">", 14, e, q);
  }

  /** A macro library holding one definition, `<macros><macro name="n">b</macro></macros>`. */
  function MacroLibrary(n: string, b: string): string {
    "<macros>" + MacroOpen(n) + b + "</macro>" + "</macros>"
  }

  lemma MacroTailClosing(b: string)
    requires PlainBody(b)
    ensures OnlyClosing(b + "</macro>" + "</macros>")
  {
    var y := b + "</macro>" + "</macros>";
    assert forall k :: 0 <= k < |b| ==> y[k] == b[k];
    forall k | |b| <= k < |y| && y[k] == '<'
      ensures k + 1 < |y| && y[k + 1] == '/'
    {
      assert y[k + 1] == ("</macro>" + "</macros>")[k + 1 - |b|];
    }
  }

  lemma LibraryHeadUnmatched(s: string)
    requires 8 <= |s| && s[..8] == "<macros>"
    ensures forall k :: 0 <= k < 8 ==> MatchAt(MacroStartTag, s, k).None?
  {
    forall k | 0 <= k < 8
      ensures MatchAt(MacroStartTag, s, k).None?
    {
      MacroStartNeeds(s[k..]);
      assert s[k..][0] == s[k] && s[k] == "<macros>"[k];
      if k == 0 {
        assert s[k..][6] == "<macros>"[6];
      }
    }
  }

  lemma MacroHeadSubstitute(n: string, t: string, x: string, y: string)
    ensures Substitute("{% macro $1 %}", [n], t, x, y) == MacroHead(n)
  {
    assert "{% macro $1 %}" == "{% macro " + ['$', ('0' as int + 1) as char] + " %}";
    SubstituteRef("{% macro ", 1, " %}", [n], t, x, y);
    SubstitutePlain(" %}", [n], t, x, y);
  }

  lemma MacroStartStep(n: string, b: string)
    requires n != [] && PlainName(n) && PlainBody(b)
    ensures ReplaceAll(MacroStartTag, MacroLibrary(n, b), "{% macro $1 %}")
         == "<macros>" + MacroHead(n) + (b + "</macro>" + "</macros>")
  {
    var x, t, y := "<macros>", MacroOpen(n), b + "</macro>" + "</macros>";
    var s := MacroLibrary(n, b);
    assert s == x + t + y;
    assert s[..8] == x;
    assert Lacks(y, '"') by {
      forall k | 0 <= k < |y|
        ensures y[k] != '"'
      {
        if k < |b| {
          assert y[k] == b[k];
        }
      }
    }
    MacroStartMatch(n, y);
    LibraryHeadUnmatched(s);
    MacroTailClosing(b);
    NoMacroStart(y);
    ReplaceAllOnce(MacroStartTag, x, t, y, "{% macro $1 %}", [n]);
    MacroHeadSubstitute(n, t, x, y);
  }

  lemma MacroEndAbsent()
    ensures Absent("</macros>", "</macro>")
  {
    forall k | 0 <= k
      ensures !ContainsAt("</macros>", k, "</macro>")
    {
      if k == 0 {
        assert "</macros>"[7] != "</macro>"[7];
      } else if k == 1 {
        assert "</macros>"[1..9][0] != "</macro>"[0];
      }
    }
  }

  /** No `</macro>` starts inside the library head and the body. */
  lemma MacroEndFreeBefore(n: string, b: string)
    requires PlainName(n) && PlainBody(b)
    ensures var x := "<macros>" + MacroHead(n) + b;
      forall k :: 0 <= k < |x| ==> !ContainsAt(x + "</macro>" + "</macros>", k, "</macro>")
  {
    var x := "<macros>" + MacroHead(n) + b;
    var s := x + "</macro>" + "</macros>";
    forall k | 0 <= k < |x|
      ensures !ContainsAt(s, k, "</macro>")
    {
      if k + 8 <= |s| {
        assert s[k..k + 8][0] == s[k] && s[k..k + 8][1] == s[k + 1];
        if k == 0 {
          assert s[1] == 'm';
        } else if k < 8 {
          assert s[k] == "<macros>"[k];
        } else if k < 8 + |MacroHead(n)| {
          assert s[k] == MacroHead(n)[k - 8];
        } else {
          assert s[k] == b[k - 8 - |MacroHead(n)|];
        }
      }
    }
  }

  lemma MacroEndStep(n: string, b: string)
    requires PlainName(n) && PlainBody(b)
    ensures ReplaceAll(MacroEndTag, "<macros>" + MacroHead(n) + (b + "</macro>" + "</macros>"), "{% endmacro %}")
         == "<macros>" + MacroHead(n) + b + "{% endmacro %}" + "</macros>"
  {
    var x := "<macros>" + MacroHead(n) + b;
    var s := x + "</macro>" + "</macros>";
    assert "<macros>" + MacroHead(n) + (b + "</macro>" + "</macros>") == s;
    MacroEndFreeBefore(n, b);
    MacroEndAbsent();
    ReplaceLiteralOnce("</macro>", x, "</macros>", "{% endmacro %}");
  }

  lemma MacrosStartStep(n: string, b: string)
    ensures ReplaceFirst(MacrosStartTag, "<macros>" + MacroHead(n) + b + "{% endmacro %}" + "</macros>", "")
         == MacroHead(n) + b + "{% endmacro %}" + "</macros>"
  {
    var y := MacroHead(n) + b + "{% endmacro %}" + "</macros>";
    assert "<macros>" + MacroHead(n) + b + "{% endmacro %}" + "</macros>" == "" + "<macros>" + y;
    LiteralHead("<macros>", y);
    ReplaceFirstOnce(MacrosStartTag, "", "<macros>", y, "", []);
  }

  lemma MacrosEndStep(n: string, b: string)
    requires PlainName(n) && PlainBody(b)
    ensures ReplaceFirst(MacrosEndTag, MacroHead(n) + b + "{% endmacro %}" + "</macros>", "")
         == MacroHead(n) + b + "{% endmacro %}"
  {
    var x := MacroHead(n) + b + "{% endmacro %}";
    var s := x + "</macros>" + "";
    assert MacroHead(n) + b + "{% endmacro %}" + "</macros>" == s;
    forall k | 0 <= k < |x|
      ensures !ContainsAt(s, k, "</macros>")
    {
      if k + 9 <= |s| {
        assert s[k..k + 9][0] == s[k];
        if k < |MacroHead(n)| {
          assert s[k] == MacroHead(n)[k];
        } else if k < |MacroHead(n)| + |b| {
          assert s[k] == b[k - |MacroHead(n)|];
        } else {
          assert s[k] == "{% endmacro %}"[k - |MacroHead(n)| - |b|];
        }
      }
    }
    LiteralFreeBefore("</macros>", s, |x|);
    LiteralHead("</macros>", "");
    ReplaceFirstOnce(MacrosEndTag, x, "</macros>", "", "", []);
    assert x + "" == x;
  }

  lemma DefinitionColonFree(n: string, b: string)
    requires PlainName(n) && PlainBody(b)
    ensures NoColon(MacroHead(n) + b + "{% endmacro %}")
  {
    var d := MacroHead(n) + b + "{% endmacro %}";
    forall k | 0 <= k < |d|
      ensures d[k] != ':'
    {
      if k < |MacroHead(n)| {
        if 9 <= k < 9 + |n| {
          assert d[k] == n[k - 9];
        }
      } else if k < |MacroHead(n)| + |b| {
        assert d[k] == b[k - |MacroHead(n)|];
      }
    }
  }

  lemma PrintIdentity(d: string)
    requires NoColon(d)
    ensures ConvertPrint(d) == d
  {
    assert Led(PrintTemplo, "::");
    ColonFreeUnmatched(PrintTemplo, "::", d);
    ReplaceWithoutMatch(PrintTemplo, d, "{{$2}}");
  }

  /** A library with one definition becomes that Twig macro: `{% macro n %}b{% endmacro %}`. */
  lemma MacroDefinitionConverts(n: string, b: string)
    requires n != [] && PlainName(n) && PlainBody(b)
    ensures ConvertMacroDefinitions(MacroLibrary(n, b)) == MacroHead(n) + b + "{% endmacro %}"
  {
    MacroStartStep(n, b);
    MacroEndStep(n, b);
    MacrosStartStep(n, b);
    MacrosEndStep(n, b);
    DefinitionColonFree(n, b);
    PrintIdentity(MacroHead(n) + b + "{% endmacro %}");
  }

  /* ---------------------------------------------------------------- the passes after serializing */

  /** main.js:520-537: the text passes applied to the serialized document, in order. */
  function PostPass(serialized: string, useName: string): string {
    var a := StripAttributeValues(serialized);
    var b := RemoveDivAroundMacroUsage(a);
    var c := FillInUseTemplate(b, useName);
    var d := RemoveTemploDoubleColon(c);
    ReplaceFirstLit(d, XmlNamespace, "")
  }

  /** The passes of main.js:520-537 run in order on the serialized text. */
  method PostProcess(serialized: string, useName: string) returns (r: string)
    ensures r == PostPass(serialized, useName)
  {
    r := RemoveTwigMacroAttributeValues(serialized);
    r := RemoveDivAroundMacroUsage(r);
    r := FillInUseTemplate(r, useName);
    r := RemoveTemploDoubleColon(r);
    r := ReplaceFirstLit(r, XmlNamespace, "");
  }

  /** A literal holding a character the text lacks does not occur in it. */
  lemma LacksAbsent(s: string, lit: string, j: nat)
    requires j < |lit| && Lacks(s, lit[j])
    ensures Absent(s, lit)
  {
    forall k | 0 <= k
      ensures !ContainsAt(s, k, lit)
    {
      if k + |lit| <= |s| {
        assert s[k..k + |lit|][j] == s[k + j];
      }
    }
  }

  lemma LiteralKept(s: string, lit: string, rep: string, j: nat)
    requires j < |lit| && Lacks(s, lit[j])
    ensures ReplaceFirstLit(s, lit, rep) == s
  {
    LacksAbsent(s, lit, j);
    AbsentMeansNotContains(s, lit);
  }

  lemma DivNeedsQuote(t: string)
    ensures DivAroundMacroAt(t).Some? ==> 12 <= |t| && t[11] == '"'
  {
    if DivAroundMacroAt(t).Some? {
      assert t[5..19] == "macro=\"macro\">";
      assert t[11] == t[5..19][6];
    }
  }

  lemma DivKeptWithoutQuote(s: string)
    requires Lacks(s, '"')
    ensures RemoveDivAroundMacroUsage(s) == s
  {
    forall t | Lacks(t, '"')
      ensures DivAroundMacro(t).None?
    {
      DivNeedsQuote(t);
    }
    NeedsChar(DivAroundMacro, '"', s);
    ReplaceWithoutMatch(DivAroundMacro, s, "$1");
  }

  lemma DoubleColonKept(s: string)
    requires NoColon(s)
    ensures RemoveTemploDoubleColon(s) == s
  {
    FindFromLiteral("::", s, 0);
    forall k | 0 <= k
      ensures !ContainsAt(s, k, "::")
    {
      if k + 2 <= |s| {
        assert s[k..k + 2][0] == s[k];
      }
    }
    ReplaceWithoutMatch(DoubleColon, s, "");
  }

  /** The passes after serializing leave a text without quotes or colons as it is when no
      `::use` file was recorded: each of them looks for a quote or a colon. */
  lemma PostPassQuiet(s: string)
    requires Lacks(s, '"') && NoColon(s)
    ensures PostPass(s, "") == s
  {
    assert AttributeValue[1] == '"';
    LiteralKept(s, AttributeValue, "", 1);
    AbsentMeansNotContains(s, AttributeValue);
    assert StripAttributeValues(s) == s;
    DivKeptWithoutQuote(s);
    DoubleColonKept(s);
    assert XmlNamespace[7] == '"';
    LiteralKept(s, XmlNamespace, "", 7);
  }

  /* ---------------------------------------------------------------- main */

  /** The start of a macro library file (main.js:506). */
  const MacrosOpen: string := "<macros>"

  /** main (main.js:504-537) as written, for one file. The XML parser and serializer are
      parameters; previous is, when a file was converted before, the document it left in `doc`
      and the `::use` name `templateUseFileName` still holds. For a macro library the converted
      text is overwritten by serializing `doc`: the previous file's document, post-passed with
      the held `::use` name, or a TypeError when there is none. Failure is an exception. */
  function MainAsWritten(file: string, parse: string -> seq<Node>, serialize: seq<Node> -> string,
                         previous: Option<(seq<Node>, string)>): Result<string>
  {
    if StartsWith(file, MacrosOpen) then
      match previous
      case None => Failure
      case Some((d, useName)) => Success(PostPass(serialize(d), useName))
    else
      var pre := PreConvert(file);
      match ConvertDocument(parse(pre.text), pre.tables)
      case Failure => Failure
      case Success(d) => Success(PostPass(serialize(d), pre.useName))
  }

  /** main with the macro library branch keeping its converted text. */
  function MainCorrected(file: string, parse: string -> seq<Node>, serialize: seq<Node> -> string): Result<string> {
    if StartsWith(file, MacrosOpen) then Success(PostPass(ConvertMacroDefinitions(file), ""))
    else
      var pre := PreConvert(file);
      match ConvertDocument(parse(pre.text), pre.tables)
      case Failure => Failure
      case Success(d) => Success(PostPass(serialize(d), pre.useName))
  }

  lemma LibraryStartsWithMacros(n: string, b: string)
    ensures StartsWith(MacroLibrary(n, b), MacrosOpen)
  {
    assert MacroLibrary(n, b)[..8] == MacrosOpen;
  }

  /** As written, a macro library converted first fails, and one converted after another file
      yields that file's document, post-passed with the `::use` name it left: the library's own
      definitions do not reach the output. */
  lemma MainDropsDefinitions(n: string, b: string, parse: string -> seq<Node>, serialize: seq<Node> -> string,
                             d: seq<Node>, useName: string)
    ensures MainAsWritten(MacroLibrary(n, b), parse, serialize, None) == Failure
    ensures MainAsWritten(MacroLibrary(n, b), parse, serialize, Some((d, useName)))
            == Success(PostPass(serialize(d), useName))
  {
    LibraryStartsWithMacros(n, b);
  }

  /** A concrete case: the library defining `a` as `b`, converted after a document that
      serializes to `x` and recorded no `::use` name, yields `x`. */
  lemma MainDropsExample(parse: string -> seq<Node>, d: seq<Node>)
    ensures MainAsWritten(MacroLibrary("a", "b"), parse, _ => "x", Some((d, ""))) == Success("x")
  {
    MainDropsDefinitions("a", "b", parse, _ => "x", d, "");
    PostPassKeepsX();
  }

  lemma PostPassKeepsX()
    ensures PostPass("x", "") == "x"
  {
    PostPassQuiet("x");
  }

  lemma DefinitionQuoteFree(n: string, b: string)
    requires PlainName(n) && PlainBody(b)
    ensures Lacks(MacroHead(n) + b + "{% endmacro %}", '"')
  {
    var r := MacroHead(n) + b + "{% endmacro %}";
    forall k | 0 <= k < |r|
      ensures r[k] != '"'
    {
      if k < |MacroHead(n)| {
        if 9 <= k < 9 + |n| {
          assert r[k] == n[k - 9];
        }
      } else if k < |MacroHead(n)| + |b| {
        assert r[k] == b[k - |MacroHead(n)|];
      }
    }
  }

  /** The corrected main turns a one-definition library into exactly that Twig macro. */
  lemma MainKeepsDefinitions(n: string, b: string, parse: string -> seq<Node>, serialize: seq<Node> -> string)
    requires n != [] && PlainName(n) && PlainBody(b)
    ensures MainCorrected(MacroLibrary(n, b), parse, serialize) == Success(MacroHead(n) + b + "{% endmacro %}")
  {
    LibraryStartsWithMacros(n, b);
    MacroDefinitionConverts(n, b);
    var r := MacroHead(n) + b + "{% endmacro %}";
    DefinitionColonFree(n, b);
    DefinitionQuoteFree(n, b);
    PostPassQuiet(r);
  }

  /** Both agree on every file that is not a macro library. */
  lemma MainAgreesOnDocuments(file: string, parse: string -> seq<Node>, serialize: seq<Node> -> string,
                              previous: Option<(seq<Node>, string)>)
    requires !StartsWith(file, MacrosOpen)
    ensures MainAsWritten(file, parse, serialize, previous) == MainCorrected(file, parse, serialize)
  {
  }
}
