/** The placeholder pre-pass preConvertAttributes / preConvertAttrAttributes (main.js:228-330).
    The DOM parser would drop Templo attributes (macro calls, `::cond`, `::attr`) and the `::use`
    directive, so before parsing they are rewritten to Twig, the Twig text is recorded in a table,
    and the table index is written into the markup as a placeholder the parser keeps. The walk
    reads each placeholder back (Walk.CheckAttrs, Directives.FillInTwigMacro). */
module PrePass {
  import opened JsStrings
  import opened Patterns
  import opened Directives
  import opened Walk
  import opened TextConversion

  /** The replacement templates of main.js:231-232, 256 and 278. */
  const MacroAttrTwig: string := "$1$2{{ macros.$5$6 }}$7"
  const MacroUsageTwig: string := "<div macro> {{ macros.$2$3 }} </div>"
  const CondTwig: string := "{{ $2 }}"
  const UseTag: string := "<html TEMPLATE_USE='TEMPLATE_USE'>"
  const HtmlClose: string := "</html>"

  /* ---------------------------------------------------------------- tags carrying `{{ ... }}` */

  /** The table entry of one matched tag (main.js:240-241 and 262-263): its `{{ ... }}` part, with
      the `::` removed. */
  function TagEntry(m: string): string {
    RemoveTemploDoubleColon(ReplaceFirst(TwigTagExpression, m, "$1"))
  }

  /** The entries recorded for every `(<.*){{.*}}(.*>)` match of s, left to right. */
  function TagEntries(s: string): seq<string> {
    var ms := MatchTexts(TwigTag, s);
    seq(|ms|, i requires 0 <= i < |ms| => TagEntry(ms[i]))
  }

  /** The replacement `$1<prefix><i>='<prefix><i>'$2` of main.js:245 and 267. */
  function TagPlaceholderRep(prefix: string, i: nat): string {
    "$1" + prefix + NatToString(i) + "='" + prefix + NatToString(i) + "'$2"
  }

  /** The attribute text that replacement leaves in the tag: name and value are both the
      placeholder. */
  function TagPlaceholder(prefix: string, i: nat): string {
    prefix + NatToString(i) + "='" + prefix + NatToString(i) + "'"
  }

  /** The forEach over the table (main.js:244-246, 265-267) after its first n turns: turn i
      replaces the first remaining tag by placeholder i. */
  function PlaceTags(s: string, prefix: string, n: nat): string
    decreases n
  {
    if n == 0 then s else ReplaceFirst(TwigTag, PlaceTags(s, prefix, n - 1), TagPlaceholderRep(prefix, n - 1))
  }

  /** The forEach of main.js:250-252 after its first n turns: the first occurrence of parameter
      text ps[i] loses its `::`. */
  function FixParams(s: string, ps: seq<string>, n: nat): string
    requires n <= |ps|
    decreases n
  {
    if n == 0 then s else ReplaceFirstLit(FixParams(s, ps, n - 1), ps[n - 1], RemoveTemploDoubleColon(ps[n - 1]))
  }

  /** A section of the pre-pass: the text it leaves and the table it records. */
  datatype Section = Section(text: string, table: seq<string>)

  /** The macro part (main.js:229-252): macro attributes and macro calls become Twig, each tag
      holding one is recorded and replaced by a `TEMPLATE_MACRO_<i>` placeholder, and the
      parameters of the remaining `{{ macros.… }}` lose their `::`. */
  function MacroSection(s: string): Section {
    var a := ReplaceAll(MacroAttrTemplo, s, MacroAttrTwig);
    var b := ReplaceAll(MacroUsageTemplo, a, MacroUsageTwig);
    var table := TagEntries(b);
    var c := PlaceTags(b, TemplateMacro, |table|);
    var ps := MatchTexts(MacroParameter, c);
    Section(FixParams(c, ps, |ps|), table)
  }

  /** The `::cond` part (main.js:254-268), recorded under `TEMPLATE_COND_<i>` placeholders. */
  function CondSection(s: string): Section {
    var a := ReplaceAll(CondTemplo, s, CondTwig);
    var table := TagEntries(a);
    Section(PlaceTags(a, TemplateCond, |table|), table)
  }

  /** The `::use` part (main.js:270-282): the first `::use name::` is recorded, it becomes an
      `html` tag the parser keeps, and the last `::end::` of the text becomes its closing tag. */
  function UseSection(s: string): (r: (string, string)) {
    match Find(UseTemplo, s)
    case None => (s, "")
    case Some(m) =>
      var a := ReplaceFirst(UseTemplo, s, UseTag);
      (ReplaceFirst(LastEnd, a, HtmlClose), Group(m, 2))
  }

  /** Without a `::use` directive no file name is recorded. */
  lemma UseNameWhenMissing(s: string)
    ensures Find(UseTemplo, s).None? ==> UseSection(s).1 == ""
  {
  }

  /** A `::use name::` line, then lines of the page, then an `::end::` opening a line with none
      after it: the name is recorded, the directive becomes the placeholder tag and that
      `::end::` becomes `</html>`, leaving no `::end::` after it. */
  lemma UseSectionLines(name: string, body: string, post: string)
    requires forall k :: 0 <= k < |name| ==> !IsLineTerminator(name[k])
    requires |body| > 0 && IsLineTerminator(body[0]) && IsLineTerminator(body[|body| - 1])
    requires Absent(post, "::end::")
    ensures UseSection("::use " + name + "::" + (body + "::end::" + post))
         == (UseTag + body + HtmlClose + post, name)
  {
    var tail := body + "::end::" + post;
    var s := "::use " + name + "::" + tail;
    UseTextsPlain();
    UseDirectiveFound(name, tail);
    UseLineReplaced(name, tail, UseTag);
    LastEndReplaced(UseTag, body, post, HtmlClose);
    UseSectionIs(s, Match(0, |name| + 8, ["::use ", name, "::"]), UseTag + tail, UseTag + body + HtmlClose + post);
  }

  /** UseSection once its three steps are known. */
  lemma UseSectionIs(s: string, m: Match, a: string, r: string)
    requires Find(UseTemplo, s) == Some(m)
    requires ReplaceFirst(UseTemplo, s, UseTag) == a && ReplaceFirst(LastEnd, a, HtmlClose) == r
    ensures UseSection(s) == (r, Group(m, 2))
  {
  }

  /** The `::use name::` line is replaced as a whole. */
  lemma UseLineReplaced(name: string, tail: string, rep: string)
    requires forall k :: 0 <= k < |name| ==> !IsLineTerminator(name[k])
    requires tail == [] || IsLineTerminator(tail[0])
    requires NoDollar(rep)
    ensures ReplaceFirst(UseTemplo, "::use " + name + "::" + tail, rep) == rep + tail
  {
    var s := "::use " + name + "::" + tail;
    UseDirectiveFound(name, tail);
    ReplaceFirstPlain(UseTemplo, s, rep, Match(0, |name| + 8, ["::use ", name, "::"]));
    assert s[..0] == "" && s[|name| + 8..] == tail;
  }

  /** The last `::end::`, opening a line after a text h + body, is the one replaced. */
  lemma LastEndReplaced(h: string, body: string, post: string, rep: string)
    requires |body| > 0 && IsLineTerminator(body[|body| - 1])
    requires Absent(post, "::end::")
    requires NoDollar(rep)
    ensures ReplaceFirst(LastEnd, h + (body + "::end::" + post), rep) == h + body + rep + post
  {
    var x := h + body;
    var a := x + "::end::" + post;
    assert h + (body + "::end::" + post) == a;
    assert x[|x| - 1] == body[|body| - 1];
    LastEndFound(x, post);
    ReplaceFirstPlain(LastEnd, a, rep, Match(|x|, |x| + 7, []));
    assert a[..|x|] == x && a[|x| + 7..] == post;
  }

  /** The `::use` replacements hold no `$` pattern. */
  lemma UseTextsPlain()
    ensures NoDollar(UseTag) && NoDollar(HtmlClose)
  {
  }

  /** `(::use\s)(.*)(::)` on a text that opens with a `::use name::` line matches that line. */
  lemma UseDirectiveFound(name: string, tail: string)
    requires forall k :: 0 <= k < |name| ==> !IsLineTerminator(name[k])
    requires tail == [] || IsLineTerminator(tail[0])
    ensures Find(UseTemplo, "::use " + name + "::" + tail) == Some(Match(0, |name| + 8, ["::use ", name, "::"]))
  {
    var s := "::use " + name + "::" + tail;
    HeadDelimLine("::use", name, tail);
    assert "::use" + " " + name + "::" + tail == s;
    assert "::use" + " " == "::use ";
    assert UseTemplo(s[0..]) == HeadDelim(s, "::use", "::");
    assert MatchAt(UseTemplo, s, 0) == Some(Match(0, |name| + 8, ["::use ", name, "::"]));
    FindIs(UseTemplo, s, 0);
  }

  /* ---------------------------------------------------------------- `::attr` families */

  function FamilyTemplo(f: AttrFamily): Regex {
    match f
    case ClassAttr => AttrClassTemplo
    case CheckedAttr => AttrCheckedTemplo
    case SelectedAttr => AttrSelectedTemplo
  }

  /** The Twig text of each family (main.js:304, 309, 314). */
  function FamilyTwig(f: AttrFamily): string {
    match f
    case ClassAttr => "class={{ $1 ? \"$2\" : \"''\"}}"
    case _ => f.Name() + "={{ $1 }}"
  }

  /** The placeholder `attr="TEMPLATE_ATTR_<ATTR>_<i>"` of main.js:325. */
  function FamilyPlaceholder(f: AttrFamily, i: nat): string {
    f.Name() + "=\"" + TemplateAttr(f) + NatToString(i) + "\""
  }

  /** The placeholder loop of main.js:324-326 after its first n turns. */
  function PlaceAttrs(s: string, f: AttrFamily, n: nat): string
    decreases n
  {
    if n == 0 then s else ReplaceFirst(AttrTwig(f), PlaceAttrs(s, f, n - 1), FamilyPlaceholder(f, n - 1))
  }

  /** preConvertAttrAttributes (main.js:296-330): the family's directives become Twig, every
      `attr={{…}}` text is recorded left to right, then replaced by its numbered placeholder. */
  function AttrSection(s: string, f: AttrFamily): Section {
    var a := ReplaceAll(FamilyTemplo(f), s, FamilyTwig(f));
    var ms := MatchTexts(AttrTwig(f), a);
    Section(PlaceAttrs(a, f, |ms|), ms)
  }

  /** What the pre-pass hands on: the text for the parser, the tables for the walk and the
      `::use` file name for the post-pass. */
  datatype PreResult = PreResult(text: string, tables: Tables, useName: string)

  /** preConvertAttributes on a fresh state (main.js:228-294). */
  function PreConvert(s: string): PreResult {
    var m := MacroSection(s);
    var c := CondSection(m.text);
    var u := UseSection(c.text);
    var k := AttrSection(u.0, ClassAttr);
    var h := AttrSection(k.text, CheckedAttr);
    var l := AttrSection(h.text, SelectedAttr);
    PreResult(l.text, Tables(m.table, c.table, k.table, h.table, l.table), u.1)
  }

  /* ---------------------------------------------------------------- text without Templo attributes */

  /** The macro expressions need `$$`. */
  lemma MacroNeedsDollar()
    ensures forall t :: Lacks(t, '$') ==> MacroAttr(t).None? && MacroUsage(t).None?
  {
    forall t | Lacks(t, '$')
      ensures MacroAttr(t).None? && MacroUsage(t).None?
    {
      forall k | 0 <= k
        ensures !ContainsAt(t, k, "$$")
      {
        if k + 2 <= |t| {
          assert t[k..k + 2][0] == t[k];
        }
      }
    }
  }

  /** The tag, parameter and `attr={{` expressions need `{{`. */
  lemma TagNeedsBrace(f: AttrFamily)
    ensures forall t :: Lacks(t, '{') ==> TwigTagHit(t).None? && MacroParameterAt(t).None? &&
                                          AttrTwigAt(t, f.Name()).None?
  {
    forall t | Lacks(t, '{')
      ensures TwigTagHit(t).None? && MacroParameterAt(t).None? && AttrTwigAt(t, f.Name()).None?
    {
      forall k | 0 <= k
        ensures !ContainsAt(t, k, "{{")
      {
        if k + 2 <= |t| {
          assert t[k..k + 2][0] == t[k];
        }
      }
      var head := f.Name() + "={{";
      if |head| <= |t| {
        assert t[..|head|][|head| - 1] == t[|head| - 1];
      }
    }
  }

  lemma NoMatchNoTexts(re: Regex, s: string)
    requires !Test(re, s)
    ensures MatchTexts(re, s) == []
  {
  }

  lemma AttrSectionQuiet(s: string, f: AttrFamily)
    requires Lacks(s, '{') && NoColon(s)
    ensures AttrSection(s, f) == Section(s, [])
  {
    if f == ClassAttr {
      assert Led(AttrClassTemplo, "::attr");
    } else {
      assert Led(AttrCheckedTemplo, "::attr") && Led(AttrSelectedTemplo, "::attr");
    }
    ColonFreeUnmatched(FamilyTemplo(f), "::attr", s);
    ReplaceWithoutMatch(FamilyTemplo(f), s, FamilyTwig(f));
    TagNeedsBrace(f);
    NeedsChar(AttrTwig(f), '{', s);
    NoMatchNoTexts(AttrTwig(f), s);
  }

  /** A text without `$`, `{` and `:` holds nothing the pre-pass rewrites: it passes unchanged,
      every table stays empty and no `::use` name is recorded. */
  lemma PreConvertQuiet(s: string)
    requires Lacks(s, '$') && Lacks(s, '{') && NoColon(s)
    ensures PreConvert(s) == PreResult(s, Tables([], [], [], [], []), "")
  {
    MacroNeedsDollar();
    NeedsChar(MacroAttrTemplo, '$', s);
    ReplaceWithoutMatch(MacroAttrTemplo, s, MacroAttrTwig);
    NeedsChar(MacroUsageTemplo, '$', s);
    ReplaceWithoutMatch(MacroUsageTemplo, s, MacroUsageTwig);
    TagNeedsBrace(ClassAttr);
    NeedsChar(TwigTag, '{', s);
    NoMatchNoTexts(TwigTag, s);
    NeedsChar(MacroParameter, '{', s);
    NoMatchNoTexts(MacroParameter, s);
    assert MacroSection(s) == Section(s, []);
    assert Led(CondTemplo, "::cond");
    ColonFreeUnmatched(CondTemplo, "::cond", s);
    ReplaceWithoutMatch(CondTemplo, s, CondTwig);
    assert CondSection(s) == Section(s, []);
    assert Led(UseTemplo, "::use");
    ColonFreeUnmatched(UseTemplo, "::use", s);
    assert UseSection(s) == (s, "");
    AttrSectionQuiet(s, ClassAttr);
    AttrSectionQuiet(s, CheckedAttr);
    AttrSectionQuiet(s, SelectedAttr);
  }

  /* ---------------------------------------------------------------- placeholders */

  lemma PlaceholdersNoDollar(prefix: string, f: AttrFamily, i: nat)
    requires NoDollar(prefix)
    ensures NoDollar(TagPlaceholder(prefix, i)) && NoDollar(FamilyPlaceholder(f, i))
  {
    var d := NatToString(i);
    assert NoDollar(d);
    assert NoDollar("='") && NoDollar("'") && NoDollar("=\"") && NoDollar("\"");
    FamilyTextsNoDollar(f);
    NoDollarFive(prefix, d, "='", prefix + d, "'");
    NoDollarFive(f.Name(), "=\"", TemplateAttr(f), d, "\"");
  }

  lemma FamilyTextsNoDollar(f: AttrFamily)
    ensures NoDollar(f.Name()) && NoDollar(TemplateAttr(f))
  {
    match f
    case ClassAttr =>
    case CheckedAttr =>
    case SelectedAttr =>
  }

  lemma NoDollarFive(a: string, b: string, c: string, d: string, e: string)
    requires NoDollar(a) && NoDollar(b) && NoDollar(c) && NoDollar(d) && NoDollar(e)
    ensures NoDollar(a + b + c + d + e)
  {
    NoDollarJoin(a, b);
    NoDollarJoin(a + b, c);
    NoDollarJoin(a + b + c, d);
    NoDollarJoin(a + b + c + d, e);
  }

  /** The match of a tag has the two groups `(<.*)` and `(.*>)`. */
  lemma TagGroups(s: string)
    requires Test(TwigTag, s)
    ensures |Find(TwigTag, s).value.caps| == 2
  {
    FindFromSpec(TwigTag, s, 0);
  }

  /** A replacement `$1mid$2` over a first match with two groups. */
  lemma ReplaceFirstAround(re: Regex, s: string, mid: string)
    requires Test(re, s) && |Find(re, s).value.caps| == 2 && NoDollar(mid)
    ensures var m := Find(re, s).value;
            ReplaceFirst(re, s, "$1" + mid + "$2") == s[..m.start] + m.caps[0] + mid + m.caps[1] + s[m.end..]
  {
    var m := Find(re, s).value;
    ReplaceFirstFound(re, s, "$1" + mid + "$2");
    SubstituteFirstSecond(mid, m.caps, s[m.start..m.end], s[..m.start], s[m.end..]);
  }

  /** One turn of the tag placeholder loop: the first tag's `{{ ... }}` is cut out, and its
      two halves are joined by the placeholder attribute for index i. */
  lemma TagStep(s: string, prefix: string, i: nat)
    requires NoDollar(prefix) && Test(TwigTag, s)
    ensures var m := Find(TwigTag, s).value;
            |m.caps| == 2 &&
            ReplaceFirst(TwigTag, s, TagPlaceholderRep(prefix, i))
            == s[..m.start] + m.caps[0] + TagPlaceholder(prefix, i) + m.caps[1] + s[m.end..]
  {
    TagGroups(s);
    PlaceholdersNoDollar(prefix, ClassAttr, i);
    TagRepAround(prefix, i);
    ReplaceFirstAround(TwigTag, s, TagPlaceholder(prefix, i));
  }

  lemma TagRepAround(prefix: string, i: nat)
    ensures TagPlaceholderRep(prefix, i) == "$1" + TagPlaceholder(prefix, i) + "$2"
  {
    var d := NatToString(i);
    assert "$1" + prefix + d + "='" + prefix + d + "'$2" == "$1" + (prefix + d + "='" + prefix + d + "'") + "$2";
  }

  /** One turn of the `::attr` placeholder loop: the first `attr={{…}}` text becomes the
      placeholder for index i. */
  lemma FamilyStep(s: string, f: AttrFamily, i: nat)
    requires Test(AttrTwig(f), s)
    ensures var m := Find(AttrTwig(f), s).value;
            ReplaceFirst(AttrTwig(f), s, FamilyPlaceholder(f, i)) == s[..m.start] + FamilyPlaceholder(f, i) + s[m.end..]
  {
    var m := Find(AttrTwig(f), s).value;
    PlaceholdersNoDollar("", f, i);
    SubstitutePlain(FamilyPlaceholder(f, i), m.caps, s[m.start..m.end], s[..m.start], s[m.end..]);
  }

  /** The first placeholder prefix of x + p + y is the one that starts p. */
  lemma PlaceholderFirst(x: string, p: string, y: string)
    requires StartsWith(p, TemplateMacro) && FreeBefore(x + p + y, |x|, TemplateMacro)
    ensures IndexOf(x + p + y, TemplateMacro) == Some(|x|)
    ensures IndexOf(x + p + y, p) == Some(|x|)
  {
    var v := x + p + y;
    assert v == x + (p + y);
    assert (p + y)[..|TemplateMacro|] == TemplateMacro;
    assert (p + y)[..|p|] == p;
    IndexOfShift(x, p + y, TemplateMacro);
    forall k | 0 <= k < |x|
      ensures !ContainsAt(v, k, p)
    {
      assert !ContainsAt(v, k, TemplateMacro);
      assert p[..|TemplateMacro|] == TemplateMacro;
      if k + |p| <= |v| {
        assert v[k..k + |p|][..|TemplateMacro|] == v[k..k + |TemplateMacro|];
      }
    }
    IndexOfShift(x, p + y, p);
  }

  /** The key fillInTwigMacro reads after the placeholder prefix: the digits before `=`. */
  lemma PlaceholderKey(x: string, key: string, y: string)
    requires forall k :: 0 <= k < |key| ==> IsDigit(key[k])
    ensures BeforeFirst(SubstringFrom(x + MacroPlaceholder(key) + y, |x| + |TemplateMacro|), "=") == key
  {
    var v := x + MacroPlaceholder(key) + y;
    var rest := "='" + TemplateMacro + key + "'" + y;
    assert SubstringFrom(v, |x| + |TemplateMacro|) == key + rest;
    forall k | 0 <= k < |key|
      ensures !ContainsAt(key + rest, k, "=")
    {
      assert (key + rest)[k] == key[k];
    }
    assert rest[..1] == "=";
    IndexOfShift(key, rest, "=");
    assert (key + rest)[..|key|] == key;
  }

  /** The placeholder the macro loop writes for index i reads back entry i of the macro table in
      fillInTwigMacro (main.js:466-470), when no other placeholder comes before it. */
  lemma FillInTwigMacroReadBack(x: string, i: nat, y: string, macros: seq<string>)
    requires FreeBefore(x + MacroPlaceholder(NatToString(i)) + y, |x|, TemplateMacro)
    requires i < |macros| ==> NoDollar(macros[i])
    ensures FillInTwigMacro(x + MacroPlaceholder(NatToString(i)) + y, macros)
         == x + (if i < |macros| then macros[i] else Undefined) + y
  {
    var key := NatToString(i);
    var p := MacroPlaceholder(key);
    var v := x + p + y;
    var entry := if i < |macros| then macros[i] else Undefined;
    assert IndexOf(v, TemplateMacro) == Some(|x|) && IndexOf(v, p) == Some(|x|) by {
      assert p[..|TemplateMacro|] == TemplateMacro;
      PlaceholderFirst(x, p, y);
    }
    assert BeforeFirst(SubstringFrom(v, |x| + |TemplateMacro|), "=") == key by {
      PlaceholderKey(x, key, y);
    }
    assert Lookup(macros, key).GetOr(Undefined) == entry by {
      LookupPlaceholder(macros, i);
    }
    assert ReplaceFirstLit(v, p, entry) == x + entry + y by {
      assert NoDollar(entry) by {
        if i >= |macros| {
          UndefinedNoDollar();
        }
      }
      ReplaceFirstLitAt(v, p, entry, |x|);
      assert v[..|x|] == x && v[|x| + |p|..] == y;
    }
  }
}
