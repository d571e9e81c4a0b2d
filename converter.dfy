/** The converter's per-document state (main.js:57-66) and the operations that read and change it,
    written as the step-by-step code they are: the block stack and the switch state that text
    conversion updates, the placeholder tables the pre-pass fills, and the import flag. Each
    method is proved against the functional model of the other modules. */
module Conversion {
  import opened JsStrings
  import opened Patterns
  import opened Directives
  import opened TextConversion
  import opened Split
  import opened Walk
  import opened PrePass
  import opened PostPass

  class Converter {
    var previousStatement: seq<Block>
    var switchCasePosition: nat
    var switchCaseCondition: string
    var macrosAreImported: bool
    var templateMacroAttributes: seq<string>
    var templateCondAttributes: seq<string>
    var templateUseFileName: string
    var templateAttrClassAttributes: seq<string>
    var templateAttrCheckedAttributes: seq<string>
    var templateAttrSelectedAttributes: seq<string>

    /** The state at the start of a document: nothing open, nothing recorded. */
    constructor ()
      ensures State() == Fresh && !macrosAreImported && templateUseFileName == ""
      ensures CurrentTables() == Tables([], [], [], [], [])
    {
      previousStatement := [];
      switchCasePosition := 0;
      switchCaseCondition := "";
      macrosAreImported := false;
      templateMacroAttributes := [];
      templateCondAttributes := [];
      templateUseFileName := "";
      templateAttrClassAttributes := [];
      templateAttrCheckedAttributes := [];
      templateAttrSelectedAttributes := [];
    }

    /** The part of the state text conversion reads and changes. */
    function State(): Conv
      reads this
    {
      Conv(previousStatement, switchCasePosition, switchCaseCondition)
    }

    /** The tables the pre-pass records and the walk reads. */
    function CurrentTables(): Tables
      reads this
    {
      Tables(templateMacroAttributes, templateCondAttributes, templateAttrClassAttributes,
             templateAttrCheckedAttributes, templateAttrSelectedAttributes)
    }

    /** convertEnd (main.js:373-381): while an `::end::` is left, the first one becomes the
        closing tag named by `previousStatement.pop()`. Every directive is resolved, innermost
        block first, and the stack loses one block per directive. */
    method ConvertEnd(value: string) returns (converted: string)
      modifies this
      ensures (converted, previousStatement) == ResolveEnds(value, old(previousStatement))
      ensures !Contains(converted, EndDirective)
      ensures switchCasePosition == old(switchCasePosition) && switchCaseCondition == old(switchCaseCondition)
      ensures macrosAreImported == old(macrosAreImported) && CurrentTables() == old(CurrentTables())
      ensures templateUseFileName == old(templateUseFileName)
    {
      converted := value;
      ghost var target := ResolveEnds(value, previousStatement);
      TestEnd(converted);
      while Test(EndTemplo, converted)
        invariant ResolveEnds(converted, previousStatement) == target
        invariant Test(EndTemplo, converted) <==> IndexOf(converted, EndDirective).Some?
        invariant switchCasePosition == old(switchCasePosition) && switchCaseCondition == old(switchCaseCondition)
        invariant macrosAreImported == old(macrosAreImported) && CurrentTables() == old(CurrentTables())
        invariant templateUseFileName == old(templateUseFileName)
        decreases EndCount(converted)
      {
        var i := IndexOf(converted, EndDirective).value;
        ghost var stack := previousStatement;
        var top := TopName(previousStatement);
        previousStatement := Popped(previousStatement);
        var endTwig := "{% end" + top + " %}";
        assert endTwig == CloseTag(stack);
        ReplaceFirstEnd(converted, stack, i);
        ResolveEndsStep(converted, stack, i);
        converted := ReplaceFirst(EndTemplo, converted, endTwig);
        TestEnd(converted);
      }
      ResolveEndsNone(converted, previousStatement);
      ResolveEndsLeavesNone(value, old(previousStatement));
      AbsentMeansNotContains(converted, EndDirective);
    }

    /** convertCase (main.js:417-423): the first `::case::` becomes the test of the current case
        position, which then advances. */
    method ConvertCase(value: string) returns (r: string)
      modifies this
      ensures r == CaseStep(value, old(switchCaseCondition), old(switchCasePosition))
      ensures switchCasePosition == old(switchCasePosition) + 1
      ensures previousStatement == old(previousStatement) && switchCaseCondition == old(switchCaseCondition)
      ensures macrosAreImported == old(macrosAreImported) && CurrentTables() == old(CurrentTables())
      ensures templateUseFileName == old(templateUseFileName)
    {
      var statement := if switchCasePosition == 0 then "if" else "elseif";
      var replacedTwig := "{% " + statement + " " + switchCaseCondition + ".index == "
                          + NatToString(switchCasePosition) + " %}\n$1";
      assert replacedTwig == CaseHeader(switchCaseCondition, switchCasePosition) + "$1";
      r := ReplaceFirst(CaseTemplo, value, replacedTwig);
      switchCasePosition := switchCasePosition + 1;
    }

    /** convertSwitch (main.js:408-414) with its case loop corrected: the condition is recorded,
        the position restarts at 0, and the `::case::` directives of the value are converted
        once each, left to right, the search resuming after the test it has just inserted. The
        switch directive is then erased. As written the loop searches the whole value again
        after each case, which repeats forever when the condition itself holds a case
        directive (Directives.SwitchLoopDiverges). The position ends at the number of cases. */
    method ConvertSwitch(value: string) returns (r: string)
      modifies this
      requires Test(SwitchTemplo, value)
      ensures switchCaseCondition == Group(Find(SwitchTemplo, value).value, 1)
      ensures r == ReplaceFirst(SwitchTemplo, Cases(value, switchCaseCondition, 0, 0).0, "")
      ensures switchCasePosition == Cases(value, switchCaseCondition, 0, 0).1 == CaseCount(value, 0)
      ensures previousStatement == old(previousStatement)
      ensures macrosAreImported == old(macrosAreImported) && CurrentTables() == old(CurrentTables())
      ensures templateUseFileName == old(templateUseFileName)
    {
      var cond := Group(Find(SwitchTemplo, value).value, 1);
      switchCaseCondition := cond;
      switchCasePosition := 0;
      var pos;
      r, pos := SwitchText(value, cond);
      switchCasePosition := pos;
    }

    /** The text branch of convertToTwig (main.js:83-124): the directive rewrites in their fixed
        order, opening blocks on the stack, resolving `::end::` against it, and filling in macro
        call placeholders from the macro table. */
    method ConvertText(value: string) returns (r: string)
      modifies this
      ensures (State(), r) == Cascade(old(State()), value, templateMacroAttributes)
      ensures macrosAreImported == old(macrosAreImported) && CurrentTables() == old(CurrentTables())
      ensures templateUseFileName == old(templateUseFileName)
    {
      ghost var s0 := State();
      r := ConvertSwitchStage(value);
      ghost var a := SwitchStage(s0, value);
      r := ConvertCaseStage(r);
      ghost var b := CaseStage(a.0, a.1);
      r := ConvertBranch(r);
      ghost var c := BranchStage(b.0, b.1);
      r := ConvertRewrites(r);
      if Contains(r, TemplateMacro) {
        r := FillInTwigMacro(r, templateMacroAttributes);
      }
    }

    /** main.js:84-87: a `::switch` is converted and opens an `if`. */
    method ConvertSwitchStage(value: string) returns (r: string)
      modifies this
      ensures (State(), r) == SwitchStage(old(State()), value)
      ensures macrosAreImported == old(macrosAreImported) && CurrentTables() == old(CurrentTables())
      ensures templateUseFileName == old(templateUseFileName)
    {
      r := value;
      if Test(SwitchTemplo, value) {
        r := ConvertSwitch(value);
        previousStatement := previousStatement + [IfBlock];
      }
    }

    /** main.js:88-90: a `::case::` left outside a switch's own value. */
    method ConvertCaseStage(value: string) returns (r: string)
      modifies this
      ensures (State(), r) == CaseStage(old(State()), value)
      ensures macrosAreImported == old(macrosAreImported) && CurrentTables() == old(CurrentTables())
      ensures templateUseFileName == old(templateUseFileName)
    {
      r := value;
      if Test(CaseTemplo, value) {
        r := ConvertCase(value);
      }
    }

    /** main.js:91-103: only the first of `::if`, `::elseif`, `::else::` and `::end::` present. */
    method ConvertBranch(value: string) returns (r: string)
      modifies this
      ensures (State(), r) == BranchStage(old(State()), value)
      ensures macrosAreImported == old(macrosAreImported) && CurrentTables() == old(CurrentTables())
      ensures templateUseFileName == old(templateUseFileName)
    {
      r := value;
      if Test(IfTemplo, r) {
        r := ConvertIf(r);
        previousStatement := previousStatement + [IfBlock];
      } else if Test(ElseIfTemplo, r) {
        r := ConvertElseIf(r);
      } else if Test(ElseTemplo, r) {
        r := ConvertElse(r);
      } else if Test(EndTemplo, r) {
        r := ConvertEnd(r);
      }
    }

    /** One of the later rewrites: when the directive occurs, the value is converted and the
        blocks it opens are pushed. */
    method Rewrite(value: string, re: Regex, convert: string -> string, push: seq<Block>) returns (r: string)
      modifies this
      ensures (State(), r) == RewriteStage(old(State()), value, re, convert, push)
      ensures macrosAreImported == old(macrosAreImported) && CurrentTables() == old(CurrentTables())
      ensures templateUseFileName == old(templateUseFileName)
    {
      r := value;
      if Test(re, r) {
        r := convert(r);
        previousStatement := previousStatement + push;
      }
    }

    /** main.js:104-124: foreach, raw content, raw, fill, set and print, in that order. */
    method ConvertRewrites(value: string) returns (r: string)
      modifies this
      ensures (State(), r) == RewriteStages(old(State()), value)
      ensures macrosAreImported == old(macrosAreImported) && CurrentTables() == old(CurrentTables())
      ensures templateUseFileName == old(templateUseFileName)
    {
      r := Rewrite(value, ForeachTemplo, ConvertForeach, [ForBlock]);
      r := Rewrite(r, RawContentTemplo, ConvertRawContent, []);
      r := Rewrite(r, RawTemplo, ConvertRaw, []);
      r := Rewrite(r, FillTemplo, ConvertFill, [SetBlock]);
      r := Rewrite(r, SetTemplo, ConvertSet, [SetBlock]);
      r := Rewrite(r, PrintTemplo, ConvertPrint, []);
    }

    /** checkAttributes (main.js:179-212) on an element's attributes; a macro placeholder sets
        the import flag. */
    method CheckAttributes(attrs: seq<Attr>) returns (res: Result<AttrPass>)
      modifies this
      ensures res == Walk.CheckAttributes(attrs, old(macrosAreImported), CurrentTables())
      ensures macrosAreImported == if res.Success? then res.value.imported else old(macrosAreImported)
      ensures State() == old(State()) && CurrentTables() == old(CurrentTables())
      ensures templateUseFileName == old(templateUseFileName)
    {
      res := CheckAttributeList(attrs, macrosAreImported, CurrentTables());
      if res.Success? {
        macrosAreImported := res.value.imported;
      }
    }

    /** The state the walk reads and changes. */
    function Walking(): WalkState
      reads this
    {
      WalkState(State(), macrosAreImported)
    }

    /** convertToTwig on one node (main.js:74-146): a text node's value goes through the
        cascade; an element's attributes are checked and its children converted in order. The
        failures are the exceptions of a missing cond entry. */
    method ConvertNode(n: Node) returns (res: Result<seq<Node>>)
      modifies this
      decreases n, 0
      ensures var w := WalkNode(old(Walking()), n, old(CurrentTables()));
        res.Success? == w.Success? && (w.Success? ==> res.value == w.value.1 && Walking() == w.value.0)
      ensures CurrentTables() == old(CurrentTables()) && templateUseFileName == old(templateUseFileName)
    {
      if n.Text? {
        var r := ConvertText(n.value);
        res := Success([Text(r)]);
      } else {
        var p := CheckAttributes(n.attrs);
        if p.Failure? {
          return Failure;
        }
        var kids := ConvertChildren(n.children);
        if kids.Failure? {
          return Failure;
        }
        res := Success(p.value.before + [Element(n.name, p.value.attrs, kids.value)] + p.value.after);
      }
    }

    /** One child (main.js:130-141): a text child with a value is split, its pieces are
        converted one after the other and joined again. */
    method ConvertChild(n: Node) returns (res: Result<seq<Node>>)
      modifies this
      decreases n, 1
      ensures var w := WalkChild(old(Walking()), n, old(CurrentTables()));
        res.Success? == w.Success? && (w.Success? ==> res.value == w.value.1 && Walking() == w.value.0)
      ensures CurrentTables() == old(CurrentTables()) && templateUseFileName == old(templateUseFileName)
    {
      if n.Text? && n.value != "" {
        var pieces := SplitNodeByStatements(n.value);
        var joined := ConvertPieces(pieces);
        res := Success([Text(joined)]);
      } else {
        res := ConvertNode(n);
      }
    }

    /** convertToTwig on one text value, in terms of the walk's state (main.js:75-127). */
    method ConvertPiece(value: string) returns (r: string)
      modifies this
      ensures (Walking(), r) == WalkText(old(Walking()), value, templateMacroAttributes)
      ensures CurrentTables() == old(CurrentTables()) && templateUseFileName == old(templateUseFileName)
    {
      ghost var st := Walking();
      r := ConvertText(value);
      WalkTextIs(st, value, templateMacroAttributes, State(), r);
    }

    /** `splittedNodes.forEach(convertToTwig)` and the `reduce` that joins them (main.js:137-140). */
    method ConvertPieces(pieces: seq<string>) returns (joined: string)
      modifies this
      ensures (Walking(), joined) == WalkPieces(old(Walking()), pieces, templateMacroAttributes)
      ensures CurrentTables() == old(CurrentTables()) && templateUseFileName == old(templateUseFileName)
    {
      joined := "";
      var i := 0;
      ghost var macros := templateMacroAttributes;
      ghost var target := WalkPieces(Walking(), pieces, macros);
      JoinedEnds(pieces, Walking(), macros);
      while i < |pieces|
        invariant i <= |pieces|
        invariant CurrentTables() == old(CurrentTables()) && templateUseFileName == old(templateUseFileName)
        invariant target == Joined(joined, WalkPieces(Walking(), pieces[i..], macros))
      {
        ghost var st := Walking();
        var r := ConvertPiece(pieces[i]);
        assert templateMacroAttributes == macros;
        assert (Walking(), r) == WalkText(st, pieces[i], macros);
        PiecesStep(target, joined, st, pieces, i, macros, Walking(), r);
        joined := joined + r;
        i := i + 1;
      }
      JoinedEnds(pieces, Walking(), macros);
    }

    /** The children of an element, in order (main.js:129-142). */
    method ConvertChildren(kids: seq<Node>) returns (res: Result<seq<Node>>)
      modifies this
      decreases kids
      ensures var w := WalkChildren(old(Walking()), kids, old(CurrentTables()));
        res.Success? == w.Success? && (w.Success? ==> res.value == w.value.1 && Walking() == w.value.0)
      ensures CurrentTables() == old(CurrentTables()) && templateUseFileName == old(templateUseFileName)
    {
      var done: seq<Node> := [];
      var i := 0;
      ghost var t := CurrentTables();
      AfterEmpty(WalkChildren(Walking(), kids, t));
      assert kids[0..] == kids;
      while i < |kids|
        invariant i <= |kids|
        invariant CurrentTables() == t && templateUseFileName == old(templateUseFileName)
        invariant WalkChildren(old(Walking()), kids, t) == After(done, WalkChildren(Walking(), kids[i..], t))
      {
        ghost var st := Walking();
        WalkChildrenUnfold(st, kids[i..], t);
        assert kids[i..][0] == kids[i] && kids[i..][1..] == kids[i + 1..];
        var r := ConvertChild(kids[i]);
        if r.Failure? {
          return Failure;
        }
        AfterJoin(done, r.value, WalkChildren(Walking(), kids[i + 1..], t));
        done := done + r.value;
        i := i + 1;
      }
      res := Success(done);
    }

    /** `doc.childNodes.map(convertToTwig)` (main.js:517): the top-level nodes converted in
        order, threading the state. */
    method ConvertTopLevel(doc: seq<Node>) returns (res: Result<seq<Node>>)
      modifies this
      ensures var w := WalkTop(old(Walking()), doc, old(CurrentTables()));
        res.Success? == w.Success? && (w.Success? ==> res.value == w.value.1 && Walking() == w.value.0)
      ensures CurrentTables() == old(CurrentTables()) && templateUseFileName == old(templateUseFileName)
    {
      var done: seq<Node> := [];
      var i := 0;
      ghost var t := CurrentTables();
      AfterEmpty(WalkTop(Walking(), doc, t));
      assert doc[0..] == doc;
      while i < |doc|
        invariant i <= |doc|
        invariant CurrentTables() == t && templateUseFileName == old(templateUseFileName)
        invariant WalkTop(old(Walking()), doc, t) == After(done, WalkTop(Walking(), doc[i..], t))
      {
        ghost var st := Walking();
        WalkTopUnfold(st, doc[i..], t);
        assert doc[i..][0] == doc[i] && doc[i..][1..] == doc[i + 1..];
        var r := ConvertNode(doc[i]);
        if r.Failure? {
          return Failure;
        }
        AfterJoin(done, r.value, WalkTop(Walking(), doc[i + 1..], t));
        done := done + r.value;
        i := i + 1;
      }
      res := Success(done);
    }

    /** The top-level nodes converted with the import of main.js:453-464 added when this
        document is the one that turned the import flag on. */
    method ConvertTopNodes(doc: seq<Node>) returns (res: Result<seq<Node>>)
      modifies this
      ensures var w := WalkTop(old(Walking()), doc, old(CurrentTables()));
        var added := w.Success? && w.value.0.imported && !old(macrosAreImported);
        res.Success? == w.Success?
        && (w.Success? ==> Walking() == w.value.0 && res.value == if added then InsertImport(w.value.1) else w.value.1)
      ensures old(Walking()) == WalkState(Fresh, false) ==> res == Walk.ConvertDocument(doc, old(CurrentTables()))
      ensures CurrentTables() == old(CurrentTables()) && templateUseFileName == old(templateUseFileName)
    {
      var importedBefore := macrosAreImported;
      var r := ConvertTopLevel(doc);
      if r.Failure? {
        return Failure;
      }
      res := Success(if macrosAreImported && !importedBefore then InsertImport(r.value) else r.value);
    }

    /** The macro part of preConvertAttributes (main.js:229-252): the tags holding converted macro
        attributes are recorded in the macro table, then the whole table's length of tags is
        replaced by numbered placeholders, then the macro parameters lose their `::`. */
    method PreConvertMacros(s: string) returns (r: string)
      modifies this
      ensures templateMacroAttributes == old(templateMacroAttributes) + MacroSection(s).table
      ensures r == FixAllParams(PlaceTags(MacroTwig(s), TemplateMacro, |templateMacroAttributes|))
      ensures old(templateMacroAttributes) == [] ==> r == MacroSection(s).text
      ensures State() == old(State()) && macrosAreImported == old(macrosAreImported)
      ensures templateCondAttributes == old(templateCondAttributes) && templateUseFileName == old(templateUseFileName)
      ensures FamiliesUnchanged()
    {
      var a := ReplaceAll(MacroAttrTemplo, s, MacroAttrTwig);
      a := ReplaceAll(MacroUsageTemplo, a, MacroUsageTwig);
      templateMacroAttributes := RecordTags(templateMacroAttributes, a);
      a := ReplaceTags(a, TemplateMacro, |templateMacroAttributes|);
      r := FixMacroParameters(a);
      MacroSectionIs(s);
    }

    /** The `::cond` part (main.js:254-268), recorded in the cond table. */
    method PreConvertConds(s: string) returns (r: string)
      modifies this
      ensures templateCondAttributes == old(templateCondAttributes) + CondSection(s).table
      ensures r == PlaceTags(ReplaceAll(CondTemplo, s, CondTwig), TemplateCond, |templateCondAttributes|)
      ensures old(templateCondAttributes) == [] ==> r == CondSection(s).text
      ensures State() == old(State()) && macrosAreImported == old(macrosAreImported)
      ensures templateMacroAttributes == old(templateMacroAttributes) && templateUseFileName == old(templateUseFileName)
      ensures FamiliesUnchanged()
    {
      var a := ReplaceAll(CondTemplo, s, CondTwig);
      templateCondAttributes := RecordTags(templateCondAttributes, a);
      r := ReplaceTags(a, TemplateCond, |templateCondAttributes|);
    }

    /** The `::use` part (main.js:270-282): the file name is recorded only when there is a
        `::use` directive; otherwise it keeps its value. */
    method PreConvertUse(s: string) returns (r: string)
      modifies this
      ensures r == UseSection(s).0
      ensures templateUseFileName == if Find(UseTemplo, s).Some? then UseSection(s).1 else old(templateUseFileName)
      ensures State() == old(State()) && macrosAreImported == old(macrosAreImported)
      ensures CurrentTables() == old(CurrentTables())
    {
      var useMatch := Find(UseTemplo, s);
      r := s;
      if useMatch.Some? {
        templateUseFileName := Group(useMatch.value, 2);
        r := ReplaceFirst(UseTemplo, r, UseTag);
        r := ReplaceFirst(LastEnd, r, HtmlClose);
      }
    }

    /** The table of an `::attr` family. */
    function FamilyAttributes(f: AttrFamily): seq<string>
      reads this
    {
      match f
      case ClassAttr => templateAttrClassAttributes
      case CheckedAttr => templateAttrCheckedAttributes
      case SelectedAttr => templateAttrSelectedAttributes
    }

    twostate predicate FamiliesUnchanged()
      reads this
    {
      templateAttrClassAttributes == old(templateAttrClassAttributes)
      && templateAttrCheckedAttributes == old(templateAttrCheckedAttributes)
      && templateAttrSelectedAttributes == old(templateAttrSelectedAttributes)
    }

    /** preConvertAttrAttributes (main.js:296-330): the family's directives become Twig, every
        `attr={{…}}` text is pushed onto the family's table and, only when there was one, the
        whole table's length of them is replaced by numbered placeholders. */
    method PreConvertAttrAttributes(s: string, f: AttrFamily) returns (r: string)
      modifies this
      ensures var a := ReplaceAll(FamilyTemplo(f), s, FamilyTwig(f));
        var ms := MatchTexts(AttrTwig(f), a);
        FamilyAttributes(f) == old(FamilyAttributes(f)) + ms
        && r == if ms == [] then a else PlaceAttrs(a, f, |FamilyAttributes(f)|)
      ensures old(FamilyAttributes(f)) == [] ==> r == AttrSection(s, f).text && FamilyAttributes(f) == AttrSection(s, f).table
      ensures forall g :: g != f ==> FamilyAttributes(g) == old(FamilyAttributes(g))
      ensures State() == old(State()) && macrosAreImported == old(macrosAreImported)
      ensures templateMacroAttributes == old(templateMacroAttributes) && templateCondAttributes == old(templateCondAttributes)
      ensures templateUseFileName == old(templateUseFileName)
    {
      var a := ReplaceAll(FamilyTemplo(f), s, FamilyTwig(f));
      var attrMatches := MatchTexts(AttrTwig(f), a);
      r := a;
      if attrMatches != [] {
        var table := FamilyAttributes(f) + attrMatches;
        match f {
          case ClassAttr => templateAttrClassAttributes := table;
          case CheckedAttr => templateAttrCheckedAttributes := table;
          case SelectedAttr => templateAttrSelectedAttributes := table;
        }
        r := ReplaceAttrs(a, f, |table|);
      }
      assert attrMatches == [] ==> PlaceAttrs(a, f, 0) == a;
    }

    /** The macro, cond and `::use` parts of preConvertAttributes (main.js:229-282) on empty
        tables. */
    method PreConvertTemplates(s: string) returns (r: string)
      modifies this
      requires templateMacroAttributes == [] && templateCondAttributes == [] && templateUseFileName == ""
      ensures var m := MacroSection(s); var c := CondSection(m.text); var u := UseSection(c.text);
        r == u.0 && templateMacroAttributes == m.table && templateCondAttributes == c.table
        && templateUseFileName == u.1
      ensures State() == old(State()) && macrosAreImported == old(macrosAreImported)
      ensures FamiliesUnchanged()
    {
      r := PreConvertMacros(s);
      r := PreConvertConds(r);
      UseNameWhenMissing(r);
      r := PreConvertUse(r);
    }

    /** The three `::attr` families of preConvertAttributes (main.js:284-291) on empty tables. */
    method PreConvertFamilies(s: string) returns (r: string)
      modifies this
      requires templateAttrClassAttributes == [] && templateAttrCheckedAttributes == []
      requires templateAttrSelectedAttributes == []
      ensures var k := AttrSection(s, ClassAttr); var h := AttrSection(k.text, CheckedAttr);
        var l := AttrSection(h.text, SelectedAttr);
        r == l.text && templateAttrClassAttributes == k.table
        && templateAttrCheckedAttributes == h.table && templateAttrSelectedAttributes == l.table
      ensures State() == old(State()) && macrosAreImported == old(macrosAreImported)
      ensures templateMacroAttributes == old(templateMacroAttributes) && templateCondAttributes == old(templateCondAttributes)
      ensures templateUseFileName == old(templateUseFileName)
    {
      r := PreConvertAttrAttributes(s, ClassAttr);
      r := PreConvertAttrAttributes(r, CheckedAttr);
      r := PreConvertAttrAttributes(r, SelectedAttr);
    }

    /** preConvertAttributes (main.js:228-294) at the start of a document: the text for the
        parser, the five tables and the `::use` file name are those of the functional pre-pass. */
    method PreConvertAttributes(s: string) returns (r: string)
      modifies this
      requires CurrentTables() == Tables([], [], [], [], []) && templateUseFileName == ""
      ensures PreResult(r, CurrentTables(), templateUseFileName) == PreConvert(s)
      ensures State() == old(State()) && macrosAreImported == old(macrosAreImported)
    {
      r := PreConvertTemplates(s);
      r := PreConvertFamilies(r);
    }

    /** main (main.js:504-537) on one file at the start of a run, with the parser and the
        serializer as parameters. A macro library keeps its converted definitions, as in
        PostPass.MainCorrected (as written they are overwritten, PostPass.MainAsWritten); any
        other file is pre-converted, parsed, walked, serialized and post-processed. */
    method ConvertFile(file: string, parse: string -> seq<Node>, serialize: seq<Node> -> string)
      returns (res: Result<string>)
      modifies this
      requires Walking() == WalkState(Fresh, false)
      requires CurrentTables() == Tables([], [], [], [], []) && templateUseFileName == ""
      ensures res == MainCorrected(file, parse, serialize)
    {
      if StartsWith(file, MacrosOpen) {
        var converted := ConvertMacroDefinitions(file);
        var out := PostProcess(converted, "");
        return Success(out);
      }
      var text := PreConvertAttributes(file);
      var nodes := ConvertTopNodes(parse(text));
      if nodes.Failure? {
        return Failure;
      }
      var out := PostProcess(serialize(nodes.value), templateUseFileName);
      res := Success(out);
    }
  }

  /** The text convertSwitch (main.js:410-414) leaves for a switch on cond: the cases converted by
      the corrected loop, then the switch directive erased; and the number of cases. */
  method SwitchText(value: string, cond: string) returns (r: string, pos: nat)
    ensures r == ReplaceFirst(SwitchTemplo, Cases(value, cond, 0, 0).0, "")
    ensures pos == Cases(value, cond, 0, 0).1 == CaseCount(value, 0)
  {
    var v;
    v, pos := ConvertCases(value, cond);
    r := ReplaceFirst(SwitchTemplo, v, "");
  }

  /** The corrected loop of convertSwitch (main.js:411-413) on the value and the recorded
      condition: each `::case::` directive is converted once, at positions 0, 1, ..., and the
      search resumes after the test just inserted. The count is the number of directives. */
  method ConvertCases(value: string, cond: string) returns (v: string, pos: nat)
    ensures (v, pos) == Cases(value, cond, 0, 0)
    ensures pos == CaseCount(value, 0)
  {
    ghost var target := Cases(value, cond, 0, 0);
    CasesCount(value, cond, 0, 0);
    pos := 0;
    v := value;
    var c: nat := 0;
    var next := NextCase(v, c);
    while next.Some?
      invariant c <= |v| && next == NextCase(v, c)
      invariant Cases(v, cond, pos, c) == target
      decreases |v| - c
    {
      v, c := ConvertCaseAt(v, cond, pos, c, next.value);
      pos := pos + 1;
      next := NextCase(v, c);
    }
    CasesDone(v, cond, pos, c);
  }

  /** One turn of the corrected loop: the directive k found from c becomes convertCase's test, and
      the search resumes after it, nearer the end of the text. */
  method ConvertCaseAt(v: string, cond: string, pos: nat, c: nat, k: nat) returns (v': string, c': nat)
    requires c <= |v| && NextCase(v, c) == Some(k)
    ensures c' <= |v'| && |v'| - c' < |v| - c
    ensures Cases(v, cond, pos, c) == Cases(v', cond, pos + 1, c')
  {
    var h := CaseTest(v, k, cond, pos);
    v', c' := CaseSplice(v, k, h), k + |h|;
    CasesAdvance(v, cond, pos, c, k, h, v', c');
  }

  lemma CasesDone(v: string, cond: string, pos: nat, c: nat)
    requires c <= |v| && NextCase(v, c).None?
    ensures Cases(v, cond, pos, c) == (v, pos)
  {
  }

  /** splitNodeByStatements (main.js:148-171) on a node value: the value and each rest from its
      next `::foreach`, `::if` or `::set` are collected, then every piece but the last loses the
      first occurrence of the next one's text. Creating the text nodes changes nothing else. */
  method SplitNodeByStatements(value: string) returns (pieces: seq<string>)
    ensures pieces == SplitValue(value)
  {
    if value == "" {
      return [];
    }
    var nodes := CollectSplits(value);
    pieces := TrimPieces(nodes);
  }

  /** The loop of main.js:153-161: the value, then each rest NextSplit finds. */
  method CollectSplits(value: string) returns (nodes: seq<string>)
    ensures nodes == Suffixes(value)
  {
    nodes := [value];
    var split := NextSplit(value);
    ghost var done: seq<string> := [];
    ghost var current := value;
    while split.Some?
      invariant nodes == done + [current]
      invariant Suffixes(value) == done + Suffixes(current)
      invariant split == NextSplit(current)
      decreases |current|
    {
      var next := split.value;
      SuffixesUnfold(current);
      SeqAssociative(done, [current], Suffixes(next));
      SeqAssociative(done, [current], [next]);
      done := done + [current];
      current := next;
      nodes := nodes + [next];
      split := NextSplit(next);
    }
    SuffixesUnfold(current);
  }

  lemma SuffixesUnfold(s: string)
    ensures NextSplit(s).None? ==> Suffixes(s) == [s]
    ensures NextSplit(s).Some? ==> Suffixes(s) == [s] + Suffixes(NextSplit(s).value)
  {
    NextSplitRest(s);
  }

  /** A prefix one longer is the prefix and the next element. */
  lemma PrefixGrows<T>(xs: seq<T>, i: nat)
    requires i < |xs|
    ensures xs[..i + 1] == xs[..i] + [xs[i]]
  {
  }

  lemma SeqAssociative<T>(a: seq<T>, b: seq<T>, c: seq<T>)
    ensures a + (b + c) == a + b + c
  {
  }

  /** The forEach of main.js:163-169: each piece but the last loses the first occurrence of the
      next piece's text, which has not been changed yet when it is read. */
  method TrimPieces(sfx: seq<string>) returns (pieces: seq<string>)
    ensures pieces == Pieces(sfx)
  {
    pieces := sfx;
    var i := 0;
    while i + 1 < |pieces|
      invariant |pieces| == |sfx| && i <= |pieces|
      invariant forall k :: 0 <= k < i ==> pieces[k] == Pieces(sfx)[k]
      invariant forall k :: i <= k < |pieces| ==> pieces[k] == sfx[k]
    {
      pieces := pieces[i := ReplaceFirstLit(pieces[i], pieces[i + 1], "")];
      i := i + 1;
    }
    assert forall k :: 0 <= k < |pieces| ==> pieces[k] == Pieces(sfx)[k];
  }

  /** checkAttributes' loop on an attribute list (main.js:180-211), for given tables: i advances
      after every attribute, also after a cond placeholder was removed and the next attribute
      has moved into its slot. */
  method CheckAttributeList(attrs: seq<Attr>, imported: bool, t: Tables) returns (res: Result<AttrPass>)
    ensures res == Walk.CheckAttributes(attrs, imported, t)
  {
    var p := AttrPass(attrs, [], [], imported);
    var i := 0;
    while i < |p.attrs|
      invariant CheckAttrs(p, i, t) == Walk.CheckAttributes(attrs, imported, t)
      decreases |p.attrs| - i
    {
      var a := p.attrs[i];
      if StartsWith(a.name, TemplateCond) {
        var condition := Lookup(t.conds, a.name[|TemplateCond|..]);
        if condition.None? {
          return Failure;
        }
        p := AttrPass(p.attrs[..i] + p.attrs[i + 1..], p.before + [Text(IfText(condition.value))],
                      [Text(EndIfText)] + p.after, p.imported);
      } else if StartsWith(a.name, TemplateMacro) {
        var name := Lookup(t.macros, a.name[|TemplateMacro|..]).GetOr(Undefined);
        p := p.(attrs := p.attrs[i := Attr(name, TemplateAttribute)], imported := true);
      } else if FamilyOf(a).Some? {
        var f := FamilyOf(a).value;
        var name := Lookup(FamilyTable(t, f), a.value[|TemplateAttr(f)|..]).GetOr(Undefined);
        p := p.(attrs := p.attrs[i := Attr(name, TemplateAttribute)]);
      } else if Test(PrintTemplo, a.value) {
        p := p.(attrs := p.attrs[i := Attr(a.name, ConvertPrint(a.value))]);
      }
      i := i + 1;
    }
    res := Success(p);
  }

  /** The result of the walk with the nodes done so far put in front. */
  function After(done: seq<Node>, r: Result<(WalkState, seq<Node>)>): Result<(WalkState, seq<Node>)> {
    match r
    case Failure => Failure
    case Success(b) => Success((b.0, done + b.1))
  }

  lemma WalkChildrenUnfold(st: WalkState, kids: seq<Node>, t: Tables)
    requires kids != []
    ensures WalkChildren(st, kids, t)
         == match WalkChild(st, kids[0], t)
            case Failure => Failure
            case Success(a) => After(a.1, WalkChildren(a.0, kids[1..], t))
  {
  }

  lemma AfterJoin(done: seq<Node>, a: seq<Node>, r: Result<(WalkState, seq<Node>)>)
    ensures After(done, After(a, r)) == After(done + a, r)
  {
    if r.Success? {
      assert done + (a + r.value.1) == done + a + r.value.1;
    }
  }

  lemma WalkPiecesUnfold(st: WalkState, pieces: seq<string>, macros: seq<string>)
    requires pieces != []
    ensures var a := WalkText(st, pieces[0], macros);
      var b := WalkPieces(a.0, pieces[1..], macros);
      WalkPieces(st, pieces, macros) == (b.0, a.1 + b.1)
  {
  }

  lemma AfterEmpty(r: Result<(WalkState, seq<Node>)>)
    ensures After([], r) == r
  {
    if r.Success? {
      assert [] + r.value.1 == r.value.1;
    }
  }

  /** The joined text of the pieces with the text joined so far put in front. */
  function Joined(joined: string, r: (WalkState, string)): (WalkState, string) {
    (r.0, joined + r.1)
  }

  lemma JoinedAssociative(joined: string, a: string, r: (WalkState, string))
    ensures Joined(joined, (r.0, a + r.1)) == Joined(joined + a, r)
  {
    assert joined + (a + r.1) == joined + a + r.1;
  }

  lemma WalkTextIs(st: WalkState, v: string, macros: seq<string>, c: Conv, r: string)
    requires (c, r) == Cascade(st.conv, v, macros)
    ensures WalkText(st, v, macros) == (WalkState(c, st.imported), r)
  {
  }

  /** One turn of the loop over the pieces: the piece's converted text joins the text so far. */
  lemma PiecesStep(target: (WalkState, string), joined: string, st: WalkState, pieces: seq<string>, i: nat,
                   macros: seq<string>, st2: WalkState, r: string)
    requires i < |pieces| && target == Joined(joined, WalkPieces(st, pieces[i..], macros))
    requires (st2, r) == WalkText(st, pieces[i], macros)
    ensures target == Joined(joined + r, WalkPieces(st2, pieces[i + 1..], macros))
  {
    WalkPiecesUnfold(st, pieces[i..], macros);
    assert pieces[i..][0] == pieces[i] && pieces[i..][1..] == pieces[i + 1..];
    JoinedAssociative(joined, r, WalkPieces(st2, pieces[i + 1..], macros));
  }

  lemma JoinedEnds(pieces: seq<string>, st: WalkState, macros: seq<string>)
    ensures Joined("", WalkPieces(st, pieces[0..], macros)) == WalkPieces(st, pieces, macros)
    ensures forall j: string :: Joined(j, WalkPieces(st, pieces[|pieces|..], macros)) == (st, j)
  {
    assert pieces[0..] == pieces;
    assert pieces[|pieces|..] == [];
    assert "" + WalkPieces(st, pieces, macros).1 == WalkPieces(st, pieces, macros).1;
    forall j: string
      ensures Joined(j, WalkPieces(st, pieces[|pieces|..], macros)) == (st, j)
    {
      assert j + "" == j;
    }
  }

  lemma WalkTopUnfold(st: WalkState, doc: seq<Node>, t: Tables)
    requires doc != []
    ensures WalkTop(st, doc, t)
         == match WalkNode(st, doc[0], t)
            case Failure => Failure
            case Success(a) => After(a.1, WalkTop(a.0, doc[1..], t))
  {
  }

  /** The text after the macro attributes and macro calls became Twig (main.js:231-234). */
  function MacroTwig(s: string): string {
    ReplaceAll(MacroUsageTemplo, ReplaceAll(MacroAttrTemplo, s, MacroAttrTwig), MacroUsageTwig)
  }

  /** The parameters of every `{{ macros.… }}` of c lose their `::` (main.js:249-252). */
  function FixAllParams(c: string): string {
    var ps := MatchTexts(MacroParameter, c);
    FixParams(c, ps, |ps|)
  }

  lemma MacroSectionIs(s: string)
    ensures MacroSection(s).table == TagEntries(MacroTwig(s))
    ensures MacroSection(s).text == FixAllParams(PlaceTags(MacroTwig(s), TemplateMacro, |TagEntries(MacroTwig(s))|))
  {
  }

  /** `matches.forEach(m => table.push(...))` (main.js:239-242, 260-263): the entry of every
      tag, in order, after those already recorded. */
  method RecordTags(table: seq<string>, s: string) returns (r: seq<string>)
    ensures r == table + TagEntries(s)
  {
    var matches := MatchTexts(TwigTag, s);
    r := table;
    var i := 0;
    while i < |matches|
      invariant i <= |matches| == |TagEntries(s)|
      invariant r == table + TagEntries(s)[..i]
    {
      assert TagEntries(s)[i] == TagEntry(matches[i]);
      r := r + [TagEntry(matches[i])];
      i := i + 1;
      PrefixGrows(TagEntries(s), i - 1);
    }
    assert TagEntries(s)[..|matches|] == TagEntries(s);
  }

  /** `table.forEach((_, i) => s = s.replace(tag, placeholder i))` (main.js:244-246, 265-267). */
  method ReplaceTags(s: string, prefix: string, n: nat) returns (r: string)
    ensures r == PlaceTags(s, prefix, n)
  {
    r := s;
    var i := 0;
    while i < n
      invariant i <= n && r == PlaceTags(s, prefix, i)
    {
      r := ReplaceFirst(TwigTag, r, "$1" + prefix + NatToString(i) + "='" + prefix + NatToString(i) + "'$2");
      i := i + 1;
    }
  }

  /** The forEach of main.js:250-252: each matched parameter text loses its `::` where it
      first occurs. */
  method FixMacroParameters(s: string) returns (r: string)
    ensures r == FixAllParams(s)
  {
    var ps := MatchTexts(MacroParameter, s);
    r := s;
    var i := 0;
    while i < |ps|
      invariant i <= |ps| && r == FixParams(s, ps, i)
    {
      r := ReplaceFirstLit(r, ps[i], RemoveTemploDoubleColon(ps[i]));
      i := i + 1;
    }
  }

  /** The placeholder loop of main.js:324-326. */
  method ReplaceAttrs(s: string, f: AttrFamily, n: nat) returns (r: string)
    ensures r == PlaceAttrs(s, f, n)
  {
    r := s;
    var i := 0;
    while i < n
      invariant i <= n && r == PlaceAttrs(s, f, i)
    {
      r := ReplaceFirst(AttrTwig(f), r, f.Name() + "=\"" + TemplateAttr(f) + NatToString(i) + "\"");
      i := i + 1;
    }
  }
}
