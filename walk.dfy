/** The walk of convertToTwig over a parsed document (main.js:74-146): attributes of every element
    are rewritten first (checkAttributes, main.js:179-212), a `::cond` placeholder wraps its
    element in if/endif text siblings (convertCondAttribute, main.js:216-224), text children are
    split before their statements and each piece is run through the directive cascade, and the
    macro import is put into the document once (importMacros, main.js:453-464). */
module Walk {
  import opened JsStrings
  import opened Patterns
  import opened Directives
  import opened TextConversion
  import opened Split

  /** An attribute of an element. */
  datatype Attr = Attr(name: string, value: string)

  /** The parsed document: a text node, or an element with its attributes and children. */
  datatype Node = Text(value: string) | Element(name: string, attrs: seq<Attr>, children: seq<Node>)

  /** The placeholder tables filled by the pre-pass (main.js:62-66), read while walking. */
  datatype Tables = Tables(macros: seq<string>, conds: seq<string>,
                           classes: seq<string>, checked: seq<string>, selected: seq<string>)

  function FamilyTable(t: Tables, f: AttrFamily): seq<string> {
    match f
    case ClassAttr => t.classes
    case CheckedAttr => t.checked
    case SelectedAttr => t.selected
  }

  /** The outcome of a conversion step that JavaScript may abort with a TypeError. */
  datatype Result<T> = Success(value: T) | Failure

  /** The value a converted macro or `::attr` attribute is given; the post-pass removes it. */
  const TemplateAttribute: string := "TEMPLATE_ATTRIBUTE"

  const EndIfText: string := "\n{% endif %}"

  const ImportText: string := "\n{% import 'macros.html' as macros %}"

  /** `condition.substring(3).slice(0, -3)` (main.js:217): the entry without its first three and
      last three characters. */
  function CondInner(c: string): string {
    var s := SubstringFrom(c, 3);
    if |s| >= 3 then s[..|s| - 3] else ""
  }

  function IfText(c: string): string {
    "{% if " + CondInner(c) + " %}\n"
  }

  /** The attributes of one element as checkAttributes leaves them, the text siblings its cond
      placeholders put before and after the element, and whether the macros are imported. */
  datatype AttrPass = AttrPass(attrs: seq<Attr>, before: seq<Node>, after: seq<Node>, imported: bool)

  /** The `::attr` family an attribute carries a placeholder of, if any (main.js:195-209). */
  function FamilyOf(a: Attr): Option<AttrFamily> {
    if a.name == "class" && StartsWith(a.value, TemplateAttr(ClassAttr)) then Some(ClassAttr)
    else if a.name == "checked" && StartsWith(a.value, TemplateAttr(CheckedAttr)) then Some(CheckedAttr)
    else if a.name == "selected" && StartsWith(a.value, TemplateAttr(SelectedAttr)) then Some(SelectedAttr)
    else None
  }

  /** One turn of the loop of checkAttributes (main.js:181-212) on the attribute at index i. A cond
      placeholder is removed (convertCondAttribute, main.js:222), which shifts the later
      attributes down by one. */
  function AttrStep(p: AttrPass, i: nat, t: Tables): (r: Result<AttrPass>)
    requires i < |p.attrs|
    ensures r.Success? ==> |r.value.attrs| <= |p.attrs|
  {
    var a := p.attrs[i];
    if StartsWith(a.name, TemplateCond) then
      match Lookup(t.conds, a.name[|TemplateCond|..])
      case None => Failure
      case Some(c) =>
        Success(AttrPass(p.attrs[..i] + p.attrs[i + 1..], p.before + [Text(IfText(c))],
                         [Text(EndIfText)] + p.after, p.imported))
    else if StartsWith(a.name, TemplateMacro) then
      var name := Lookup(t.macros, a.name[|TemplateMacro|..]).GetOr(Undefined);
      Success(p.(attrs := p.attrs[i := Attr(name, TemplateAttribute)], imported := true))
    else if FamilyOf(a).Some? then
      var f := FamilyOf(a).value;
      var name := Lookup(FamilyTable(t, f), a.value[|TemplateAttr(f)|..]).GetOr(Undefined);
      Success(p.(attrs := p.attrs[i := Attr(name, TemplateAttribute)]))
    else if Test(PrintTemplo, a.value) then
      Success(p.(attrs := p.attrs[i := Attr(a.name, ConvertPrint(a.value))]))
    else Success(p)
  }

  /** The loop of checkAttributes from index i on: i advances after every turn, so the attribute
      shifted into the slot of a removed cond placeholder is not examined. */
  function CheckAttrs(p: AttrPass, i: nat, t: Tables): Result<AttrPass>
    decreases |p.attrs| - i
  {
    if i >= |p.attrs| then Success(p)
    else
      match AttrStep(p, i, t)
      case Failure => Failure
      case Success(q) => CheckAttrs(q, i + 1, t)
  }

  /** checkAttributes on an element's attributes, given whether the macros are imported. */
  function CheckAttributes(attrs: seq<Attr>, imported: bool, t: Tables): Result<AttrPass> {
    CheckAttrs(AttrPass(attrs, [], [], imported), 0, t)
  }

  /** The part of the per-document state the walk changes. */
  datatype WalkState = WalkState(conv: Conv, imported: bool)

  /** The cascade on one text value. */
  function WalkText(st: WalkState, v: string, macros: seq<string>): (r: (WalkState, string))
    ensures r.0.imported == st.imported
  {
    var r := Cascade(st.conv, v, macros);
    (st.(conv := r.0), r.1)
  }

  /** The pieces of a split text child, converted in order and joined (main.js:134-140). */
  function WalkPieces(st: WalkState, pieces: seq<string>, macros: seq<string>): (r: (WalkState, string))
    ensures r.0.imported == st.imported
    decreases |pieces|
  {
    if pieces == [] then (st, "")
    else
      var a := WalkText(st, pieces[0], macros);
      var b := WalkPieces(a.0, pieces[1..], macros);
      (b.0, a.1 + b.1)
  }

  /** convertToTwig on a node: the node as it ends up, with the text siblings its cond
      placeholders put around it. */
  function WalkNode(st: WalkState, n: Node, t: Tables): Result<(WalkState, seq<Node>)>
    decreases n, 0
  {
    match n
    case Text(v) =>
      var r := WalkText(st, v, t.macros);
      Success((r.0, [Text(r.1)]))
    case Element(name, attrs, kids) =>
      match CheckAttributes(attrs, st.imported, t)
      case Failure => Failure
      case Success(p) =>
        match WalkChildren(st.(imported := p.imported), kids, t)
        case Failure => Failure
        case Success(r) => Success((r.0, p.before + [Element(name, p.attrs, r.1)] + p.after))
  }

  /** One child of an element (main.js:128-141): a text child with a value is split and its
      pieces converted one after the other; an empty text or an element is converted directly. */
  function WalkChild(st: WalkState, n: Node, t: Tables): Result<(WalkState, seq<Node>)>
    decreases n, 1
  {
    match n
    case Text(v) =>
      if v == "" then
        var r := WalkText(st, v, t.macros);
        Success((r.0, [Text(r.1)]))
      else
        var r := WalkPieces(st, SplitValue(v), t.macros);
        Success((r.0, [Text(r.1)]))
    case Element(_, _, _) => WalkNode(st, n, t)
  }

  /** The children of an element, in order; each child's result replaces it in the list. */
  function WalkChildren(st: WalkState, kids: seq<Node>, t: Tables): Result<(WalkState, seq<Node>)>
    decreases kids
  {
    if kids == [] then Success((st, []))
    else
      match WalkChild(st, kids[0], t)
      case Failure => Failure
      case Success(a) =>
        match WalkChildren(a.0, kids[1..], t)
        case Failure => Failure
        case Success(b) => Success((b.0, a.1 + b.1))
  }

  /** The top-level nodes of the document, each converted directly (main.js:517). */
  function WalkTop(st: WalkState, doc: seq<Node>, t: Tables): Result<(WalkState, seq<Node>)>
    decreases doc
  {
    if doc == [] then Success((st, []))
    else
      match WalkNode(st, doc[0], t)
      case Failure => Failure
      case Success(a) =>
        match WalkTop(a.0, doc[1..], t)
        case Failure => Failure
        case Success(b) => Success((b.0, a.1 + b.1))
  }

  /* ---------------------------------------------------------------- the macro import */

  /** The nodes with the import put first into the first `body` element in document order, and
      whether there was one. */
  function IntoFirstBody(nodes: seq<Node>): (seq<Node>, bool)
    decreases nodes
  {
    if nodes == [] then (nodes, false)
    else
      var a := IntoBody(nodes[0]);
      if a.1 then ([a.0] + nodes[1..], true)
      else
        var b := IntoFirstBody(nodes[1..]);
        ([nodes[0]] + b.0, b.1)
  }

  function IntoBody(n: Node): (Node, bool)
    decreases n
  {
    match n
    case Text(_) => (n, false)
    case Element(name, attrs, kids) =>
      if name == "body" then (Element(name, attrs, [Text(ImportText)] + kids), true)
      else
        var r := IntoFirstBody(kids);
        (Element(name, attrs, r.0), r.1)
  }

  /** importMacros (main.js:453-464): the import text becomes the first child of the first body
      element, or else of the document's first node. */
  function InsertImport(doc: seq<Node>): seq<Node> {
    var r := IntoFirstBody(doc);
    if r.1 then r.0
    else if doc != [] && doc[0].Element? then
      [doc[0].(children := [Text(ImportText)] + doc[0].children)] + doc[1..]
    else doc
  }

  /** The document after the walk: the import is added once when a macro attribute was met. */
  function ConvertDocument(doc: seq<Node>, t: Tables): Result<seq<Node>> {
    match WalkTop(WalkState(Fresh, false), doc, t)
    case Failure => Failure
    case Success(r) => Success(if r.0.imported then InsertImport(r.1) else r.1)
  }

  /* ---------------------------------------------------------------- checkAttributes */

  /** An attribute checkAttributes leaves alone: no placeholder name or value, no `::`. */
  predicate QuietAttr(a: Attr) {
    !StartsWith(a.name, TemplateCond) && !StartsWith(a.name, TemplateMacro) &&
    FamilyOf(a).None? && NoColon(a.value)
  }

  /** What one turn does to the attributes after i and to the import flag: a cond placeholder
      with an entry moves every later attribute down one slot; any other attribute is rewritten
      in its slot only, and only a macro placeholder turns the import flag on. */
  lemma AttrStepShape(p: AttrPass, i: nat, t: Tables)
    requires i < |p.attrs|
    ensures AttrStep(p, i, t).Failure? <==>
              StartsWith(p.attrs[i].name, TemplateCond) &&
              Lookup(t.conds, p.attrs[i].name[|TemplateCond|..]).None?
    ensures AttrStep(p, i, t).Success? ==>
              var q := AttrStep(p, i, t).value;
              q.imported == (p.imported || (!StartsWith(p.attrs[i].name, TemplateCond) &&
                                            StartsWith(p.attrs[i].name, TemplateMacro)))
    ensures AttrStep(p, i, t).Success? && StartsWith(p.attrs[i].name, TemplateCond) ==>
              var q := AttrStep(p, i, t).value;
              |q.attrs| + 1 == |p.attrs| && forall j :: i <= j < |q.attrs| ==> q.attrs[j] == p.attrs[j + 1]
    ensures AttrStep(p, i, t).Success? && !StartsWith(p.attrs[i].name, TemplateCond) ==>
              var q := AttrStep(p, i, t).value;
              |q.attrs| == |p.attrs| && q.before == p.before && q.after == p.after &&
              forall j :: 0 <= j < |q.attrs| && j != i ==> q.attrs[j] == p.attrs[j]
  {
  }

  /** Quiet attributes from i on pass unchanged. */
  lemma {:induction false} QuietAttrs(p: AttrPass, i: nat, t: Tables)
    requires forall j :: i <= j < |p.attrs| ==> QuietAttr(p.attrs[j])
    ensures CheckAttrs(p, i, t) == Success(p)
    decreases |p.attrs| - i
  {
    if i < |p.attrs| {
      assert Led(PrintTemplo, "::");
      ColonFreeUnmatched(PrintTemplo, "::", p.attrs[i].value);
      assert AttrStep(p, i, t) == Success(p);
      QuietAttrs(p, i + 1, t);
    }
  }

  /** The if text of a cond entry `{{ e }}` is `{% if e %}` and a newline. */
  lemma IfTextOfEntry(e: string)
    ensures IfText("{{ " + e + " }}") == "{% if " + e + " %}\n"
  {
    var c := "{{ " + e + " }}";
    assert SubstringFrom(c, 3) == e + " }}";
    assert (e + " }}")[..|e|] == e;
  }

  /** convertCondAttribute (main.js:216-224): a cond placeholder with a table entry wraps the
      element in the if text before it and the endif text after it, and is removed. The removal
      shifts the next attribute into its slot, so that attribute is not examined at all: it stays
      as it is even when it is a macro placeholder, and the import flag is left as it was. */
  lemma CondWraps(k: nat, x: string, rest: seq<Attr>, imported: bool, t: Tables)
    requires k < |t.conds|
    requires forall j :: 1 <= j < |rest| ==> QuietAttr(rest[j])
    ensures CheckAttributes([Attr(TemplateCond + NatToString(k), x)] + rest, imported, t)
         == Success(AttrPass(rest, [Text(IfText(t.conds[k]))], [Text(EndIfText)], imported))
  {
    var attrs := [Attr(TemplateCond + NatToString(k), x)] + rest;
    var p := AttrPass(attrs, [], [], imported);
    var name := attrs[0].name;
    assert StartsWith(name, TemplateCond);
    assert name[|TemplateCond|..] == NatToString(k);
    LookupPlaceholder(t.conds, k);
    assert attrs[..0] + attrs[1..] == rest;
    var q := AttrPass(rest, [Text(IfText(t.conds[k]))], [Text(EndIfText)], imported);
    assert p.before + [Text(IfText(t.conds[k]))] == q.before;
    assert [Text(EndIfText)] + p.after == q.after;
    assert AttrStep(p, 0, t) == Success(q);
    QuietAttrs(q, 1, t);
  }

  /** A cond placeholder whose index has no table entry makes `condition.substring` throw. */
  lemma CondMissing(k: nat, x: string, rest: seq<Attr>, imported: bool, t: Tables)
    requires k >= |t.conds|
    ensures CheckAttributes([Attr(TemplateCond + NatToString(k), x)] + rest, imported, t) == Failure
  {
    var name := TemplateCond + NatToString(k);
    assert StartsWith(name, TemplateCond);
    assert name[|TemplateCond|..] == NatToString(k);
    LookupPlaceholder(t.conds, k);
    assert AttrStep(AttrPass([Attr(name, x)] + rest, [], [], imported), 0, t) == Failure;
  }

  /** A macro placeholder attribute number k is renamed to macro table entry k (`undefined` past
      the end of the table), given the value the post-pass removes, and sets the import flag
      (main.js:187-192). */
  lemma MacroReadBack(k: nat, x: string, rest: seq<Attr>, imported: bool, t: Tables)
    requires forall j :: 0 <= j < |rest| ==> QuietAttr(rest[j])
    ensures CheckAttributes([Attr(TemplateMacro + NatToString(k), x)] + rest, imported, t)
         == Success(AttrPass([Attr(if k < |t.macros| then t.macros[k] else Undefined, TemplateAttribute)] + rest,
                             [], [], true))
  {
    var attrs := [Attr(TemplateMacro + NatToString(k), x)] + rest;
    var p := AttrPass(attrs, [], [], imported);
    var name := attrs[0].name;
    assert !StartsWith(name, TemplateCond) by {
      assert name[..|TemplateCond|][9] != TemplateCond[9];
    }
    assert StartsWith(name, TemplateMacro);
    assert name[|TemplateMacro|..] == NatToString(k);
    LookupPlaceholder(t.macros, k);
    var q := AttrPass(attrs[0 := Attr(if k < |t.macros| then t.macros[k] else Undefined, TemplateAttribute)],
                      [], [], true);
    assert AttrStep(p, 0, t) == Success(q);
    assert q.attrs == [Attr(if k < |t.macros| then t.macros[k] else Undefined, TemplateAttribute)] + rest;
    QuietAttrs(q, 1, t);
  }

  /** An `::attr` placeholder value number k of family f renames its attribute to entry k of that
      family's table and leaves the import flag alone (main.js:195-209). */
  lemma FamilyReadBack(f: AttrFamily, k: nat, rest: seq<Attr>, imported: bool, t: Tables)
    requires forall j :: 0 <= j < |rest| ==> QuietAttr(rest[j])
    ensures CheckAttributes([Attr(f.Name(), TemplateAttr(f) + NatToString(k))] + rest, imported, t)
         == Success(AttrPass([Attr(if k < |FamilyTable(t, f)| then FamilyTable(t, f)[k] else Undefined,
                                   TemplateAttribute)] + rest, [], [], imported))
  {
    var a := Attr(f.Name(), TemplateAttr(f) + NatToString(k));
    var attrs := [a] + rest;
    var p := AttrPass(attrs, [], [], imported);
    FamilyPlaceholderAttr(f, k);
    LookupPlaceholder(FamilyTable(t, f), k);
    var entry := if k < |FamilyTable(t, f)| then FamilyTable(t, f)[k] else Undefined;
    var q := AttrPass(attrs[0 := Attr(entry, TemplateAttribute)], [], [], imported);
    assert AttrStep(p, 0, t) == Success(q);
    assert q.attrs == [Attr(entry, TemplateAttribute)] + rest;
    QuietAttrs(q, 1, t);
  }

  /** An `::attr` placeholder attribute is read as its family's placeholder and nothing else. */
  lemma FamilyPlaceholderAttr(f: AttrFamily, k: nat)
    ensures var a := Attr(f.Name(), TemplateAttr(f) + NatToString(k));
      && !StartsWith(a.name, TemplateCond) && !StartsWith(a.name, TemplateMacro)
      && FamilyOf(a) == Some(f) && a.value[|TemplateAttr(f)|..] == NatToString(k)
  {
    var v := TemplateAttr(f) + NatToString(k);
    assert v[..|TemplateAttr(f)|] == TemplateAttr(f);
    assert v[|TemplateAttr(f)|..] == NatToString(k);
  }

  /** The import flag of checkAttributes only ever turns on, and only at a macro placeholder
      attribute from position i on. */
  lemma {:induction false} CheckAttrsImport(p: AttrPass, i: nat, t: Tables)
    requires CheckAttrs(p, i, t).Success?
    ensures p.imported ==> CheckAttrs(p, i, t).value.imported
    ensures CheckAttrs(p, i, t).value.imported && !p.imported ==>
              exists j :: i <= j < |p.attrs| && StartsWith(p.attrs[j].name, TemplateMacro)
    decreases |p.attrs| - i
  {
    if i < |p.attrs| {
      AttrStepShape(p, i, t);
      var q := AttrStep(p, i, t).value;
      CheckAttrsImport(q, i + 1, t);
      if CheckAttrs(q, i + 1, t).value.imported && !q.imported {
        var j :| i + 1 <= j < |q.attrs| && StartsWith(q.attrs[j].name, TemplateMacro);
        if StartsWith(p.attrs[i].name, TemplateCond) {
          assert q.attrs[j] == p.attrs[j + 1];
        } else {
          assert q.attrs[j] == p.attrs[j];
        }
      }
    }
  }

  /** Only a cond placeholder without a table entry makes checkAttributes fail; without cond
      placeholders the attributes keep their number and no sibling is added. */
  lemma {:induction false} CheckAttrsNoCondSucceeds(p: AttrPass, i: nat, t: Tables)
    requires forall j :: i <= j < |p.attrs| ==> !StartsWith(p.attrs[j].name, TemplateCond)
    ensures CheckAttrs(p, i, t).Success?
    ensures |CheckAttrs(p, i, t).value.attrs| == |p.attrs|
    ensures CheckAttrs(p, i, t).value.before == p.before && CheckAttrs(p, i, t).value.after == p.after
    decreases |p.attrs| - i
  {
    if i < |p.attrs| {
      AttrStepShape(p, i, t);
      var q := AttrStep(p, i, t).value;
      assert forall j :: i + 1 <= j < |q.attrs| ==> q.attrs[j] == p.attrs[j];
      CheckAttrsNoCondSucceeds(q, i + 1, t);
    }
  }

  /** Without cond placeholders nothing is skipped: a macro placeholder attribute from position i
      on always turns the import flag on, and a flag already on stays on. */
  lemma {:induction false} MacroAttrImports(p: AttrPass, i: nat, t: Tables)
    requires forall j :: i <= j < |p.attrs| ==> !StartsWith(p.attrs[j].name, TemplateCond)
    requires p.imported || exists j :: i <= j < |p.attrs| && StartsWith(p.attrs[j].name, TemplateMacro)
    ensures CheckAttrs(p, i, t).Success? && CheckAttrs(p, i, t).value.imported
    decreases |p.attrs| - i
  {
    if i < |p.attrs| {
      var q := NoCondStep(p, i, t);
      if !q.imported {
        var j :| i <= j < |p.attrs| && StartsWith(p.attrs[j].name, TemplateMacro);
        assert q.attrs[j] == p.attrs[j];
      }
      MacroAttrImports(q, i + 1, t);
    }
  }

  /** One turn on an attribute that is not a cond placeholder keeps the attributes after it. */
  lemma NoCondStep(p: AttrPass, i: nat, t: Tables) returns (q: AttrPass)
    requires i < |p.attrs| && !StartsWith(p.attrs[i].name, TemplateCond)
    requires forall j :: i <= j < |p.attrs| ==> !StartsWith(p.attrs[j].name, TemplateCond)
    ensures AttrStep(p, i, t) == Success(q) && CheckAttrs(p, i, t) == CheckAttrs(q, i + 1, t)
    ensures q.imported == (p.imported || StartsWith(p.attrs[i].name, TemplateMacro))
    ensures |q.attrs| == |p.attrs| && forall j :: i + 1 <= j < |q.attrs| ==> q.attrs[j] == p.attrs[j]
    ensures forall j :: i + 1 <= j < |q.attrs| ==> !StartsWith(q.attrs[j].name, TemplateCond)
  {
    AttrStepShape(p, i, t);
    q := AttrStep(p, i, t).value;
  }

  /* ---------------------------------------------------------------- the walk */

  /** A tree the walk leaves alone: quiet attributes, and text without `::` or a macro
      placeholder. */
  ghost predicate QuietTree(n: Node)
    decreases n
  {
    match n
    case Text(v) => NoColon(v) && !Contains(v, TemplateMacro)
    case Element(_, attrs, kids) =>
      (forall j :: 0 <= j < |attrs| ==> QuietAttr(attrs[j])) &&
      (forall j :: 0 <= j < |kids| ==> QuietTree(kids[j]))
  }

  /** A document without directives or placeholders is converted to itself, and the walk
      leaves the conversion state and the import flag as they were. */
  lemma {:induction false} WalkQuiet(st: WalkState, n: Node, t: Tables)
    requires QuietTree(n)
    ensures WalkNode(st, n, t) == Success((st, [n]))
    decreases n, 0
  {
    match n
    case Text(v) =>
      CascadeQuiet(st.conv, v, t.macros);
    case Element(name, attrs, kids) =>
      QuietAttrs(AttrPass(attrs, [], [], st.imported), 0, t);
      WalkChildrenQuiet(st, kids, t);
      assert [] + [Element(name, attrs, kids)] + [] == [n];
  }

  lemma {:induction false} WalkChildrenQuiet(st: WalkState, kids: seq<Node>, t: Tables)
    requires forall j :: 0 <= j < |kids| ==> QuietTree(kids[j])
    ensures WalkChildren(st, kids, t) == Success((st, kids))
    decreases kids
  {
    if kids != [] {
      var n := kids[0];
      var rest := kids[1..];
      assert QuietTree(n);
      assert WalkChild(st, n, t) == Success((st, [n])) by {
        if n.Text? {
          WalkChildQuietText(st, n.value, t);
        } else {
          WalkQuiet(st, n, t);
        }
      }
      assert WalkChildren(st, rest, t) == Success((st, rest)) by {
        assert forall j :: 0 <= j < |rest| ==> rest[j] == kids[j + 1];
        WalkChildrenQuiet(st, rest, t);
      }
      assert [n] + rest == kids;
    }
  }

  /** A quiet text child is one piece that the cascade leaves alone. */
  lemma WalkChildQuietText(st: WalkState, v: string, t: Tables)
    requires NoColon(v) && !Contains(v, TemplateMacro)
    ensures WalkChild(st, Text(v), t) == Success((st, [Text(v)]))
  {
    CascadeQuiet(st.conv, v, t.macros);
    if v != "" {
      NoColonNoStatement(v);
      SplitWithoutStatement(v);
      assert WalkPieces(st, [v], t.macros) == (st, v + "");
      assert v + "" == v;
    }
  }

  /** Some element of the tree carries a macro placeholder attribute. */
  ghost predicate HasMacroAttr(n: Node)
    decreases n
  {
    match n
    case Text(_) => false
    case Element(_, attrs, kids) =>
      (exists j :: 0 <= j < |attrs| && StartsWith(attrs[j].name, TemplateMacro)) ||
      (exists j :: 0 <= j < |kids| && HasMacroAttr(kids[j]))
  }

  /** The import flag (main.js:187-190, 463) never turns off during the walk, and it turns on
      only in a tree holding a macro placeholder attribute. */
  lemma {:induction false} WalkImport(st: WalkState, n: Node, t: Tables)
    requires WalkNode(st, n, t).Success?
    ensures st.imported ==> WalkNode(st, n, t).value.0.imported
    ensures WalkNode(st, n, t).value.0.imported && !st.imported ==> HasMacroAttr(n)
    decreases n, 0
  {
    match n
    case Text(_) =>
    case Element(name, attrs, kids) =>
      var p := CheckAttributes(attrs, st.imported, t).value;
      CheckAttrsImport(AttrPass(attrs, [], [], st.imported), 0, t);
      WalkChildrenImport(st.(imported := p.imported), kids, t);
  }

  lemma {:induction false} WalkChildrenImport(st: WalkState, kids: seq<Node>, t: Tables)
    requires WalkChildren(st, kids, t).Success?
    ensures st.imported ==> WalkChildren(st, kids, t).value.0.imported
    ensures WalkChildren(st, kids, t).value.0.imported && !st.imported ==>
              exists j :: 0 <= j < |kids| && HasMacroAttr(kids[j])
    decreases kids
  {
    if kids != [] {
      var n := kids[0];
      var a := WalkChild(st, n, t).value;
      if n.Element? {
        WalkImport(st, n, t);
      } else {
        assert a.0.imported == st.imported;
      }
      WalkChildrenImport(a.0, kids[1..], t);
      if WalkChildren(a.0, kids[1..], t).value.0.imported && !a.0.imported {
        var j :| 0 <= j < |kids[1..]| && HasMacroAttr(kids[1..][j]);
        assert kids[1..][j] == kids[j + 1];
      }
    }
  }

  lemma {:induction false} WalkTopImport(st: WalkState, doc: seq<Node>, t: Tables)
    requires WalkTop(st, doc, t).Success?
    ensures st.imported ==> WalkTop(st, doc, t).value.0.imported
    ensures WalkTop(st, doc, t).value.0.imported && !st.imported ==>
              exists j :: 0 <= j < |doc| && HasMacroAttr(doc[j])
    decreases doc
  {
    if doc != [] {
      var a := WalkNode(st, doc[0], t).value;
      WalkImport(st, doc[0], t);
      WalkTopImport(a.0, doc[1..], t);
      if WalkTop(a.0, doc[1..], t).value.0.imported && !a.0.imported {
        var j :| 0 <= j < |doc[1..]| && HasMacroAttr(doc[1..][j]);
        assert doc[1..][j] == doc[j + 1];
      }
    }
  }

  /* ---------------------------------------------------------------- import placement */

  /** The number of import text nodes in a tree. */
  function NodeImports(n: Node): nat
    decreases n, 1
  {
    match n
    case Text(v) => if v == ImportText then 1 else 0
    case Element(_, _, kids) => ImportsIn(kids)
  }

  function ImportsIn(nodes: seq<Node>): nat
    decreases nodes
  {
    if nodes == [] then 0 else NodeImports(nodes[0]) + ImportsIn(nodes[1..])
  }

  lemma {:induction false} ImportsInJoin(a: seq<Node>, b: seq<Node>)
    ensures ImportsIn(a + b) == ImportsIn(a) + ImportsIn(b)
    decreases a
  {
    if a != [] {
      assert (a + b)[1..] == a[1..] + b;
      ImportsInJoin(a[1..], b);
    } else {
      assert a + b == b;
    }
  }

  /** Some element of the tree is a `body` element. */
  ghost predicate HasBody(n: Node)
    decreases n
  {
    match n
    case Text(_) => false
    case Element(name, _, kids) => name == "body" || exists j :: 0 <= j < |kids| && HasBody(kids[j])
  }

  ghost predicate BodyIn(nodes: seq<Node>) {
    exists j :: 0 <= j < |nodes| && HasBody(nodes[j])
  }

  /** The import goes into a body exactly when there is one; it then adds exactly one import
      node, and otherwise the tree is unchanged. */
  lemma {:induction false} IntoFirstBodyCounts(nodes: seq<Node>)
    ensures IntoFirstBody(nodes).1 <==> BodyIn(nodes)
    ensures ImportsIn(IntoFirstBody(nodes).0) == ImportsIn(nodes) + if IntoFirstBody(nodes).1 then 1 else 0
    ensures !IntoFirstBody(nodes).1 ==> IntoFirstBody(nodes).0 == nodes
    decreases nodes
  {
    if nodes != [] {
      IntoBodyCounts(nodes[0]);
      var a := IntoBody(nodes[0]);
      IntoFirstBodyCounts(nodes[1..]);
      if a.1 {
        assert ([a.0] + nodes[1..])[1..] == nodes[1..];
      } else {
        var b := IntoFirstBody(nodes[1..]);
        assert ([nodes[0]] + b.0)[1..] == b.0;
        if BodyIn(nodes[1..]) {
          var j :| 0 <= j < |nodes[1..]| && HasBody(nodes[1..][j]);
          assert nodes[j + 1] == nodes[1..][j];
        }
        if BodyIn(nodes) {
          var j :| 0 <= j < |nodes| && HasBody(nodes[j]);
          assert j != 0;
          assert nodes[1..][j - 1] == nodes[j];
        }
        if !b.1 {
          assert [nodes[0]] + nodes[1..] == nodes;
        }
      }
    }
  }

  lemma {:induction false} IntoBodyCounts(n: Node)
    ensures IntoBody(n).1 <==> HasBody(n)
    ensures NodeImports(IntoBody(n).0) == NodeImports(n) + if IntoBody(n).1 then 1 else 0
    ensures !IntoBody(n).1 ==> IntoBody(n).0 == n
    decreases n
  {
    match n
    case Text(_) =>
    case Element(name, attrs, kids) =>
      if name == "body" {
        assert ([Text(ImportText)] + kids)[1..] == kids;
        assert ImportsIn([Text(ImportText)] + kids) == NodeImports(Text(ImportText)) + ImportsIn(kids);
      } else {
        IntoFirstBodyCounts(kids);
      }
  }

  /** importMacros adds at most one import node to the document, and exactly one when there is
      a body element or the document starts with an element. */
  lemma InsertImportOnce(doc: seq<Node>)
    ensures ImportsIn(InsertImport(doc)) <= ImportsIn(doc) + 1
    ensures BodyIn(doc) || (doc != [] && doc[0].Element?) ==> ImportsIn(InsertImport(doc)) == ImportsIn(doc) + 1
    ensures !BodyIn(doc) && doc != [] && doc[0].Element? ==>
              |InsertImport(doc)| == |doc| && InsertImport(doc)[1..] == doc[1..] &&
              InsertImport(doc)[0] == Element(doc[0].name, doc[0].attrs, [Text(ImportText)] + doc[0].children)
    ensures !BodyIn(doc) && !(doc != [] && doc[0].Element?) ==> InsertImport(doc) == doc
  {
    IntoFirstBodyCounts(doc);
    if !IntoFirstBody(doc).1 && doc != [] && doc[0].Element? {
      var e := doc[0];
      var kids := e.children;
      assert ([Text(ImportText)] + kids)[1..] == kids;
      assert ImportsIn([Text(ImportText)] + kids) == NodeImports(Text(ImportText)) + ImportsIn(kids);
      assert NodeImports(e.(children := [Text(ImportText)] + kids)) == NodeImports(e) + 1;
      assert ([e.(children := [Text(ImportText)] + kids)] + doc[1..])[1..] == doc[1..];
    }
  }

  /** The document conversion adds an import node only to a document with a macro placeholder
      attribute, and at most one. */
  lemma ConvertDocumentImport(doc: seq<Node>, t: Tables)
    requires ConvertDocument(doc, t).Success?
    ensures var walked := WalkTop(WalkState(Fresh, false), doc, t).value.1;
            var out := ConvertDocument(doc, t).value;
            ImportsIn(out) <= ImportsIn(walked) + 1 &&
            (ImportsIn(out) != ImportsIn(walked) ==> exists j :: 0 <= j < |doc| && HasMacroAttr(doc[j]))
  {
    WalkTopImport(WalkState(Fresh, false), doc, t);
    InsertImportOnce(WalkTop(WalkState(Fresh, false), doc, t).value.1);
  }
}
