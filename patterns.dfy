/** The regular expressions of the converter, written out as explicit matchers.

    Every matcher looks at a suffix t of the subject and says whether the expression matches at
    its first character: the length of that match and its capture groups, in the order
    JavaScript's backtracking would find them. Because a match is computed from the suffix, the
    match at position i of s depends on s[i..] alone, as it does for these expressions (none has
    a look-behind). Three rules of the JavaScript engine run through all of them:
    - `.` never matches a line terminator, so `.*` stays on one line (except under the `s` flag);
    - `.*` is greedy: `(.*)X` ends at the LAST X on the line for which the rest still matches;
    - `\s` also matches a line terminator.
    A `g` replace scans left to right and resumes at the end of each match; every expression here
    consumes at least one character, so no empty match ever needs skipping.
 */
module Patterns {
  import opened JsStrings

  /** A match at the start of a suffix: its length and its capture groups ($1, $2, ...). */
  datatype Hit = Hit(len: nat, caps: seq<string>)

  /** A match inside a whole string: [start, end) and the capture groups. */
  datatype Match = Match(start: nat, end: nat, caps: seq<string>)

  /** The three attribute directives of the `::attr` family. */
  datatype AttrFamily = ClassAttr | CheckedAttr | SelectedAttr {
    function Name(): string {
      match this
      case ClassAttr => "class"
      case CheckedAttr => "checked"
      case SelectedAttr => "selected"
    }
  }

  /** A regular expression, as the function that matches it at the start of a suffix. */
  type Regex = string -> Option<Hit>

  /** A pattern made of literal characters only. */
  function Literal(t: string, lit: string): (r: Option<Hit>)
    requires |lit| > 0
    ensures r.Some? ==> 0 < r.value.len <= |t|
    ensures r.Some? <==> StartsWith(t, lit)
  {
    if StartsWith(t, lit) then Some(Hit(|lit|, [])) else None
  }

  /** `head\s` at the start of t. */
  predicate HeadSpace(t: string, head: string) {
    StartsWith(t, head) && |head| < |t| && IsSpace(t[|head|])
  }

  /** The position of `delim` in `head\s.*delim`: the last delim on the line after the `\s`. */
  function DelimAfterHead(t: string, head: string, delim: string): (r: Option<nat>)
    requires |delim| > 0
    ensures r.Some? ==> HeadSpace(t, head) && |head| + 1 <= r.value && ContainsAt(t, r.value, delim)
  {
    if !HeadSpace(t, head) then None
    else LastAt(t, delim, |head| + 1, LineEnd(t, |head| + 1))
  }

  /** `(head\s)(.*)(delim)`. */
  function HeadDelim(t: string, head: string, delim: string): (r: Option<Hit>)
    requires |delim| > 0
    ensures r.Some? ==> 0 < r.value.len <= |t|
  {
    match DelimAfterHead(t, head, delim)
    case None => None
    case Some(q) => Some(Hit(q + |delim|, [t[..|head| + 1], t[|head| + 1..q], delim]))
  }

  /** `(::foreach\s)(.*)(\s)(.*)(::)`: the first `.*` ends at the last `\s` from which the second
      one can still reach a `::`; candidates are tried from a downwards. */
  function ForeachFrom(t: string, a: nat): (r: Option<Hit>)
    requires a < |t|
    ensures r.Some? ==> 0 < r.value.len <= |t|
    decreases a
  {
    if a < 10 then None
    else
      var here :=
        if IsSpace(t[a]) then
          match LastAt(t, "::", a + 1, LineEnd(t, a + 1))
          case Some(b) => Some(Hit(b + 2, [t[..10], t[10..a], t[a..a + 1], t[a + 1..b], "::"]))
          case None => None
        else None;
      if here.Some? then here
      else if a == 10 then None
      else ForeachFrom(t, a - 1)
  }

  function Foreach(t: string): (r: Option<Hit>)
    ensures r.Some? ==> 0 < r.value.len <= |t|
  {
    if !HeadSpace(t, "::foreach") || |t| <= 10 then None
    else
      var le := LineEnd(t, 10);
      ForeachFrom(t, if le < |t| then le else |t| - 1)
  }

  /** `::case::\s+(.*)`: the whitespace run is taken whole, the group runs to the end of the line
      it then stands on. */
  function Case(t: string): (r: Option<Hit>)
    ensures r.Some? ==> 0 < r.value.len <= |t|
    ensures r.Some? <==> HeadSpace(t, "::case::")
  {
    if !HeadSpace(t, "::case::") then None
    else
      var w := SpaceRunEnd(t, 8);
      var e := LineEnd(t, w);
      Some(Hit(e, [t[w..e]]))
  }

  /** `(::)(.*)(::)`. */
  function Print(t: string): (r: Option<Hit>)
    ensures r.Some? ==> 0 < r.value.len <= |t|
  {
    if !StartsWith(t, "::") then None
    else
      match LastAt(t, "::", 2, LineEnd(t, 2))
      case None => None
      case Some(q) => Some(Hit(q + 2, ["::", t[2..q], "::"]))
  }

  /** `(::switch\s)(.*)::` with the single group `(.*)`. */
  function Switch(t: string): (r: Option<Hit>)
    ensures r.Some? ==> 0 < r.value.len <= |t|
  {
    match DelimAfterHead(t, "::switch", "::")
    case None => None
    case Some(q) => Some(Hit(q + 2, [t[9..q]]))
  }

  /** `::raw\s__content__::`. */
  function RawContent(t: string): (r: Option<Hit>)
    ensures r.Some? ==> 0 < r.value.len <= |t|
  {
    if HeadSpace(t, "::raw") && ContainsAt(t, 6, "__content__::") then Some(Hit(19, [])) else None
  }

  /** `(\$\$)(\w+)(\(.*\))`. */
  function MacroUsage(t: string): (r: Option<Hit>)
    ensures r.Some? ==> 0 < r.value.len <= |t|
  {
    if !StartsWith(t, "$$") then None
    else
      var n := WordRunEnd(t, 2);
      if n == 2 || n >= |t| || t[n] != '(' then None
      else
        match LastAt(t, ")", n + 1, LineEnd(t, n + 1))
        case None => None
        case Some(q) => Some(Hit(q + 1, ["$$", t[2..n], t[n..q + 1]]))
  }

  /** Where the pieces of the MACRO_ATTR expression end once its attribute list is matched. */
  datatype AttrRun = AttrRun(lastAttr: Option<(nat, nat)>, lastValue: Option<(nat, nat)>,
                             callStart: nat, nameEnd: nat, argsEnd: nat, end: nat)

  predicate SpanIn(o: Option<(nat, nat)>, t: string) {
    o.Some? ==> o.value.0 <= o.value.1 <= |t|
  }

  function Span(t: string, o: Option<(nat, nat)>): string {
    if o.Some? && o.value.0 <= o.value.1 <= |t| then t[o.value.0..o.value.1] else ""
  }

  predicate RunIn(r: AttrRun, t: string, i: nat) {
    i <= r.callStart && r.callStart + 2 < r.nameEnd < r.argsEnd < r.end <= |t|
    && ContainsAt(t, r.callStart, "$$") && SpanIn(r.lastAttr, t) && SpanIn(r.lastValue, t)
  }

  /** The call `(\$\$)(\w+)(\(.*\))(.*>)` at position i: where the name, the arguments and the
      match end. The `)` is the last one on the line that still has a `>` after it. */
  function CallTail(t: string, i: nat): (r: Option<(nat, nat, nat)>)
    requires i <= |t|
    ensures r.Some? ==> i + 2 < r.value.0 < r.value.1 < r.value.2 <= |t| && ContainsAt(t, i, "$$")
  {
    if !ContainsAt(t, i, "$$") then None
    else
      var n := WordRunEnd(t, i + 2);
      if n == i + 2 || n >= |t| || t[n] != '(' then None
      else
        match LastAt(t, ">", n + 2, LineEnd(t, n + 1))
        case None => None
        case Some(r) =>
          match LastAt(t, ")", n + 1, r - 1)
          case None => None
          case Some(q) => Some((n, q + 1, r + 1))
  }

  /** `(\w+(=".*")*\s)*` followed by the call, from position i: one more attribute is tried
      before the call (the star is greedy). */
  function AttrStar(t: string, i: nat, lastAttr: Option<(nat, nat)>, lastValue: Option<(nat, nat)>): (r: Option<AttrRun>)
    requires i <= |t| && SpanIn(lastAttr, t) && SpanIn(lastValue, t)
    ensures r.Some? ==> RunIn(r.value, t, i)
    decreases |t| - i, 2, 0
  {
    var w := WordRunEnd(t, i);
    var more := if w > i then AttrValues(t, i, w) else None;
    if more.Some? then more
    else
      match CallTail(t, i)
      case None => None
      case Some((n, a, e)) => Some(AttrRun(lastAttr, lastValue, i, n, a, e))
  }

  /** The attribute that started at `start` has its name up to j; `(=".*")*` is tried (each
      quoted value greedy), then the `\s` that ends the attribute. */
  function AttrValues(t: string, start: nat, j: nat, lastValue: Option<(nat, nat)> := None): (r: Option<AttrRun>)
    requires start < j <= |t| && SpanIn(lastValue, t)
    ensures r.Some? ==> RunIn(r.value, t, j)
    decreases |t| - j, 1, 0
  {
    var quoted := if ContainsAt(t, j, "=\"") then AttrValueClose(t, start, j, LineEnd(t, j + 2)) else None;
    if quoted.Some? then quoted
    else if j < |t| && IsSpace(t[j]) then AttrStar(t, j + 1, Some((start, j + 1)), lastValue)
    else None
  }

  /** The closing quote of `=".*"` opened at j, tried from position q downwards. */
  function AttrValueClose(t: string, start: nat, j: nat, q: nat): (r: Option<AttrRun>)
    requires start < j && j + 2 <= |t| && q <= |t|
    ensures r.Some? ==> RunIn(r.value, t, j)
    decreases |t| - j, 0, q
  {
    if q < j + 2 then None
    else
      var here := if q < |t| && t[q] == '"' then AttrValues(t, start, q + 1, Some((j, q + 1))) else None;
      if here.Some? then here
      else if q == j + 2 then None
      else AttrValueClose(t, start, j, q - 1)
  }

  /** `(<\w+\s)(\w+(=".*")*\s)*(\$\$)(\w+)(\(.*\))(.*>)`. */
  function MacroAttr(t: string): (r: Option<Hit>)
    ensures r.Some? ==> 0 < r.value.len <= |t|
  {
    if !StartsWith(t, "<") then None
    else
      var k := WordRunEnd(t, 1);
      if k == 1 || k >= |t| || !IsSpace(t[k]) then None
      else
        match AttrStar(t, k + 1, None, None)
        case None => None
        case Some(run) =>
          Some(Hit(run.end, [t[..k + 1], Span(t, run.lastAttr), Span(t, run.lastValue), "$$",
                             t[run.callStart + 2..run.nameEnd], t[run.nameEnd..run.argsEnd],
                             t[run.argsEnd..run.end]]))
  }

  /** `::attr\sclass\sif\((.*)\)\s+(.*)(::>)`: the `)` candidates are tried from q downwards;
      the `\s+` run is taken whole (a shorter run cannot reach a `::>` that the whole run misses). */
  function AttrClassFrom(t: string, q: nat): (r: Option<Hit>)
    requires q <= |t|
    ensures r.Some? ==> 0 < r.value.len <= |t|
    decreases q
  {
    if q < 16 then None
    else
      var here :=
        if q + 1 < |t| && t[q] == ')' && IsSpace(t[q + 1]) then
          var w := SpaceRunEnd(t, q + 1);
          match LastAt(t, "::>", w, LineEnd(t, w))
          case Some(e) => Some(Hit(e + 3, [t[16..q], t[w..e], "::>"]))
          case None => None
        else None;
      if here.Some? then here
      else if q == 16 then None
      else AttrClassFrom(t, q - 1)
  }

  function AttrClass(t: string): (r: Option<Hit>)
    ensures r.Some? ==> 0 < r.value.len <= |t|
  {
    if HeadSpace(t, "::attr") && ContainsAt(t, 7, "class") && 12 < |t| && IsSpace(t[12]) && ContainsAt(t, 13, "if(")
    then AttrClassFrom(t, LineEnd(t, 16))
    else None
  }

  /** `::attr\sword\s\((.*)\)::` for word `checked` or `selected`. */
  function AttrFlag(t: string, word: string): (r: Option<Hit>)
    ensures r.Some? ==> 0 < r.value.len <= |t|
  {
    var from := |word| + 9;
    if HeadSpace(t, "::attr") && ContainsAt(t, 7, word) && |word| + 7 < |t| && IsSpace(t[|word| + 7])
       && ContainsAt(t, |word| + 8, "(")
    then
      match LastAt(t, ")::", from, LineEnd(t, from))
      case None => None
      case Some(q) => Some(Hit(q + 3, [t[from..q]]))
    else None
  }

  /** The last `!` before position hi that has a character other than `=` after it. */
  function LastBang(t: string, hi: nat): (r: Option<nat>)
    requires hi <= |t|
    ensures r.Some? ==> r.value < hi && r.value + 1 < |t| && t[r.value] == '!' && t[r.value + 1] != '='
    ensures r.Some? ==> forall k :: r.value < k < hi ==> !(t[k] == '!' && k + 1 < |t| && t[k + 1] != '=')
    ensures r.None? ==> forall k :: 0 <= k < hi ==> !(t[k] == '!' && k + 1 < |t| && t[k + 1] != '=')
    decreases hi
  {
    if hi == 0 then None
    else if t[hi - 1] == '!' && hi < |t| && t[hi] != '=' then Some(hi - 1)
    else LastBang(t, hi - 1)
  }

  /** A `!` at q followed by a character other than `=`, after which every `!` below hi starts a
      `!=`, is the one LastBang finds. */
  lemma {:induction false} LastBangIs(t: string, hi: nat, q: nat)
    requires q < hi <= |t| && q + 1 < |t| && t[q] == '!' && t[q + 1] != '='
    requires forall j :: q < j < hi && t[j] == '!' ==> j + 1 < |t| && t[j + 1] == '='
    ensures LastBang(t, hi) == Some(q)
    decreases hi
  {
    if hi - 1 > q {
      LastBangIs(t, hi - 1, q);
    }
  }

  /** `(.*)(!)([^=].*)`: the last such `!` on the line; `[^=]` may be a line terminator, and the
      final `.*` then runs on the next line. */
  function Not(t: string): (r: Option<Hit>)
    ensures r.Some? ==> 0 < r.value.len <= |t|
  {
    match LastBang(t, LineEnd(t, 0))
    case None => None
    case Some(q) =>
      var e := LineEnd(t, q + 2);
      Some(Hit(e, [t[..q], "!", t[q + 1..e]]))
  }

  /** `(.*)(op)(.*)`: the last op on the line. */
  function Operator(t: string, op: string): (r: Option<Hit>)
    requires |op| == 2
    ensures r.Some? ==> 0 < r.value.len <= |t|
  {
    match LastAt(t, op, 0, LineEnd(t, 0))
    case None => None
    case Some(q) =>
      var e := LineEnd(t, q + 2);
      Some(Hit(e, [t[..q], op, t[q + 2..e]]))
  }

  /** `<macro name=\"(.+)\">`. */
  function MacroStart(t: string): (r: Option<Hit>)
    ensures r.Some? ==> 0 < r.value.len <= |t|
  {
    if !StartsWith(t, "<macro name=\"") || |t| < 14 then None
    else
      match LastAt(t, "\">", 14, LineEnd(t, 13))
      case None => None
      case Some(q) => Some(Hit(q + 2, [t[13..q]]))
  }

  /** The positions (a, b, c) of `{{`, `}}` and `>` in `<.*{{.*}}.*>`: c is the last `>` of the
      line, b the last `}}` before it, a the last `{{` before that. */
  function TwigTagAt(t: string): (r: Option<(nat, nat, nat)>)
    ensures r.Some? ==> 1 <= r.value.0 && r.value.0 + 2 <= r.value.1 && r.value.1 + 2 <= r.value.2 < |t|
  {
    if !StartsWith(t, "<") then None
    else
      match LastAt(t, ">", 1, LineEnd(t, 1))
      case None => None
      case Some(c) =>
        if c < 5 then None
        else
          match LastAt(t, "}}", 3, c - 2)
          case None => None
          case Some(b) =>
            match LastAt(t, "{{", 1, b - 2)
            case None => None
            case Some(a) => Some((a, b, c))
  }

  /** The largest q in [lo, hi] holding a `\s` followed by lit. */
  function LastSpaceThen(t: string, lit: string, lo: nat, hi: nat): (r: Option<nat>)
    ensures r.Some? ==> lo <= r.value <= hi && r.value < |t| && IsSpace(t[r.value]) && ContainsAt(t, r.value + 1, lit)
    decreases hi
  {
    if hi < lo then None
    else if hi < |t| && IsSpace(t[hi]) && ContainsAt(t, hi + 1, lit) then Some(hi)
    else if hi == lo then None
    else LastSpaceThen(t, lit, lo, hi - 1)
  }

  /** `{{\smacros\..*\s}}`. */
  function MacroParameterAt(t: string): (r: Option<Hit>)
    ensures r.Some? ==> 0 < r.value.len <= |t|
  {
    if HeadSpace(t, "{{") && ContainsAt(t, 3, "macros.") then
      match LastSpaceThen(t, "}}", 10, LineEnd(t, 10))
      case None => None
      case Some(q) => Some(Hit(q + 3, []))
    else None
  }

  /** `${attr}={{.*}}`. */
  function AttrTwigAt(t: string, attr: string): (r: Option<Hit>)
    ensures r.Some? ==> 0 < r.value.len <= |t|
  {
    var head := attr + "={{";
    if !StartsWith(t, head) then None
    else
      match LastAt(t, "}}", |head|, LineEnd(t, |head|))
      case None => None
      case Some(q) => Some(Hit(q + 2, []))
  }

  /** The statement keyword that starts at position k, if any: `::foreach`, `::if` or `::set`. */
  function StatementKeyword(t: string, k: nat): Option<string> {
    if ContainsAt(t, k, "::foreach") then Some("foreach")
    else if ContainsAt(t, k, "::if") then Some("if")
    else if ContainsAt(t, k, "::set") then Some("set")
    else None
  }

  /** The first position at or after k where a statement keyword starts. */
  function NextStatement(t: string, k: nat): (r: Option<nat>)
    ensures r.Some? ==> k <= r.value < |t| && StatementKeyword(t, r.value).Some?
    ensures r.Some? ==> forall j :: k <= j < r.value ==> StatementKeyword(t, j).None?
    ensures r.None? ==> forall j :: k <= j ==> StatementKeyword(t, j).None?
    decreases |t| - k
  {
    if k >= |t| then None
    else if StatementKeyword(t, k).Some? then Some(k)
    else NextStatement(t, k + 1)
  }

  /** `.+?(?=::(foreach|if|set))(.*)` under the `s` flag: the lazy `.+?` stops before the first
      keyword after the first character, and the group `(.*)` takes everything from there. */
  function StatementAheadAt(t: string): (r: Option<Hit>)
    ensures r.Some? ==> 0 < r.value.len <= |t|
  {
    match NextStatement(t, 1)
    case None => None
    case Some(k) => Some(Hit(|t|, [StatementKeyword(t, k).value, t[k..]]))
  }

  /** `<div\smacro="macro">\s({{\smacros.insert(.*)\s}})\s<\/div>`: the position y of the `\s`
      before `}}`, the last one from which `}}\s</div>` follows. */
  function LastDivClose(t: string, lo: nat, hi: nat): (r: Option<nat>)
    ensures r.Some? ==> lo <= r.value && r.value + 10 <= |t|
    decreases hi
  {
    if hi < lo then None
    else if hi + 3 < |t| && IsSpace(t[hi]) && ContainsAt(t, hi + 1, "}}") && IsSpace(t[hi + 3])
            && ContainsAt(t, hi + 4, "</div>")
    then Some(hi)
    else if hi == lo then None
    else LastDivClose(t, lo, hi - 1)
  }

  function DivAroundMacroAt(t: string): (r: Option<Hit>)
    ensures r.Some? ==> 0 < r.value.len <= |t|
  {
    if HeadSpace(t, "<div") && ContainsAt(t, 5, "macro=\"macro\">") && 29 < |t| && IsSpace(t[19])
       && ContainsAt(t, 20, "{{") && IsSpace(t[22]) && ContainsAt(t, 23, "macros")
       && !IsLineTerminator(t[29]) && ContainsAt(t, 30, "insert")
    then
      match LastDivClose(t, 36, LineEnd(t, 36))
      case None => None
      case Some(y) => Some(Hit(y + 10, [t[20..y + 3], t[36..y]]))
    else None
  }

  /** `(<.*){{.*}}(.*>)`: the text up to the tag's opening and the rest of the tag. */
  function TwigTagHit(t: string): (r: Option<Hit>)
    ensures r.Some? ==> 0 < r.value.len <= |t|
  {
    match TwigTagAt(t)
    case None => None
    case Some((a, b, c)) => Some(Hit(c + 1, [t[..a], t[b + 2..c + 1]]))
  }

  /** `<.*({{.*}}).*>`: the `{{ ... }}` expression of the tag. */
  function TwigTagExpressionHit(t: string): (r: Option<Hit>)
    ensures r.Some? ==> 0 < r.value.len <= |t|
  {
    match TwigTagAt(t)
    case None => None
    case Some((a, b, c)) => Some(Hit(c + 1, [t[a..b + 2]]))
  }

  /** `::end::(?![\s\S]*::end::)`: the last `::end::` of the text. */
  function LastEndAt(t: string): (r: Option<Hit>)
    ensures r.Some? ==> 0 < r.value.len <= |t|
  {
    if StartsWith(t, "::end::") && IndexOfFrom(t, "::end::", 7).None? then Some(Hit(7, [])) else None
  }

  /** A pattern made of literal characters: `/::/g`, `/::else::/g`, `/<\/macro>/g`, ... */
  function LiteralRe(lit: string): Regex
    requires |lit| > 0
  {
    t => Literal(t, lit)
  }

  /* ---------------------------------------------------------------- the expressions */

  const IfTemplo: Regex := t => HeadDelim(t, "::if", "::")            // /(::if\s)(.*)(::)/g
  const ElseIfTemplo: Regex := t => HeadDelim(t, "::elseif", "::")    // /(::elseif\s)(.*)(::)/g
  const ElseTemplo: Regex := LiteralRe("::else::")                    // /::else::/g
  const EndTemplo: Regex := LiteralRe("::end::")                      // /::end::/
  const ForeachTemplo: Regex := Foreach                               // /(::foreach\s)(.*)(\s)(.*)(::)/g
  const RawTemplo: Regex := t => HeadDelim(t, "::raw", "::")          // /(::raw\s)(.*)(::)/g
  const RawContentTemplo: Regex := RawContent                         // /::raw\s__content__::/g
  const FillTemplo: Regex := t => HeadDelim(t, "::fill", "::")        // /(::fill\s)(.*)(::)/g
  const SetTemplo: Regex := t => HeadDelim(t, "::set", "::")          // /(::set\s)(.*)(::)/g
  const UseTemplo: Regex := t => HeadDelim(t, "::use", "::")          // /(::use\s)(.*)(::)/
  const SwitchTemplo: Regex := Switch                                 // /::switch\s(.*)::/
  const CaseTemplo: Regex := Case                                     // /::case::\s+(.*)/
  const PrintTemplo: Regex := Print                                   // /(::)(.*)(::)/g
  const MacroUsageTemplo: Regex := MacroUsage                         // /(\$\$)(\w+)(\(.*\))/g
  const MacroAttrTemplo: Regex := MacroAttr                           // /(<\w+\s)(\w+(=".*")*\s)*(\$\$)(\w+)(\(.*\))(.*>)/g
  const CondTemplo: Regex := t => HeadDelim(t, "::cond", "::")        // /(::cond\s)(.*)(::)/g
  const AttrClassTemplo: Regex := AttrClass                           // /::attr\sclass\sif\((.*)\)\s+(.*)(::>)/g
  const AttrCheckedTemplo: Regex := t => AttrFlag(t, "checked")       // /::attr\schecked\s\((.*)\)::/g
  const AttrSelectedTemplo: Regex := t => AttrFlag(t, "selected")     // /::attr\sselected\s\((.*)\)::/g
  const NotTemplo: Regex := Not                                       // /(.*)(!)([^=].*)/g
  const AndTemplo: Regex := t => Operator(t, "&&")                    // /(.*)(&&)(.*)/g
  const OrTemplo: Regex := t => Operator(t, "||")                     // /(.*)(\|\|)(.*)/g
  const MacroStartTag: Regex := MacroStart                            // /<macro name=\"(.+)\">/g
  const MacroEndTag: Regex := LiteralRe("</macro>")                   // /<\/macro>/g
  const MacrosStartTag: Regex := LiteralRe("<macros>")                // /<macros>/
  const MacrosEndTag: Regex := LiteralRe("</macros>")                 // /<\/macros>/
  const TwigTag: Regex := TwigTagHit                                  // /(<.*){{.*}}(.*>)/ and its g form
  const TwigTagExpression: Regex := TwigTagExpressionHit              // /<.*({{.*}}).*>/
  const MacroParameter: Regex := MacroParameterAt                     // /{{\smacros\..*\s}}/g
  const StatementAhead: Regex := StatementAheadAt                     // /.+?(?=::(foreach|if|set))(.*)/s
  const LastEnd: Regex := LastEndAt                                   // /::end::(?![\s\S]*::end::)/
  const DivAroundMacro: Regex := DivAroundMacroAt                     // /<div\smacro="macro">\s({{\smacros.insert(.*)\s}})\s<\/div>/g
  const DoubleColon: Regex := LiteralRe("::")                         // /::/g

  /** new RegExp(`${attr}={{.*}}`) and its g form, for attr one of the `::attr` family. */
  function AttrTwig(f: AttrFamily): Regex {
    t => AttrTwigAt(t, f.Name())
  }

  /* ---------------------------------------------------------------- searching and replacing */

  /** The match of re at position i of s. Every matcher above promises a non-empty hit inside its
      subject (its ensures clause); the guard keeps MatchAt total for any function. */
  function MatchAt(re: Regex, s: string, i: nat): (r: Option<Match>)
    requires i <= |s|
    ensures r.Some? ==> r.value.start == i < r.value.end <= |s|
  {
    match re(s[i..])
    case None => None
    case Some(h) => if 0 < h.len <= |s| - i then Some(Match(i, i + h.len, h.caps)) else None
  }

  /** The leftmost match of re starting at or after i (a `g` expression's search from lastIndex i). */
  function FindFrom(re: Regex, s: string, i: nat): (r: Option<Match>)
    requires i <= |s|
    ensures r.Some? ==> i <= r.value.start < r.value.end <= |s|
    decreases |s| - i
  {
    if i == |s| then None
    else
      match MatchAt(re, s, i)
      case Some(m) => Some(m)
      case None => FindFrom(re, s, i + 1)
  }

  /** FindFrom finds the first position at or after i where re matches, or reports that there is
      none. */
  lemma {:induction false} FindFromSpec(re: Regex, s: string, i: nat)
    requires i <= |s|
    ensures var r := FindFrom(re, s, i);
      && (r.Some? ==> MatchAt(re, s, r.value.start) == r)
      && (r.Some? ==> forall k :: i <= k < r.value.start ==> MatchAt(re, s, k).None?)
      && (r.None? ==> forall k :: i <= k <= |s| ==> MatchAt(re, s, k).None?)
    decreases |s| - i
  {
    if i == |s| {
      assert MatchAt(re, s, i).None?;
    } else {
      FindFromSpec(re, s, i + 1);
    }
  }

  function Find(re: Regex, s: string): Option<Match> {
    FindFrom(re, s, 0)
  }

  /** `regex.test(s)`. */
  predicate Test(re: Regex, s: string) {
    Find(re, s).Some?
  }

  /** The replacement string of one match, with its `$` patterns expanded. */
  function Expand(rep: string, m: Match, s: string): string
    requires m.start <= m.end <= |s|
  {
    Substitute(rep, m.caps, s[m.start..m.end], s[..m.start], s[m.end..])
  }

  /** `s.replace(regex, rep)` without the `g` flag: the first match only. */
  function ReplaceFirst(re: Regex, s: string, rep: string): string {
    match Find(re, s)
    case None => s
    case Some(m) => s[..m.start] + Expand(rep, m, s) + s[m.end..]
  }

  /** `s.replace(regex, rep)` with the `g` flag, from position i on. */
  function ReplaceAllFrom(re: Regex, s: string, rep: string, i: nat): string
    requires i <= |s|
    decreases |s| - i
  {
    match FindFrom(re, s, i)
    case None => s[i..]
    case Some(m) => s[i..m.start] + Expand(rep, m, s) + ReplaceAllFrom(re, s, rep, m.end)
  }

  function ReplaceAll(re: Regex, s: string, rep: string): string {
    ReplaceAllFrom(re, s, rep, 0)
  }

  /** `s.match(regex)` with the `g` flag: every matched text, left to right (JavaScript returns
      null instead of an empty array, which the converter tests before use). */
  function MatchTextsFrom(re: Regex, s: string, i: nat): seq<string>
    requires i <= |s|
    decreases |s| - i
  {
    match FindFrom(re, s, i)
    case None => []
    case Some(m) => [s[m.start..m.end]] + MatchTextsFrom(re, s, m.end)
  }

  function MatchTexts(re: Regex, s: string): seq<string> {
    MatchTextsFrom(re, s, 0)
  }

  /** Group n of a match, as `match[n]` reads it. */
  function Group(m: Match, n: nat): string {
    if 1 <= n <= |m.caps| then m.caps[n - 1] else Undefined
  }

  /* ---------------------------------------------------------------- general facts */

  /** With no match, a replace leaves the string as it was. */
  lemma ReplaceWithoutMatch(re: Regex, s: string, rep: string)
    requires !Test(re, s)
    ensures ReplaceAll(re, s, rep) == s && ReplaceFirst(re, s, rep) == s
  {
    assert s[0..] == s;
  }

  /** Locality: a match at position d + k of s, where y is what follows position d, is the match
      at k of y, shifted by d. */
  lemma MatchAtShift(re: Regex, s: string, d: nat, y: string, k: nat)
    requires d <= |s| && s[d..] == y && k <= |y|
    ensures MatchAt(re, s, d + k) == Shift(MatchAt(re, y, k), d)
  {
    assert s[d + k..] == y[k..];
  }

  function Shift(r: Option<Match>, d: nat): Option<Match> {
    match r
    case None => None
    case Some(m) => Some(Match(m.start + d, m.end + d, m.caps))
  }

  /** Searching s from inside its suffix y finds y's own next match, shifted. */
  lemma {:induction false} FindFromShift(re: Regex, s: string, d: nat, y: string, k: nat)
    requires d <= |s| && s[d..] == y && k <= |y|
    ensures FindFrom(re, s, d + k) == Shift(FindFrom(re, y, k), d)
    decreases |y| - k
  {
    if k < |y| {
      FindFromShift(re, s, d, y, k + 1);
      MatchAtShift(re, s, d, y, k);
    }
  }

  /** If no match starts in the first |x| positions of x + y, the first match of x + y is the first
      match of y, shifted. */
  lemma FindPastPrefix(re: Regex, x: string, y: string)
    requires forall k :: 0 <= k < |x| ==> MatchAt(re, x + y, k).None?
    ensures Find(re, x + y) == Shift(Find(re, y), |x|)
  {
    var s := x + y;
    assert s[|x|..] == y;
    FindFromShift(re, s, |x|, y, 0);
    SkipNoMatch(re, s, 0, |x|);
  }

  lemma {:induction false} SkipNoMatch(re: Regex, s: string, i: nat, j: nat)
    requires i <= j <= |s|
    requires forall k :: i <= k < j ==> MatchAt(re, s, k).None?
    ensures FindFrom(re, s, i) == FindFrom(re, s, j)
    decreases j - i
  {
    if i < j {
      SkipNoMatch(re, s, i + 1, j);
    }
  }

  /** An expression whose every match starts with c finds nothing in a text without c. */
  lemma NoLeadNoMatch(re: Regex, c: char, s: string)
    requires forall t :: re(t).Some? ==> t != [] && t[0] == c
    requires forall k :: 0 <= k < |s| ==> s[k] != c
    ensures !Test(re, s)
  {
    forall k | 0 <= k <= |s|
      ensures MatchAt(re, s, k).None?
    {
      if k < |s| {
        assert s[k..][0] == s[k];
      }
    }
    SkipNoMatch(re, s, 0, |s|);
  }

  /** The single match of re at position j when no match starts before it. */
  lemma FindIs(re: Regex, s: string, j: nat)
    requires j <= |s| && MatchAt(re, s, j).Some?
    requires forall k :: 0 <= k < j ==> MatchAt(re, s, k).None?
    ensures Find(re, s) == MatchAt(re, s, j)
  {
    SkipNoMatch(re, s, 0, j);
  }
  /** `::end::(?![\s\S]*::end::)` finds an `::end::` that opens a line and has none after it. */
  lemma LastEndFound(x: string, post: string)
    requires x == [] || IsLineTerminator(x[|x| - 1])
    requires Absent(post, "::end::")
    ensures Find(LastEnd, x + "::end::" + post) == Some(Match(|x|, |x| + 7, []))
  {
    var lit := "::end::";
    var t := x + lit + post;
    assert t[|x|..] == lit + post;
    IndexOfFromShift(lit, post, lit, 0);
    assert IndexOfFrom(post, lit, 0).None?;
    assert StartsWith(lit + post, lit);
    assert MatchAt(LastEnd, t, |x|) == Some(Match(|x|, |x| + 7, []));
    forall k | 0 <= k < |x|
      ensures MatchAt(LastEnd, t, k).None?
    {
      var w := t[k..];
      if StartsWith(w, lit) {
        assert IsLineTerminator(t[|x| - 1]) by {
          assert t[|x| - 1] == x[|x| - 1];
        }
        assert forall j :: k <= j < k + 7 ==> t[j] == w[..7][j - k];
        assert k + 7 <= |x|;
        assert w[|x| - k..|x| - k + 7] == lit;
        assert ContainsAt(w, |x| - k, lit);
      }
    }
    FindIs(LastEnd, t, |x|);
  }


  /** A match that covers the whole string: a replace then yields the expanded template. */
  lemma ReplaceWhole(re: Regex, t: string, rep: string, caps: seq<string>)
    requires t != [] && re(t) == Some(Hit(|t|, caps))
    ensures ReplaceAll(re, t, rep) == Substitute(rep, caps, t, "", "")
    ensures ReplaceFirst(re, t, rep) == Substitute(rep, caps, t, "", "")
    ensures Test(re, t) && Find(re, t) == Some(Match(0, |t|, caps))
  {
    assert t[0..] == t;
    var m := Match(0, |t|, caps);
    assert MatchAt(re, t, 0) == Some(m);
    FindIs(re, t, 0);
    assert ReplaceAllFrom(re, t, rep, |t|) == [];
    assert t[..0] == "" && t[|t|..] == "" && t[0..|t|] == t;
  }

  /** `(head\s)(.*)(::)` on a line `head c::` that a line break or the end of the text closes: the
      greedy group is all of c, whatever colons c holds. */
  lemma HeadDelimLine(head: string, c: string, tail: string)
    requires forall k :: 0 <= k < |c| ==> !IsLineTerminator(c[k])
    requires tail == [] || IsLineTerminator(tail[0])
    ensures HeadDelim(head + " " + c + "::" + tail, head, "::")
         == Some(Hit(|head| + |c| + 3, [head + " ", c, "::"]))
  {
    var line := head + " " + c + "::";
    var t := line + tail;
    var from := |head| + 1;
    var e := |line|;
    assert t[..e] == line;
    assert StartsWith(t, head) && t[|head|] == ' ' by {
      assert line[..|head|] == head;
    }
    forall k | from <= k < e
      ensures !IsLineTerminator(t[k])
    {
      assert t[k] == line[k];
      if k < e - 2 {
        assert line[k] == c[k - from];
      }
    }
    if e < |t| {
      assert t[e] == tail[0];
    }
    LineEndIs(t, from, e);
    assert t[e - 2] == line[e - 2] == ':' && t[e - 1] == line[e - 1] == ':';
    LastDelimAt(t, from, e);
    assert t[..from] == head + " " && t[from..e - 2] == c by {
      assert line[..from] == head + " " && line[from..e - 2] == c;
    }
  }

  /** The line that holds position i ends at e. */
  lemma LineEndIs(s: string, i: nat, e: nat)
    requires i <= e <= |s|
    requires forall k :: i <= k < e ==> !IsLineTerminator(s[k])
    requires e == |s| || IsLineTerminator(s[e])
    ensures LineEnd(s, i) == e
  {
  }

  /** The last `::` up to position e is the pair that ends at e. */
  lemma LastDelimAt(t: string, lo: nat, e: nat)
    requires lo + 2 <= e <= |t| && t[e - 2] == ':' && t[e - 1] == ':'
    requires e == |t| || t[e] != ':'
    ensures LastAt(t, "::", lo, e) == Some(e - 2)
  {
    assert ContainsAt(t, e - 2, "::") by {
      assert t[e - 2..e] == "::";
    }
    assert LastAt(t, "::", lo, e - 2) == Some(e - 2);
    assert !ContainsAt(t, e - 1, "::");
    assert LastAt(t, "::", lo, e - 1) == Some(e - 2);
    assert !ContainsAt(t, e, "::");
  }

  /** `(head\s)(.*)(::)` on a whole line `head c::`: the greedy group is all of c. */
  lemma HeadDelimWhole(head: string, c: string)
    requires forall k :: 0 <= k < |c| ==> !IsLineTerminator(c[k])
    ensures HeadDelim(head + " " + c + "::", head, "::") == Some(Hit(|head| + |c| + 3, [head + " ", c, "::"]))
  {
    HeadDelimLine(head, c, "");
    assert head + " " + c + "::" + "" == head + " " + c + "::";
  }

  /** `::switch\s(.*)::` on a whole line `::switch c::`: the group is all of c. */
  lemma SwitchWhole(c: string)
    requires forall k :: 0 <= k < |c| ==> !IsLineTerminator(c[k])
    ensures Switch("::switch" + " " + c + "::") == Some(Hit(|c| + 11, [c]))
  {
    var t := "::switch" + " " + c + "::";
    HeadDelimWhole("::switch", c);
    assert t[9..|t| - 2] == c;
  }

  lemma {:induction false} ForeachFromDown(t: string, a: nat, lo: nat)
    requires 10 <= lo <= a < |t|
    requires forall k :: lo < k <= a ==> !IsSpace(t[k])
    ensures ForeachFrom(t, a) == ForeachFrom(t, lo)
    decreases a - lo
  {
    if a > lo {
      ForeachFromDown(t, a - 1, lo);
    }
  }

  /** `(::foreach\s)(.*)(\s)(.*)(::)` on a whole line `::foreach x y::` with x and y free of
      white space: the item group is x and the collection group is y. */
  lemma ForeachWhole(x: string, y: string)
    requires forall k :: 0 <= k < |x| ==> !IsSpace(x[k])
    requires forall k :: 0 <= k < |y| ==> !IsSpace(y[k])
    ensures var t := "::foreach " + x + " " + y + "::";
      Foreach(t) == Some(Hit(|t|, ["::foreach ", x, " ", y, "::"]))
  {
    var t := "::foreach " + x + " " + y + "::";
    var n := |t|;
    var a := 10 + |x|;
    assert t[..10] == "::foreach " && t[10..a] == x && t[a..a + 1] == " " && t[a + 1..n - 2] == y
      && t[n - 2..] == "::" by {
      FiveParts("::foreach ", x, " ", y, "::");
    }
    assert t[..9] == "::foreach" && IsSpace(t[9]) by {
      assert t[..9] == t[..10][..9];
    }
    assert forall k :: 10 <= k < n ==> !IsLineTerminator(t[k]) && (k != a ==> !IsSpace(t[k])) by {
      forall k | 10 <= k < n
        ensures !IsLineTerminator(t[k]) && (k != a ==> !IsSpace(t[k]))
      {
        if k < a {
          assert t[k] == t[10..a][k - 10];
        } else if a < k < n - 2 {
          assert t[k] == t[a + 1..n - 2][k - a - 1];
        } else if k >= n - 2 {
          assert t[k] == t[n - 2..][k - (n - 2)];
        }
      }
    }
    assert IsSpace(t[a]) by { assert t[a] == t[a..a + 1][0]; }
    ForeachLineMatch(t, a);
  }

  /** A one-line `::foreach\s…\s…::` whose only white space after the head is at a: the
      groups are cut at the head, at a and before the final `::`. */
  lemma ForeachLineMatch(t: string, a: nat)
    requires 10 <= a < |t| - 2 && t[..9] == "::foreach" && IsSpace(t[9]) && IsSpace(t[a])
    requires t[|t| - 2..] == "::"
    requires forall k :: 10 <= k < |t| ==> !IsLineTerminator(t[k]) && (k != a ==> !IsSpace(t[k]))
    ensures Foreach(t) == Some(Hit(|t|, [t[..10], t[10..a], t[a..a + 1], t[a + 1..|t| - 2], "::"]))
  {
    LineEndWhole(t, 10);
    ForeachOneLine(t);
    ForeachFromDown(t, |t| - 1, a);
    LineEndWhole(t, a + 1);
    LastAtEnd(t, "::", a + 1);
    ForeachFromHit(t, a);
  }

  /** On a one-line text the search for the item's white space starts at the last character. */
  lemma ForeachOneLine(t: string)
    requires HeadSpace(t, "::foreach") && 10 < |t| && LineEnd(t, 10) == |t|
    ensures Foreach(t) == ForeachFrom(t, |t| - 1)
  {
  }

  /** A white space at a whose line ends with `::` is where the item group ends. */
  lemma ForeachFromHit(t: string, a: nat)
    requires 10 <= a < |t| - 2 && IsSpace(t[a]) && LineEnd(t, a + 1) == |t|
    requires LastAt(t, "::", a + 1, |t|) == Some(|t| - 2)
    ensures ForeachFrom(t, a) == Some(Hit(|t|, [t[..10], t[10..a], t[a..a + 1], t[a + 1..|t| - 2], "::"]))
  {
  }

  /** `(::)(.*)(::)` on a whole line `::c::` with c free of colons and line terminators. */
  lemma PrintWhole(c: string)
    requires forall k :: 0 <= k < |c| ==> c[k] != ':' && !IsLineTerminator(c[k])
    ensures Print("::" + c + "::") == Some(Hit(|c| + 4, ["::", c, "::"]))
  {
    var t := "::" + c + "::";
    forall k | 2 <= k < |t|
      ensures !IsLineTerminator(t[k])
    {
      if k < |t| - 2 {
        assert t[k] == c[k - 2];
      }
    }
    assert LineEnd(t, 2) == |t|;
    assert ContainsAt(t, |t| - 2, "::");
    assert LastAt(t, "::", 2, |t|) == Some(|t| - 2);
    assert t[2..|t| - 2] == c;
  }

  /** A literal pattern matches a whole copy of itself. */
  lemma LiteralWhole(lit: string)
    requires |lit| > 0
    ensures LiteralRe(lit)(lit) == Some(Hit(|lit|, []))
  {
    assert lit[..|lit|] == lit;
  }

  lemma LiteralMatch(lit: string, s: string, k: nat)
    requires |lit| > 0 && k <= |s|
    ensures MatchAt(LiteralRe(lit), s, k) == if ContainsAt(s, k, lit) then Some(Match(k, k + |lit|, [])) else None
  {
    if k + |lit| <= |s| {
      assert s[k..][..|lit|] == s[k..k + |lit|];
    }
  }

  /** A literal pattern is found where `indexOf` finds its text. */
  lemma FindFromLiteral(lit: string, s: string, i: nat)
    requires |lit| > 0 && i <= |s|
    ensures FindFrom(LiteralRe(lit), s, i) == match IndexOfFrom(s, lit, i)
                                              case None => None
                                              case Some(k) => Some(Match(k, k + |lit|, []))
  {
    match IndexOfFrom(s, lit, i)
    case None => FindFromLiteralNone(lit, s, i);
    case Some(k) => FindFromLiteralSome(lit, s, i, k);
  }

  lemma FindFromLiteralNone(lit: string, s: string, i: nat)
    requires |lit| > 0 && i <= |s| && IndexOfFrom(s, lit, i).None?
    ensures FindFrom(LiteralRe(lit), s, i).None?
  {
    forall k | i <= k <= |s|
      ensures MatchAt(LiteralRe(lit), s, k).None?
    {
      LiteralMatch(lit, s, k);
    }
    SkipNoMatch(LiteralRe(lit), s, i, |s|);
  }

  lemma FindFromLiteralSome(lit: string, s: string, i: nat, k: nat)
    requires |lit| > 0 && i <= |s| && IndexOfFrom(s, lit, i) == Some(k)
    ensures FindFrom(LiteralRe(lit), s, i) == Some(Match(k, k + |lit|, []))
  {
    forall j | i <= j < k
      ensures MatchAt(LiteralRe(lit), s, j).None?
    {
      LiteralMatch(lit, s, j);
    }
    LiteralMatch(lit, s, k);
    SkipNoMatch(LiteralRe(lit), s, i, k);
  }

  /** A replacement without `$` patterns takes the place of the first match as it is. */
  lemma ReplaceFirstPlain(re: Regex, s: string, rep: string, m: Match)
    requires Find(re, s) == Some(m) && NoDollar(rep)
    ensures ReplaceFirst(re, s, rep) == s[..m.start] + rep + s[m.end..]
  {
    FindFromSpec(re, s, 0);
    SubstitutePlain(rep, m.caps, s[m.start..m.end], s[..m.start], s[m.end..]);
  }

  /** A literal pattern without `g` replaces where `indexOf` finds its text. */
  lemma ReplaceFirstLiteral(lit: string, s: string, rep: string, i: nat)
    requires |lit| > 0 && IndexOf(s, lit) == Some(i) && NoDollar(rep)
    ensures ReplaceFirst(LiteralRe(lit), s, rep) == s[..i] + rep + s[i + |lit|..]
  {
    assert Find(LiteralRe(lit), s) == Some(Match(i, i + |lit|, [])) by {
      FindFromLiteral(lit, s, 0);
    }
    assert Expand(rep, Match(i, i + |lit|, []), s) == rep by {
      SubstitutePlain(rep, [], s[i..i + |lit|], s[..i], s[i + |lit|..]);
    }
  }

  lemma ReplaceAllFromStep(re: Regex, s: string, rep: string, i: nat, m: Match)
    requires i <= |s| && FindFrom(re, s, i) == Some(m)
    ensures ReplaceAllFrom(re, s, rep, i) == s[i..m.start] + Expand(rep, m, s) + ReplaceAllFrom(re, s, rep, m.end)
  {
  }

  lemma ReplaceAllFromDone(re: Regex, s: string, rep: string, i: nat)
    requires i <= |s| && FindFrom(re, s, i).None?
    ensures ReplaceAllFrom(re, s, rep, i) == s[i..]
  {
  }

  /* ---------------------------------------------------------------- successive matches */

  /** The successive matches of a `g` expression from position i, left to right: the spans
      `s.match` returns and a global replace rewrites. */
  function MatchesFrom(re: Regex, s: string, i: nat): seq<Match>
    requires i <= |s|
    decreases |s| - i
  {
    match FindFrom(re, s, i)
    case None => []
    case Some(m) => [m] + MatchesFrom(re, s, m.end)
  }

  function Matches(re: Regex, s: string): seq<Match> {
    MatchesFrom(re, s, 0)
  }

  /** Where the search for match k of ms starts: at i for the first, after match k - 1 for the
      others. */
  function Resume(i: nat, ms: seq<Match>, k: nat): nat
    requires k <= |ms|
  {
    if k == 0 then i else ms[k - 1].end
  }

  /** ms are spans of s, in order and not overlapping, none before i. */
  predicate Ordered(s: string, i: nat, ms: seq<Match>) {
    i <= |s| && forall k :: 0 <= k < |ms| ==> Resume(i, ms, k) <= ms[k].start <= ms[k].end <= |s|
  }

  /** Each match is the next one after its predecessor, nothing follows the last, and the texts
      `s.match` returns are the matched spans. */
  lemma {:induction false} MatchesChain(re: Regex, s: string, i: nat)
    requires i <= |s|
    ensures var ms := MatchesFrom(re, s, i); var ts := MatchTextsFrom(re, s, i);
      && Ordered(s, i, ms)
      && (forall k :: 0 <= k < |ms| ==> FindFrom(re, s, Resume(i, ms, k)) == Some(ms[k]))
      && FindFrom(re, s, Resume(i, ms, |ms|)).None?
      && |ts| == |ms|
      && (forall k :: 0 <= k < |ms| ==> ts[k] == s[ms[k].start..ms[k].end])
    decreases |s| - i
  {
    match FindFrom(re, s, i)
    case None =>
    case Some(m) =>
      MatchesChain(re, s, m.end);
      var rest := MatchesFrom(re, s, m.end);
      var tail := MatchTextsFrom(re, s, m.end);
      assert MatchesFrom(re, s, i) == [m] + rest;
      assert MatchTextsFrom(re, s, i) == [s[m.start..m.end]] + tail;
      ChainOrdered(s, i, m, rest);
      ChainFinds(re, s, i, m, rest);
      ChainTexts(s, m, rest, tail);
  }
  /** The matches of a search over the whole text come in order. */
  lemma MatchesOrdered(re: Regex, s: string)
    ensures Ordered(s, 0, Matches(re, s))
  {
    MatchesChain(re, s, 0);
  }

  /** Match n of a search over the whole text is the first one after match n - 1. */
  lemma MatchesNext(re: Regex, s: string, n: nat)
    requires n < |Matches(re, s)|
    ensures Ordered(s, 0, Matches(re, s))
    ensures FindFrom(re, s, Resume(0, Matches(re, s), n)) == Some(Matches(re, s)[n])
  {
    MatchesChain(re, s, 0);
  }


  /** A match from i followed by ordered matches from its end are ordered from i. */
  lemma ChainOrdered(s: string, i: nat, m: Match, rest: seq<Match>)
    requires i <= m.start <= m.end <= |s| && Ordered(s, m.end, rest)
    ensures Ordered(s, i, [m] + rest)
  {
    var ms := [m] + rest;
    forall k | 0 <= k < |ms|
      ensures Resume(i, ms, k) <= ms[k].start <= ms[k].end <= |s|
    {
      if k > 0 {
        ResumeCons(i, m, rest, k);
        assert ms[k] == rest[k - 1];
      }
    }
  }

  /** The first match from i followed by the successive matches from its end are the successive
      matches from i. */
  lemma ChainFinds(re: Regex, s: string, i: nat, m: Match, rest: seq<Match>)
    requires i <= |s| && FindFrom(re, s, i) == Some(m) && Ordered(s, m.end, rest) && Ordered(s, i, [m] + rest)
    requires forall k :: 0 <= k < |rest| ==> FindFrom(re, s, Resume(m.end, rest, k)) == Some(rest[k])
    requires FindFrom(re, s, Resume(m.end, rest, |rest|)).None?
    ensures var ms := [m] + rest;
      && (forall k :: 0 <= k < |ms| ==> FindFrom(re, s, Resume(i, ms, k)) == Some(ms[k]))
      && FindFrom(re, s, Resume(i, ms, |ms|)).None?
  {
    var f := (j: nat) => if j <= |s| then FindFrom(re, s, j) else None;
    var ms := [m] + rest;
    assert Chained(f, m.end, rest) by {
      forall k | 0 <= k < |rest|
        ensures f(Resume(m.end, rest, k)) == Some(rest[k])
      {
        assert Resume(m.end, rest, k) <= |s|;
      }
    }
    ChainedCons(f, i, m, rest);
    forall k | 0 <= k < |ms|
      ensures FindFrom(re, s, Resume(i, ms, k)) == Some(ms[k])
    {
      assert Resume(i, ms, k) <= |s|;
      assert f(Resume(i, ms, k)) == Some(ms[k]);
    }
    assert f(Resume(i, ms, |ms|)).None?;
  }

  /** The search f, started at i and resumed at the end of each match, finds the matches of ms in
      turn and then nothing. */
  ghost predicate Chained(f: nat -> Option<Match>, i: nat, ms: seq<Match>) {
    (forall k :: 0 <= k < |ms| ==> f(Resume(i, ms, k)) == Some(ms[k])) && f(Resume(i, ms, |ms|)).None?
  }

  lemma ChainedCons(f: nat -> Option<Match>, i: nat, m: Match, rest: seq<Match>)
    requires f(i) == Some(m) && Chained(f, m.end, rest)
    ensures Chained(f, i, [m] + rest)
  {
    var ms := [m] + rest;
    forall k | 0 <= k < |ms|
      ensures f(Resume(i, ms, k)) == Some(ms[k])
    {
      if k > 0 {
        ResumeCons(i, m, rest, k);
        assert ms[k] == rest[k - 1];
      }
    }
    ResumeCons(i, m, rest, |ms|);
  }

  /** The texts of the matches, joined the same way. */
  lemma ChainTexts(s: string, m: Match, rest: seq<Match>, tail: seq<string>)
    requires m.start <= m.end <= |s| && |tail| == |rest|
    requires forall k :: 0 <= k < |rest| ==> rest[k].start <= rest[k].end <= |s|
    requires forall k :: 0 <= k < |rest| ==> tail[k] == s[rest[k].start..rest[k].end]
    ensures var ms := [m] + rest; var ts := [s[m.start..m.end]] + tail;
      forall k :: 0 <= k < |ms| ==> ms[k].start <= ms[k].end <= |s| && ts[k] == s[ms[k].start..ms[k].end]
  {
    var ms := [m] + rest;
    var ts := [s[m.start..m.end]] + tail;
    forall k | 0 <= k < |ms|
      ensures ms[k].start <= ms[k].end <= |s| && ts[k] == s[ms[k].start..ms[k].end]
    {
      if k > 0 {
        assert ms[k] == rest[k - 1] && ts[k] == tail[k - 1];
      }
    }
  }

  lemma ResumeCons(i: nat, m: Match, rest: seq<Match>, k: nat)
    requires 1 <= k <= |rest| + 1
    ensures Resume(i, [m] + rest, k) == Resume(m.end, rest, k - 1)
  {
    if k > 1 {
      assert ([m] + rest)[k - 1] == rest[k - 2];
    }
  }

  /** s up to where the search for match n starts, with each of the first n matches replaced
      by its entry of reps and the text between the matches kept. */
  function Woven(s: string, ms: seq<Match>, reps: seq<string>, n: nat): string
    requires Ordered(s, 0, ms) && n <= |ms| && |reps| == |ms|
  {
    if n == 0 then [] else Woven(s, ms, reps, n - 1) + s[Resume(0, ms, n - 1)..ms[n - 1].start] + reps[n - 1]
  }
}
