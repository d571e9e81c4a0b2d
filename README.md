# Templo to Twig conversion engine

A Dafny model of the engine in `main.js` that converts Templo templates (`.mtt`) to Twig. One
file goes through these steps:

- A **pre-pass** on the raw text (`preConvertAttributes`, `preConvertAttrAttributes`). It turns the
  Templo constructs the DOM parser would lose into placeholder attributes: macro attributes and
  calls, `::cond`, `::use` and the `::attr class/checked/selected` family. The converted Twig
  text goes into append-only tables (`templateMacroAttributes`, `templateCondAttributes`, …),
  indexed by the number written into the placeholder.
- A **walk** over the parsed document (`convertToTwig`).
  - `checkAttributes` reads every element's placeholders back from the tables. A cond
    placeholder wraps its element in `{% if … %}` / `{% endif %}` text siblings
    (`convertCondAttribute`). The first macro placeholder puts the macro import into the document
    once (`importMacros`).
  - Each text child is cut before every `::foreach`, `::if` and `::set` (`splitNodeByStatements`).
    Each piece goes through the fixed-priority cascade of directive rewrites, and the pieces are
    joined again. The cascade pushes onto and pops the block stack `previousStatement`. It also
    keeps a switch condition and a case counter.
- A **post-pass** on the serialised text. It removes the placeholder attribute values, unwraps
  `macros.insert` calls, turns the `::use` placeholder into `{% extends … %}`, deletes every
  remaining `::` and drops the XHTML namespace.
- A **macro library** (a file starting with `<macros>`) is converted by `convertMacroDefinitions`
  instead.

How the model is built:

- **Regexes are explicit matchers** (module `Patterns`). A regex is a function from the remaining
  text to an optional hit: the length it consumes and its capture groups. `.` never crosses a line
  terminator. Greedy groups run to the last delimiter on the line.
- **Replacement templates follow JavaScript's `replace`** (`JsStrings.Substitute`), so `$n`
  refers to a group and a missing group stays literal. This gives `convertRawContent` its literal
  `{% block $2 %}{% endblock %}`.
- **The per-document state is a class** (`Conversion.Converter`) with the fields of main.js:57-66.
- Each imperative operation of the source is a method with a loop. Its contract ties the result
  and the new state to a specification function. The properties are proved as lemmas about
  those functions.
- The parser and the serializer are function parameters. A parsed document is a tree of `Text`
  and `Element` nodes.

Modules, in dependency order:

| module | file | holds |
|---|---|---|
| `JsStrings` | js_strings.dfy | line and space runs, `indexOf`, `includes`, JavaScript's replacement templates (GetSubstitution), decimal index keys |
| `Patterns` | patterns.dfy | the regexes of main.js:12-37 and the inline ones as matchers; `match`, `test`, `replace` and `replace` with `/g`, and their lemmas |
| `Directives` | directives.dfy | the per-directive converters, `removeTemploDoubleColon`, `convertEnd`, `convertCase` and the switch loop |
| `TextConversion` | cascade.dfy | the text-node cascade of convertToTwig as a function of the state, and what it does to each directive line |
| `Split` | split.dfy | splitNodeByStatements and its re-joining |
| `Walk` | walk.dfy | the document datatype; checkAttributes, convertCondAttribute, the walk and importMacros |
| `PrePass` | prepass.dfy | preConvertAttributes, preConvertAttrAttributes and fillInTwigMacro |
| `Placement` | placement.dfy | the tag and `attr={{…}}` placeholder loops of the pre-pass taken whole: placeholder i lands on match i, which is table entry i |
| `PostPass` | postpass.dfy | the post-serialisation steps of main, convertMacroDefinitions, and main for one file |
| `Conversion` | converter.dfy | the `Converter` class with the source's state and its methods |

## Model

| member | source | states |
|---|---|---|
| JsStrings.LineEnd | main.js:12 | `.*` from i stops at the first line terminator: every character before the end is not a terminator, and the end is at a terminator or at the end of the text |
| JsStrings.SpaceRunEnd | main.js:23 | `\s+` takes the whole run of whitespace from i: all characters of the run are whitespace and the next one is not |
| JsStrings.WordRunEnd | main.js:25 | `\w+` takes the whole run of word characters from i |
| JsStrings.LineEndSuffix | main.js:12 | where a line ends depends only on the text from the starting point on |
| JsStrings.IndexOfFrom | main.js:467-468 | `indexOf` from i: the found position holds the literal, no earlier position from i does, and None means no position from i does |
| JsStrings.AbsentMeansNotContains | main.js:125 | a text has no occurrence of a literal exactly when `includes` is false for it |
| JsStrings.LastAt | main.js:12 | the last occurrence of a literal in [lo, hi] (how a greedy group finds its closing delimiter), and None when there is none |
| JsStrings.IndexOfShift | main.js:167 | a prefix without the literal moves its first occurrence by the prefix's length |
| JsStrings.FreeJoin | main.js:333 | joining texts at a character the literal cannot start or end with creates no occurrence of it |
| JsStrings.SubstituteLiteral | main.js:343 | template text without `$` is copied into the replacement unchanged |
| JsStrings.SubstitutePlain | main.js:369-370 | a template without `$` is its own replacement |
| JsStrings.SubstituteRef | main.js:343 | `$n` with 1 <= n <= the number of groups is replaced by group n |
| JsStrings.SubstituteMissingGroup | main.js:389-390 | `$n` naming a group the pattern does not have stays literal in the output |
| JsStrings.SubstituteSecond | main.js:364-365 | a template with a single `$2` puts the second group in its place and keeps the rest |
| JsStrings.SubstituteSecondFourth | main.js:384-385 | the foreach template `$2 … $4` puts the second and the fourth group in place |
| JsStrings.SubstituteFirstSecond | main.js:245 | the template `$1 … $2` puts the first and the second group around the middle text |
| JsStrings.SubstituteFirstThird | main.js:348 | the templates `$1not $3`, `$1and$3` and `$1or$3` put the first and the third group around the middle text |
| JsStrings.NatToString | main.js:245 | the decimal text of a table index is non-empty, all digits, and has no leading zero |
| JsStrings.DigitsValueOfNatToString | main.js:191-192 | reading back the decimal text of i gives i |
| JsStrings.NatToStringOfDigitsValue | main.js:191-192 | a digit string without a leading zero is the decimal text of its value |
| JsStrings.IndexKeyRoundTrip | main.js:183-184 | the key cut from a placeholder indexes the table exactly when it is the decimal text of that index |
| JsStrings.LookupPlaceholder | main.js:192 | `table[key]` for the decimal text of i is table[i] when i is in range, and undefined otherwise |
| Patterns.Literal | main.js:14 | a literal pattern matches at a position exactly when the text there starts with the literal |
| Patterns.DelimAfterHead | main.js:12 | `(head\s)(.*)(delim)` closes at an occurrence of delim after `head\s` on the same line |
| Patterns.Case | main.js:23 | `::case::\s+(.*)` matches exactly where `::case::` is followed by whitespace |
| Patterns.LastBang | main.js:31 | the `!` that NOT_TEMPLO_REGEX splits at is the last `!` on the line followed by something other than `=` |
| Patterns.LastBangIs | main.js:31 | a `!` followed by something other than `=`, after which every `!` on the line starts a `!=`, is the one NOT_TEMPLO_REGEX splits at |
| Patterns.TwigTagAt | main.js:237 | the positions of `{{`, `}}` and `>` in `(<.*){{.*}}(.*>)` are ordered and inside the text |
| Patterns.NextStatement | main.js:153 | the first position from k where `::foreach`, `::if` or `::set` starts, and None when there is none |
| Patterns.MatchAt | main.js:84 | a match at i starts at i and ends inside the text, after i |
| Patterns.FindFrom | main.js:84 | a search from i finds a match that starts at or after i |
| Patterns.FindFromSpec | main.js:84 | the search returns the leftmost match: it is the match at its start, no earlier position matches, and None means no position matches |
| Patterns.ReplaceWithoutMatch | main.js:233 | `replace` with or without `/g` leaves a text without a match unchanged |
| Patterns.MatchAtShift | main.js:153 | matching at a position of a suffix is matching at the shifted position of the whole text |
| Patterns.FindPastPrefix | main.js:153 | a prefix in which no match starts moves the first match by the prefix's length |
| Patterns.SkipNoMatch | main.js:84 | positions where nothing matches can be skipped without changing the search |
| Patterns.NoLeadNoMatch | main.js:84 | a pattern that needs a leading character not in the text does not match (`test` is false) |
| Patterns.FindIs | main.js:84 | a match at j with none before it is what `match` returns |
| Patterns.ReplaceWhole | main.js:344 | a pattern that matches the whole text replaces it with its template, groups filled in, with and without `/g` |
| Patterns.HeadDelimLine | main.js:12-21 | the line `head c::`, closed by a line break or the end of the text, matches `(head\s)(.*)(::)` as a whole, with groups `head `, c and `::` |
| Patterns.LastEndFound | main.js:280-281 | `::end::(?![\s\S]*::end::)` finds the `::end::` that opens a line and has no `::end::` after it |
| Patterns.HeadDelimWhole | main.js:12-20 | the line `head c::` with c free of line breaks matches as a whole, with groups `head `, c and `::` |
| Patterns.SwitchWhole | main.js:22 | the line `::switch c::` matches as a whole, and its group is c |
| Patterns.ForeachWhole | main.js:16 | `::foreach x y::` with x and y free of whitespace matches as a whole, with groups x and y in positions 2 and 4 |
| Patterns.PrintWhole | main.js:24 | `::c::` matches as a whole, with group 2 equal to c |
| Patterns.LiteralMatch | main.js:14 | a literal pattern matches at k exactly when the literal occurs at k, and the match covers it |
| Patterns.FindFromLiteral | main.js:15 | searching for a literal pattern is `indexOf` |
| Patterns.ReplaceAllFromStep | main.js:333 | `replace` with `/g` copies the text before the next match, puts in the expanded template, and goes on after the match |
| Patterns.ReplaceAllFromDone | main.js:333 | once no match is left, `replace` with `/g` copies the rest unchanged |
| Patterns.MatchesChain | main.js:237 | the matches `match` with `/g` collects are in order and do not overlap; each is the first match after its predecessor, none follows the last, and the texts returned are the matched spans |
| Directives.ConvertIf | main.js:342-361 | convertIf: every `::if c::` becomes `{% if c %}`; then, each only when its pattern matches, the last `!` not followed by `=` on a line becomes `not `, the last `&&` becomes `and` and the last `\|\|` becomes `or`; stated by TextConversion.RenderIf, NoOperators, IfNot, IfAnd and IfOr |
| Directives.NotRewrite | main.js:347-350 | on one line x`!`y, where y is not empty, does not start with `=` and each of its `!` starts a `!=`, NOT_TEMPLO_REGEX matches and `$1not $3` gives x, `not ` and y: the `!` signs of x are kept |
| Directives.OperatorRewrite | main.js:352-360 | on one line x op y, where no later op starts after x, `(.*)(op)(.*)` matches the whole line and `$1word$3` gives x, word and y: only the last `&&` or `\|\|` of a line is rewritten |
| Directives.ConvertElseIf | main.js:363-366 | convertElseIf: every `::elseif c::` becomes `{% elseif c %}`; stated by TextConversion.RenderElseIf |
| Directives.ConvertElse | main.js:368-371 | convertElse: every `::else::` becomes `{% else %}`; stated by TextConversion.RenderElse |
| Directives.ConvertForeach | main.js:383-386 | convertForeach: every `::foreach x y::` becomes `{% for x in y %}`; stated by TextConversion.RenderForeach |
| Directives.ConvertRawContent | main.js:388-391 | convertRawContent: the template names a group the pattern does not have, so the output is the literal `{% block $2 %}{% endblock %}`; stated by TextConversion.RenderRawContent |
| Directives.ConvertRaw | main.js:393-396 | convertRaw: every `::raw c::` becomes `{{ c\|raw }}`; stated by TextConversion.RenderRaw |
| Directives.ConvertFill | main.js:398-401 | convertFill: every `::fill c::` becomes `{% set c %}`; stated by TextConversion.RenderFill |
| Directives.ConvertSet | main.js:403-406 | convertSet: every `::set c::` becomes `{% set c %}`; stated by TextConversion.RenderSet |
| Directives.ConvertPrint | main.js:425-428 | convertPrint: every `::c::` becomes `{{c}}`; stated by TextConversion.RenderPrint and PostPass.PrintIdentity |
| Directives.RemoveTemploDoubleColon | main.js:332-334 | every `::` deleted, left to right; stated by RemoveTemploDoubleColonLeavesNone and RemoveTemploDoubleColonIdempotent |
| Directives.FillInTwigMacro | main.js:466-470 | the key is read after the first `TEMPLATE_MACRO_` up to the next `=`, and the first placeholder with that key is replaced by the table entry, or `undefined`; stated by PrePass.FillInTwigMacroReadBack |
| Directives.ResolveEnds | main.js:373-381 | convertEnd's loop as a function: each `::end::`, first to last, becomes the closing tag of the block popped from the stack; stated by ResolveEndsStep, ResolveEndsLeavesNone, ResolveEndsStack and EndsCloseInnermostFirst |
| Directives.RemoveTemploDoubleColonLeavesNone | main.js:332-334 | the output of removeTemploDoubleColon contains no `::` |
| Directives.RemoveTemploDoubleColonIdempotent | main.js:332-334 | removeTemploDoubleColon applied twice equals applying it once |
| Directives.StripFromLeavesNoPair | main.js:333 | deleting every `::` left to right from position i leaves no `::` |
| Directives.CloseTag | main.js:377 | the tag one `::end::` becomes starts with `{` and holds no `:` |
| Directives.ResolveEndsStep | main.js:376-379 | one loop turn: rewriting the first `::end::` to the closing tag of the current top and popping changes neither the final text nor the final stack, and the count of `::end::` drops by exactly one (the loop's variant) |
| Directives.ResolveEndsPrefix | main.js:378 | text before the first `::end::` is kept as it is |
| Directives.ResolveEndsLeavesNone | main.js:376 | after the loop no `::end::` is left |
| Directives.ResolveEndsStack | main.js:377 | the stack loses exactly one entry per `::end::`, from the top, and stops losing entries once it is empty |
| Directives.EndsCloseInnermostFirst | main.js:373-381 | n consecutive `::end::` close the open blocks innermost first and remove the top n entries |
| Directives.ClosingsShift | main.js:377 | after `from` pops, the rest of the ends close the blocks below them in order |
| Directives.ResolveEndsLeadingEnd | main.js:377-378 | a value starting with `::end::` begins with the closing tag of the top block, followed by the rest resolved on the popped stack |
| Directives.EndOnEmptyStack | main.js:377 | on an empty stack `::end::` becomes `{% endundefined %}`, and the stack stays empty |
| Directives.SingleEnd | main.js:377-378 | one `::end::` becomes the closing tag of the top block, which is popped |
| Directives.TestEnd | main.js:376 | END_TEMPLO_REGEX matches exactly when the text contains `::end::` |
| Directives.ReplaceFirstEnd | main.js:378 | replacing with END_TEMPLO_REGEX splices the closing tag in at the first `::end::` |
| Directives.CaseMatchAt | main.js:23 | CASE_TEMPLO_REGEX matches at k exactly when a `::case::` followed by whitespace starts at k |
| Directives.CaseAtInside | main.js:411 | a case directive inside a text is still there once text is added around it |
| Directives.CaseHeaderNoDollar | main.js:419 | the case test text holds no `$` when the condition holds none, so replace copies it literally |
| Directives.CaseStepSplices | main.js:417-423 | convertCase puts `{% if/elseif cond.index == pos %}` and a newline where the first `::case::` and its whitespace were, and keeps the rest of the line and the text around it |
| Directives.CaseStepKeepsCase | main.js:411-412 | when the condition itself holds a `::case::` directive, the result of convertCase holds one too |
| Directives.AsWrittenCaseLoop | main.js:411-413 | the loop as written, run with fuel: when it ends, no `::case::` directive is left |
| Directives.SwitchLoopDiverges | main.js:411-413 | with a condition that holds a `::case::` directive, the loop as written never ends, whatever the fuel |
| Directives.SwitchExampleCondition | main.js:409 | on `::switch x:: ::case:: a ::end::` the greedy group takes in the case directive |
| Directives.SwitchExampleDiverges | main.js:408-414 | convertSwitch as written never returns on that one-line switch |
| Directives.NextCase | main.js:411 | the position it gives is at or after c, and a `::case::` directive starts there |
| Directives.NextCaseFirst | main.js:411 | no directive starts between c and NextCase's position, and none starts from c on when it is None |
| Directives.NextCaseIsMatch | main.js:411 | NextCase is where CASE_TEMPLO_REGEX searching from c finds its match |
| Directives.CaseCountAfterSplice | main.js:420 | inserting a case test in place of a directive leaves the count of the directives after it unchanged |
| Directives.CasesCount | main.js:410-413 | the corrected loop uses the case positions pos, pos + 1, …, one per case directive of the value |
| Directives.CaseStep | main.js:417-423 | convertCase on a value: the first `::case::` directive and its whitespace replaced by the test `{% if/elseif cond.index == pos %}` and a newline, built into the replacement string so that `$` patterns in the condition are expanded; stated by CaseStepSplices and CaseStepIsSplice |
| Directives.CaseStepIsSplice | main.js:417-423 | at the first directive, for any condition, convertCase is the splice of the test with its `$` patterns expanded against that directive's match: what the corrected loop does at each directive |
| Directives.CaseTestPlain | main.js:419-420 | when each `$` of the condition is literal or written `$$`, the test holds the condition with `$$` read as `$`, whatever the directive |
| Directives.Cases | main.js:410-413 | the corrected case loop: each directive from c is replaced once, left to right, by the test convertCase inserts for it, at positions pos, pos + 1, …, and the search goes on after that test; stated by CasesCount, CasesAgree and SwitchLoopAgrees |
| Directives.CasesAgree | main.js:411-413 | from a position with no directive before it and fewer directives after it than the fuel, the loop as written ends with the corrected loop's value and position, when the condition holds no `$` pattern but `$$` and, read with `$$` as `$`, no `::case::` directive |
| Directives.SwitchLoopAgrees | main.js:408-414 | convertSwitch's loop as written ends after one round per directive and one more, with exactly the corrected loop's text and position, for every such condition: the two loops differ only where the source's loop diverges |
| TextConversion.Cascade | main.js:83-127 | the text branch of convertToTwig on one value and the state: switch, case, the if/elseif/else/end chain, the rewrites and the macro fill, in that order; stated by CascadeQuiet, CascadeFront and the Render… lemmas |
| TextConversion.SwitchStage | main.js:84-87 | when SWITCH_TEMPLO_REGEX tests true, the corrected case loop from position 0 with group 1 as the condition, the first switch directive erased and `if` pushed; otherwise nothing changes; stated by RenderSwitch and, for the loop, Directives.SwitchLoopAgrees |
| TextConversion.CaseStage | main.js:88-90 | when CASE_TEMPLO_REGEX tests true, one convertCase at the current case position, which goes up by one; otherwise nothing changes; stated by RenderCase |
| TextConversion.BranchStage | main.js:91-103 | only the first of `::if`, `::elseif`, `::else::` and `::end::` that tests true is converted, `::if` pushing `if` and `::end::` popping through ResolveEnds; stated by BranchStageQuiet, RenderIf, RenderElseIf, RenderElse and RenderEnd |
| TextConversion.RewriteStage | main.js:104-107 | one guarded rewrite: when its pattern tests true the value is converted and the blocks it opens are pushed, otherwise value and stack are kept; stated by RewriteStagesQuiet and the Render… lemmas |
| TextConversion.RewriteStages | main.js:104-124 | foreach, raw content, raw, fill, set and print, each tested on the previous step's output, in source order; stated by RewriteStagesQuiet, RenderForeach, RenderRawContent, RenderRaw, RenderFill, RenderSet and RenderPrint |
| TextConversion.MacroStage | main.js:125-127 | fillInTwigMacro only when the value holds `TEMPLATE_MACRO_`; stated by CascadeQuiet and PrePass.FillInTwigMacroReadBack |
| TextConversion.LedByColons | main.js:84-122 | a pattern led by a head that starts with `::` can match only at a `:` |
| TextConversion.CascadeQuiet | main.js:83-127 | a text without `:` and without a macro placeholder passes through the cascade unchanged, and the state is unchanged |
| TextConversion.RewriteStagesQuiet | main.js:104-124 | the foreach, raw, fill, set and print steps leave a text without `:` and its state alone |
| TextConversion.BranchStageQuiet | main.js:91-103 | the if/elseif/else/end chain leaves a text without `:` and its state alone |
| TextConversion.CascadeFront | main.js:84-103 | when the switch, case and branch steps do not apply, the cascade is the rewrite steps and the macro fill |
| TextConversion.LineConverts | main.js:342-406 | a directive line `head c::` matches its pattern and becomes the template's text with c in place of `$2` |
| TextConversion.RenderSet | main.js:118-121 | `::set c::` becomes `{% set c %}` and pushes `set` |
| TextConversion.RenderIf | main.js:91-94 | `::if c::` (c without `!`, `&`, `|`) becomes `{% if c %}` and pushes `if` |
| TextConversion.NoOperators | main.js:347-360 | a condition without `!`, `&` and `|` is not touched by the not/and/or rewrites |
| TextConversion.IfNot | main.js:342-350 | `::if a!b::`, where b does not start with `=` and each `!` of b starts a `!=`, becomes `{% if a` + `not ` + `b %}`; the `!` signs of a stay: only the last one of the line is rewritten |
| TextConversion.IfAnd | main.js:342-355 | `::if a&&b::`, where b has no `&`, becomes `{% if a` + `and` + `b %}`; any `&&` of a stays: only the last one of the line is rewritten |
| TextConversion.IfOr | main.js:342-360 | `::if a\|\|b::`, where b has no `\|`, becomes `{% if a` + `or` + `b %}`; any `\|\|` of a stays: only the last one of the line is rewritten |
| TextConversion.RenderElseIf | main.js:95-96 | `::elseif c::` becomes `{% elseif c %}`, and the stack is unchanged |
| TextConversion.RenderElse | main.js:98-99 | `::else::` becomes `{% else %}`, and the stack is unchanged |
| TextConversion.RenderEnd | main.js:101-102 | `::end::` becomes the closing tag of the top block, which is popped |
| TextConversion.RenderForeach | main.js:104-107 | `::foreach x y::` becomes `{% for x in y %}` and pushes `for` |
| TextConversion.RawContentOnly | main.js:18 | `::raw c::` matches RAW_CONTENT_TEMPLO_REGEX exactly when c is `__content__` |
| TextConversion.RenderRawContent | main.js:108-110 | `::raw __content__::` becomes the literal `{% block $2 %}{% endblock %}`, and the stack is unchanged |
| TextConversion.RenderRaw | main.js:111-113 | `::raw c::` for any other c becomes `{{ c\|raw }}`, and the stack is unchanged |
| TextConversion.RenderFill | main.js:114-117 | `::fill c::` becomes `{% set c %}` and pushes `set` |
| TextConversion.RenderPrint | main.js:122-124 | `::c::` with a plain one-word c becomes `{{c}}`, and the stack is unchanged |
| TextConversion.RenderSwitch | main.js:84-87 | `::switch c::` becomes empty text; c becomes the switch condition, the case position starts at 0, and `if` is pushed |
| TextConversion.CaseLineMatch | main.js:23 | `::case:: x` matches as a whole, with x as its group |
| TextConversion.RenderCase | main.js:88-90 | `::case:: x` outside a switch's text becomes the test of the current case position followed by x; the position goes up by one and the stack is unchanged |
| Split.FindStatementAhead | main.js:153 | `/.+?(?=::(foreach\|if\|set))(.*)/s` matches the whole value exactly when a statement keyword starts after its first character, and group 2 is the text from the first such keyword |
| Split.NextSplit | main.js:155 | the next part is a non-empty proper suffix of the value |
| Split.NextSplitIs | main.js:155-160 | a next part exists exactly when a keyword starts after the first character, and it is the text from the first one |
| Split.NoColonNoStatement | main.js:153 | a value without `:` is not split |
| Split.SplitWithoutStatement | main.js:149-155 | a non-empty value without a later statement gives one part, the value itself |
| Split.SplitValue | main.js:149-151 | the list of parts is empty exactly when the value is empty |
| Split.Suffixes | main.js:154 | the first part is the original value |
| Split.SuffixesChain | main.js:156-161 | each later part is a proper suffix of the one before it |
| Split.SuffixesStart | main.js:156-161 | every later part starts with `::foreach`, `::if` or `::set` |
| Split.SuffixesAtKeyword | main.js:156-161 | SplitAtKeywords holds of the parts: each one is cut off at the first keyword after its predecessor's first character, and the last part has no keyword after its first character |
| Split.SuffixesOfValue | main.js:156-161 | every part is a suffix of the original value, and every later part is shorter than it |
| Split.Pieces | main.js:163-169 | there is one trimmed piece per part |
| Split.RemoveFirstAtEnd | main.js:167 | when the first occurrence of the next part is at the end, removing it leaves exactly the text before it |
| Split.ConcatPieces | main.js:140 | the trimmed pieces join to the first part when each part first occurs in its predecessor at the end |
| Split.SplitRejoins | main.js:140 | re-joining the pieces gives back the original value, under that proviso |
| Split.SplitLosesEarlierCopy | main.js:167 | without the proviso the re-joined value can differ: `::if a ::if a` re-joins to ` ::if a::if a` |
| Walk.CondInner | main.js:217 | the cond entry with three characters cut from each end, as `substring(3, length - 3)` does; stated by Walk.IfTextOfEntry |
| Walk.CheckAttrs | main.js:180-212 | checkAttributes' loop from slot i, with the skip after a removed cond placeholder; stated by AttrStepShape, CheckAttrsImport, CheckAttrsNoCondSucceeds and QuietAttrs |
| Walk.WalkNode | main.js:74-146 | convertToTwig on one node: an element's attributes read back, its children converted, a text value split, converted piece by piece and joined; stated by WalkQuiet and WalkImport |
| Walk.WalkChild | main.js:128-141 | one child of an element: a text with a non-empty value is split, its pieces converted in order and joined into one text; an empty text or an element is converted directly; stated by WalkChildQuietText and WalkImport, and computed by Conversion.Converter.ConvertChild |
| Walk.WalkChildren | main.js:129-142 | the children converted left to right, threading the state, each replaced by its result, stopping at the first TypeError; stated by WalkChildrenQuiet and WalkChildrenImport, and computed by Conversion.Converter.ConvertChildren |
| Walk.WalkPieces | main.js:134-140 | the split pieces converted one after the other and concatenated, as the forEach and reduce do; the import flag is unchanged; computed by Conversion.Converter.ConvertPieces |
| Walk.WalkTop | main.js:517 | `doc.childNodes.map(convertToTwig)`: the top-level nodes converted directly, in order, stopping at the first TypeError; stated by WalkTopImport, and computed by Conversion.Converter.ConvertTopLevel |
| Walk.IntoFirstBody | main.js:455-460 | the import text put first into the first `body` in document order, and whether there was one; stated by IntoFirstBodyCounts |
| Walk.IntoBody | main.js:455-460 | the same within one node; stated by IntoBodyCounts |
| Walk.InsertImport | main.js:453-464 | importMacros: the import text becomes the first child of the first `body`, or else of the first top-level node when that is an element; stated by InsertImportOnce |
| Walk.ConvertDocument | main.js:517 | the top-level nodes walked from a fresh state, then the import inserted when the flag turned on (see also main.js lines 453-464); stated by ConvertDocumentImport |
| Walk.AttrStep | main.js:181-212 | one attribute turn never adds attributes |
| Walk.AttrStepShape | main.js:182-212 | one turn fails exactly on a cond placeholder without a table entry; a cond placeholder is removed and the later attributes shift down by one; any other attribute changes only in its own slot and adds no siblings; the import flag turns on exactly at a macro placeholder |
| Walk.QuietAttrs | main.js:180-212 | attributes without placeholders and without `::` are left as they are |
| Walk.IfTextOfEntry | main.js:217 | for a cond entry `{{ e }}` the text put before the element is `{% if e %}` and a newline |
| Walk.CondWraps | main.js:182-186 | a cond placeholder with entry k wraps the element in `{% if e %}` before and `{% endif %}` after, removes the placeholder and keeps the other attributes (see also main.js lines 216-224) |
| Walk.CondMissing | main.js:184-185 | a cond placeholder whose index has no table entry aborts the conversion (the TypeError of `condition.substring`) (see also main.js line 217) |
| Walk.MacroReadBack | main.js:187-194 | macro placeholder k becomes the attribute named by table entry k (undefined when out of range), with value `TEMPLATE_ATTRIBUTE`, and the import flag turns on |
| Walk.FamilyReadBack | main.js:195-209 | a `class`/`checked`/`selected` placeholder value with index k becomes the attribute named by entry k of that family's table, and the import flag is unchanged |
| Walk.CheckAttrsImport | main.js:187-190 | the import flag never turns off, and it turns on only when some attribute has a macro placeholder name |
| Walk.CheckAttrsNoCondSucceeds | main.js:180-212 | without cond placeholders the pass succeeds, keeps the number of attributes and adds no siblings |
| Walk.MacroAttrImports | main.js:187-190 | without cond placeholders, checkAttributes succeeds and any macro placeholder turns the import flag on; a flag already on stays on |
| Walk.WalkText | main.js:83-127 | converting a text value leaves the import flag alone |
| Walk.WalkQuiet | main.js:74-146 | a tree without placeholders, `:` or macro text is returned unchanged, and the state is unchanged |
| Walk.WalkChildrenQuiet | main.js:129-143 | such children are returned unchanged |
| Walk.WalkChildQuietText | main.js:132-134 | a text child without `:` and without a macro placeholder is kept as it is |
| Walk.WalkImport | main.js:187-190 | converting a node never turns the import flag off; it turns it on only when the node has a macro placeholder somewhere (see also main.js line 463) |
| Walk.WalkChildrenImport | main.js:129-143 | the same for a list of children (see also main.js line 463) |
| Walk.WalkTopImport | main.js:517 | the same for the top-level nodes of the document (see also main.js line 463) |
| Walk.ImportsInJoin | main.js:454 | the count of import nodes of joined node lists is the sum of their counts |
| Walk.IntoBodyCounts | main.js:455-460 | putting the import into a `body` adds exactly one import node when there is a body, and otherwise changes nothing |
| Walk.IntoFirstBodyCounts | main.js:455-460 | the same for the first body in document order |
| Walk.InsertImportOnce | main.js:453-464 | importMacros adds at most one import node, into the first `body`, or else as the first child of the first node when that is an element |
| Walk.ConvertDocumentImport | main.js:187-190 | the converted document has at most one import node more than the walked tree, and one only when the document has a macro placeholder (see also main.js lines 453-464) |
| PrePass.MacroSection | main.js:229-252 | the macro part of preConvertAttributes: macro attributes and calls become Twig, the tags read into the table, each tag's `{{…}}` replaced by its numbered placeholder, and the `::` of macro parameters removed; stated by Placement.PlaceTagsAll and PrePass.PreConvertQuiet |
| PrePass.TagEntry | main.js:240-241 | the entry recorded for one matched tag: its `{{…}}` part with `::` removed; stated by Placement.PlaceTagsAll |
| PrePass.TagEntries | main.js:237-242 | one entry per `(<.*){{.*}}(.*>)` match, in order; stated by Placement.PlaceTagsAll and computed by Conversion.RecordTags |
| PrePass.FixParams | main.js:249-252 | the first n matched `{{ macros.… }}` parameters each lose their `::` where they first occur, in order; computed by Conversion.FixMacroParameters |
| PrePass.CondSection | main.js:254-268 | the cond part: `::cond` becomes `{{ … }}`, the tags read into the table and replaced by numbered placeholders; stated by Placement.PlaceTagsAll |
| PrePass.UseSection | main.js:270-282 | the `::use` part: the file name recorded, the directive replaced by the placeholder tag and the last `::end::` by `</html>`; stated by PrePass.UseSectionLines, PrePass.UseNameWhenMissing and Conversion.Converter.PreConvertUse |
| PrePass.UseSectionLines | main.js:270-282 | on a `::use name::` line, then lines of the page, then an `::end::` that opens a line with no `::end::` after it: `name` is recorded, the directive line becomes the `html` placeholder tag and that `::end::` becomes `</html>`, with the rest of the text kept |
| PrePass.UseLineReplaced | main.js:279 | the `::use name::` line is the match of `(::use\s)(.*)(::)` (USE_TEMPLO_REGEX, main.js:21), replaced as a whole |
| PrePass.LastEndReplaced | main.js:281 | the `::end::` that opens a line with none after it is the one `/::end::(?![\s\S]*::end::)/` replaces |
| PrePass.AttrSection | main.js:296-330 | one `::attr` family: its directives become Twig, the `attr={{…}}` texts read into the table and replaced by numbered placeholders; stated by Placement.PlaceAttrsAll and AttrSectionQuiet |
| PrePass.PreConvert | main.js:228-294 | preConvertAttributes: the macro, cond, use and three family parts in the source's order, with their tables and the `::use` file; stated by PreConvertQuiet |
| PrePass.PlaceTags | main.js:244-246 | the tag loop as a function: turn i replaces the first remaining tag's `{{…}}` by placeholder i; stated by TagStep and Placement.PlaceTagsAll |
| PrePass.PlaceAttrs | main.js:324-326 | the family loop as a function: turn i replaces the first remaining `attr={{…}}` by placeholder i; stated by FamilyStep and Placement.PlaceAttrsAll |
| PrePass.MacroNeedsDollar | main.js:25-26 | the macro attribute and macro call patterns need a `$` |
| PrePass.TagNeedsBrace | main.js:237 | the tag, parameter and `attr={{…}}` patterns need a `{` (see also main.js lines 249, 319) |
| PrePass.NoMatchNoTexts | main.js:237 | `match` with `/g` gives no texts when nothing matches |
| PrePass.AttrSectionQuiet | main.js:296-330 | on a text without `{` and `:`, preConvertAttrAttributes changes nothing and records nothing |
| PrePass.PreConvertQuiet | main.js:228-294 | on a text without `$`, `{` and `:` the pre-pass changes nothing, leaves every table empty and records no `::use` file |
| PrePass.PlaceholdersNoDollar | main.js:245 | the placeholder texts hold no `$`, so replace copies them literally (see also main.js line 325) |
| PrePass.TagStep | main.js:245 | one turn of the tag loop puts `TEMPLATE_…_i='TEMPLATE_…_i'` into the first tag holding `{{ … }}`, between the tag's two groups, and keeps the rest; the whole loop is Placement.PlaceTagsAll |
| PrePass.FamilyStep | main.js:325 | one turn of the family loop writes `attr="TEMPLATE_ATTR_<ATTR>_i"` in place of the first `attr={{…}}` and keeps the rest; the whole loop is Placement.PlaceAttrsAll |
| PrePass.PlaceholderFirst | main.js:467 | when no placeholder comes before it, the placeholder's position is the first occurrence of `TEMPLATE_MACRO_` |
| PrePass.PlaceholderKey | main.js:467-468 | the key fillInTwigMacro reads is the digits written into the placeholder |
| PrePass.FillInTwigMacroReadBack | main.js:466-470 | fillInTwigMacro replaces placeholder i by table entry i (undefined when out of range) and keeps the text around it |
| Placement.HeadLoop | main.js:324-326 | after n turns of a loop that replaces the first match by a placeholder which can neither start nor complete a match, the first n matches of the original text are placeholders 0 … n - 1, the text between them is kept, and no match starts before the rest |
| Placement.PlaceAttrsAll | main.js:317-327 | over the whole family loop, with one turn per table entry: match i of the text, which is table entry i, has become `attr="TEMPLATE_ATTR_<ATTR>_i"`, the text between the matches is kept, and no `attr={{…}}` is left |
| Placement.TwigTagRe | main.js:245 | splicing `$1P$2` at the first tag of `(<.*){{.*}}(.*>)`, with P non-empty and free of `}` and `$`, leaves no tag before the end of the splice, when the tag's first group holds no `{{` |
| Placement.TagTurn | main.js:245 | one turn of the tag loop on a text whose first part holds no tag: the first tag of the rest becomes its first group, P and its second group, and no tag starts before the end of those |
| Placement.TagLoop | main.js:244-246 | after n turns, the first n tags of the original text have become their groups around placeholders 0 … n - 1, the text between them is kept, and no tag starts before the rest |
| Placement.PlaceTagsAll | main.js:236-246 | over the whole tag loop, with one turn per table entry: tag i, which gave table entry i, keeps its groups and has its `{{ … }}` replaced by placeholder i, the text between tags is kept, and no tag with `{{ … }}` is left; the cond loop is the same (see also main.js lines 258-267) |
| PostPass.RemoveDivAroundMacroUsage | main.js:480-483 | every div the pre-pass put around a `macros.insert` call replaced by the call; stated by DivUnwrapsInsert, DivKeepsOtherCalls and DivKeptWithoutQuote |
| PostPass.ConvertMacroDefinitions | main.js:485-493 | convertMacroDefinitions: macro tags become `{% macro n %}` and `{% endmacro %}`, the first `<macros>` and `</macros>` are removed and the print directives converted; stated by MacroDefinitionConverts |
| PostPass.PostPass | main.js:524-537 | the post-serialisation chain: attribute values removed, `macros.insert` divs unwrapped, the use template filled in, `::` removed, the namespace removed; stated by PostProcess and PostPassQuiet |
| PostPass.MainAsWritten | main.js:504-522 | main as written: a library is converted, then overwritten by the serialisation of the previous document, post-passed with the `::use` name the previous file left in `templateUseFileName`, a Failure for the first file; stated by MainDropsDefinitions and MainDropsExample |
| PostPass.MainCorrected | main.js:504-537 | main with the converted library kept; a document is pre-converted, parsed, walked, serialised and post-processed; stated by MainKeepsDefinitions and MainAgreesOnDocuments |
| PostPass.StripAttributeValues | main.js:474-476 | the text never grows, and it keeps its length exactly when it holds no `="TEMPLATE_ATTRIBUTE"` |
| PostPass.StripLeavesNone | main.js:474 | after the loop no `="TEMPLATE_ATTRIBUTE"` is left |
| PostPass.StripIdempotent | main.js:472-478 | removing the values twice equals removing them once |
| PostPass.RemoveTwigMacroAttributeValues | main.js:472-478 | the loop ends with the text StripAttributeValues describes, and no `="TEMPLATE_ATTRIBUTE"` is left |
| PostPass.FillInUseTemplate | main.js:436-445 | without a recorded `::use` file the text is unchanged, and without the placeholder tag and `</html>` it is unchanged as well |
| PostPass.ExtendsPlain | main.js:441 | the extends text starts with `{` and holds no `$` and no `<` |
| PostPass.UseTagReplaced | main.js:442 | the first placeholder tag is replaced by the extends text |
| PostPass.CloseReplaced | main.js:443 | the first `</html>` after the extends text becomes `{% endblock %}` |
| PostPass.FillInUseTemplateWraps | main.js:436-445 | with a recorded file and the placeholder tag in the text, the tag becomes `{% extends <name>.twig %}` and `{% block content %}`, and the next `</html>` becomes `{% endblock %}` |
| PostPass.DivInsertMatch | main.js:481 | a wrapped `macros.insert…` call matches the div pattern as a whole |
| PostPass.DivUnwrapsInsert | main.js:480-483 | the div the pre-pass put around a `macros.insert…` call is removed, and the call is kept |
| PostPass.DivKeepsOtherCalls | main.js:481 | the div around a call of any other macro is kept |
| PostPass.DivNeedsOpening | main.js:481 | the div pattern can match only at `<d` |
| PostPass.ReplaceAllOnce | main.js:486 | replace with `/g` on a text with exactly one match changes only that match |
| PostPass.ReplaceFirstOnce | main.js:488 | replace without `/g` on a text with one match changes only that match |
| PostPass.MacroStartMatch | main.js:34 | `<macro name="n">` matches MACRO_START_TAG_TEMPLO, with n as its group |
| PostPass.MacroStartStep | main.js:486 | in a one-macro library the opening tag becomes `{% macro n %}` |
| PostPass.MacroEndStep | main.js:487 | `</macro>` becomes `{% endmacro %}` |
| PostPass.MacrosStartStep | main.js:488 | the `<macros>` tag is removed |
| PostPass.MacrosEndStep | main.js:489 | the `</macros>` tag is removed |
| PostPass.PrintIdentity | main.js:490 | the print conversion leaves a text without `:` unchanged |
| PostPass.MacroDefinitionConverts | main.js:485-493 | a library with one macro n and a plain body b becomes `{% macro n %}` b `{% endmacro %}` |
| PostPass.PostProcess | main.js:524-537 | the post-pass loop computes the documented chain: attribute values removed, `macros.insert` divs unwrapped, the use template filled in, `::` removed, the namespace removed |
| PostPass.DivKeptWithoutQuote | main.js:482 | a text without `"` keeps all its divs |
| PostPass.DoubleColonKept | main.js:534 | a text without `:` is not changed by removeTemploDoubleColon |
| PostPass.PostPassQuiet | main.js:524-537 | a serialised text without `"` and `:` and without a `::use` file passes through the post-pass unchanged |
| PostPass.LibraryStartsWithMacros | main.js:506 | a macro library starts with `<macros>` |
| PostPass.MainDropsDefinitions | main.js:506-522 | as written, main throws away the converted library: for the first file it fails, and otherwise its output is the previous file's document serialised and post-passed with the `::use` name that file left |
| PostPass.MainDropsExample | main.js:506-522 | on a concrete library, main as written outputs whatever the serializer makes of the previous document, not the converted macro |
| PostPass.DefinitionQuoteFree | main.js:486-487 | the converted definition of a quote-free library holds no `"` |
| PostPass.MainKeepsDefinitions | main.js:504-537 | the corrected main outputs the converted definition of a one-macro library |
| PostPass.MainAgreesOnDocuments | main.js:509-537 | on files not starting with `<macros>`, main as written and the corrected main agree |
| Conversion.Converter.constructor | main.js:57-66 | a fresh state: empty stack, case position 0, empty condition, macros not imported, empty tables, no `::use` file |
| Conversion.Converter.ConvertEnd | main.js:373-381 | the loop pops the stack and gives ResolveEnds' text and stack; no `::end::` is left, and nothing else changes |
| Conversion.Converter.ConvertCase | main.js:417-423 | the first case becomes the test of the current position, the position goes up by exactly one, and nothing else changes |
| Conversion.Converter.ConvertSwitch | main.js:408-414 | records the switch condition (group 1 of the first switch), converts the value's case directives once each at positions 0, 1, …, each into the test convertCase inserts with the condition's `$` patterns expanded, then erases the switch directive; the position ends at the number of cases. Directives.SwitchLoopAgrees shows the loop as written ends with the same text wherever the condition brings in no directive |
| Conversion.SwitchText | main.js:410-414 | the text left after a switch on a condition: the case directives converted once each into convertCase's tests by the corrected loop, then the switch directive erased; the count is the number of case directives |
| Conversion.ConvertCases | main.js:410-413 | the corrected case loop computes Cases from position 0, and the final position is the number of case directives; where the loop as written ends, it ends with this result (Directives.SwitchLoopAgrees) |
| Conversion.ConvertCaseAt | main.js:411-412 | one turn of the corrected case loop: the directive found from c becomes its test, the search resumes after it nearer the end of the text, and the corrected loop's result from the new state is the result from the old |
| Conversion.Converter.ConvertText | main.js:83-127 | the text branch gives the cascade's text and new stack and switch state, and leaves the tables, the import flag and the `::use` file alone |
| Conversion.Converter.ConvertSwitchStage | main.js:84-87 | a value with a `::switch` gets its cases converted into convertCase's tests and the directive erased, the condition and position recorded, and `if` pushed; any other value and the state are unchanged |
| Conversion.Converter.ConvertCaseStage | main.js:88-90 | a value with a `::case::` gets its first case converted at the current position, which goes up by one; any other value and the state are unchanged |
| Conversion.Converter.ConvertBranch | main.js:91-103 | only the first of `::if`, `::elseif`, `::else::` and `::end::` present is converted |
| Conversion.Converter.Rewrite | main.js:104-121 | one independent rewrite: applied and its block pushed when its pattern matches, otherwise nothing changes |
| Conversion.Converter.ConvertRewrites | main.js:104-124 | foreach, raw content, raw, fill, set and print, in that order |
| Conversion.Converter.CheckAttributes | main.js:179-214 | the attribute loop gives CheckAttributes' result, and the import flag is the one the pass ends with |
| Conversion.CheckAttributeList | main.js:180-213 | the indexed loop over the attribute list gives CheckAttributes' result |
| Conversion.Converter.ConvertNode | main.js:74-146 | one node converted in place as the walk describes, with the state it ends in, or the failure |
| Conversion.Converter.ConvertChild | main.js:130-142 | one child: split, its pieces converted and joined, as the walk describes |
| Conversion.Converter.ConvertPiece | main.js:137 | one piece converted by the text branch gives the walk's text step: the new state and the piece's text |
| Conversion.Converter.ConvertPieces | main.js:136-141 | the pieces converted in order and joined, threading the state |
| Conversion.Converter.ConvertChildren | main.js:129-143 | the children converted in order, threading the state |
| Conversion.Converter.ConvertTopNodes | main.js:517 | the top-level nodes converted as WalkTop describes, with the import added when the flag turned on; from a fresh state this is ConvertDocument (see also main.js lines 453-464) |
| Conversion.Converter.ConvertTopLevel | main.js:517 | the top-level nodes converted in order as WalkTop describes: the same nodes and the same state, or the failure, with the tables and the `::use` name unchanged |
| Conversion.SplitNodeByStatements | main.js:148-171 | the loop and the trimming give SplitValue's parts |
| Conversion.CollectSplits | main.js:152-161 | the while loop collects the value and each later rest, which are Suffixes |
| Conversion.TrimPieces | main.js:163-169 | the forEach trims each part but the last, giving Pieces |
| Conversion.Converter.PreConvertMacros | main.js:229-252 | the macro table gains the entries of the matched tags; the text has as many tags as the whole table now holds replaced by placeholders 0, 1, … (numbered from 0, whatever the table held before, as the forEach over the whole table does at main.js:244-246) and their parameters without `::`; from an empty table this is the macro section |
| Conversion.RecordTags | main.js:237-242 | the table gains one entry per matched tag, in order |
| Conversion.ReplaceTags | main.js:244-246 | each turn of the forEach replaces the first remaining tag by the placeholder of its index |
| Conversion.FixMacroParameters | main.js:249-252 | every matched `{{ macros.… }}` parameter loses its `::` |
| Conversion.Converter.PreConvertConds | main.js:254-268 | the cond table gains the entries of the matched tags, and as many tags as the whole table now holds become `TEMPLATE_COND_i` placeholders, numbered from 0 whatever the table held before |
| Conversion.Converter.PreConvertUse | main.js:270-282 | with a `::use name::`, name is recorded, the directive becomes the placeholder tag and the last `::end::` becomes `</html>`; otherwise nothing changes |
| Conversion.Converter.PreConvertAttrAttributes | main.js:296-330 | the family's directives become Twig; the table gains the matched `attr={{…}}` texts in order; they become numbered placeholders only when there were matches; the other families are unchanged |
| Conversion.ReplaceAttrs | main.js:324-326 | each turn of the forEach replaces the first remaining `attr={{…}}` by the placeholder of its index |
| Conversion.Converter.PreConvertTemplates | main.js:229-282 | from empty macro and cond tables and no `::use` file, the macro, cond and `::use` parts give the functional sections' text, tables and file name; the `::attr` tables are unchanged |
| Conversion.Converter.PreConvertFamilies | main.js:284-291 | from empty `::attr` tables, the class, checked and selected parts in order give the functional sections' text and tables; the other tables and the `::use` file are unchanged |
| Conversion.Converter.PreConvertAttributes | main.js:228-294 | from empty tables, the pre-pass gives PreConvert's text, tables and `::use` file |
| Conversion.Converter.ConvertFile | main.js:504-537 | one file at the start of a run gives the corrected main's output |

## Left out

- The XML parser and serializer (xmldom, main.js:1-2, 500, 515, 521-522) are parameters of
  `PostPass.MainCorrected` and `Conversion.Converter.ConvertFile`. The serialised text is an
  opaque input to the post-pass. The namespace strip of main.js:537 is a literal replace of its
  first occurrence.
- Reading the input directory, reading and writing files, the command line (`getArgs`), console
  logging and the commented-out XMLHttpRequest block (main.js:540-613) are I/O.
- The `lastIndex` that `.test()` leaves on a `/g` regex (main.js:91, 104, 122, 210, 347) is not
  modelled. Every `test` here searches from the start of the text.
- Conversion.Converter.PreConvertAttributes requires empty tables and no recorded `::use` file.
  Conversion.Converter.ConvertFile also requires a fresh stack, switch state and import flag.
  The source never resets its module-level state between files (main.js:57-66), and its forEach
  over the whole table (main.js:244, 266, 324) then uses the wrong indices. The model converts each
  file from a fresh state.
- Conversion.Converter.ConvertSwitch converts the cases with the corrected loop
  (`Conversion.ConvertCases`). The loop as written can diverge (see Findings). Under
  `Directives.AsWrittenCaseLoop` it is modelled with fuel. Each test is the one convertCase
  inserts, with the condition's `$` patterns expanded. `Directives.SwitchLoopAgrees` proves the
  two loops agree when the condition has no `$` pattern but `$$` and, read with `$$` as `$`, no
  `::case::` directive. Agreement is not proved for a condition with `$&`, `` $` ``, `$'` or `$n`.
- Conversion.Converter.ConvertSwitchStage uses the same corrected loop. Where the source's loop
  diverges, the model's switch stage ends.
- Conversion.Converter.CheckAttributes keeps the source's skip. A removed cond placeholder shifts
  the next attribute into its slot, and the loop index moves past that attribute without
  examining it.
- `node.removeAttribute(condition.name)` (main.js:223) is called with `undefined` and is
  not modelled. Only the cond placeholder attribute is removed.
- Walk.InsertImport: with no `body` and a first top-level node that is not an element, the
  source's `insertBefore` fails. The model leaves the document unchanged in that case.
- Conversion.Converter.ConvertTopNodes (and `Walk.ConvertDocument`) add the import once, after the
  walk. The source adds it during the walk, when the first macro placeholder is read
  (main.js:188-189, 456-458). Take a document with no `body` whose first element has a macro
  placeholder before a cond placeholder. The source puts the import inside that element. Only
  then does it put the `{% if … %}` text before the element (main.js:219). In the model the
  first top-level node is by then that text, so no import is added. That the two orders give
  the same tree in other documents is not proved.
- PostPass.MainAsWritten gives a Failure for the first file (no previous document). This
  assumes that `serializeToString(undefined)` throws. A serializer that returned some text there
  would make main as written output that text. Only the library branch reads state left by an
  earlier file (its document and `::use` name). The document branch is taken from fresh state,
  as in Conversion.Converter.ConvertFile, so a document without `::use` that follows one with
  `::use` is not post-passed with the earlier name here, as it is in the source (main.js:275, 527).
- Placement.PlaceTagsAll requires that no matched tag holds `{{` in its first group
  (`Placement.SingleExpressionTags`). A line with two `{{ … }}` expressions, such as two
  conditional attributes on one line, breaks this. Its first group then ends at the last `{{`, so
  the next turn finds the same line again. From there on, placeholders no longer carry the
  index of the table entry read from their tag.
- TextConversion.RenderIf covers the cascade for conditions without `!`, `&` and `|`. The not,
  and and or rewrites are stated on `Directives.ConvertIf` alone, one kind of operator per
  condition, by `TextConversion.IfNot`, `IfAnd` and `IfOr`.
- The document has only text and element nodes. The `!node` guard (main.js:75-77), comment and
  other node kinds, the copy of `nodeValue` into `data` (main.js:141, 145) and the assignment of
  the mapped array to `doc.childNodes` (main.js:517) are not modelled.
- Missing table entries: an index past the end of a table reads as the text `undefined`, as
  JavaScript does when interpolating it. A missing cond entry is a `Failure`, for the TypeError
  of `condition.substring`.
- The TextConversion.Render… lemmas are stated for lines that hold a single directive and no other
  `::`. The cascade itself (`TextConversion.Cascade`) is defined for every text.
- PrePass.FillInTwigMacroReadBack is stated for table entries without `$`. The source's
  `replace` would expand `$` patterns in the entry (main.js:469); such entries are not covered.
- PrePass.UseSectionLines is stated for an `::end::` that opens a line. An `::end::` glued to a
  preceding `::end` can overlap it, and the regex then picks the overlapping one.
- Split.SplitRejoins holds only when each part's first occurrence in its predecessor is at the end.
  Split.SplitLosesEarlierCopy shows a value for which it fails.

## Findings

| source | as written | input that shows it | evidently intended | confidence | as-written member | corrected member |
|---|---|---|---|---|---|---|
| main.js:408-414 | `while (value.match(CASE_TEMPLO_REGEX)) value = convertCase(value)` searches the whole value again after each rewrite. The greedy switch group can capture a `::case::` directive into the condition, and each inserted test then contains a fresh `::case::` | the one-line switch `::switch x:: ::case:: a ::end::` | each case directive of the value is converted once, and the loop ends | not executed | Directives.SwitchExampleDiverges | Conversion.ConvertCases |
| main.js:506-522 | a file starting with `<macros>` is converted by `convertMacroDefinitions` into `fileAsString`. Line 522 then overwrites that text with `serializeToString(doc)`: the previous file's document, or `undefined` for the first file | a library `<macros><macro name="a">b</macro></macros>` | the output is the converted definitions, `{% macro a %}b{% endmacro %}` | not executed | PostPass.MainDropsExample | PostPass.MainKeepsDefinitions |
