# BEM CSS linter rule engine, in Dafny

This project models the rule engine of a small CSS linter that enforces BEM
naming for one component per file. Given the file name (for example
`SearchField`) and the nodes of the parsed stylesheet in walk order, the
linter runs a fixed list of rules on every node and collects their findings.

There are two generations of the engine, and both are modelled:

- `bin/index.js` is the current linter, with five rules:
  - no id selectors;
  - a class name holds `__` at most once;
  - class names are the component name, or start with
    `componentName--` or `componentName__`;
  - `@keyframes` names start with `componentName__`;
  - type selectors appear only to the right of a child combinator `>`,
    except inside at-rules.

  The findings of one stylesheet are collected by `findLintErrors`.
- `index.js` is the older linter, with three rules: no id selectors, no
  double nesting, and class names that merely start with the converted file
  name. `lintFile` collects its findings.

Modules:

- `Wrappers`: `Option`, `Result`, and `Present`. `Present` is the "push
  unless it is the `no error` sentinel" step.
- `Ascii`: `[A-Z]`, ASCII `toLowerCase` and `startsWith`.
- `ComponentName`: `toComponentName` is modelled literally as
  `split(/(?=[A-Z])/)`, then `join("_")`, then `toLowerCase()`. It is proved
  equal to a character-level reference: insert `_` before every capital
  after index 0, then lower-case. `containsDoubleLowDashMoreThanOnce` is the
  left-to-right, non-overlapping match count of `/__/g`. It is proved
  equivalent to "two disjoint occurrences of `__`".
- `Syntax`:
  - the node kinds the rules inspect;
  - a `Visit`, which is the node together with the callback's context
    `this.atrule` and `item.prev`;
  - structured findings, of type `Diagnostic`;
  - the one fault a rule can raise.
- `Rules`: the five current rules.
- `Walk`: the walk as a fold of a callback over the sequence of visits. An
  exception thrown by the callback ends the walk.
- `Linter`: `findLintErrors` and its properties, plus whole-stylesheet
  scenarios for `SearchField.css`.
- `LegacyLinter`: the older rules and `lintFile`. It also proves that the
  newer linter is at least as strict.

Notes on how the code was read:

- **Separator.** The doc comments at `bin/index.js` lines 162, 188 and 237
  say `SearchField` becomes `search-field`, but the code joins with `_`.
  The model follows the code: `SearchField` becomes `search_field`
  (`ComponentName.SearchFieldExample`). A stylesheet written the documented
  way therefore gets a naming finding on every class
  (`Linter.DashedSearchFieldScenario`).
- **Animation rule fault.** The animation rule reads
  `node.prelude.children.first().name` unguarded. For a `@keyframes` rule
  whose prelude has no named first child, this throws (`undefined.startsWith`
  or a null dereference), and the exception escapes `findLintErrors`. The
  model keeps this path: `Atrule.preludeFirstName` is `None`, and the
  collector returns `Failure(AnimationNameUnreadable(line))` instead of a
  list.
- **`split` semantics.** JavaScript's `split` with a look-ahead pattern never
  cuts at index 0, and `"".split(...)` is `[""]`. The model reproduces both
  behaviours.
- **Older linter.** Its walk callback ignores its context, so `lintFile` is
  modelled over the node sequence (`Syntax.Nodes` of the visits).

## Model

| member | source | states |
|---|---|---|
| Wrappers.Present | bin/index.js:106-110 | A rule result adds exactly one entry when it is a finding, holding that finding, and nothing when it is the "no error" sentinel |
| Ascii.LowerCase | bin/index.js:243 | Lower-casing keeps the length, leaves no `A-Z`, and maps each character by ASCII case mapping |
| ComponentName.SplitBeforeUpperPieces | bin/index.js:241 | The split pieces concatenate back to the file name; each piece after the first starts with a capital; no piece has a capital after its first character; no piece is empty unless the input is |
| ComponentName.WordSplitIsUnique | bin/index.js:241 | Any list of pieces with those four properties is the split, so they determine the result of `split(/(?=[A-Z])/)` |
| ComponentName.SplitBeforeUpperCharacterised | bin/index.js:241 | A list of pieces is the split of the file name exactly when it has those four properties |
| ComponentName.SplitBeforeUpperConcat | bin/index.js:240-241 | Joining the split pieces back without a separator gives the file name, so the split loses no character |
| ComponentName.SplitBeforeUpperCuts | bin/index.js:241 | The split cuts only before capitals: every piece after the first is non-empty and starts with `A-Z` |
| ComponentName.SplitBeforeUpperWords | bin/index.js:241 | The split cuts before every capital after index 0: no piece holds a capital after its first character |
| ComponentName.SplitJoinIsSeparateWords | bin/index.js:240-242 | Splitting before capitals and joining with `_` is the same as inserting `_` before each capital after index 0 |
| ComponentName.ComponentNameShape | bin/index.js:239-244 | The component name has no capitals, is the lower-cased file name with `_` before every capital after index 0, and is one character longer per such capital |
| ComponentName.ComponentNameIsLowerCaseIff | bin/index.js:239-244 | The component name is the plain lower-casing of the file name exactly when no capital follows index 0 |
| ComponentName.ComponentNameIdempotent | bin/index.js:239-244 | Converting a component name again leaves it unchanged |
| ComponentName.TwoWordComponentName | bin/index.js:239-244 | Two capitalised words `FooBar` become `foo_bar` |
| ComponentName.SearchFieldExample | bin/index.js:234-244 | `SearchField` becomes `search_field`, with an underscore, not the `search-field` the comment gives |
| ComponentName.CountMatchesFromBound | bin/index.js:25 | Each `/__/g` match consumes two characters, so the count is at most half the remaining length |
| ComponentName.CountFromPositive | bin/index.js:251 | The match search from an index finds something exactly when `__` occurs at or after that index |
| ComponentName.CountFromAtLeastTwo | bin/index.js:251-252 | The search finds two or more matches exactly when two disjoint `__` occur at or after the index |
| ComponentName.ContainsDoubleLowDashMoreThanOnce | bin/index.js:250-253 | True exactly when the name holds two non-overlapping occurrences of `__` |
| ComponentName.ThreeLowDashesCountOnce | bin/index.js:25 | `___` holds one match (matches do not overlap), so it is not double nesting |
| ComponentName.FourLowDashesCountTwice | bin/index.js:25 | `____` holds two matches |
| ComponentName.DoubleNestingExamples | bin/index.js:142-145 | `block__one__two` is nested more than once and `a__b` is not |
| Rules.CheckIfUsesIdSelector | bin/index.js:131-140 | Fires exactly on id selectors, reporting the node's line and id |
| Rules.CheckIfNestedMoreThanOnce | bin/index.js:146-158 | Fires exactly on class selectors whose name holds two disjoint `__` |
| Rules.CheckIfStartsWithComponentName | bin/index.js:164-184 | Fires exactly on class selectors that are neither the component name nor prefixed by `componentName--` or `componentName__` |
| Rules.CheckIfAnimationStartsWithComponentName | bin/index.js:190-209 | Faults exactly on a keyframes rule without a readable name; otherwise fires exactly on keyframes whose name lacks the `componentName__` prefix |
| Rules.CheckIfUsesTypeSelector | bin/index.js:215-230 | Fires exactly on a type selector outside any at-rule whose previous item is missing or is not the combinator `>` |
| Rules.OnlyIdRuleFiresOnIdSelector | bin/index.js:116-120 | On an id selector the id rule fires and the other four do not |
| Rules.NamingRuleAcceptsBemNames | bin/index.js:167-171 | The block, every `--` modifier and every `__` element of the component pass the naming rule |
| Rules.NamingRuleAcceptsOnlyBemNames | bin/index.js:167-171 | Conversely, a class that passes is the block or the block followed by `--` or `__` and a suffix |
| Rules.NamingRuleOnlyOnClasses | bin/index.js:168 | The naming rule never fires on a node that is not a class selector |
| Rules.AnimationNamedLikeComponentFires | bin/index.js:196 | An animation named exactly after the component fires, although a class of that name passes |
| Rules.AnimationRuleAcceptsElementNames | bin/index.js:193-196 | An animation named `componentName__…` never fires |
| Rules.TypeSelectorRuleCases | bin/index.js:216-222 | At top level a type selector fires when it comes first or after anything but `>`, including `+`; after `>` or inside any at-rule it does not |
| Walk.Collect | bin/index.js:112-121 | A walk faults exactly when some visit's callback faults |
| Walk.CollectFirstFailure | bin/index.js:112-121 | The fault reported is that of the first faulting visit, and every earlier visit succeeded |
| Linter.VisitErrors | bin/index.js:116-120 | One visit faults exactly when the animation rule cannot read the keyframes name, with that node's line |
| Linter.VisitErrorsByNodeType | bin/index.js:116-120 | What one visit adds, per node type: only the id rule on ids, nesting then naming on classes, only the type rule on type selectors, only the animation rule on at-rules, nothing otherwise |
| Linter.VisitErrorsProperties | bin/index.js:112-121 | One visit adds at most two findings, and two only for a class selector; it adds none exactly when no rule fires; all are on the node's line, in the fixed rule order |
| Linter.IdSelectorVisitYieldsOneError | bin/index.js:131-140 | An id selector visit adds exactly one finding, the id finding |
| Linter.FindLintErrors | bin/index.js:104-123 | The collection fails exactly when some visit faults; otherwise it holds at most two findings per visit |
| Linter.FindLintErrorsAppend | bin/index.js:112-123 | Findings follow visit order: walking `a + b` is walking `a`, then `b`, and the first fault wins |
| Linter.FindLintErrorsSingle | bin/index.js:106-110 | A one-node walk reports exactly that node's findings |
| Linter.FaultIsFirstFaultingVisit | bin/index.js:194 | A failed collection reports the line of the first keyframes rule without a readable name |
| Linter.NoErrorsIffNoRuleFires | bin/index.js:104-123 | A completed walk finds nothing exactly when no rule fires on any visit |
| Linter.EachIdSelectorReportedOnce | bin/index.js:116 | Every id selector is reported exactly once, and there are no other id findings |
| Linter.StructuralVisitAddsNothing | bin/index.js:112-121 | Inserting a visit of a structural node or of a combinator anywhere in the walk leaves its result unchanged |
| Linter.SearchFieldScenario | bin/index.js:97-124 | In `SearchField.css` with one rule per line, `.search_field {}` on line 1, `#foo {}` on line 2 and `.search_field__a__b {}` on line 3, the walk yields the id finding on line 2 and the nesting finding on line 3 |
| Linter.DashedSearchFieldScenario | bin/index.js:160-184 | The same sheet, one rule per line, spelled with `search-field` additionally gets a naming finding on both classes, lines 1 and 3 |
| LegacyLinter.CamelCaseToDashes | index.js:79-83 | The converted file name has no capitals and is the lower-cased file name with `_` before every capital after index 0 |
| LegacyLinter.CamelCaseToDashesIsComponentName | index.js:79-83 | The older conversion equals the newer `toComponentName` on every file name |
| LegacyLinter.CheckIfUsesIdSelector | index.js:53-57 | Fires exactly on id selectors, reporting the node's line and id |
| LegacyLinter.CheckIfHasDoubleNesting | index.js:63-72 | Fires exactly on class selectors whose name holds two disjoint `__` |
| LegacyLinter.CheckIfStartsWithFileName | index.js:78-89 | Fires exactly on class selectors that do not start with the converted file name |
| LegacyLinter.IdRulesAgree | index.js:53-57 | The older and newer id rules report the same findings |
| LegacyLinter.NestingRulesAgree | index.js:63-72 | The older and newer nesting rules report the same findings |
| LegacyLinter.LegacyNamingImpliesNaming | index.js:85-86 | Whenever the older naming rule fires, the newer one fires on the same class |
| LegacyLinter.LegacyNamingAcceptsMore | index.js:86 | `search_fieldx` in `SearchField.css` passes the older rule but not the newer one, so the converse fails |
| LegacyLinter.NodeErrorsProperties | index.js:35-39 | One node adds at most two messages, and two only for a class selector; it adds none exactly when no rule fires; all are on the node's line, in the order id, nesting, naming |
| LegacyLinter.LintFile | index.js:28-39 | The messages number at most two per node |
| LegacyLinter.LintFileAppend | index.js:35-39 | Messages follow visit order: walking `a + b` is walking `a`, then `b` |
| LegacyLinter.LintFileSingle | index.js:29-33 | A one-node walk reports exactly that node's messages |
| LegacyLinter.NoMessagesIffNoRuleFires | index.js:28-39 | No message at all exactly when no rule fires on any node |
| LegacyLinter.VisitAtLeastAsStrict | index.js:35-39 | For each visit, the newer linter reports at least as many findings as the older one |
| LegacyLinter.CanonicalAtLeastAsStrict | index.js:23-39 | On every stylesheet the newer walk completes, it reports at least as many findings as the older walk |

## Left out

- The command line is not modelled: yargs options, `--all` and `--verbose`, the per-file summary, and `process.exit` (`bin/index.js` lines 7-19 and 27-75). They are process plumbing around the engine.
- The message text is not modelled: the coloured message strings, `console.error`/`console.log` output, and the colour helpers (`bin/index.js` lines 77-89 and 133-226, `index.js` lines 41-45). Each message is replaced by a `Diagnostic` of rule kind, line and offending name.
- File reading is not modelled: `fs.readFile`, the command-line argument of `index.js`, and the `.csslintignore` read (`bin/index.js` lines 21-23 and 91-95, `index.js` lines 1-18). This is I/O, and the ignore file's contents are never used.
- The `css-tree` parser and walker are a foreign library, so their internals are not modelled. The walk is given as the sequence of visits it makes. Each visit carries the node, the enclosing at-rule name (`this.atrule`) and the previous list item (`item.prev`). The model assumes that a type selector always sits in a list, so that `item` is defined.
- Source positions are reduced to the start line, the only part the messages use.
- `toLowerCase` is modelled for ASCII only; Unicode case mapping is not modelled. The split pattern `[A-Z]` is ASCII in the source too.
- No rule message can equal `no error`, because each starts with `🔴 on line`. So the sentinel comparison in `maybeAddError` and `addErrorMessage` drops exactly the results without a finding. The model uses `Option` instead of the sentinel.
- Line-suppression comments, an aggregator-file mode and import rules appear in neither `bin/index.js` nor `index.js`, so the model has none of them.
- The line inside `AnimationNameUnreadable` is the model's label for the faulting keyframes node. The program itself throws a bare `TypeError` at `bin/index.js` line 194 or 196, which carries no stylesheet line.
