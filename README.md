# helm-cel core in Dafny

helm-cel checks a Helm chart's values tree against boolean CEL rules that are kept in
rules files. This project models the deterministic code around the CEL engine and proves
properties of it. It covers five parts:

- **The macro expander** (`ExpressionProcessor`):
  - the `${name}` / `${name(args)}` reference scanner, with its parenthesis depth count;
  - the quote-aware argument splitter, with backslash escapes;
  - positional `$0, $1, …` substitution;
  - the bounded pass loop of `expandExpression` and its exact error messages;
  - `PrepareNamedExpressions`, which rewrites every rule of a `ValidationRules` object in place.
- **The diagnostics** (`Validator`):
  - `extractPath` over CEL error messages;
  - `extractValueFromValues`, a textual path followed by a walk down the values tree;
  - `validateRules`, which sorts each rule's outcome into errors or warnings;
  - the control flow of `ValidateChart` after loading.
- **The rendering** (`Models` for `pkg/models/models.go`, `ValidatorModels` for its copy in
  `pkg/validator/models.go`): the exact text of findings and results.
- **The merges** (`ValuesLoader`, `RulesLoader`):
  - the deep merge of values trees, folded over the values files;
  - the concatenation of rules, with a duplicate-free union of named expressions.
- **The rule generator** (`Generator`): the walk over a values tree and the port and
  resource classifiers. It is specified as a multiset of rules, because Go's map order is
  not fixed.

The shared modules are:

- `Values`: the decoded YAML tree.
- `Wrappers`: `Option`, `Result`, `Outcome`. An error is represented by its message text.
- `GoStrings`: the parts of Go's `strings` and `strconv` packages that the core uses, each
  with its own contract.

How the model abstracts the source:

- **CEL** is a parameter `Cel` of three functions:
  - compile gives an `Outcome`;
  - program construction gives an `Outcome`;
  - evaluation gives a `Result<Value>`.
- **Go's `%v`** formatting is a parameter `show: Value -> string`.
- **Loaded files** are given as their decoded contents, or as the error their loading
  ends in.

Two behaviours of the code that its comments do not announce are modelled as written:

- `extractPath` trims quotes only at the two ends of the whole rest of the message, and
  cuts at the first space after that. So `undefined field 'replicas'` gives `replicas`,
  but `undefined field 'replicas' in type X` gives `replicas'`: the closing quote is
  inside the first word and stays.
- The candidate path of `extractValueFromValues` is the text between the first `values.`
  and the next one (`strings.Split(expr, "values.")[1]`). It is not the rest of the
  expression, and it is cut at a space only after that.

## Model

| member | source | states |
|---|---|---|
| ExpressionProcessor.FindExpressionReferences | pkg/validator/expression_processor.go:110-167 | the index-cursor scan returns exactly the reference list `References(expr)` of the scanning function |
| ExpressionProcessor.ReadReference | pkg/validator/expression_processor.go:116-160 | reading one `${` gives the scan's next position and the recorded match, or none and a one-character advance |
| ExpressionProcessor.ScanWellFormed | pkg/validator/expression_processor.go:110-167 | every recorded match is the text of the expression at its start, is `${` + name + balanced args + `}` with a name made of `[A-Za-z0-9_]`, and matches are left to right and non-overlapping |
| ExpressionProcessor.ArgsBalanced | pkg/validator/expression_processor.go:129-146 | the depth scan after the name stops at the parenthesis that closes the one opened, so the argument span is balanced |
| ExpressionProcessor.ReferenceAtWellFormed | pkg/validator/expression_processor.go:148-160 | a match is recorded only when `}` follows, it starts at the `${`, and the scan resumes right after it |
| ExpressionProcessor.NoOpenNoReferences | pkg/validator/expression_processor.go:114-164 | text without `${` has no references |
| ExpressionProcessor.ParseArguments | pkg/validator/expression_processor.go:170-246 | the loop returns `Arguments(argsWithParens)`: the outer `(`/`)` and white space are stripped, empty inner text gives no arguments, and the pieces are split by the splitter and trimmed |
| ExpressionProcessor.SplitLoop | pkg/validator/expression_processor.go:180-243 | the builder loop equals the splitter function; the last piece is kept only when it is non-empty |
| ExpressionProcessor.SplitPieces | pkg/validator/expression_processor.go:188-243 | pieces joined by commas, each a word without commas, quotes, brackets or backslashes, possibly followed by one `(…)` or `[…]` group of such text and commas, or by one single-quoted string, are cut at exactly the joining commas: the splitter ends with every piece but the last cut off and the last one still being built, so commas inside a group or a quoted string belong to their piece |
| ExpressionProcessor.ArgumentsJoin | pkg/validator/expression_processor.go:170-246 | parsing `(` + the arguments joined by `, ` + `)` gives back those arguments, for non-empty arguments of those shapes with no white space at their ends |
| ExpressionProcessor.ArgumentsExample | pkg/validator/expression_processor.go:191-227 | `(f(a, b), [c, d], 'e,f')` gives the three arguments `f(a, b)`, `[c, d]` and `'e,f'`: commas inside a call, a list or a quoted string do not split |
| ExpressionProcessor.ArgumentsTrimmed | pkg/validator/expression_processor.go:221-243 | every argument is empty or has no white space at either end |
| ExpressionProcessor.Substitution | pkg/validator/expression_processor.go:249-275 | a success has no `$<digit>` left; "expression requires parameters but none were provided" exactly when the body has a placeholder and there are no arguments; any other failure is "not enough arguments provided for parameters" |
| ExpressionProcessor.ReplaceParameters | pkg/validator/expression_processor.go:249-275 | the ReplaceAll loop gives `Substitution(expr, args)`, so it inherits the lemmas below |
| ExpressionProcessor.SubstitutedTemplate | pkg/validator/expression_processor.go:265-268 | for a body of literal text and one-digit placeholders, after the rounds for `$0 … $(n-1)` each `$i` with i < n stands for `args[i]` and every other placeholder is still in place (only for at most 10 arguments, none holding `$`, and a body whose literal text has no `$`; see Left out) |
| ExpressionProcessor.SubstituteTemplate | pkg/validator/expression_processor.go:249-275 | when every placeholder of such a body has an argument, the result is the body with each `$i` replaced by `args[i]` (only for at most 10 arguments, none holding `$`, and a body whose literal text has no `$`; see Left out) |
| ExpressionProcessor.MissingArgument | pkg/validator/expression_processor.go:259-272 | when some placeholder `$i` of such a body has i ≥ the number of arguments, the result is "expression requires parameters but none were provided" for no arguments and "not enough arguments provided for parameters" otherwise (only for at most 10 arguments, none holding `$`, and a body whose literal text has no `$`; see Left out) |
| ExpressionProcessor.PlaceholderFreeBody | pkg/validator/expression_processor.go:259-274 | a body without placeholders is returned unchanged whatever the arguments |
| ExpressionProcessor.ReferenceBodyCases | pkg/validator/expression_processor.go:57-80 | an unknown name fails with `undefined reference in expression: <fullMatch>`; a bare reference takes the body untouched; an argument reference takes the substituted body or fails with `failed to replace parameters in <name>: …` |
| ExpressionProcessor.ReferenceBodyError | pkg/validator/expression_processor.go:57-76 | a failing reference fails as undefined or as a failed replacement |
| ExpressionProcessor.PassOutcome | pkg/validator/expression_processor.go:50-93 | a successful pass changes the text; a failing one fails with an undefined, circular or replacement error |
| ExpressionProcessor.ExpansionOutcome | pkg/validator/expression_processor.go:35-101 | a success contains no `${`; text without `${` (the empty text too) is returned unchanged; every failure is undefined, circular (naming the original expression) or a replacement failure |
| ExpressionProcessor.LoneReferencePass | pkg/validator/expression_processor.go:62-83 | a single bare reference is replaced once by `(` + body + `)` |
| ExpressionProcessor.BareReference | pkg/validator/expression_processor.go:77-83 | a bare `${name}` whose body has no `${` expands to the text with `(` + body + `)` in its place, the body untouched (so `$0` survives) |
| ExpressionProcessor.ParamReference | pkg/validator/expression_processor.go:35-101 | a text whose only `$` starts `${n(a, b, …)}`, with `n` defined by a body of literal text and placeholders: its expansion is the text with `(` + the body with each `$i` replaced by the i-th argument + `)` in place of the reference (only for at most 10 arguments without `$` or parentheses, a body whose literal text has no `$`, and a text with no other `$`; see Left out) |
| ExpressionProcessor.Cycle | pkg/validator/expression_processor.go:41-98 | a ring of names of any length, each body being just a reference to the next name (`a` to itself, `a`→`b`→`a`, `a`→`b`→`c`→`a`, …), ends in `circular reference detected in expression: <original>` |
| ExpressionProcessor.SelfCycleExample | pkg/validator/expression_processor.go:41-98 | `${a}` with `a` defined as `${a}` fails with `circular reference detected in expression: ${a}` |
| ExpressionProcessor.ThreeCycleExample | pkg/validator/expression_processor.go:41-98 | `${a}` with `a`→`${b}`, `b`→`${c}`, `c`→`${a}` fails with `circular reference detected in expression: ${a}` |
| ExpressionProcessor.NoMatchUndefined | pkg/validator/expression_processor.go:86-88 | text with `${` but no recorded reference (e.g. `${unclosed`) fails with `undefined reference in expression: <original expression>` |
| ExpressionProcessor.MissingNameUndefined | pkg/validator/expression_processor.go:57-60 | when the first reference names an undefined expression, the failure names that reference's full text |
| ExpressionProcessor.ExpandExpression | pkg/validator/expression_processor.go:35-101 | the pass loop, bounded by `len(expressions)+1` iterations, returns `Expansion(expr, expressions)` |
| ExpressionProcessor.ExpandPass | pkg/validator/expression_processor.go:45-93 | one iteration of the loop either fails as the expansion does or continues from the rewritten text with one pass fewer |
| ExpressionProcessor.ApplyReferences | pkg/validator/expression_processor.go:52-84 | the loop over the matches replaces each one in order and stops at the first failing reference |
| ExpressionProcessor.ExpandReference | pkg/validator/expression_processor.go:57-80 | the body a single match is replaced by, or its failure |
| ExpressionProcessor.PrepareNamedExpressions | pkg/validator/expression_processor.go:18-32 | the table is unchanged and the rule list and outcome become `Prepared(old rules, old table)` |
| ExpressionProcessor.PreparedShape | pkg/validator/expression_processor.go:23-29 | preparation keeps the rule count, order, descriptions and severities |
| ExpressionProcessor.PreparedSuccess | pkg/validator/expression_processor.go:23-31 | on success every rule's text is its expansion |
| ExpressionProcessor.PreparedFailure | pkg/validator/expression_processor.go:24-27 | on failure, some rule `f` fails to expand; the message is `failed to expand rule '<desc>': <error>`; the rules before `f` are expanded and `f` and the rest are untouched |
| ExpressionProcessor.PreparedClean | pkg/validator/expression_processor.go:18-32 | after a successful preparation no rule contains `${` |
| ExpressionProcessor.PreparedNoReferences | pkg/validator/expression_processor.go:18-32 | rules without `${` are left exactly as they were, and preparation succeeds |
| ExpressionProcessor.PreparedIdempotent | pkg/validator/expression_processor.go:18-32 | preparing already prepared rules changes nothing |
| Validator.FirstWord | pkg/validator/validator.go:202-203 | the cleaned-up path has no space and does not start with a quote |
| Validator.ExtractPath | pkg/validator/validator.go:190-208 | the result has no space and does not start with a quote |
| Validator.PatternPath | pkg/validator/validator.go:190-208 | when the k-th pattern is the first of the three that occurs, and its first occurrence is followed by a space-free path not starting or ending in a quote and then by a space or by nothing but quotes, the result is that path |
| Validator.PatternOrderWins | pkg/validator/validator.go:191-198 | `no such key: ` followed by such a path gives that path whatever precedes it (as long as that has no `:`), whichever other patterns occur later |
| Validator.UndefinedField | pkg/validator/validator.go:191-204 | `undefined field '<path>'`, for a path without spaces or `:` that neither starts nor ends with a quote, gives the path, the closing quote trimmed |
| Validator.MissingKey | pkg/validator/validator.go:191-204 | `missing key <path>`, for a path without spaces that neither starts nor ends with a quote, followed by nothing or by a space and more text, with no `:` or `'` in the message after the pattern, gives the path |
| Validator.ExtractPathNone | pkg/validator/validator.go:207 | a message with none of the patterns gives `""` |
| Validator.CandidatePath | pkg/validator/validator.go:212-218 | there is no candidate path exactly when the expression lacks `values.`; CandidateAfter gives the path itself |
| Validator.CandidateAfter | pkg/validator/validator.go:212-218 | when the first `values.` is followed by a word without spaces and without `values.`, then by a space or by nothing, the candidate path is that word with `(` and `)` trimmed from its ends, whatever follows the space (a later `values.` included) |
| Validator.Walk | pkg/validator/validator.go:221-234 | the walk uses between one and all segments, and stops early only at a value that is not a map; WalkAt gives the value and the count |
| Validator.WalkAt | pkg/validator/validator.go:221-234 | the walk returns the value at the first prefix of the segments whose value is not a map (nil for a missing key), or at the whole path, with the length of that prefix; `At` looks a path up from its end, independently of the walk |
| Validator.ExtractedSegmentPrefix | pkg/validator/validator.go:221-234 | the returned path is the candidate cut after a whole number of its segments |
| Validator.ExtractedNoValues | pkg/validator/validator.go:212-215 | an expression without `values.` gives nil and `""` |
| Validator.ExtractValueFromValues | pkg/validator/validator.go:211-235 | returns `Extracted(values, expr)`, whose value and path ExtractedAt and the example lemmas state |
| Validator.ExtractedWalk | pkg/validator/validator.go:217-234 | for any expression with a candidate path, the value at the prefix of the path's segments that the walk uses and that prefix joined back with dots (the whole path when the walk used every segment) |
| Validator.ExtractedAt | pkg/validator/validator.go:211-235 | for an expression whose first `values.` is followed by a space-free word without `values.` and then a space or nothing: the value at the shortest prefix of the trimmed word's dot-separated segments that does not lead to a map (all of them when every shorter prefix does), and that prefix joined back with dots |
| Validator.ExtractSimpleField | pkg/validator/validator.go:211-235 | `values.replicas >= 1` gives 3 and `replicas` |
| Validator.ExtractNestedField | pkg/validator/validator.go:211-235 | `values.service.port <= 65535` gives 8080 and `service.port` |
| Validator.ExtractDeeplyNestedField | pkg/validator/validator.go:211-235 | `values.resources.limits.cpu == '1'` gives `"1"` and `resources.limits.cpu` |
| Validator.ExtractWithoutValuesPrefix | pkg/validator/validator.go:212-215 | `replicas >= 1` gives nil and `""` |
| Validator.ExtractComplexExpression | pkg/validator/validator.go:211-235 | `values.service.port >= 1 && values.service.port <= 65535` gives 8080 and `service.port` |
| Validator.ExtractNestedString | pkg/validator/validator.go:211-235 | `values.service.nested.field == 'value'` gives `"value"` and `service.nested.field` |
| Validator.ExtractNonexistentPath | pkg/validator/validator.go:224-230 | `values.nonexistent.field == true` gives nil and `nonexistent` |
| Validator.WalkValues | pkg/validator/validator.go:221-234 | the loop over the segments returns `Walk(values, pathParts)` |
| Validator.Judge | pkg/validator/validator.go:130-183 | the finding of one rule, as JudgeCases states it |
| Validator.JudgeCases | pkg/validator/validator.go:130-183 | a rule passes exactly when it compiles, its program builds and it evaluates to `true`; it is a warning exactly when, in addition to compiling and building, its severity is exactly `warning` and it does not evaluate to `true`; it is an error exactly when it fails to compile or build, or when it does not evaluate to `true` and its severity is not `warning`; every finding carries the rule's expression |
| Validator.FindingsNoErrors | pkg/validator/validator.go:130-184 | the error list is empty exactly when no rule is judged an error |
| Validator.WarningsOnly | pkg/validator/validator.go:121-187 | the result has no errors exactly when every rule compiles and builds and every rule that does not evaluate to `true` has severity `warning` |
| Validator.WarningsIff | pkg/validator/validator.go:121-187 | the result has warnings exactly when some rule of severity `warning` compiles, builds and does not evaluate to `true` |
| Validator.FindingsAppend | pkg/validator/validator.go:130-184 | rules are judged independently and in order: the findings for two runs of rules are the two lists, each after the other |
| Validator.AtMostOneFinding | pkg/validator/validator.go:130-184 | every rule gives at most one finding |
| Validator.FindingsEmpty | pkg/validator/validator.go:130-184 | there are no findings exactly when every rule is judged clean |
| Validator.AllPass | pkg/validator/validator.go:121-187 | the result is empty exactly when every rule compiles, builds and evaluates to `true` |
| Validator.NoWarningRules | pkg/validator/validator.go:166-181 | without a `warning` rule there are no warnings |
| Validator.ValidateRules | pkg/validator/validator.go:121-187 | the loop's result is `Checked(rules, values, cel)`, the in-order findings of `Judge` |
| Validator.ValidateChart | pkg/validator/validator.go:37-79 | the outcome of loading and merging the values, loading and merging the rules, an empty result when there are no rules, the CEL environment, expansion, and validation over the expanded rules, with each stage's error text |
| Models.ValidationResult.Error | pkg/models/models.go:46-73 | the builder loops produce `Report(show)`: the errors block, a blank line only when both blocks exist, then the warnings block |
| Models.AppendBlock | pkg/models/models.go:50-56 | a block is its header followed by the findings joined by blank lines |
| Models.AppendItems | pkg/models/models.go:51-56 | the loop writes the items separated by `\n\n`, with no trailing separator |
| Models.ReportEmpty | pkg/models/models.go:46-73 | the text is empty exactly when there are no errors and no warnings |
| Models.ReportErrorsFirst | pkg/models/models.go:59-63 | the text is the errors-only text, `\n\n` when both lists are non-empty, then the warnings-only text |
| Models.ValidationResult.HasErrors | pkg/models/models.go:42-44 | there are errors; HasErrorsIffErrorHeader ties it to the rendered text |
| Models.HasErrorsIffErrorHeader | pkg/models/models.go:42-50 | `HasErrors` holds exactly when the text begins with `Found <n> error(s):` |
| Models.ErrorHeaderLeads | pkg/models/models.go:49-50 | with errors, the text begins with the errors header |
| Models.NoErrorHeader | pkg/models/models.go:42-44 | without errors, the text does not begin with the errors header |
| Models.ValidationError.Error | pkg/models/models.go:75-77 | the `❌` rendering; ErrorWarningDifferInSymbol relates it to the warning |
| Models.ValidationError.Warning | pkg/models/models.go:79-81 | the `⚠️` rendering; ErrorWarningDifferInSymbol relates it to the error |
| Models.ValidationError.Format | pkg/models/models.go:83-96 | the lines of one finding, as FormatLines states them |
| Models.ErrorWarningDifferInSymbol | pkg/models/models.go:75-81 | an error and a warning render are the same text after their symbols `❌` and `⚠️` |
| Models.FormatLines | pkg/models/models.go:83-96 | for single-line fields, the lines are the title, the rule, the path only when there is a path, and the value, with no trailing line break |
| ValidatorModels.HasErrors | pkg/validator/models.go:36-38 | holds exactly when there is an error, the same test as in pkg/models |
| ValidatorModels.Format | pkg/validator/models.go:77-90 | the builder gives the same text as the pkg/models rendering: path line only for a non-empty path, `<nil>` for a nil value |
| ValidatorModels.ErrorText | pkg/validator/models.go:69-71 | the `❌` rendering |
| ValidatorModels.WarningText | pkg/validator/models.go:73-75 | the `⚠️` rendering |
| ValidatorModels.Error | pkg/validator/models.go:40-67 | the same text as `Models.ValidationResult.Report` |
| ValidatorModels.WriteAll | pkg/validator/models.go:45-50 | the items rendered with one symbol, joined by `\n\n` |
| ValidatorModels.WriteStep | pkg/validator/models.go:45-50 | one turn of the item loop extends the joined text by one item |
| ValuesLoader.MergeValues | pkg/validator/values_loader.go:47-71 | the merged keys are those of the base and of the overlay together |
| ValuesLoader.FlatOverlay | pkg/validator/values_loader.go:56-68 | an overlay without maps simply overrides the base key by key |
| ValuesLoader.MergeEmpty | pkg/validator/values_loader.go:47-71 | merging with an empty map on either side copies the other map |
| ValuesLoader.MergeSelf | pkg/validator/values_loader.go:47-71 | a tree merged with itself is unchanged |
| ValuesLoader.MergeOverlayAgain | pkg/validator/values_loader.go:47-71 | merging the same overlay twice is merging it once |
| ValuesLoader.MergedValuesOk | pkg/validator/values_loader.go:17-29 | the fold succeeds exactly when every file loads, and then has the top-level keys of all files |
| ValuesLoader.MergedValuesFailure | pkg/validator/values_loader.go:20-25 | the first file that fails aborts with `failed to load values from <path>: <error>` |
| ValuesLoader.SingleFile | pkg/validator/values_loader.go:17-29 | one file gives its own tree |
| ValuesLoader.LoadAndMergeValues | pkg/validator/values_loader.go:17-29 | the loop gives the left-to-right fold from an empty map, so later files win |
| RulesLoader.MergeStopped | pkg/validator/rules_loader.go:24-44 | the first failure returns at once: later files change nothing |
| RulesLoader.MergedContents | pkg/validator/rules_loader.go:19-44 | a completed merge holds every file's rules in file order, maps every file's names to that file's expression, and has no other names |
| RulesLoader.MergedIff | pkg/validator/rules_loader.go:24-44 | the merge completes exactly when every file loads and no name is defined in two files |
| RulesLoader.MergeExpressions | pkg/validator/rules_loader.go:34-44 | the insertion loop leaves the rules alone; with no name already defined it adds the table, and otherwise it reports `duplicate named expression '<k>' found in <path> (already defined as '<existing>')` for such a name |
| RulesLoader.LoadAndMergeRules | pkg/validator/rules_loader.go:18-48 | succeeds exactly when the merge completes, with the merged rules and table in a fresh object (empty for no files); otherwise it fails with the load error or a duplicate error of the stopping file |
| Generator.IsPort | pkg/generator/generator.go:128-134 | a port is an integer in 1..65535 |
| Generator.PortRange | pkg/generator/generator.go:129-131 | outside 1..65535 nothing is a port, whatever the key |
| Generator.ClassifiersIgnoreCase | pkg/generator/generator.go:133-137 | both classifiers see the key in lower case |
| Generator.PortExample | pkg/generator/generator.go:128-134 | `servicePort` with 8080 is a port and with 0 is not |
| Generator.NotPortExample | pkg/generator/generator.go:133 | a key without `port` is not a port |
| Generator.ResourceExample | pkg/generator/generator.go:136-139 | `CPU` and `limits.memory` are resources and `cpus` is not |
| Generator.IsResource | pkg/generator/generator.go:136-139 | the key, in any case, is `cpu` or `memory` or ends in `.cpu` or `.memory`; ClassifiersIgnoreCase and ResourceExample state it |
| Generator.PortRule | pkg/generator/generator.go:141-146 | `<path> >= 1 && <path> <= 65535`, described as `<key> must be a valid port number (1-65535)`; ValueRulesShape states that it carries no severity |
| Generator.ResourceRule | pkg/generator/generator.go:148-153 | the `.matches(...)` quantity pattern on the path, described as `<key> must be a valid resource quantity`; ValueRulesShape states that it carries no severity |
| Generator.ValueRulesShape | pkg/generator/generator.go:86-126 | scalars, and only scalars, get rules, at most two, none with a severity |
| Generator.KeysRulesPick | pkg/generator/generator.go:49-83 | the rules of a map are those of any one key plus those of the others, so the visiting order does not matter |
| Generator.FieldRulesPick | pkg/generator/generator.go:63-72 | the same for the fields of a list's first element, at `<path>[0].<field>` |
| Generator.ChildRulesSeverity | pkg/generator/generator.go:44-126 | no generated rule has a severity |
| Generator.ChildContributes | pkg/generator/generator.go:49-79 | every child's rules appear in its map's rules, a map child with `has(<path>)` and a list child with `size(<path>) >= 0` |
| Generator.GenerateRulesForValue | pkg/generator/generator.go:86-126 | appends exactly `ValueRules(path, v, key)`: the type rule, then the resource rule for a resource string or the port rule for a port integer |
| Generator.GenerateRulesForMap | pkg/generator/generator.go:44-85 | appends the multiset `MapRules(prefix, m)` and leaves the table alone |
| Generator.GenerateChild | pkg/generator/generator.go:48-83 | one child appends its `ChildRules` |
| Generator.GenerateListRules | pkg/generator/generator.go:58-79 | a list child appends its array rule and the rules of its first element, if any |
| Generator.GenerateFieldRules | pkg/generator/generator.go:63-72 | the fields of a map first element append their rules at `<path>[0].<field>` |
| Generator.GenerateRules | pkg/generator/generator.go:34-41 | a fresh rule set with an empty table whose rules are, as a multiset, `MapRules("values", values)` |
| GoStrings.SplitJoin | pkg/validator/validator.go:222-234 | joining the segments of a split with the same separator restores the text |
| GoStrings.ItoaRoundTrip | pkg/models/models.go:50 | the decimal digits of the count read back as the count |

## Left out

- File I/O and YAML decoding are not modelled: `os.ReadFile`, `yaml.Unmarshal`,
  `loadValuesFile`, `loadRulesFile`, `loadValues`, `loadRules`, the file reading in
  `GenerateRules`, and `WriteRules`. Each loader gets the decoded contents, or the error
  its loading ends in, as input. yaml.v3's choice between int and float64 is taken as given.
- `GetAbsolutePaths` (validator.go:43-52), `pkg/utils/file.go` and `cmd/helm-cel/main.go`
  are path and command-line plumbing.
- The CEL engine (`initCelEnv`, `Compile`, `Program`, `Eval`) is left out. It is the `Cel`
  parameter of three functions, plus `envInit`, the outcome of creating the environment.
  The environment is passed in, not stored in a mutable field.
- Go's `%v` formatting is the abstract `show` parameter, in the rendering and in the CEL
  message texts.
- Floats are a tag only: no float64 arithmetic. The generator only looks at the type.
- Go map iteration order is not modelled as an order:
  - The generator is specified by a multiset of rules.
  - The duplicate report of `LoadAndMergeRules` may name any redefined name.
  - `MergeExpressions` picks the names in an arbitrary order.
- Byte and rune differences are not modelled. Strings are sequences of characters, and
  the splitter copies each character as it is. Go's parseArguments reads the argument text
  byte by byte and writes each byte back as the code point of that value
  (`current.WriteRune(rune(argsStr[i]))`, expression_processor.go:189 and 233), so a
  non-ASCII character in an argument is re-encoded as one character per byte: `'é'`
  becomes `'Ã©'`. On ASCII text the two agree.
- Generator.IsResource: `strings.ToLower` is modelled for ASCII letters only. No
  non-ASCII letter lowercases to a letter of `cpu`, `memory` or `port`.
- The `failed to parse arguments` branch (expression_processor.go:68-70) cannot be
  reached, because parseArguments never returns an error. The model has no such path.
- A nil `Expressions` map is the empty map. The nil check in `PrepareNamedExpressions`
  (lines 19-21) has no effect of its own.
- ExpressionProcessor.ExpandExpression: the iteration bound of `len(expressions)+1` is
  kept as a pass budget, `ExpandFrom`'s fuel.
- The validator package's own types (`pkg/validator/models.go`) are the same type as
  pkg/models's `ValidationError` and `ValidationResult`, because their fields are the
  same. Its `Rule` keeps its extra `name` field. Nothing in validator.go uses these types.
- Generator.IsPort: its contract states the range half. The key half, `Contains(ToLower(key), "port")`,
  is shown by PortExample and NotPortExample rather than by a general lemma.
- ExpressionProcessor.ArgumentsJoin: the round trip is proved for the argument shapes
  of SplitPieces (a word, optionally followed by one unnested `(…)` or `[…]` group or by
  one single-quoted string). Arguments with several or nested groups, double quotes or
  backslash escapes are split by the same function but have no round-trip lemma.
- ExpressionProcessor.SubstitutedTemplate: proved only for at most 10 arguments, for
  arguments without `$`, and for a body whose literal text has no `$` (its only `$` are the
  placeholders `$0` … `$9`). A body such as `$0.matches('^[a-z]+$')`, whose literal text
  holds a `$` not followed by a digit, is substituted by the same function but is outside
  the lemma. With 11 or more arguments the round for `$1` also rewrites the start of
  `$10`, `$11`, …, and an argument that itself holds `$i` is rewritten again by the later
  rounds; the model keeps that behaviour, the lemma does not describe it.
- ExpressionProcessor.SubstituteTemplate: the same limits as SubstitutedTemplate: at most
  10 arguments, arguments without `$`, and literal text without `$`, so a body such as
  `$0.matches('^[a-z]+$')` is outside it.
- ExpressionProcessor.MissingArgument: the same limits as SubstitutedTemplate: at most
  10 arguments, arguments without `$`, and literal text without `$`, so a body such as
  `$0.matches('^[a-z]+$')` is outside it.
- ExpressionProcessor.ParamReference: proved for at most 10 arguments without `$` or
  parentheses, for a body whose literal text has no `$` (so not for a body such as
  `$0.matches('^[a-z]+$')`), and for a text with no `$` besides the one reference. Texts
  with several references are covered by the pass lemmas, not by a closed form.