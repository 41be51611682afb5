# A verified model of the Weka decision-tree compiler

`wekaParse.js` compiles the text dump of a decision tree into a JavaScript
classifier. Weka's REPTree and RandomTree learners write these dumps. In
such a dump each rule is one line: zero or more `|   ` markers for its
depth, a feature name, a comparison, a threshold and, for a leaf, ` : label`
followed by statistics. The compiler works in four steps.

1. It splits the dump on `\n` and matches each line against one regular
   expression, skipping lines that do not match.
2. In one loop it keeps the depth of the previous matched line
   (`prevIndentation`), pushes the body's lines into `lines` and collects the
   feature names into `varSet`.
   - When the depth drops, it first pushes one `}` per level.
   - A leaf line becomes `if (v op t) return "label"`, any other line
     `if (v op t) {`, indented by depth + 1 tabs.
   - At the end it closes every level still open.
3. It sets out to write `wekaEval.js`: a header
   `module.exports = ({v1, v2, ...}) => {` that destructures the collected
   names, one line per pushed statement, and a final `}`. As written, the
   writes fail (see below), so this text is what lines 35-40 intend to write.
4. It loads that file with `require`; the result is called with an object of
   feature values. This step is reached only when the writes succeed.

The model follows this in Dafny.

- **`LineGrammar`** models the regular expression. The greedy repetitions
  are deterministic at a fixed start, so `MatchAt` is a small grammar on a
  suffix of the line. The expression has no `^` anchor, so `Exec` searches
  for the leftmost start position. Completeness is proved: every record the
  expression can capture is matched back from its own text (`MatchAtText`).
- **`Strings`** models `split("\n")` and `"\t".repeat`.
- **`Emitter`** holds the `Stmt` datatype (`Open`, `Guard`, `Close`, each
  with its tab count). The `Parser` method keeps the loop, its inner
  counted loops and its three variables. Its contract ties the result to the
  specification functions `Matched`, `Body` and `VarList`.
- **`EmitterFacts`** proves what the compiler promises about them:
  - unmatched lines change nothing;
  - each matched line gives exactly one statement;
  - the counts of guards, openers and `}`;
  - when the braces balance;
  - that tree-shaped dumps give well-nested bodies;
  - that `varSet` lists each name once, in first-use order.
- **`Generated`** renders the statements as the intended text of `wekaEval.js`. It
  proves that nothing is lost: the file splits into the header, one line per
  statement and `}`, and every line reads back as the statement it came from.
- **`Evaluator`** models loading and calling the generated module. `Loadable`
  is the condition under which the model counts the text as accepted by
  `require`. Bindings at module scope are not modelled (see "Left out"). `Destructure` is
  the header's binding. `Run` interprets the body with JavaScript's rules:
  - nesting follows the braces, not the tabs;
  - a true guard returns its label;
  - a false opener skips to its matching `}`;
  - a true opener whose block returns nothing carries on after the `}`;
  - running off the end returns `undefined`.
- **`EvaluatorFacts`** and **`Reach`** prove the laws of that interpreter. The
  main result is that its outcome equals an independent, flat reading: the
  label of the first guard whose condition holds and whose enclosing openers
  all hold (`Reach.RunIsFirstHit`).
- **`Classifier`** puts the whole compiler together, and **`Scenarios`**
  works two concrete dumps through to their outcomes.

### Where the code departs from a textbook decision-tree classifier

The model follows the code in each case.

- **Order of evaluation.** A decision tree commits, at each node, to the
  first child whose test holds. The generated code runs statements in order,
  and a true block that returns nothing falls through to the statements
  after its `}`. That is the first hit in `Reach`.
- **Missing features.** One would expect an absent feature to be reported
  as an error. In the code, the header binds an absent name to `undefined`,
  and every comparison with it is false. `Classifier.MissingIsFalse` and
  `Classifier.NeverThrows` state this. `Scenarios.NestExamples` works a case
  through: `{ch4: 600}` on the nested dump gives `undefined`, not an error.
- **No path completes.** One would expect an explicit "unclassified"
  outcome; the function returns `undefined` (`Undefined`).
- **Anchoring.** The expression is not anchored at the start of the line, so
  text before the first marker may be skipped.
- **Balanced braces.** Balance alone does not make the generated file load.
  A dump can balance without nesting, e.g. one whose first line is at depth
  1 and whose last is an opener at depth 0 (`Scenarios.BalancedNotNested`).
  `Classifier.LoadableIff` states when the model counts the file as
  loadable. `Classifier.UnloadableCases` names the two ways a file of
  loadable lines fails that test.
  - Its braces do not balance, so the text is no program.
  - Its braces balance, but some prefix of the body closes more blocks than
    it opened.
    - When the lowest prefix level is exactly −1, the exported function ends
      early and the conditions after it run at module scope.
    - When it is lower, a `}` stands outside any block, and the text is no
      program.
- **Writing the file.** The compiler is meant to write `wekaEval.js`.
  The code imports the promise API (`require("fs/promises")`, line 1),
  which has no `write` function. The first `fs.write(fd, ...)` (line 35)
  therefore rejects with a `TypeError`. By then the open with `"w+"` (line 34)
  has already truncated the file, and `getData` rejects in turn. The model
  gives the text that lines 35-40 intend to write (`Generated.ModuleText`).

## Model

| member | source | states |
|---|---|---|
| LineGrammar.Indent | wekaParse.js:7 | `k` indentation markers (a pipe and three spaces each) are `4k` characters, with a pipe at every fourth position |
| LineGrammar.MatchAt | wekaParse.js:7 | a match anchored at the start of a suffix captures a well-formed record (indent of whole markers, `\w+` name, `[0-9.]+` threshold, optional word label and rest without line terminator) whose text is exactly that suffix |
| LineGrammar.Exec | wekaParse.js:12 | `exec` returns the leftmost start index from which the expression reaches the end of the line; it returns null exactly when no start position matches |
| LineGrammar.MatchAtText | wekaParse.js:7 | every well-formed record is matched from its own text, giving back exactly that record |
| LineGrammar.ExecText | wekaParse.js:12 | `exec` on a record's text matches at index 0 with that record |
| LineGrammar.TextSingleLine | wekaParse.js:7 | a matched line holds no newline, so it survives the split on `\n` |
| Strings.Tabs | wekaParse.js:19 | `"\t".repeat(n)` is `n` tab characters |
| Strings.SplitLines | wekaParse.js:6 | `split("\n")` gives at least one piece and no piece holds `\n` |
| Strings.JoinSplit | wekaParse.js:6 | joining the pieces of `split("\n")` with `\n` gives back the text |
| Strings.SplitJoin | wekaParse.js:6 | splitting lines joined with `\n` gives back those lines, when none holds `\n` |
| Emitter.DepthWhole | wekaParse.js:16 | `match[1].length / 4` is a whole number: group 1 is exactly `Depth` markers, and the depth is 0 exactly when group 1 is empty |
| Emitter.StmtOf | wekaParse.js:24-28 | a matched line becomes a condition statement (never a `}`) with depth + 1 tabs and its own name, operator and threshold; it is a guarded return exactly when the label group took part, and returns that label |
| Emitter.Closes | wekaParse.js:17-21 | the closing lines for a drop from `p` to `d` number `p - d` when `d < p` and none otherwise, with tab counts `p, p-1, ..., d+1` |
| Emitter.Matched | wekaParse.js:11-15 | the records of the lines that match are no more than the lines, and each is well formed |
| Emitter.AddName | wekaParse.js:23 | `varSet.add` yields exactly the old names and the new one |
| Emitter.MatchedStep | wekaParse.js:12-15 | a line that does not match adds no record; a matching line adds its record at the end |
| Emitter.RecordStep | wekaParse.js:16-28 | one matched line appends the closing lines for the drop from the previous depth, then its statement; `prevIndentation` becomes its depth and its name is added |
| Emitter.PushCloses | wekaParse.js:17-21 | the counted loop appends exactly `Closes(prev, indent)` to `lines` |
| Emitter.Emit | wekaParse.js:16-28 | the loop body for a matched line updates `lines`, `prevIndentation` and `varSet` as `RecordStep` describes |
| Emitter.Parser | wekaParse.js:8-33 | the loop over the split lines, and the final closes, leave `lines` equal to `Body` of the matched records and `varSet` equal to `VarList` of them |
| EmitterFacts.MatchedConcat | wekaParse.js:11-15 | lines are matched one at a time, independently of the lines around them |
| EmitterFacts.MatchedTexts | wekaParse.js:7 | writing well-formed records one per line and matching the lines gives back the records |
| EmitterFacts.DumpOfRecords | wekaParse.js:6 | the same holds for the dump text joined with `\n` and split again |
| EmitterFacts.UnmatchedLineKeepsState | wekaParse.js:12-15 | a line that does not match leaves `lines`, `prevIndentation` and `varSet` unchanged |
| EmitterFacts.UnmatchedLineIgnored | wekaParse.js:12-15 | dropping an unmatched line from anywhere in the dump leaves the records, the body and the names unchanged |
| EmitterFacts.CondsOfBody | wekaParse.js:24-28 | without its `}` lines, the body is exactly one statement per matched line, in order |
| EmitterFacts.PendingCounts | wekaParse.js:17-28 | before the final closes, the guards number the labelled lines, the openers the unlabelled lines, and the `}` lines plus the last depth equal the total rise in depth |
| EmitterFacts.BodyCounts | wekaParse.js:17-32 | the body has one guard per labelled line, one opener per unlabelled line, and as many `}` lines as the total rise in depth from 0 |
| EmitterFacts.BalancedIff | wekaParse.js:30-32 | the braces of the body balance exactly when the unlabelled lines number the total rise in depth |
| EmitterFacts.PendingNested | wekaParse.js:17-28 | for a tree-shaped dump, no prefix of the pending lines closes more than it opened, and the open count is the depth available to the next line |
| EmitterFacts.TreeDumpNested | wekaParse.js:17-32 | a tree-shaped dump ending in a leaf gives a body whose braces nest |
| EmitterFacts.VarListNames | wekaParse.js:23 | `varSet` holds exactly the names of the matched lines |
| EmitterFacts.VarListDistinct | wekaParse.js:10 | `varSet` lists no name twice |
| EmitterFacts.VarListOrder | wekaParse.js:23 | `varSet` lists the names in the order of their first use |
| EmitterFacts.NamesDeclared | wekaParse.js:35 | every condition in the body reads a name the header destructures |
| UnmatchedLines.NoOperatorNoMatch | wekaParse.js:7 | a line without `<` or `>` never matches, e.g. blank lines and a report's title and size lines |
| UnmatchedLines.TerminatedLineNoMatch | wekaParse.js:6 | a line ending in a line terminator (a `\r` left by the split on `\n`) never matches |
| UnmatchedLines.BareLabelNoMatch | wekaParse.js:7 | a leaf line with nothing after its label never matches |
| UnmatchedLines.NegativeThresholdNoMatch | wekaParse.js:7 | a line of indent markers, a word name, an operator and a threshold starting with `-`, where no `<` or `>` follows the threshold, never matches (e.g. `x <= -1.5 : Y (3.0)`) |
| Generated.WriteModule | wekaParse.js:35-40 | the text the writes intend: the header line, then every statement's text followed by `\n`, then `}` |
| Generated.ModuleLines | wekaParse.js:35-40 | the intended text splits into exactly the header, one line per statement, and `}` |
| Generated.ReadRender | wekaParse.js:19-31 | every statement the compiler emits reads back from its text |
| Generated.ReadHeaderOf | wekaParse.js:35 | the header reads back as exactly the destructured names, in order |
| Classifier.CompileDump | wekaParse.js:3-41 | the text the compiler intends to write is the module text of `Body` and `VarList` of the dump's records |
| Classifier.ModuleReadsBack | wekaParse.js:35-40 | the file compiled from any dump reads back line by line as the header of its names, its statements, and `}` |
| Classifier.LoadableIff | wekaParse.js:46 | the compiled file counts as loadable exactly when the body's braces nest and every matched line has an identifier for a name and a numeric literal for a threshold |
| Classifier.UnloadableCases | wekaParse.js:46 | a file whose lines are all loadable counts as not loadable exactly when its braces do not balance or some prefix of the body closes more blocks than it opened |
| Classifier.TreeDumpLoadable | wekaParse.js:46 | a tree-shaped dump of such lines ending in a leaf compiles to a loadable file |
| Classifier.NeverThrows | wekaParse.js:35 | a compiled classifier never throws a `ReferenceError`, whatever the argument |
| Classifier.MissingIsFalse | wekaParse.js:35 | a name the argument leaves out is `undefined`, so its condition fails rather than raising an error |
| Classifier.ClassifiesByFirstHit | wekaParse.js:45-46 | the loaded classifier returns the label of the first reached guard whose condition holds, `undefined` when there is none, and counts as not loadable when `Loadable` fails |
| Evaluator.ThresholdWhole | wekaParse.js:25-27 | a threshold of digits that is not a legacy octal literal denotes its decimal value |
| Evaluator.ThresholdOctal | wekaParse.js:25-27 | a legacy octal threshold (`0` followed by octal digits) denotes its value in base 8 |
| Evaluator.ThresholdFraction | wekaParse.js:25-27 | digits, one dot and digits, with a digit on at least one side and no legacy octal whole part, denote the whole part plus the fraction over the power of ten of its length |
| Evaluator.ThresholdTwoDots | wekaParse.js:25-27 | a threshold with two dots is not a numeric literal |
| Evaluator.ThresholdDotRejected | wekaParse.js:25-27 | a lone dot, and a legacy octal integer followed by a dot, are not numeric literals |
| Evaluator.Destructure | wekaParse.js:35 | the header binds exactly the listed names: to the argument's value where present, to `undefined` otherwise |
| EvaluatorFacts.RunGuard | wekaParse.js:25 | `if (c) return "l"` returns `l` when `c` holds, carries on when it fails, and raises for an unbound name |
| EvaluatorFacts.RunBlock | wekaParse.js:27 | `if (c) { ... }` skips its block when `c` fails; when `c` holds it runs the block and, if the block returns nothing, carries on after the `}` |
| EvaluatorFacts.RunSeq | wekaParse.js:37-40 | a well-nested block followed by more code runs the block, then the rest only if the block returned nothing |
| EvaluatorFacts.ReturnedSource | wekaParse.js:25 | a returned label is the label of some guard of the body whose condition holds |
| EvaluatorFacts.ErrorSource | wekaParse.js:35 | a `ReferenceError` names a name the scope does not bind and that some condition of the body reads |
| Reach.RunIsFirstHit | wekaParse.js:25-27 | on a well-nested body whose names are bound, running gives the outcome of the first guard that holds and is enclosed only by openers that hold |
| Scenarios.SingleRuleCompiled | wekaParse.js:25 | the dump `ch4 > 500 : bell_pepper (12.0)` compiles to a classifier that returns `bell_pepper` when `ch4 > 500` and `undefined` otherwise, a missing `ch4` included |
| Scenarios.SingleRuleExamples | wekaParse.js:25 | `{ch4: 600}` gives `bell_pepper`; `{ch4: 100}` and `{}` give `undefined` |
| Scenarios.NestCompiled | wekaParse.js:27 | the three-line nested dump compiles to a classifier that returns `potato` when `ch4 <= 500`, `tomato_sauce` when `ch4 > 500` and `lpg > 10`, and `undefined` otherwise |
| Scenarios.NestExamples | wekaParse.js:27 | `{ch4: 600, lpg: 20}` gives `tomato_sauce`; `{ch4: 600, lpg: 5}` and `{ch4: 600}` give `undefined`; `{ch4: 400}` gives `potato` |
| Scenarios.BalancedNotNested | wekaParse.js:17-32 | a dump whose first line is at depth 1 and whose last is an opener at depth 0 gives a body that balances but closes the exported function after its second line; it counts as not loadable, since the opener left outside reads `b`, which is not bound at module scope |

## Left out

- File I/O is left out: `require("fs/promises")`, `fs.readFile` of `weka.tree`, opening and closing `wekaEval.js` (lines 1, 4, 34, 41). The dump arrives as a string. `ModuleText` is the text that lines 35-40 intend to write. As written, line 35 calls `fs.write`, which `fs/promises` does not provide, so it rejects before any text is written and after the open has truncated the file. The model does not capture that failure.
- Dynamic loading is not run: the `require` of the generated module and the export of `getData` (lines 44-47, 49). `Loadable` states when the model counts the text as accepted, and `Run` gives what the loaded function returns.
- Evaluator.Loadable, Classifier.LoadableIff and Classifier.ClassifiesByFirstHit: names bound at module scope (`module`, `exports`, `require`, `__filename`, `__dirname`, `process`, `Math`, `NaN`, `Infinity`, `undefined`, `console`) are not modelled. Consider a body of loadable lines whose braces balance and whose lowest prefix level is exactly −1. It counts as not loadable. Yet `require` loads such a file when every name read after the early `}` is bound at module scope, e.g. the dump `|   a > 1 : X y` followed by `module > 2`. A lower dip leaves a `}` outside any block, and such a file never loads, so the model is right there. The second disjunct of `Classifier.UnloadableCases` (some prefix level below zero) contains the bodies of this gap, together with those lower dips.
- The asynchronous control flow (`async`, `await`) is left out. The model is sequential, as the awaited calls are.
- Floating point is left out. Feature values are integers (the readings are parsed as integers before they are classified), thresholds are exact rationals, and comparisons are exact. `NaN` and rounding are not modelled.
- Evaluator.ThresholdValue: the generated code's numeric literal rules are modelled only for what `[0-9.]+` can spell: decimal, legacy octal, and a trailing or leading dot (the `Threshold*` lemmas). A threshold that is not a literal (e.g. `1.2.3`, `.`, `07.5`) makes the file unloadable.
- Evaluator.Eval: the branch in which a threshold is not a literal returns `Fails`. That branch is unreachable for a loaded module, because `Loadable` excludes such thresholds.
- Evaluator.Run: it is stated only for bodies whose braces nest; on other bodies its value is arbitrary. Such bodies count as not loadable, and `Classify` does not run them.
- Evaluator.Identifier: only the reserved words of sloppy-mode JavaScript are excluded. Words reserved only in strict mode or in other contexts (`let`, `yield`, `await`, `static`) are ordinary parameter names in the generated arrow function, and so they are in the model.
- Scenarios.SingleRuleCompiled and Scenarios.NestCompiled: the scenarios start from the text of the rules alone, without the title and size lines a learner's report also holds. Those lines are skipped by `NoOperatorNoMatch` and `UnmatchedLineIgnored`.
- `capture.js` (the dashboard, serial port and audio capture) and `prepareData.js` (the dataset preparation) are not part of this model.
