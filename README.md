# truth-table-maker, modelled in Dafny

truth-table-maker is a command-line tool. It takes a logical expression written with words
(`a and not b`, `x nand y`, ...) and prints its truth table. The table has one column per variable
and one per selected sub-expression, plus the whole expression. Headers show the operators as logic
symbols (`∧ ∨ ¬ ⊼ ⊽ ⊕`). Every value is a centred `T` or `F` between `|` separators, and a `+---+`
border frames the table.

This project models the four functions that make up the tool's core, in `src/index.ts`:

- `translateToLogicSymbols` becomes the module `Translate`. It is a chain of whole-word regular
  expression replacements, modelled as a left-to-right scan that knows whether the previous
  character was a word character.
- `extractSubExpressions` becomes the module `Extract`.
  - The regular expression is modelled as a deterministic matcher for its three alternatives.
  - The `regex.exec` loop is a method with a loop invariant.
  - The insertion-ordered `Set` is the module `OrderedSet`.
  - `ExtractExamples` works through four expressions.
- `padCenter` becomes `Layout.PadCenter`. `Layout` also holds the border and line formatting.
- `generateTruthTable` becomes the module `TruthTable`, and its nested row loops the module `Rows`.
  - The expression evaluator of the `boolean-expressions` library is a parameter
    `eval(expr, trueVariables)`.
  - So is the list of variable names the library finds.
  - What the function prints is a `Run`: the printed lines, and whether it ran to the end or
    stopped at an exception.

The main results:

- The translation removes every keyword and creates no new word. It is idempotent and acts word by
  word.
- The matcher agrees with a run-by-run description of the pattern: `not X`, else `X op not Y`,
  else `X op Y`, between word boundaries.
- The extracted sub-expressions are exactly the contributions of the non-overlapping,
  left-to-right matches. Each one is a non-empty substring of the expression, and none occurs twice.
- The table has `2^n` rows. For up to 31 variables, row `i` is the binary expansion of `i`, first
  variable most significant, the rows are all distinct, and every assignment occurs. From 32
  variables on, the table does not fit in a JavaScript array: `truthTable.push` throws a
  RangeError and nothing of the table is printed.
- The header line and every row line are exactly as long as the border. Each value sits centred in
  its column.
- Assuming the evaluator returns a value for every column, the run completes exactly when there
  are fewer than 32 variables and no header is empty. Under the same assumption it always
  completes when, in addition, the expression and the variable names are non-empty.

The comment at `src/index.ts:39` says negations are given their own column. One might therefore
expect `a or not a` to get a `not a` column. The code does not produce one, and the model follows
the code. The expression matches the second alternative of the pattern as a whole, so its only
sub-expression is `a or not a` itself (`ExtractExamples.NegatedOperandExample`). The negation inside
it is never matched on its own.

## Model

| member | source | states |
|---|---|---|
| Translate.RulesWellFormed | src/index.ts:13-18 | each chained replacement turns a whole word into one character that is not a word character |
| Translate.ReplaceRemovesWord | src/index.ts:13-18 | after `s.replace(/\bword\b/g, symbol)` the word no longer occurs in `s` as a whole word |
| Translate.ReplaceCreatesNoWord | src/index.ts:13-18 | a replacement creates no whole-word occurrence of any word that was absent before |
| Translate.ReplaceSplit | src/index.ts:13-18 | a replacement acts independently on the text on either side of a non-word character |
| Translate.ReplaceOnWord | src/index.ts:13-18 | on a single word, the replacement yields the symbol if the word is the keyword, and the word unchanged otherwise |
| Translate.ReplaceInsideWord | src/index.ts:13-18 | no replacement happens inside a run of word characters that continues a word |
| Translate.ReplaceWithoutOccurrence | src/index.ts:13-18 | a replacement leaves the string unchanged when the word does not occur in it as a whole word |
| Translate.ApplyRulesRemovesWords | src/index.ts:12-18 | after the whole chain, none of the chained words occurs as a whole word |
| Translate.ApplyRulesCreatesNoWord | src/index.ts:12-18 | the chain creates no whole word that was absent |
| Translate.ApplyRulesWithoutOccurrence | src/index.ts:12-18 | the chain is the identity on a string that contains none of its words |
| Translate.ApplyRulesSplit | src/index.ts:12-18 | the chain acts separately on each side of a non-word character, which is kept |
| Translate.ApplyRulesOnSymbol | src/index.ts:12-18 | a single non-word character is left unchanged |
| Translate.ApplyRulesOnWord | src/index.ts:12-18 | a single word becomes the symbol of the first rule for it, or stays as it is |
| Translate.ApplyRulesNonEmpty | src/index.ts:12-18 | the chain maps a non-empty string to a non-empty string |
| Translate.LookupRules | src/index.ts:13-18 | the rule table maps exactly `and or not nand nor xor` to `∧ ∨ ¬ ⊼ ⊽ ⊕` |
| Translate.TranslateLeavesNoKeyword | src/index.ts:11-19 | no operator keyword is left as a whole word in the translation |
| Translate.TranslateKeywordFree | src/index.ts:11-19 | an expression without keywords is translated to itself |
| Translate.TranslateIdempotent | src/index.ts:11-19 | translating twice is translating once |
| Translate.TranslateSplit | src/index.ts:11-19 | translation is word by word: it distributes over a split at any non-word character |
| Translate.TranslateWord | src/index.ts:11-19 | a single word becomes its operator symbol if it is a keyword, and stays unchanged otherwise |
| Translate.TranslateNonEmpty | src/index.ts:11-19 | a non-empty expression has a non-empty translation |
| Translate.TranslateNandExample | src/index.ts:16 | `x nand y` becomes `x ⊼ y` for non-keyword operands; it is not split into `n∧` |
| Translate.TranslateSandwichExample | src/index.ts:13-14 | keywords inside longer words (`sandwich`, `android`) are not replaced |
| Extract.WordRunEnd | src/index.ts:34 | `\w+` runs greedily to the first non-word character or the end |
| Extract.SpaceRunEnd | src/index.ts:34 | `\s+` runs greedily to the first non-space character or the end |
| Extract.FirstOption | src/index.ts:34 | the operator group matches the first of its options, in list order, that occurs literally, at least as long as the shortest; it fails only when none occurs |
| Extract.MatchElement | src/index.ts:34 | a pattern element matches at least its minimum length, inside the string |
| Extract.MatchSequence | src/index.ts:34 | a sequence of elements matches at least the sum of their minimum lengths |
| Extract.FirstAlternative | src/index.ts:34 | the first alternative that matches ends inside the string, past the minimum length of one alternative |
| Extract.MatchAt | src/index.ts:34 | a match of the pattern is at least five characters long and ends inside the expression |
| Extract.AlternativesAtLeastFive | src/index.ts:34 | each of the three alternatives needs at least five characters |
| Extract.MatchAtShape | src/index.ts:34 | a match at `p` lies between two word boundaries and is, with every run taken whole, `not X`, else `X op not Y`, else `X op Y`, tried in that order |
| Extract.PatternEndBoundary | src/index.ts:34 | wherever the pattern ends, the closing `\b` holds, since every alternative ends on a whole word |
| Extract.MatchAtIsPatternEnd | src/index.ts:34 | at a word boundary a match is exactly the run-by-run end of the pattern; the closing `\b` never rejects one |
| Extract.AlternativesEnd | src/index.ts:34 | the three alternatives tried in order end exactly where the run-by-run description of the pattern ends |
| Extract.NegationEndOf | src/index.ts:34 | `not\s+\w+` matches "not", a whole run of white space and a whole word |
| Extract.OperatorEndOf | src/index.ts:34 | `\w+\s+op\s+` matches a whole word, white space, the first operator found and white space, or the alternative fails |
| Extract.NegatedOperandEndOf | src/index.ts:34 | the second alternative is the operator head followed by a negation |
| Extract.BinaryEndOf | src/index.ts:34 | the third alternative is the operator head followed by a whole word |
| Extract.NoAlternativeAtNonWord | src/index.ts:34 | no alternative matches at a character that is not a word character |
| Extract.MatchStartsWord | src/index.ts:34 | a match starts at a word boundary, on the first character of a word |
| Extract.NextMatch | src/index.ts:36 | `regex.exec` from `lastIndex` finds the first position with a match, and nothing before it; or there is no match at all |
| Extract.MatchesInside | src/index.ts:36 | every match found by the loop lies inside the expression |
| Extract.MatchesOrdered | src/index.ts:36 | the matches come left to right and do not overlap |
| Extract.ExtractSubExpressions | src/index.ts:30-50 | the loop over `regex.exec` returns the set of the contributions of all the matches, in insertion order |
| Extract.AddsForMatchesMembers | src/index.ts:37-47 | a value is added for the matches exactly when some match contributes it |
| Extract.SubExpressionsSpec | src/index.ts:30-50 | the result holds no duplicates, and exactly the values contributed by the matches |
| Extract.ContributionIsSubstring | src/index.ts:37-47 | everything a match contributes is a non-empty substring of the expression |
| Extract.SubExpressionsAreSubstrings | src/index.ts:30-50 | every sub-expression is a non-empty substring of the expression |
| Extract.MatchRules | src/index.ts:37-47 | every match is included. A `not X` match also includes `X`. Any other match includes `not (match)` exactly when that text occurs in the expression |
| ExtractExamples.ChainExample | src/index.ts:25-26 | `a and b and c or d` yields `a and b` and `c or d`; matching resumes after a match, so `b and c` is not extracted |
| ExtractExamples.ChainNoNegation | src/index.ts:43-44 | in `a and b and c or d` no parenthesised negation occurs |
| ExtractExamples.NegationExample | src/index.ts:40-41 | `not a` yields `not a` and then `a` |
| ExtractExamples.NegatedOperandExample | src/index.ts:34 | `a or not a` yields only itself, since the second alternative covers the whole expression |
| ExtractExamples.ChainLiteral | src/index.ts:25-26 | `extractSubExpressions("a and b and c or d")` is `["a and b", "c or d"]` |
| ExtractExamples.NegationLiteral | src/index.ts:40-41 | `extractSubExpressions("not a")` is `["not a", "a"]` |
| ExtractExamples.NegatedOperandLiteral | src/index.ts:34 | `extractSubExpressions("a or not a")` is `["a or not a"]` |
| ExtractExamples.ParenthesisedLiteral | src/index.ts:43-46 | `extractSubExpressions("not (a and b)")` is `["a and b", "not (a and b)"]` |
| ExtractExamples.DoubleNegationLiteral | src/index.ts:34-41 | `extractSubExpressions("not not a")` is `["not not", "not"]`: `\w+` takes the second `not` as the operand |
| ExtractExamples.ParenthesisedExample | src/index.ts:43-46 | `not (a and b)` yields `a and b`, then the parenthesised negation found in the expression |
| OrderedSet.Add | src/index.ts:38 | `set.add(x)` keeps the order and the distinctness, and contains exactly the old values and `x` |
| OrderedSet.AddAllSteps | src/index.ts:38-46 | adding one or two values in a batch is one or two `add` calls |
| OrderedSet.AddAllMembers | src/index.ts:31-49 | repeated `add` calls hold exactly the old and the added values, without duplicates, extending the old sequence |
| OrderedSet.AddAllAppend | src/index.ts:36-48 | adding values batch after batch is adding their concatenation |
| OrderedSet.AddAllDistinct | src/index.ts:77 | distinct values added to a set that holds none of them are appended in order |
| OrderedSet.DedupeSpec | src/index.ts:77 | `Array.from(new Set(xs))` holds no duplicates and the same values as `xs`; it is `xs` itself when `xs` has no duplicates |
| OrderedSet.FilterOutSpec | src/index.ts:78 | `filter` keeps exactly the values not excluded, in order, and keeps distinctness |
| Layout.PadCenter | src/index.ts:60-65 | `padCenter` throws exactly when the string is wider than the width; otherwise its result is exactly as wide as the column |
| Layout.PadCenterCentres | src/index.ts:60-65 | the string sits after `floor(padding / 2)` spaces, with spaces on both sides; the right side gets the odd space |
| Layout.PadCenterExact | src/index.ts:60-65 | a string exactly as wide as its column is returned unchanged |
| Layout.Floor | src/index.ts:62 | `Math.floor(a / b)` is the greatest integer whose product with `b` is at most `a` |
| Layout.Dashes | src/index.ts:92 | one run of `colWidths[i] + 2` dashes per column |
| Layout.Cells | src/index.ts:97 | each cell is the value centred and surrounded by one space; a cell throws exactly when its value is wider than its column |
| Layout.FormatLine | src/index.ts:97 | a line can be printed exactly when every value fits its column |
| Layout.JoinLength | src/index.ts:92 | `join` of cells of known widths has the sum of the widths plus the separators as its length |
| Layout.JoinPart | src/index.ts:92 | in the joined string, the k-th part sits at its offset, right after a separator |
| Layout.FrameLayout | src/index.ts:92 | a framed line is as long as the border, ends with the separator, and has every part in its column |
| Layout.FrameColumn | src/index.ts:92 | in a framed line, column k opens with the separator and holds the k-th part |
| Layout.BorderLayout | src/index.ts:92 | the border has `+` at every column boundary and `colWidths[k] + 2` dashes in column k |
| Layout.LineLayout | src/index.ts:97 | every formatted header or row line is exactly as long as the border and ends with `\|` |
| Layout.LineColumn | src/index.ts:97 | column k of a line holds the k-th value centred between single spaces |
| Layout.CenteredValue | src/index.ts:60-65 | a centred cell shows its value at the column start plus half the free space |
| Layout.MiddleCell | src/index.ts:108 | a one-character value (`T`/`F`) sits at the middle position of its column |
| Layout.CenteredChar | src/index.ts:60-65 | a one-character value padded to its column lands at the column's middle |
| Layout.ValueInLine | src/index.ts:97 | in a printed line, value k shows at the start of column k plus half its free space |
| Layout.ValuesInLine | src/index.ts:97 | every value shows centred in its column |
| Layout.ExactValueInLine | src/index.ts:97 | a value as wide as its column shows at the column start |
| Layout.ExactValuesInLine | src/index.ts:97 | when each value fills its column, each shows at its column start |
| Layout.ExactColumn | src/index.ts:97 | a cell whose value fills its column shows that value right after the leading space |
| Rows.Pow2 | src/index.ts:79 | `2 ** n` is at least one, so a table always has a row |
| Rows.Row | src/index.ts:84-86 | a row has one value per variable |
| Rows.BuildRows | src/index.ts:80-88 | the nested loops build `2 ** n` rows, row `i` being the bits the inner loop reads from `i`; they fail, as `push` throws, exactly when `2 ** n` rows exceed the `2^32 - 1` elements an array can hold |
| Rows.TableFitsBelow32 | src/index.ts:79-87 | the table fits in an array exactly when there are fewer than 32 variables |
| Rows.RowIsBits | src/index.ts:85 | for up to 32 variables, row `i` is the n-bit binary expansion of `i`, most significant bit first |
| Rows.FromBitsOfBits | src/index.ts:85 | reading back the n-bit expansion of `i < 2^n` gives `i` |
| Rows.BitsOfFromBits | src/index.ts:85 | every bit sequence is the expansion of the number it denotes |
| Rows.RowsEnumerate | src/index.ts:82-88 | the rows are pairwise distinct, and every assignment of the variables is some row, namely the one it denotes in binary |
| Rows.RowCell | src/index.ts:85 | the value of variable `j` in row `i` is bit `n - j - 1` of `i` |
| Rows.FirstRow | src/index.ts:82-88 | the first row is all false |
| Rows.LastRow | src/index.ts:82-88 | the last row is all true, for any number of variables (the low 32 bits of `2^n - 1` are all set, so the wrap-around of `1 << k` does not matter) |
| Rows.Pow2Monotone | src/index.ts:79 | more variables never means fewer rows |
| TruthTable.ColumnsSpec | src/index.ts:77-78 | the columns are distinct. They are exactly the sub-expressions and the expression that are not variable names, in extraction order, with the expression last if new |
| TruthTable.Headers | src/index.ts:90 | the headers are the variables, then each column translated to symbols |
| TruthTable.Widths | src/index.ts:91 | each column is as wide as its header |
| TruthTable.TrueVariablesSpec | src/index.ts:102 | the true variables are, in order, the variables set in the row; for distinct names, a variable is among them exactly when its value is true |
| TruthTable.Results | src/index.ts:103-106 | one result per column: the evaluator's value for that column under the true variables |
| TruthTable.RowValues | src/index.ts:107 | `T`/`F` for each variable of the row, then for each result |
| TruthTable.RowValueChar | src/index.ts:107 | every row value is the single character `T` or `F` of its boolean |
| TruthTable.RowLines | src/index.ts:101-108 | one formatted line per row of the table, in order |
| TruthTable.Preceded | src/index.ts:95-110 | lines printed before a run come first and do not change whether it completes |
| TruthTable.Opening | src/index.ts:95-98 | expression, border, header and border are the first four lines, and the rest follows |
| TruthTable.Table | src/index.ts:79-88 | the rows the nested loops build when they fit in an array: `2 ** n` of them, row `i` being `Row(i, n)` |
| TruthTable.GenerateTruthTable | src/index.ts:71-111 | the method prints exactly what the table specification prescribes for the expression |
| TruthTable.PrintRows | src/index.ts:101-110 | the `forEach` prints the row lines in order and then the closing border, stopping at the first row that throws |
| TruthTable.PrintLinesStep | src/index.ts:101-109 | printing a row either stops the run or prints its line and continues with the next row |
| TruthTable.RowLineDefined | src/index.ts:108 | a row line can be printed exactly when every column is at least one character wide |
| TruthTable.PrintLinesCompleted | src/index.ts:101-110 | when every row line exists, all are printed in order and then the border |
| TruthTable.PrintLinesCrashed | src/index.ts:101-109 | a first row that throws ends the run with nothing more printed |
| TruthTable.PrintRowsCompleted | src/index.ts:101-110 | with all columns at least one wide, every row is printed, then the closing border |
| TruthTable.PrintRowsCrashed | src/index.ts:101-109 | an empty column makes the first row throw |
| TruthTable.RenderUnfold | src/index.ts:95-110 | the header line always exists, and the output is the four opening lines followed by the rows |
| TruthTable.RenderPrefix | src/index.ts:95-98 | the first four lines are `Expression: ` plus the translation, the border, the header line and the border |
| TruthTable.RenderCompleted | src/index.ts:95-110 | the run completes exactly when no header is empty; otherwise it stops after the four opening lines |
| TruthTable.OpeningThenRows | src/index.ts:95-110 | with all rows defined, the output is the four opening lines, the rows, and the closing border |
| TruthTable.RenderRows | src/index.ts:95-110 | with no empty header, line `4 + i` is row `i` and the last line is the border |
| TruthTable.TruthTableRows | src/index.ts:71-111 | the table has `2 ** n` rows of n values; assuming the evaluator returns a value for every column, the run completes exactly when there are fewer than 32 variables and no header is empty |
| TruthTable.TruthTableTooLarge | src/index.ts:79-87 | from 32 variables on, `truthTable.push` throws before anything of the table is printed |
| TruthTable.HeadersNonEmpty | src/index.ts:90 | non-empty variable names and a non-empty expression give non-empty headers |
| TruthTable.TruthTableCompletes | src/index.ts:71-111 | assuming the evaluator returns a value for every column, a non-empty expression with fewer than 32 non-empty variable names gets the whole table printed |
| TruthTable.SomeHeader | src/index.ts:77-90 | there is always at least one header, since the expression itself or a variable is a column |
| TruthTable.HeadersInLine | src/index.ts:97 | the header line shows every header at the start of its column |
| TruthTable.HeaderLineLength | src/index.ts:97 | the header line always exists and is as long as the border |
| TruthTable.HeaderLineLayout | src/index.ts:97 | the third printed line is as long as the border and shows each header in its column |
| TruthTable.RowLineCell | src/index.ts:108 | in a row line, the middle of column k holds the `T`/`F` of variable k or of result k |
| TruthTable.RowCell | src/index.ts:101-108 | printed line `4 + i` has at the middle of column k the value of row i for that column |

## Left out

- Command line (`src/index.ts:113-120`): reading `process.argv[2]` and exiting with status 1 when it
  is missing. The model starts from the expression string.
- Console output: `console.log` is modelled as the sequence of printed lines, in `Run`.
- The debug print of the sub-expressions (`src/index.ts:76`) is not modelled. It is diagnostic
  output from the development of the tool, not part of the table.
- The `boolean-expressions` library is not part of this model.
  - Its variable extraction (`getVariableNames`, line 74) is a parameter `variables`.
  - Its evaluator (lines 73 and 104-105) is a parameter `eval`.
  - Parse failures of the library are not modelled, since `eval` is total. This matters: the
    extractor can hand the evaluator columns that are not expressions. For example,
    `not not a` yields the columns `not not` and `not` (`ExtractExamples.DoubleNegationLiteral`), which the library would most likely fail
    to parse. Every statement that the run completes assumes the evaluator returns a value for
    every column.
- Regular expressions: `\w` is the ASCII word characters. `\s` is the six ASCII white-space
  characters, not the Unicode spaces JavaScript also accepts.
- String lengths are counted in Unicode scalar values, not UTF-16 code units. The two differ only
  for characters outside the Basic Multilingual Plane.
- Rows.RowIsBits: proved only for at most 32 variables. Beyond that, JavaScript's `1 << k` takes
  `k` modulo 32. `Rows.Row` models that wrap-around, but no lemma describes the resulting rows.
- Rows.RowsEnumerate: proved only for at most 32 variables, for the same reason.
- Rows.RowCell: proved only for at most 32 variables, for the same reason.
- Floating point is not modelled: the row count and the row index are exact integers. This does
  not change any run. `2 ** n` overflows to `Infinity` only from 1024 variables on, and `i++`
  stops being exact only from 2^53 on. From 32 variables on, `truthTable.push` already throws at
  row `2^32 - 1`, long before either matters.
- Memory is not modelled: a table of `2^31` rows would exhaust any real heap, but the model lets
  runs with up to 31 variables print the whole table.
