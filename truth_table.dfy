/** `generateTruthTable`: the columns of the table, its rows, and the lines it prints. The evaluator
    of the boolean-expression library is a parameter: `eval(expr, trueVariables)` is what
    `new BooleanExpressions(expr).evaluate(trueVariables)` returns. The variable names it finds in the
    expression are a parameter too. */
module TruthTable {
  import opened Text
  import OrderedSet
  import Translate
  import Extract
  import Rows
  import Layout

  /** The expressions that get a column after the variables: the extracted sub-expressions and the
      whole expression, without duplicates, without the variable names. */
  function Columns(subExpressions: seq<string>, expression: string, variables: seq<string>): seq<string>
  {
    OrderedSet.FilterOut(OrderedSet.Dedupe(subExpressions + [expression]), variables)
  }

  /** The columns hold no value twice and exactly the sub-expressions and the expression that are not
      variable names; when the sub-expressions are distinct (as the extractor's are), they come in
      extraction order, followed by the expression unless it was already among them. */
  lemma {:induction false} ColumnsSpec(subExpressions: seq<string>, expression: string, variables: seq<string>)
    ensures OrderedSet.NoDup(Columns(subExpressions, expression, variables))
    ensures forall x :: x in Columns(subExpressions, expression, variables) <==>
      (x in subExpressions || x == expression) && x !in variables
    ensures OrderedSet.NoDup(subExpressions) ==>
      Columns(subExpressions, expression, variables) ==
      OrderedSet.FilterOut(if expression in subExpressions then subExpressions else subExpressions + [expression], variables)
  {
    var all := subExpressions + [expression];
    OrderedSet.DedupeSpec(all);
    OrderedSet.FilterOutSpec(OrderedSet.Dedupe(all), variables);
    if OrderedSet.NoDup(subExpressions) {
      if expression in subExpressions {
        OrderedSet.AddAllAppend([], subExpressions, [expression]);
        OrderedSet.DedupeSpec(subExpressions);
        OrderedSet.AddAllSteps(subExpressions, [expression]);
      } else {
        assert OrderedSet.NoDup(all) by {
          forall i, j | 0 <= i < j < |all| ensures all[i] != all[j] {
            if j == |subExpressions| {
              assert all[i] == subExpressions[i];
            }
          }
        }
      }
    }
  }

  /** The column headers: the variables, then each column expression in logic symbols. */
  function Headers(variables: seq<string>, columns: seq<string>): (r: seq<string>)
    ensures |r| == |variables| + |columns|
    ensures r[..|variables|] == variables
    ensures forall k :: 0 <= k < |columns| ==> r[|variables| + k] == Translate.TranslateToLogicSymbols(columns[k])
  {
    variables + seq(|columns|, k requires 0 <= k < |columns| => Translate.TranslateToLogicSymbols(columns[k]))
  }

  /** `headers.map(header => header.length)`. */
  function Widths(headers: seq<string>): (r: seq<nat>)
    ensures |r| == |headers|
    ensures forall k :: 0 <= k < |headers| ==> r[k] == |headers[k]|
  {
    seq(|headers|, k requires 0 <= k < |headers| => |headers[k]|)
  }

  /** `variables.filter((_, i) => row[i])`. */
  function TrueVariables(variables: seq<string>, row: seq<bool>): seq<string>
    requires |row| == |variables|
    decreases |variables|
  {
    if variables == [] then []
    else (if row[0] then [variables[0]] else []) + TrueVariables(variables[1..], row[1..])
  }

  /** The variables passed to the evaluator are those the row sets to true, in their order; with
      distinct names, a variable is passed exactly when its cell is true. */
  lemma {:induction false} TrueVariablesSpec(variables: seq<string>, row: seq<bool>)
    requires |row| == |variables|
    ensures OrderedSet.IsSubsequence(TrueVariables(variables, row), variables)
    ensures forall i :: 0 <= i < |variables| && row[i] ==> variables[i] in TrueVariables(variables, row)
    ensures OrderedSet.NoDup(variables) ==>
      forall i :: 0 <= i < |variables| ==> (variables[i] in TrueVariables(variables, row) <==> row[i])
    decreases |variables|
  {
    if variables != [] {
      var rest := TrueVariables(variables[1..], row[1..]);
      TrueVariablesSpec(variables[1..], row[1..]);
      var r := TrueVariables(variables, row);
      assert r == (if row[0] then [variables[0]] else []) + rest;
      if row[0] {
        assert r[0] == variables[0] && r[1..] == rest;
      } else {
        assert r == rest;
        OrderedSet.SubsequenceSkip(rest, variables);
      }
      assert OrderedSet.IsSubsequence(r, variables);
      forall i | 0 < i < |variables| ensures variables[i] == variables[1..][i - 1] && row[i] == row[1..][i - 1] {
      }
      if OrderedSet.NoDup(variables) {
        assert OrderedSet.NoDup(variables[1..]) by {
          forall i, j | 0 <= i < j < |variables[1..]| ensures variables[1..][i] != variables[1..][j] {
            assert variables[1..][i] == variables[i + 1] && variables[1..][j] == variables[j + 1];
          }
        }
        assert variables[0] !in variables[1..];
        SubsequenceMembers(rest, variables[1..]);
      }
    }
  }

  /** The elements of a subsequence are elements of the sequence. */
  lemma {:induction false} SubsequenceMembers<T>(a: seq<T>, b: seq<T>)
    requires OrderedSet.IsSubsequence(a, b)
    ensures forall x :: x in a ==> x in b
    decreases |b|
  {
    if a != [] && b != [] {
      if a[0] == b[0] {
        SubsequenceMembers(a[1..], b[1..]);
        forall x | x in a ensures x in b {
          if x != a[0] {
            assert x in a[1..];
          }
        }
      } else {
        SubsequenceMembers(a, b[1..]);
      }
    }
  }

  /** `'T'` or `'F'`. */
  function FlagChar(value: bool): char
  {
    if value then 'T' else 'F'
  }

  /** `r ? 'T' : 'F'`, a one-character string. */
  function Flag(value: bool): string
  {
    [FlagChar(value)]
  }

  /** `filteredExpressions.map(expr => new BooleanExpressions(expr).evaluate(trueVariables))`. */
  function Results(columns: seq<string>, trueVariables: seq<string>, eval: (string, seq<string>) -> bool): (r: seq<bool>)
    ensures |r| == |columns|
    ensures forall k :: 0 <= k < |columns| ==> r[k] == eval(columns[k], trueVariables)
  {
    seq(|columns|, k requires 0 <= k < |columns| => eval(columns[k], trueVariables))
  }

  /** The cells of one row: the row's own values, then the results, each as `T` or `F`. */
  function RowValues(row: seq<bool>, results: seq<bool>): (r: seq<string>)
    ensures |r| == |row| + |results|
    ensures forall i :: 0 <= i < |row| ==> r[i] == Flag(row[i])
    ensures forall k :: 0 <= k < |results| ==> r[|row| + k] == Flag(results[k])
  {
    seq(|row|, i requires 0 <= i < |row| => Flag(row[i])) + seq(|results|, k requires 0 <= k < |results| => Flag(results[k]))
  }

  /** The printed line for one row of the table, or `None` when `padCenter` throws. */
  function RowLine(variables: seq<string>, columns: seq<string>, widths: seq<nat>, row: seq<bool>,
                   eval: (string, seq<string>) -> bool): Option<string>
    requires |row| == |variables| && |widths| == |variables| + |columns|
  {
    Layout.FormatLine(RowValues(row, Results(columns, TrueVariables(variables, row), eval)), widths)
  }

  /** What the run prints: every line, and whether it ran to the end or stopped at an exception. */
  datatype Run = Completed(lines: seq<string>) | Crashed(lines: seq<string>)

  /** The lines of the rows, in order; `None` for a row whose line `padCenter` cannot produce. */
  function RowLines(variables: seq<string>, columns: seq<string>, widths: seq<nat>, table: seq<seq<bool>>,
                    eval: (string, seq<string>) -> bool): (r: seq<Option<string>>)
    requires forall i :: 0 <= i < |table| ==> |table[i]| == |variables|
    requires |widths| == |variables| + |columns|
    ensures |r| == |table|
    ensures forall i :: 0 <= i < |table| ==> r[i] == RowLine(variables, columns, widths, table[i], eval)
  {
    seq(|table|, i requires 0 <= i < |table| => RowLine(variables, columns, widths, table[i], eval))
  }

  /** The row lines one by one, then the closing border; the run stops at the first row whose line
      throws. */
  function PrintLines(rowLines: seq<Option<string>>, border: string): Run
    decreases |rowLines|
  {
    if rowLines == [] then Completed([border])
    else match rowLines[0]
      case None => Crashed([])
      case Some(line) => Preceded([line], PrintLines(rowLines[1..], border))
  }

  /** The run `run` after the lines `lines` were printed. */
  function Preceded(lines: seq<string>, run: Run): (r: Run)
    ensures r.Completed? <==> run.Completed?
    ensures r.lines == lines + run.lines
  {
    match run
    case Completed(rest) => Completed(lines + rest)
    case Crashed(rest) => Crashed(lines + rest)
  }

  /** The four opening lines come first; the rest of the run follows them and decides whether it
      completes. */
  lemma {:induction false} Opening(first: string, border: string, header: string, rest: Run)
    ensures var run := Preceded([first, border, header, border], rest);
      |run.lines| == 4 + |rest.lines|
      && run.lines[0] == first && run.lines[1] == border && run.lines[2] == header && run.lines[3] == border
      && (run.Completed? <==> rest.Completed?)
      && forall j :: 0 <= j < |rest.lines| ==> run.lines[4 + j] == rest.lines[j]
  {
  }

  /** The rows of the table over `n` variables. */
  function Table(n: nat): (r: seq<seq<bool>>)
    ensures |r| == Rows.Pow2(n)
    ensures forall i :: 0 <= i < |r| ==> r[i] == Rows.Row(i, n)
  {
    seq(Rows.Pow2(n), i requires 0 <= i < Rows.Pow2(n) => Rows.Row(i, n))
  }

  /** The first line printed. */
  function ExpressionLine(expression: string): string
  {
    "Expression: " + Translate.TranslateToLogicSymbols(expression)
  }

  /** What is printed for `expression` with the variables `variables`, the columns `columns` and the
      rows `table`: the expression and the border; then, if the header line can be formatted, the
      header line, the border again and the rows. */
  function Render(expression: string, variables: seq<string>, columns: seq<string>, table: seq<seq<bool>>,
                  eval: (string, seq<string>) -> bool): Run
    requires forall i :: 0 <= i < |table| ==> |table[i]| == |variables|
  {
    var headers := Headers(variables, columns);
    var widths := Widths(headers);
    var border := Layout.Border(widths);
    match Layout.FormatLine(headers, widths)
    case None => Crashed([ExpressionLine(expression), border])
    case Some(header) =>
      Preceded([ExpressionLine(expression), border, header, border],
               PrintLines(RowLines(variables, columns, widths, table, eval), border))
  }

  /** The columns `generateTruthTable` gives `expression`. */
  function ColumnsOf(expression: string, variables: seq<string>): seq<string>
  {
    Columns(Extract.SubExpressions(expression), expression, variables)
  }

  /** Everything `generateTruthTable(expression)` prints, in order, apart from the debug print of the
      sub-expressions; nothing when the table outgrows an array and `truthTable.push` throws. */
  function TruthTable(expression: string, variables: seq<string>, eval: (string, seq<string>) -> bool): Run
  {
    if !Rows.TableFits(|variables|) then Crashed([])
    else Render(expression, variables, ColumnsOf(expression, variables), Table(|variables|), eval)
  }

  /** `generateTruthTable`: computes the columns and the rows, prints the expression, the header
      between two borders, one line per row, and the closing border. */
  method GenerateTruthTable(expression: string, variables: seq<string>, eval: (string, seq<string>) -> bool)
    returns (run: Run)
    ensures run == TruthTable(expression, variables, eval)
  {
    var translatedExpression := Translate.TranslateToLogicSymbols(expression);
    var subExpressions := Extract.ExtractSubExpressions(expression);
    var allExpressions := OrderedSet.Dedupe(subExpressions + [expression]);
    var filteredExpressions := OrderedSet.FilterOut(allExpressions, variables);
    var rows := Rows.BuildRows(|variables|);
    if rows.None? {
      return Crashed([]);
    }
    var truthTable := rows.value;
    assert truthTable == Table(|variables|);
    var headers := Headers(variables, filteredExpressions);
    var colWidths := Widths(headers);
    var border := Layout.Border(colWidths);
    var lines := ["Expression: " + translatedExpression, border];
    var header := Layout.FormatLine(headers, colWidths);
    if header.None? {
      return Crashed(lines);
    }
    lines := lines + [header.value, border];
    assert lines == [ExpressionLine(expression), border, header.value, border];
    run := PrintRows(lines, truthTable, variables, filteredExpressions, colWidths, border, eval);
  }

  /** The `forEach` over the rows: after `lines`, prints one line per row, stopping when `padCenter`
      throws, then the closing border. */
  method PrintRows(lines: seq<string>, truthTable: seq<seq<bool>>, variables: seq<string>, columns: seq<string>,
                   colWidths: seq<nat>, border: string, eval: (string, seq<string>) -> bool)
    returns (run: Run)
    requires forall r :: 0 <= r < |truthTable| ==> |truthTable[r]| == |variables|
    requires |colWidths| == |variables| + |columns|
    ensures run == Preceded(lines, PrintLines(RowLines(variables, columns, colWidths, truthTable, eval), border))
  {
    ghost var rowLines := RowLines(variables, columns, colWidths, truthTable, eval);
    var printed := lines;
    var r := 0;
    while r < |truthTable|
      invariant 0 <= r <= |truthTable|
      invariant Preceded(printed, PrintLines(rowLines[r..], border)) == Preceded(lines, PrintLines(rowLines, border))
    {
      var row := truthTable[r];
      var trueVariables := TrueVariables(variables, row);
      var results := Results(columns, trueVariables, eval);
      var rowValues := RowValues(row, results);
      var line := Layout.FormatLine(rowValues, colWidths);
      assert line == rowLines[r];
      PrintLinesStep(printed, rowLines, r, border);
      if line.None? {
        return Crashed(printed);
      }
      printed := printed + [line.value];
      r := r + 1;
    }
    run := Completed(printed + [border]);
  }

  /** One step of the row loop: a row whose line throws ends the run after what was printed so
      far; otherwise its line is printed and the loop goes on with the next row. */
  lemma {:induction false} PrintLinesStep(printed: seq<string>, rowLines: seq<Option<string>>, r: nat, border: string)
    requires r < |rowLines|
    ensures rowLines[r].None? ==> Preceded(printed, PrintLines(rowLines[r..], border)) == Crashed(printed)
    ensures rowLines[r].Some? ==>
      Preceded(printed, PrintLines(rowLines[r..], border))
        == Preceded(printed + [rowLines[r].value], PrintLines(rowLines[r + 1..], border))
  {
    assert rowLines[r..][1..] == rowLines[r + 1..];
    if rowLines[r].Some? {
      var rest := PrintLines(rowLines[r + 1..], border);
      assert printed + ([rowLines[r].value] + rest.lines) == (printed + [rowLines[r].value]) + rest.lines;
    } else {
      assert printed + [] == printed;
    }
  }

  // ---------------------------------------------------------------------------------------
  // What the run prints

  /** Every value of a row is one character wide, so a row line is printed exactly when every
      column is at least one character wide, whatever the row. */
  lemma {:induction false} RowLineDefined(variables: seq<string>, columns: seq<string>, widths: seq<nat>, row: seq<bool>,
                       eval: (string, seq<string>) -> bool)
    requires |row| == |variables| && |widths| == |variables| + |columns|
    ensures RowLine(variables, columns, widths, row, eval).Some? <==> forall k :: 0 <= k < |widths| ==> widths[k] >= 1
  {
    var values := RowValues(row, Results(columns, TrueVariables(variables, row), eval));
    assert forall k :: 0 <= k < |values| ==> |values[k]| == 1 by {
      forall k | 0 <= k < |values| ensures |values[k]| == 1 {
        if k >= |row| {
          assert values[|row| + (k - |row|)] == values[k];
        }
      }
    }
  }

  /** When every row line can be printed, they are printed one after the other, then the border. */
  lemma {:induction false} PrintLinesCompleted(rowLines: seq<Option<string>>, border: string)
    requires forall r :: 0 <= r < |rowLines| ==> rowLines[r].Some?
    ensures PrintLines(rowLines, border).Completed?
    ensures var out := PrintLines(rowLines, border).lines;
      |out| == |rowLines| + 1 && out[|rowLines|] == border
      && forall r :: 0 <= r < |rowLines| ==> out[r] == rowLines[r].value
    decreases |rowLines|
  {
    if rowLines != [] {
      var rest := rowLines[1..];
      PrintLinesCompleted(rest, border);
      var out := PrintLines(rowLines, border).lines;
      assert out == [rowLines[0].value] + PrintLines(rest, border).lines;
      forall r | 0 < r < |rowLines| ensures out[r] == rowLines[r].value {
        assert rowLines[r] == rest[r - 1];
      }
    }
  }

  /** A run that stops does so at the first row, before printing anything of its own. */
  lemma {:induction false} PrintLinesCrashed(rowLines: seq<Option<string>>, border: string)
    requires rowLines != [] && rowLines[0].None?
    ensures PrintLines(rowLines, border) == Crashed([])
  {
  }

  /** When every column is at least one character wide, every row line is printed, then the
      closing border. */
  lemma {:induction false} PrintRowsCompleted(variables: seq<string>, columns: seq<string>, widths: seq<nat>,
                           table: seq<seq<bool>>, border: string, eval: (string, seq<string>) -> bool)
    requires forall i :: 0 <= i < |table| ==> |table[i]| == |variables|
    requires |widths| == |variables| + |columns|
    requires forall k :: 0 <= k < |widths| ==> widths[k] >= 1
    ensures var rowLines := RowLines(variables, columns, widths, table, eval);
      var run := PrintLines(rowLines, border);
      run.Completed?
      && |run.lines| == |table| + 1
      && run.lines[|table|] == border
      && forall i :: 0 <= i < |table| ==> rowLines[i].Some? && run.lines[i] == rowLines[i].value
  {
    var rowLines := RowLines(variables, columns, widths, table, eval);
    forall r | 0 <= r < |rowLines| ensures rowLines[r].Some? {
      RowLineDefined(variables, columns, widths, table[r], eval);
    }
    PrintLinesCompleted(rowLines, border);
  }

  /** When some column is empty, the first row line throws and the rows print nothing. */
  lemma {:induction false} PrintRowsCrashed(variables: seq<string>, columns: seq<string>, widths: seq<nat>,
                         table: seq<seq<bool>>, border: string, eval: (string, seq<string>) -> bool)
    requires forall i :: 0 <= i < |table| ==> |table[i]| == |variables|
    requires |widths| == |variables| + |columns|
    requires |table| > 0 && exists k :: 0 <= k < |widths| && widths[k] == 0
    ensures PrintLines(RowLines(variables, columns, widths, table, eval), border) == Crashed([])
  {
    var rowLines := RowLines(variables, columns, widths, table, eval);
    RowLineDefined(variables, columns, widths, table[0], eval);
    PrintLinesCrashed(rowLines, border);
  }

  /** The header line can always be formatted, so the run goes on to the rows. */
  lemma {:induction false} RenderUnfold(expression: string, variables: seq<string>, columns: seq<string>, table: seq<seq<bool>>,
                     eval: (string, seq<string>) -> bool)
    requires forall i :: 0 <= i < |table| ==> |table[i]| == |variables|
    ensures var headers := Headers(variables, columns);
      var widths := Widths(headers);
      var border := Layout.Border(widths);
      Layout.FormatLine(headers, widths).Some?
      && Render(expression, variables, columns, table, eval) ==
         Preceded([ExpressionLine(expression), border, Layout.FormatLine(headers, widths).value, border],
                  PrintLines(RowLines(variables, columns, widths, table, eval), border))
  {
  }

  /** Whatever happens next, the run first prints the expression in logic symbols, the border, the
      header line and the border again. */
  lemma {:induction false} RenderPrefix(expression: string, variables: seq<string>, columns: seq<string>, table: seq<seq<bool>>,
                     eval: (string, seq<string>) -> bool)
    requires forall i :: 0 <= i < |table| ==> |table[i]| == |variables|
    ensures var run := Render(expression, variables, columns, table, eval);
      var headers := Headers(variables, columns);
      var widths := Widths(headers);
      |run.lines| >= 4
      && run.lines[0] == ExpressionLine(expression)
      && run.lines[1] == Layout.Border(widths)
      && Layout.FormatLine(headers, widths).Some? && run.lines[2] == Layout.FormatLine(headers, widths).value
      && run.lines[3] == Layout.Border(widths)
  {
    RenderUnfold(expression, variables, columns, table, eval);
    var headers := Headers(variables, columns);
    var widths := Widths(headers);
    var border := Layout.Border(widths);
    Opening(ExpressionLine(expression), border, Layout.FormatLine(headers, widths).value,
            PrintLines(RowLines(variables, columns, widths, table, eval), border));
  }

  /** The rows are printed exactly when every header is at least one character long; otherwise
      `padCenter` throws on the first row and the run stops after the four opening lines. */
  lemma {:induction false} RenderCompleted(expression: string, variables: seq<string>, columns: seq<string>, table: seq<seq<bool>>,
                        eval: (string, seq<string>) -> bool)
    requires |table| > 0 && forall i :: 0 <= i < |table| ==> |table[i]| == |variables|
    ensures var headers := Headers(variables, columns);
      Render(expression, variables, columns, table, eval).Completed? <==> forall k :: 0 <= k < |headers| ==> headers[k] != []
    ensures var run := Render(expression, variables, columns, table, eval);
      run.Crashed? ==> |run.lines| == 4
  {
    RenderUnfold(expression, variables, columns, table, eval);
    var headers := Headers(variables, columns);
    var widths := Widths(headers);
    var border := Layout.Border(widths);
    Opening(ExpressionLine(expression), border, Layout.FormatLine(headers, widths).value,
            PrintLines(RowLines(variables, columns, widths, table, eval), border));
    assert (forall k :: 0 <= k < |widths| ==> widths[k] >= 1) <==> forall k :: 0 <= k < |headers| ==> headers[k] != [];
    if forall k :: 0 <= k < |widths| ==> widths[k] >= 1 {
      PrintRowsCompleted(variables, columns, widths, table, border, eval);
    } else {
      PrintRowsCrashed(variables, columns, widths, table, border, eval);
    }
  }

  /** When every row line can be printed, the run prints the four opening lines, the row lines and
      the closing border. */
  lemma {:induction false} OpeningThenRows(first: string, border: string, header: string, rowLines: seq<Option<string>>)
    requires forall r :: 0 <= r < |rowLines| ==> rowLines[r].Some?
    ensures var run := Preceded([first, border, header, border], PrintLines(rowLines, border));
      run.Completed? && |run.lines| == |rowLines| + 5 && run.lines[|rowLines| + 4] == border
      && forall i :: 0 <= i < |rowLines| ==> run.lines[4 + i] == rowLines[i].value
  {
    PrintLinesCompleted(rowLines, border);
    Opening(first, border, header, PrintLines(rowLines, border));
  }

  /** When every header is at least one character long, the run completes and prints one line per
      row between the four opening lines and the closing border: the line of row `i` is line `4 + i`. */
  lemma {:induction false} RenderRows(expression: string, variables: seq<string>, columns: seq<string>, table: seq<seq<bool>>,
                   eval: (string, seq<string>) -> bool)
    requires forall i :: 0 <= i < |table| ==> |table[i]| == |variables|
    requires forall k :: 0 <= k < |Headers(variables, columns)| ==> Headers(variables, columns)[k] != []
    ensures var run := Render(expression, variables, columns, table, eval);
      var widths := Widths(Headers(variables, columns));
      run.Completed?
      && |run.lines| == |table| + 5
      && run.lines[|table| + 4] == Layout.Border(widths)
      && forall i :: 0 <= i < |table| ==>
           RowLine(variables, columns, widths, table[i], eval).Some?
           && run.lines[4 + i] == RowLine(variables, columns, widths, table[i], eval).value
  {
    RenderUnfold(expression, variables, columns, table, eval);
    var headers := Headers(variables, columns);
    var widths := Widths(headers);
    var border := Layout.Border(widths);
    var rowLines := RowLines(variables, columns, widths, table, eval);
    assert forall k :: 0 <= k < |widths| ==> widths[k] >= 1;
    PrintRowsCompleted(variables, columns, widths, table, border, eval);
    OpeningThenRows(ExpressionLine(expression), border, Layout.FormatLine(headers, widths).value, rowLines);
  }

  /** The table has `2 ** n` rows, each as long as the list of variables, and the run completes
      exactly when there are fewer than 32 variables and every header is at least one character
      long. */
  lemma {:induction false} TruthTableRows(expression: string, variables: seq<string>, eval: (string, seq<string>) -> bool)
    ensures var table := Table(|variables|);
      |table| == Rows.Pow2(|variables|) && forall i :: 0 <= i < |table| ==> |table[i]| == |variables|
    ensures var headers := Headers(variables, ColumnsOf(expression, variables));
      TruthTable(expression, variables, eval).Completed? <==>
        |variables| < 32 && forall k :: 0 <= k < |headers| ==> headers[k] != []
  {
    Rows.TableFitsBelow32(|variables|);
    RenderCompleted(expression, variables, ColumnsOf(expression, variables), Table(|variables|), eval);
  }

  /** From 32 variables on, `truthTable.push` throws before anything of the table is printed. */
  lemma {:induction false} TruthTableTooLarge(expression: string, variables: seq<string>, eval: (string, seq<string>) -> bool)
    requires |variables| >= 32
    ensures TruthTable(expression, variables, eval) == Crashed([])
  {
    Rows.TableFitsBelow32(|variables|);
  }

  /** Every header is at least one character long when the expression is not empty and no variable
      name is empty: the extracted sub-expressions are pieces of the expression and translation keeps
      a non-empty text non-empty. */
  lemma {:induction false} HeadersNonEmpty(expression: string, variables: seq<string>)
    requires expression != []
    requires forall i :: 0 <= i < |variables| ==> variables[i] != []
    ensures forall k :: 0 <= k < |Headers(variables, ColumnsOf(expression, variables))| ==>
      Headers(variables, ColumnsOf(expression, variables))[k] != []
  {
    var subs := Extract.SubExpressions(expression);
    var columns := ColumnsOf(expression, variables);
    var headers := Headers(variables, columns);
    ColumnsSpec(subs, expression, variables);
    Extract.SubExpressionsAreSubstrings(expression);
    forall k | 0 <= k < |headers| ensures headers[k] != [] {
      if k >= |variables| {
        var c := columns[k - |variables|];
        assert c in columns;
        assert c != [];
        Translate.TranslateNonEmpty(c);
      } else {
        assert headers[k] == headers[..|variables|][k] == variables[k];
      }
    }
  }

  /** With a non-empty expression, non-empty variable names and fewer than 32 of them the whole
      table is printed. */
  lemma {:induction false} TruthTableCompletes(expression: string, variables: seq<string>, eval: (string, seq<string>) -> bool)
    requires expression != []
    requires forall i :: 0 <= i < |variables| ==> variables[i] != []
    requires |variables| < 32
    ensures TruthTable(expression, variables, eval).Completed?
  {
    HeadersNonEmpty(expression, variables);
    TruthTableRows(expression, variables, eval);
  }

  /** There is always at least one column: when the expression is not one of the variable names it
      is a column itself. */
  lemma {:induction false} SomeHeader(expression: string, variables: seq<string>)
    ensures |Headers(variables, ColumnsOf(expression, variables))| >= 1
  {
    var subs := Extract.SubExpressions(expression);
    ColumnsSpec(subs, expression, variables);
    if expression !in variables {
      assert expression in ColumnsOf(expression, variables);
    }
  }

  /** `line` holds every header whole, right after the separator of its column and a space. */
  predicate ShowsHeaders(line: string, headers: seq<string>)
  {
    var widths := Widths(headers);
    forall k {:trigger Layout.ColumnStart(widths, k)} :: 0 <= k < |headers| ==> Layout.ShowsAt(line, Layout.ColumnStart(widths, k), headers[k])
  }

  /** Each column is as wide as its header, so the header line holds every header whole, right
      after the separator of its column and a space. */
  lemma {:induction false} HeadersInLine(headers: seq<string>, line: string)
    requires Layout.FormatLine(headers, Widths(headers)) == Some(line)
    ensures ShowsHeaders(line, headers)
  {
    Layout.ExactValuesInLine(headers, Widths(headers), line);
  }

  /** The header line is exactly as long as the border. */
  lemma {:induction false} HeaderLineLength(headers: seq<string>)
    requires |headers| > 0
    ensures var widths := Widths(headers);
      Layout.FormatLine(headers, widths).Some?
      && |Layout.FormatLine(headers, widths).value| == |Layout.Border(widths)|
  {
    var widths := Widths(headers);
    assert forall i :: 0 <= i < |headers| ==> |headers[i]| <= widths[i];
    Layout.LineLayout(headers, widths, Layout.FormatLine(headers, widths).value);
  }

  /** The printed header line holds every header whole and is exactly as long as the border. */
  lemma {:induction false} HeaderLineLayout(expression: string, variables: seq<string>, columns: seq<string>, table: seq<seq<bool>>,
                         eval: (string, seq<string>) -> bool)
    requires forall i :: 0 <= i < |table| ==> |table[i]| == |variables|
    requires |variables| + |columns| >= 1
    ensures var run := Render(expression, variables, columns, table, eval);
      var headers := Headers(variables, columns);
      |run.lines| >= 4 && |run.lines[2]| == |Layout.Border(Widths(headers))| && ShowsHeaders(run.lines[2], headers)
  {
    RenderPrefix(expression, variables, columns, table, eval);
    var headers := Headers(variables, columns);
    HeaderLineLength(headers);
    HeadersInLine(headers, Layout.FormatLine(headers, Widths(headers)).value);
  }

  /** Value `k` of a row is one character: the row's own value for a variable, a result past them. */
  lemma {:induction false} RowValueChar(row: seq<bool>, results: seq<bool>, k: nat)
    requires k < |row| + |results|
    ensures var values := RowValues(row, results);
      |values[k]| == 1 && values[k][0] == if k < |row| then FlagChar(row[k]) else FlagChar(results[k - |row|])
  {
    var values := RowValues(row, results);
    if k >= |row| {
      assert values[|row| + (k - |row|)] == values[k];
    }
  }

  /** What a row shows in column `k`: its own value for variable `k`, or, past the variables, what the
      evaluator returns for that column's expression given the variables the row sets to true. */
  function CellChar(variables: seq<string>, columns: seq<string>, row: seq<bool>,
                    eval: (string, seq<string>) -> bool, k: nat): char
    requires |row| == |variables| && k < |variables| + |columns|
  {
    var n := |variables|;
    if k < n then FlagChar(row[k]) else FlagChar(eval(columns[k - n], TrueVariables(variables, row)))
  }

  /** In the line of a row, the middle of column `k` shows the row's value for variable `k`, or, past
      the variables, what the evaluator returns for that column's expression given the variables the
      row sets to true. */
  lemma {:induction false} RowLineCell(variables: seq<string>, columns: seq<string>, widths: seq<nat>, row: seq<bool>,
                    eval: (string, seq<string>) -> bool, k: nat)
    requires |row| == |variables| && |widths| == |variables| + |columns|
    requires forall c :: 0 <= c < |widths| ==> widths[c] >= 1
    requires k < |widths|
    ensures RowLine(variables, columns, widths, row, eval).Some?
    ensures Layout.Middle(widths, k) < |RowLine(variables, columns, widths, row, eval).value|
      && RowLine(variables, columns, widths, row, eval).value[Layout.Middle(widths, k)] == CellChar(variables, columns, row, eval, k)
  {
    RowLineDefined(variables, columns, widths, row, eval);
    var n := |variables|;
    var results := Results(columns, TrueVariables(variables, row), eval);
    var values := RowValues(row, results);
    RowValueChar(row, results, k);
    Layout.MiddleCell(values, widths, Layout.FormatLine(values, widths).value, k);
    if k >= n {
      assert results[k - n] == eval(columns[k - n], TrueVariables(variables, row));
    }
  }

  /** In the printed line of row `i`, the middle of column `k` shows the row's value for variable
      `k`, or, past the variables, what the evaluator returns for that column's expression. */
  lemma {:induction false} RowCell(expression: string, variables: seq<string>, columns: seq<string>, table: seq<seq<bool>>,
                eval: (string, seq<string>) -> bool, i: nat, k: nat)
    requires forall r :: 0 <= r < |table| ==> |table[r]| == |variables|
    requires forall c :: 0 <= c < |Headers(variables, columns)| ==> Headers(variables, columns)[c] != []
    requires i < |table| && k < |variables| + |columns|
    ensures var run := Render(expression, variables, columns, table, eval);
      var widths := Widths(Headers(variables, columns));
      |run.lines| == |table| + 5 && Layout.Middle(widths, k) < |run.lines[4 + i]|
      && run.lines[4 + i][Layout.Middle(widths, k)] == CellChar(variables, columns, table[i], eval, k)
  {
    var widths := Widths(Headers(variables, columns));
    assert forall c :: 0 <= c < |widths| ==> widths[c] >= 1;
    RowLineCell(variables, columns, widths, table[i], eval, k);
    RenderRows(expression, variables, columns, table, eval);
  }
}
