/** The text layout of the table: centred cells, rows of cells framed by separators, and the border. */
module Layout {
  import opened Text

  /** `padCenter(str, width)`: `str` with `floor((width - |str|) / 2)` spaces before it and the rest
      of the padding after it. `' '.repeat` throws a `RangeError` for a negative count, which happens
      exactly when `str` is longer than `width`; that is the `None` result. */
  function PadCenter(str: string, width: nat): (r: Option<string>)
    ensures r.Some? <==> |str| <= width
    ensures r.Some? ==> |r.value| == width
  {
    var padding := width - |str|;
    var paddingLeft := Floor(padding, 2);
    var paddingRight := padding - paddingLeft;
    if paddingLeft < 0 || paddingRight < 0 then None
    else Some(Repeat(' ', paddingLeft) + str + Repeat(' ', paddingRight))
  }

  /** The padded string holds `str` after `floor((width - |str|) / 2)` spaces and is filled up with
      spaces on the right, which get the odd space when the padding is odd. */
  lemma {:induction false} PadCenterCentres(str: string, width: nat)
    requires |str| <= width
    ensures var r := PadCenter(str, width).value;
      var left := (width - |str|) / 2;
      var right := width - |str| - left;
      0 <= right - left <= 1
      && r[left..left + |str|] == str
      && (forall i :: 0 <= i < left ==> r[i] == ' ')
      && (forall i :: left + |str| <= i < width ==> r[i] == ' ')
  {
    var left := (width - |str|) / 2;
    var r := PadCenter(str, width).value;
    assert r == Repeat(' ', left) + str + Repeat(' ', width - |str| - left);
    assert r[left..left + |str|] == str;
  }

  /** `Math.floor(a / b)` for a positive `b`. */
  function Floor(a: int, b: int): (q: int)
    requires b > 0
    ensures q * b <= a < q * b + b
  {
    a / b
  }

  /** A string already as wide as the column is left as it is. */
  lemma {:induction false} PadCenterExact(str: string)
    ensures PadCenter(str, |str|) == Some(str)
  {
    var r := PadCenter(str, |str|).value;
    PadCenterCentres(str, |str|);
    assert r[0..|str|] == str;
    assert r == r[0..|str|];
  }

  /** `parts.join(sep)` for a one-character separator: the parts with `sep` between neighbours. */
  function Join(parts: seq<string>, sep: char): (r: string)
    decreases |parts|
  {
    if parts == [] then []
    else if |parts| == 1 then parts[0]
    else Join(parts[..|parts| - 1], sep) + [sep] + parts[|parts| - 1]
  }

  /** `sep + parts.join(sep) + sep`: a table line. */
  function Frame(parts: seq<string>, sep: char): string
  {
    [sep] + Join(parts, sep) + [sep]
  }

  /** The position of the separator in front of column `k` when the columns have the contents widths
      `widths`: each column takes its width, a space on either side and its separator. */
  function Offset(widths: seq<nat>, k: nat): nat
    requires k <= |widths|
  {
    if k == 0 then 0 else Offset(widths, k - 1) + widths[k - 1] + 3
  }

  /** Offsets grow from column to column. */
  lemma {:induction false} OffsetMonotone(widths: seq<nat>)
    ensures forall j, k :: 0 <= j <= k <= |widths| ==> Offset(widths, j) <= Offset(widths, k)
  {
    forall j, k | 0 <= j <= k <= |widths| ensures Offset(widths, j) <= Offset(widths, k) {
      OffsetGrows(widths, j, k);
    }
  }

  lemma {:induction false} OffsetGrows(widths: seq<nat>, j: nat, k: nat)
    requires j <= k <= |widths|
    ensures Offset(widths, j) + 3 * (k - j) <= Offset(widths, k)
    decreases k
  {
    if j < k {
      OffsetGrows(widths, j, k - 1);
    }
  }

  /** The border: `'+' + widths.map(w => '-'.repeat(w + 2)).join('+') + '+'`. */
  function Border(widths: seq<nat>): string
  {
    Frame(Dashes(widths), '+')
  }

  /** `widths.map(w => '-'.repeat(w + 2))`. */
  function Dashes(widths: seq<nat>): (r: seq<string>)
    ensures |r| == |widths|
    ensures forall i :: 0 <= i < |widths| ==> r[i] == Repeat('-', widths[i] + 2)
  {
    seq(|widths|, i requires 0 <= i < |widths| => Repeat('-', widths[i] + 2))
  }

  /** The cells of a line: each value centred in its column, a space on either side, or `None` when a
      value is wider than its column. */
  function Cells(values: seq<string>, widths: seq<nat>): (r: Option<seq<string>>)
    requires |values| == |widths|
    ensures r.Some? <==> forall i :: 0 <= i < |values| ==> |values[i]| <= widths[i]
    ensures r.Some? ==> |r.value| == |values|
    ensures r.Some? ==> forall i {:trigger r.value[i]} :: 0 <= i < |values| ==> r.value[i] == [' '] + PadCenter(values[i], widths[i]).value + [' ']
  {
    if forall i :: 0 <= i < |values| ==> |values[i]| <= widths[i] then
      Some(seq(|values|, i requires 0 <= i < |values| => [' '] + PadCenter(values[i], widths[i]).value + [' ']))
    else
      None
  }

  /** `'|' + values.map((v, i) => ' ' + padCenter(v, widths[i]) + ' ').join('|') + '|'`; `None` when
      `padCenter` throws for one of the values. */
  function FormatLine(values: seq<string>, widths: seq<nat>): (r: Option<string>)
    requires |values| == |widths|
    ensures r.Some? <==> forall i :: 0 <= i < |values| ==> |values[i]| <= widths[i]
  {
    match Cells(values, widths)
    case None => None
    case Some(cells) => Some(Frame(cells, '|'))
  }

  /** Parts whose lengths are the column widths plus two, joined, are `Σ (widths[k] + 3) - 1` long. */
  lemma {:induction false} JoinLength(parts: seq<string>, widths: seq<nat>, sep: char)
    requires |parts| == |widths| > 0
    requires forall i :: 0 <= i < |parts| ==> |parts[i]| == widths[i] + 2
    ensures |Join(parts, sep)| == Offset(widths, |widths|) - 1
    decreases |parts|
  {
    var n := |parts|;
    if n > 1 {
      JoinLength(parts[..n - 1], widths[..n - 1], sep);
      OffsetPrefix(widths, n - 1, n - 1);
    }
  }

  /** In the joined parts, part `k` starts at `Offset(widths, k)` and, after the first, right after a
      separator. */
  lemma {:induction false} JoinPart(parts: seq<string>, widths: seq<nat>, sep: char, k: nat)
    requires |parts| == |widths| > k
    requires forall i :: 0 <= i < |parts| ==> |parts[i]| == widths[i] + 2
    ensures Offset(widths, k + 1) - 1 <= |Join(parts, sep)|
      && Join(parts, sep)[Offset(widths, k)..Offset(widths, k + 1) - 1] == parts[k]
      && (k > 0 ==> Join(parts, sep)[Offset(widths, k) - 1] == sep)
    decreases |parts|, 1
  {
    var n := |parts|;
    if n > 1 {
      var init := parts[..n - 1];
      assert Join(parts, sep) == Join(init, sep) + [sep] + parts[n - 1];
      assert |Join(init, sep)| == Offset(widths, n - 1) - 1 by {
        JoinLength(init, widths[..n - 1], sep);
        OffsetPrefix(widths, n - 1, n - 1);
      }
      if k < n - 1 {
        JoinPartOfInit(parts, widths, sep, k);
      }
      JoinPartStep(Join(parts, sep), Join(init, sep), parts[k], parts[n - 1], sep, widths, k);
    }
  }

  /** `JoinPart` for a part before the last, which the parts but the last already place. */
  lemma {:induction false} JoinPartOfInit(parts: seq<string>, widths: seq<nat>, sep: char, k: nat)
    requires |parts| == |widths| && k < |parts| - 1
    requires forall i :: 0 <= i < |parts| ==> |parts[i]| == widths[i] + 2
    ensures var init := Join(parts[..|parts| - 1], sep);
      Offset(widths, k + 1) - 1 <= |init| && init[Offset(widths, k)..Offset(widths, k + 1) - 1] == parts[k]
      && (k > 0 ==> init[Offset(widths, k) - 1] == sep)
    decreases |parts|, 0
  {
    var n := |parts|;
    JoinPart(parts[..n - 1], widths[..n - 1], sep, k);
    OffsetPrefix(widths, n - 1, k);
    OffsetPrefix(widths, n - 1, k + 1);
  }

  /** The step of `JoinPart`: appending a separator and a last part keeps the earlier parts where
      they are and puts the last one at its offset. */
  lemma {:induction false} JoinPartStep(j: string, init: string, part: string, last: string, sep: char, widths: seq<nat>, k: nat)
    requires k < |widths| && |widths| >= 2
    requires j == init + [sep] + last
    requires |init| == Offset(widths, |widths| - 1) - 1 && |last| == widths[|widths| - 1] + 2
    requires k == |widths| - 1 ==> part == last
    requires k < |widths| - 1 ==>
      Offset(widths, k + 1) - 1 <= |init| && init[Offset(widths, k)..Offset(widths, k + 1) - 1] == part
      && (k > 0 ==> init[Offset(widths, k) - 1] == sep)
    ensures Offset(widths, k + 1) - 1 <= |j| && j[Offset(widths, k)..Offset(widths, k + 1) - 1] == part
      && (k > 0 ==> j[Offset(widths, k) - 1] == sep)
  {
    if k < |widths| - 1 {
      PrefixOfAppend(init, [sep] + last, Offset(widths, k), Offset(widths, k + 1) - 1);
      assert j == init + ([sep] + last);
    } else {
      assert Offset(widths, k) == |init| + 1;
      assert j[|init| + 1..] == last;
    }
  }

  /** Slicing within the first of two appended strings. */
  lemma {:induction false} PrefixOfAppend(a: string, b: string, lo: int, hi: int)
    requires 0 <= lo <= hi <= |a|
    ensures (a + b)[lo..hi] == a[lo..hi]
  {
  }

  /** Offsets depend only on the widths of the columns before them. */
  lemma {:induction false} OffsetPrefix(widths: seq<nat>, m: nat, k: nat)
    requires k <= m <= |widths|
    ensures Offset(widths[..m], k) == Offset(widths, k)
    decreases k
  {
    if k > 0 {
      OffsetPrefix(widths, m, k - 1);
    }
  }

  /** Column `k` of `line`: the separator at `Offset(widths, k)`, then `part` up to the next one. */
  predicate ColumnAt(line: string, widths: seq<nat>, k: nat, sep: char, part: string)
    requires k < |widths|
  {
    Offset(widths, k + 1) < |line|
    && line[Offset(widths, k)] == sep
    && line[Offset(widths, k) + 1..Offset(widths, k + 1)] == part
  }

  /** A framed line of parts `widths[k] + 2` wide is `1 + Σ (widths[k] + 3)` long, ends with its
      separator and has every part in its column. */
  lemma {:induction false} FrameLayout(parts: seq<string>, widths: seq<nat>, sep: char)
    requires |parts| == |widths| > 0
    requires forall i :: 0 <= i < |parts| ==> |parts[i]| == widths[i] + 2
    ensures |Frame(parts, sep)| == Offset(widths, |widths|) + 1
    ensures Frame(parts, sep)[Offset(widths, |widths|)] == sep
    ensures forall k :: 0 <= k < |widths| ==> ColumnAt(Frame(parts, sep), widths, k, sep, parts[k])
  {
    JoinLength(parts, widths, sep);
    forall k | 0 <= k < |widths| ensures ColumnAt(Frame(parts, sep), widths, k, sep, parts[k]) {
      FrameColumn(parts, widths, sep, k);
    }
  }

  /** Column `k` of a framed line: its separator, then its part. */
  lemma {:induction false} FrameColumn(parts: seq<string>, widths: seq<nat>, sep: char, k: nat)
    requires |parts| == |widths| > k
    requires forall i :: 0 <= i < |parts| ==> |parts[i]| == widths[i] + 2
    ensures Offset(widths, k + 1) < |Frame(parts, sep)|
      && Frame(parts, sep)[Offset(widths, k)] == sep
      && Frame(parts, sep)[Offset(widths, k) + 1..Offset(widths, k + 1)] == parts[k]
  {
    JoinPart(parts, widths, sep, k);
    JoinLength(parts, widths, sep);
    OffsetMonotone(widths);
    var j := Join(parts, sep);
    var f := Frame(parts, sep);
    assert f == [sep] + j + [sep];
    assert f[Offset(widths, k) + 1..Offset(widths, k + 1)] == j[Offset(widths, k)..Offset(widths, k + 1) - 1];
    if k > 0 {
      assert f[Offset(widths, k)] == j[Offset(widths, k) - 1];
    }
  }

  /** The border is as long as the table is wide, with `+` at every column boundary and
      `widths[k] + 2` dashes in column `k`. */
  lemma {:induction false} BorderLayout(widths: seq<nat>)
    requires |widths| > 0
    ensures |Border(widths)| == Offset(widths, |widths|) + 1
    ensures Border(widths)[Offset(widths, |widths|)] == '+'
    ensures forall k :: 0 <= k < |widths| ==> ColumnAt(Border(widths), widths, k, '+', Repeat('-', widths[k] + 2))
  {
    FrameLayout(Dashes(widths), widths, '+');
  }

  /** A formatted line is exactly as long as the border and has `|` where the border has `+`. */
  lemma {:induction false} LineLayout(values: seq<string>, widths: seq<nat>, line: string)
    requires |values| == |widths| > 0
    requires FormatLine(values, widths) == Some(line)
    ensures |line| == |Border(widths)| && line[|Border(widths)| - 1] == '|'
  {
    var cells := Cells(values, widths).value;
    assert line == Frame(cells, '|');
    assert |Border(widths)| == Offset(widths, |widths|) + 1 by {
      JoinLength(Dashes(widths), widths, '+');
    }
    JoinLength(cells, widths, '|');
  }

  /** Column `k` of a formatted line holds value `k` centred, with a space on either side. */
  lemma {:induction false} LineColumn(values: seq<string>, widths: seq<nat>, line: string, k: nat)
    requires |values| == |widths| && k < |widths|
    requires FormatLine(values, widths) == Some(line)
    ensures |values[k]| <= widths[k]
    ensures ColumnAt(line, widths, k, '|', [' '] + PadCenter(values[k], widths[k]).value + [' '])
  {
    var cells := Cells(values, widths).value;
    assert line == Frame(cells, '|');
    assert cells[k] == [' '] + PadCenter(values[k], widths[k]).value + [' '];
    FrameColumn(cells, widths, '|', k);
  }

  /** In a column laid out by `FormatLine`, the value starts `1 + floor((width - |value|) / 2)`
      characters after the separator. */
  lemma {:induction false} CenteredValue(line: string, widths: seq<nat>, k: nat, value: string)
    requires k < |widths| && |value| <= widths[k]
    requires ColumnAt(line, widths, k, '|', [' '] + PadCenter(value, widths[k]).value + [' '])
    ensures ShowsAt(line, ColumnStart(widths, k) + (widths[k] - |value|) / 2, value)
  {
    var left := (widths[k] - |value|) / 2;
    var p := PadCenter(value, widths[k]).value;
    PadCenterCentres(value, widths[k]);
    assert Offset(widths, k + 1) == Offset(widths, k) + widths[k] + 3;
    ShowsInCell(line, Offset(widths, k), p, left, value);
  }

  /** A cell of a space, `p` and a space placed after position `o` shows what `p` holds at `left`
      from position `o + 2 + left` on. */
  lemma {:induction false} ShowsInCell(line: string, o: nat, p: string, left: nat, value: string)
    requires o + |p| + 3 <= |line| && line[o + 1..o + |p| + 3] == [' '] + p + [' ']
    requires left + |value| <= |p| && p[left..left + |value|] == value
    ensures ShowsAt(line, o + 2 + left, value)
  {
    var cell := [' '] + p + [' '];
    forall i | 0 <= i < |value| ensures line[o + 2 + left + i] == value[i] {
      assert line[o + 1..o + |p| + 3][1 + left + i] == cell[1 + left + i] == p[left + i];
      assert p[left..left + |value|][i] == p[left + i];
    }
  }

  /** Where the contents of column `k` start: after its separator and a space. */
  function ColumnStart(widths: seq<nat>, k: nat): nat
    requires k < |widths|
  {
    Offset(widths, k) + 2
  }

  /** The middle of column `k`: for an even width, just left of the centre. */
  function Middle(widths: seq<nat>, k: nat): nat
    requires k < |widths|
  {
    var width: int := widths[k];
    ColumnStart(widths, k) + (width - 1) / 2
  }

  /** A one-character value is printed in the middle of its column: for an even width, just left of
      the centre. */
  lemma {:induction false} MiddleCell(values: seq<string>, widths: seq<nat>, line: string, k: nat)
    requires |values| == |widths| && k < |widths|
    requires FormatLine(values, widths) == Some(line) && |values[k]| == 1
    ensures Middle(widths, k) < |line| && line[Middle(widths, k)] == values[k][0]
  {
    LineColumn(values, widths, line, k);
    CenteredChar(line, widths, k, values[k]);
  }

  /** A column holding a one-character value centred shows it in its middle. */
  lemma {:induction false} CenteredChar(line: string, widths: seq<nat>, k: nat, value: string)
    requires k < |widths| && |value| == 1 && |value| <= widths[k]
    requires ColumnAt(line, widths, k, '|', [' '] + PadCenter(value, widths[k]).value + [' '])
    ensures Middle(widths, k) < |line| && line[Middle(widths, k)] == value[0]
  {
    CenteredValue(line, widths, k, value);
    var middle := Middle(widths, k);
    assert line[middle..middle + 1] == value;
    assert line[middle] == line[middle..middle + 1][0];
  }

  /** `line` shows `value` from position `start` on. */
  predicate ShowsAt(line: string, start: int, value: string)
  {
    0 <= start && start + |value| <= |line| && line[start..start + |value|] == value
  }

  /** Value `k` of a formatted line can be read back from its column. */
  lemma {:induction false} ValueInLine(values: seq<string>, widths: seq<nat>, line: string, k: nat)
    requires |values| == |widths| && k < |widths|
    requires FormatLine(values, widths) == Some(line)
    ensures ShowsAt(line, ColumnStart(widths, k) + (widths[k] - |values[k]|) / 2, values[k])
  {
    LineColumn(values, widths, line, k);
    CenteredValue(line, widths, k, values[k]);
  }

  /** Every value of a formatted line can be read back from its column. */
  lemma {:induction false} ValuesInLine(values: seq<string>, widths: seq<nat>, line: string)
    requires |values| == |widths|
    requires FormatLine(values, widths) == Some(line)
    ensures forall k {:trigger ColumnStart(widths, k)} :: 0 <= k < |widths| ==>
      ShowsAt(line, ColumnStart(widths, k) + (widths[k] - |values[k]|) / 2, values[k])
  {
    forall k | 0 <= k < |widths|
      ensures ShowsAt(line, ColumnStart(widths, k) + (widths[k] - |values[k]|) / 2, values[k])
    {
      ValueInLine(values, widths, line, k);
    }
  }

  /** A value exactly as wide as its column starts right after the separator and a space. */
  lemma {:induction false} ExactValueInLine(values: seq<string>, widths: seq<nat>, line: string, k: nat)
    requires |values| == |widths| && k < |widths|
    requires FormatLine(values, widths) == Some(line) && |values[k]| == widths[k]
    ensures ShowsAt(line, ColumnStart(widths, k), values[k])
  {
    PadCenterExact(values[k]);
    LineColumn(values, widths, line, k);
    ExactColumn(line, widths, k, values[k]);
  }

  /** When every value is exactly as wide as its column, each starts right after the separator and
      a space. */
  lemma {:induction false} ExactValuesInLine(values: seq<string>, widths: seq<nat>, line: string)
    requires |values| == |widths|
    requires FormatLine(values, widths) == Some(line)
    requires forall k :: 0 <= k < |values| ==> |values[k]| == widths[k]
    ensures forall k {:trigger ColumnStart(widths, k)} :: 0 <= k < |values| ==> ShowsAt(line, ColumnStart(widths, k), values[k])
  {
    forall k | 0 <= k < |values| ensures ShowsAt(line, ColumnStart(widths, k), values[k]) {
      ExactValueInLine(values, widths, line, k);
    }
  }

  /** A column holding exactly a space, `value` and a space shows `value` after its separator and
      the space. */
  lemma {:induction false} ExactColumn(line: string, widths: seq<nat>, k: nat, value: string)
    requires k < |widths| && |value| == widths[k]
    requires ColumnAt(line, widths, k, '|', [' '] + value + [' '])
    ensures ShowsAt(line, ColumnStart(widths, k), value)
  {
    var o := Offset(widths, k);
    assert Offset(widths, k + 1) == o + |value| + 3;
    assert line[o + 2..o + 2 + |value|] == line[o + 1..Offset(widths, k + 1)][1..1 + |value|];
  }
}
