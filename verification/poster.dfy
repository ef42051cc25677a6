/**
 * The cell arithmetic of `Pokedex.make_poster`: the grid is walked row by row, cell
 * `row * cols + column` shows entry `i - offset` when `offset <= i < num + offset`, with
 * the caption `#` + the entry's number padded to three digits + a space + its name,
 * and every other cell is left blank with an empty caption.
 */
module PosterGrid {
  import opened Outcomes
  import opened Decimal

  /** What one grid cell shows: the entry drawn in it, if any, and its caption. */
  datatype Cell = Cell(entry: Option<nat>, title: string)

  /** `f"#{number:03d} {name}"`. */
  function Caption(number: nat, name: string): (c: string)
    ensures |c| == 1 + |Pad3(number)| + 1 + |name|
    ensures c[0] == '#' && c[1..1 + |Pad3(number)|] == Pad3(number) && c[1 + |Pad3(number)|] == ' '
    ensures c[2 + |Pad3(number)|..] == name
  {
    "#" + Pad3(number) + " " + name
  }

  /**
   * Cell `i` of the poster. The test `-1 + offset < i < num + offset` is a chained
   * comparison: its second half adds `offset` to `num`, which raises TypeError while
   * `num` is None, and is only evaluated once the first half holds. A live cell whose
   * entry index is past the end of the entry list raises IndexError.
   */
  function CellAt(i: int, offset: int, num: Option<int>, names: seq<string>): (r: Result<Cell>)
    ensures r.Err? <==> offset <= i && (num.None? || (i < num.value + offset && i - offset >= |names|))
    ensures r.Err? ==> r.error == if num.None? then TypeError else IndexError
    ensures r.Ok? ==> (r.value.entry.Some? <==> offset <= i && num.Some? && i < num.value + offset)
    ensures r.Ok? && r.value.entry.Some? ==>
              r.value.entry.value == i - offset < |names| && r.value.title == Caption(i - offset + 1, names[i - offset])
    ensures r.Ok? && r.value.entry.None? ==> r.value.title == ""
  {
    if !(-1 + offset < i) then Ok(Cell(None, ""))
    else if num.None? then Err(TypeError)
    else if i < num.value + offset then
      if i - offset < |names| then Ok(Cell(Some(i - offset), Caption(i + 1 - offset, names[i - offset])))
      else Err(IndexError)
    else Ok(Cell(None, ""))
  }

  /** Cell `i` of the poster, for every `i`. */
  function CellsOf(offset: int, num: Option<int>, names: seq<string>): int -> Result<Cell> {
    i => CellAt(i, offset, num, names)
  }

  /** Cells `0 .. total - 1`, built in order; the first cell that raises ends the walk. */
  function Walk(total: nat, cell: int -> Result<Cell>): (r: Result<seq<Cell>>)
    ensures r.Ok? ==> |r.value| == total
    ensures r.Err? ==> total > 0
  {
    if total == 0 then Ok([])
    else
      var cells :- Walk(total - 1, cell);
      var last :- cell(total - 1);
      Ok(cells + [last])
  }

  /** The walk succeeds exactly when no cell raises, and then holds cell `k` at index `k`. */
  lemma {:induction false} WalkCells(total: nat, cell: int -> Result<Cell>)
    ensures var r := Walk(total, cell);
            (r.Ok? <==> forall k :: 0 <= k < total ==> cell(k).Ok?) &&
            (r.Ok? ==> |r.value| == total && forall k :: 0 <= k < total ==> Ok(r.value[k]) == cell(k))
  {
    if total > 0 {
      var n := total - 1;
      WalkCells(n, cell);
      var prev := Walk(n, cell);
      if prev.Ok? && cell(n).Ok? {
        var cells := prev.value + [cell(n).value];
        assert Walk(total, cell) == Ok(cells);
        forall k | 0 <= k < total
          ensures Ok(cells[k]) == cell(k)
        {
          if k < n {
            assert cells[k] == prev.value[k];
          }
        }
      }
    }
  }

  /** A walk that fails raises what its first failing cell raises. */
  lemma {:induction false} WalkFirstError(total: nat, cell: int -> Result<Cell>)
    ensures var r := Walk(total, cell);
            r.Err? ==> exists k :: 0 <= k < total && cell(k) == Err(r.error) &&
                                   forall j :: 0 <= j < k ==> cell(j).Ok?
  {
    if total > 0 {
      WalkFirstError(total - 1, cell);
      if Walk(total - 1, cell).Ok? {
        WalkCells(total - 1, cell);
      }
    }
  }

  /** One more cell of a walk that has not raised. */
  lemma WalkStep(n: nat, cell: int -> Result<Cell>)
    requires Walk(n, cell).Ok? && cell(n).Ok?
    ensures Walk(n + 1, cell) == Ok(Walk(n, cell).value + [cell(n).value])
  {
  }

  /** Cell `(row, column)` of a `rows` x `cols` grid, walked row by row, is cell `row * cols + column < rows * cols`. */
  lemma RowMajorIndex(row: int, column: int, rows: int, cols: int)
    requires 0 <= row < rows && 0 <= column < cols
    ensures 0 <= row * cols + column < rows * cols
    ensures row * cols + cols == (row + 1) * cols
  {
    assert (row + 1) * cols <= rows * cols;
  }

  /** A walk that has failed stays failed, with the same exception, however far it would have gone on. */
  lemma {:induction false} WalkErrorStays(k: nat, total: nat, cell: int -> Result<Cell>)
    requires k <= total && Walk(k, cell).Err?
    ensures Walk(total, cell) == Walk(k, cell)
  {
    if k < total {
      WalkErrorStays(k, total - 1, cell);
    }
  }

  /**
   * `plt.subplots` squeezes its array of axes: a grid with one row or one column gives
   * a one-dimensional array, which `axes[row, column]` indexes with too many indices
   * (IndexError), and a 1 x 1 grid gives a single Axes, which cannot be indexed at all
   * (TypeError).
   */
  function AxesError(rows: int, cols: int): (e: Option<PyError>)
    ensures e.None? <==> rows != 1 && cols != 1
    ensures e.Some? ==> e.value == if rows == 1 && cols == 1 then TypeError else IndexError
  {
    if rows == 1 && cols == 1 then Some(TypeError)
    else if rows == 1 || cols == 1 then Some(IndexError)
    else None
  }

  /**
   * The whole poster: a grid without rows or columns is refused by `plt.subplots`
   * (ValueError); a squeezed grid fails at the first cell once that cell has been
   * worked out; otherwise all `rows * cols` cells, in row-major order.
   */
  function Poster(rows: int, cols: int, cell: int -> Result<Cell>): (r: Result<seq<Cell>>)
    ensures rows <= 0 || cols <= 0 ==> r == Err(ValueError)
    ensures r.Ok? ==> rows >= 2 && cols >= 2 && r == Walk(rows * cols, cell)
  {
    if rows <= 0 || cols <= 0 then Err(ValueError)
    else if AxesError(rows, cols).Some? then
      var first :- cell(0);
      Err(AxesError(rows, cols).value)
    else Walk(rows * cols, cell)
  }

  /**
   * The poster raises what cell `i` raises when the row-major walk, so far without
   * exception, reaches it (on a squeezed grid only the first cell is ever reached).
   */
  lemma PosterStopsAt(rows: int, cols: int, cell: int -> Result<Cell>, i: nat)
    requires rows > 0 && cols > 0 && i < rows * cols
    requires Walk(i, cell).Ok? && (AxesError(rows, cols).Some? ==> i == 0)
    requires cell(i).Err?
    ensures Poster(rows, cols, cell) == Err(cell(i).error)
  {
    if AxesError(rows, cols).None? {
      WalkErrorStays(i + 1, rows * cols, cell);
    }
  }

  /** A squeezed grid raises right after its first cell has been worked out. */
  lemma SqueezedPoster(rows: int, cols: int, cell: int -> Result<Cell>)
    requires rows > 0 && cols > 0 && AxesError(rows, cols).Some?
    requires cell(0).Ok?
    ensures Poster(rows, cols, cell) == Err(AxesError(rows, cols).value)
  {
  }

  /** What cell `i` shows when every entry has a name: entry `i - offset` when it exists, else a blank. */
  function Expected(i: int, offset: int, names: seq<string>): Cell {
    if offset <= i < |names| + offset then Cell(Some(i - offset), Caption(i - offset + 1, names[i - offset]))
    else Cell(None, "")
  }

  /**
   * With the entry count recorded and one name per entry, a grid of at least two rows
   * and two columns never raises, and cell `i` is live exactly when
   * `offset <= i < n + offset`. A live cell shows entry `i - offset` under a caption
   * whose number is `i + 1 - offset`, in `1 .. n`. A blank cell has an empty caption.
   */
  lemma PosterCells(rows: int, cols: int, offset: int, names: seq<string>)
    requires rows >= 2 && cols >= 2
    ensures var r := Poster(rows, cols, CellsOf(offset, Some(|names|), names));
            r.Ok? && |r.value| == rows * cols &&
            forall i :: 0 <= i < rows * cols ==> r.value[i] == Expected(i, offset, names)
  {
    var cell := CellsOf(offset, Some(|names|), names);
    forall k | 0 <= k < rows * cols
      ensures cell(k) == Ok(Expected(k, offset, names))
    {
    }
    WalkCells(rows * cols, cell);
  }

  /**
   * Every entry whose cell lies on the grid is drawn exactly once, at cell `offset + e`.
   */
  lemma {:induction false} EachEntryOnce(rows: int, cols: int, offset: int, names: seq<string>, e: nat)
    requires rows >= 2 && cols >= 2 && e < |names| && 0 <= offset + e < rows * cols
    ensures var r := Poster(rows, cols, CellsOf(offset, Some(|names|), names));
            r.Ok? && |r.value| == rows * cols && r.value[offset + e].entry == Some(e) &&
            forall i :: 0 <= i < |r.value| && r.value[i].entry == Some(e) ==> i == offset + e
  {
    PosterCells(rows, cols, offset, names);
  }

  /**
   * The caption's number reads back as the entry's number, padded to three digits below
   * 1000 and without a leading zero from 1000 on.
   */
  lemma CaptionNumber(number: nat, name: string)
    ensures var c := Caption(number, name); var d := Pad3(number);
            Value(c[1..1 + |d|]) == number && |d| >= 3 && (number < 1000 ==> |d| == 3) && (|d| > 3 ==> d[0] != '0')
  {
    Pad3Value(number);
  }

  /** The caption of an entry numbered 1 to 9: `#00`, its digit, a space and its name. */
  lemma SmallCaption(number: nat, name: string)
    requires 1 <= number <= 9
    ensures Caption(number, name) == "#00" + [DigitChar(number)] + " " + name
  {
    assert Pad3(number) == "00" + [DigitChar(number)];
  }

  /** A 2 x 2 poster shows its four cells in row-major order when none of them raises. */
  lemma {:induction false} TwoByTwo(cell: int -> Result<Cell>, c0: Cell, c1: Cell, c2: Cell, c3: Cell)
    requires cell(0) == Ok(c0) && cell(1) == Ok(c1) && cell(2) == Ok(c2) && cell(3) == Ok(c3)
    ensures Poster(2, 2, cell) == Ok([c0, c1, c2, c3])
  {
    WalkCells(4, cell);
    var v := Walk(4, cell).value;
    assert Ok(v[0]) == cell(0) && Ok(v[1]) == cell(1) && Ok(v[2]) == cell(2) && Ok(v[3]) == cell(3);
    assert v == [c0, c1, c2, c3];
  }

  /** A 2 x 2 poster of three entries shifted by one cell: a blank first cell, then #001, #002, #003. */
  lemma ShiftedPoster()
    ensures Poster(2, 2, CellsOf(1, Some(3), ["A", "B", "C"])) ==
            Ok([Cell(None, ""), Cell(Some(0), "#001 A"), Cell(Some(1), "#002 B"), Cell(Some(2), "#003 C")])
  {
    var names := ["A", "B", "C"];
    var cell := CellsOf(1, Some(3), names);
    assert cell(0) == Ok(Cell(None, ""));
    assert cell(1) == Ok(Cell(Some(0), "#001 A")) by {
      assert cell(1) == Ok(Cell(Some(0), Caption(1, names[0])));
      SmallCaption(1, names[0]);
      assert DigitChar(1) == '1';
      assert "#00" + [DigitChar(1)] + " " + names[0] == "#001 A";
    }
    assert cell(2) == Ok(Cell(Some(1), "#002 B")) by {
      assert cell(2) == Ok(Cell(Some(1), Caption(2, names[1])));
      SmallCaption(2, names[1]);
      assert DigitChar(2) == '2';
      assert "#00" + [DigitChar(2)] + " " + names[1] == "#002 B";
    }
    assert cell(3) == Ok(Cell(Some(2), "#003 C")) by {
      assert cell(3) == Ok(Cell(Some(2), Caption(3, names[2])));
      SmallCaption(3, names[2]);
      assert DigitChar(3) == '3';
      assert "#00" + [DigitChar(3)] + " " + names[2] == "#003 C";
    }
    TwoByTwo(cell, Cell(None, ""), Cell(Some(0), "#001 A"), Cell(Some(1), "#002 B"), Cell(Some(2), "#003 C"));
  }


}
