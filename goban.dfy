/**
 * The Go board: a square grid of `size * size` cells stored row-major in one
 * array, addressed from outside by pairs of axis symbols (column, row) drawn
 * from the base-36 alphabet.
 */
module Board {
  import opened Wrappers
  import opened Lists
  import opened Stones

  /** The axis symbols; a board of size `n` uses the first `n`. */
  const Alphabet: string := "0123456789ABCDEFGHIJKLMNOPQRSTUVWXYZ"

  /** The largest supported board size. */
  const MaxSize: int := 35

  /** The exceptions the board raises. */
  datatype Error =
    | EvenSize    // BoardError: board sizes must be odd
    | TooLarge    // BoardError: sizes above 35 are not supported
    | IndexError  // a list subscript out of range
    | ValueError  // `list.index` of a symbol that is not on this board

  /** The value of a base-36 digit, or -1 for any other character. */
  function DigitValue(c: char): (v: int)
  {
    if '0' <= c <= '9' then c as int - '0' as int
    else if 'A' <= c <= 'Z' then c as int - 'A' as int + 10
    else -1
  }

  /** The alphabet lists the base-36 digits in order of value. */
  lemma AlphabetIsBase36()
    ensures |Alphabet| == 36
    ensures forall k :: 0 <= k < |Alphabet| ==> DigitValue(Alphabet[k]) == k
  {
  }

  /** The symbol at position `k` of a board's alphabet is the base-36 digit `k`. */
  lemma SymbolDigit(k: int, n: int)
    requires 0 <= k < n <= |Alphabet|
    ensures DigitValue(Alphabet[..n][k]) == k
  {
    AlphabetIsBase36();
  }

  /** Conversely, each symbol of a board's alphabet sits at the position of its digit value. */
  lemma SymbolAtDigit(c: char, n: int)
    requires 0 <= n <= |Alphabet| && c in Alphabet[..n]
    ensures 0 <= DigitValue(c) < n && Alphabet[..n][DigitValue(c)] == c
  {
    var k :| 0 <= k < n && Alphabet[..n][k] == c;
    SymbolDigit(k, n);
  }

  /** Hence no symbol occurs twice. */
  lemma AlphabetDistinct()
    ensures Distinct(Alphabet)
  {
    AlphabetIsBase36();
  }

  /** Multiplying by a non-negative number preserves order. */
  lemma {:induction false} MulMonotone(a: int, b: int, n: int)
    requires a <= b && 0 <= n
    ensures a * n <= b * n
    decreases b - a
  {
    if a < b {
      MulMonotone(a, b - 1, n);
      assert b * n == (b - 1) * n + n;
    }
  }

  /** Quotient and remainder of `q * n + m` by `n` when `0 <= m < n`. */
  lemma DivModOfRowMajor(q: int, m: int, n: int)
    requires 0 <= m < n
    ensures (q * n + m) / n == q && (q * n + m) % n == m
  {
    var k := q * n + m;
    var d, r := k / n, k % n;
    assert k == d * n + r && 0 <= r < n;
    assert (q - d) * n == r - m;
    if q > d {
      MulMonotone(1, q - d, n);
      assert false;
    } else if q < d {
      MulMonotone(1, d - q, n);
      assert false;
    }
  }

  /** Two numbers with the same quotient and remainder by `n` are equal. */
  lemma SameRowAndColumn(a: int, b: int, n: int)
    requires 0 < n && a / n == b / n && a % n == b % n
    ensures a == b
  {
    assert a == (a / n) * n + a % n;
    assert b == (b / n) * n + b % n;
  }

  /** A row-major index `y * n + x` with both coordinates below `n` is below `n * n`. */
  lemma RowMajorInRange(x: int, y: int, n: int)
    requires 0 <= x < n && 0 <= y < n
    ensures 0 <= y * n + x < n * n
  {
    MulMonotone(0, y, n);
    MulMonotone(y, n - 1, n);
    assert (n - 1) * n == n * n - n;
  }

  /** The quotient `k div n` lies in `[-n, n)` exactly when `k` lies in `[-n * n, n * n)`. */
  lemma RowSubscriptInRange(k: int, n: int)
    requires 0 < n
    ensures (-n <= k / n < n) <==> (-n * n <= k < n * n)
    ensures 0 <= k <==> 0 <= k / n
  {
    var q, m := k / n, k % n;
    assert k == q * n + m && 0 <= m < n;
    if q < 0 {
      MulMonotone(q, -1, n);
    } else {
      MulMonotone(0, q, n);
    }
    if q < n {
      MulMonotone(q, n - 1, n);
      assert (n - 1) * n == n * n - n;
    } else {
      MulMonotone(n, q, n);
    }
    if q >= -n {
      MulMonotone(-n, q, n);
      assert -n * n == (-n) * n;
    } else {
      MulMonotone(q, -n - 1, n);
      assert (-n - 1) * n == -n * n - n;
    }
  }

  class Goban {
    const size: int
    const baseValues: seq<char>
    const board: array<Option<Stone>>
    var groups: seq<GroupId>

    /** What construction establishes and nothing later changes. */
    ghost predicate Valid()
    {
      1 <= size <= MaxSize && size % 2 == 1 &&
      baseValues == Alphabet[..size] &&
      board.Length == size * size
    }

    /** The board proper, for boards whose size the caller already checked. */
    constructor (size: int)
      requires 1 <= size <= MaxSize && size % 2 == 1
      ensures Valid() && this.size == size
      ensures fresh(board) && forall i :: 0 <= i < board.Length ==> board[i] == None
      ensures groups == []
    {
      this.size := size;
      baseValues := Alphabet[..size];
      board := new Option<Stone>[size * size](_ => None);
      groups := [];
    }

    /**
     * `Goban(size)`: an even size and an odd size above 35 are rejected;
     * any other size yields an empty board of `size * size` cells.
     */
    static method New(size: int) returns (r: Result<Goban, Error>)
      requires size >= 1 || size % 2 == 0
      ensures size % 2 == 0 ==> r == Failure(EvenSize)
      ensures size % 2 == 1 && size > MaxSize ==> r == Failure(TooLarge)
      ensures r.Success? <==> size % 2 == 1 && size <= MaxSize
      ensures r.Success? ==>
        var g := r.value;
        fresh(g) && fresh(g.board) && g.Valid() && g.size == size &&
        g.board.Length == size * size &&
        (forall i :: 0 <= i < g.board.Length ==> g.board[i] == None) &&
        g.baseValues == Alphabet[..size] && g.groups == []
    {
      if size % 2 == 0 {
        return Failure(EvenSize);
      } else if size > MaxSize {
        return Failure(TooLarge);
      } else {
        var g := new Goban(size);
        return Success(g);
      }
    }

    /** The axis symbols of a valid board are pairwise distinct. */
    lemma BaseValuesDistinct()
      requires Valid()
      ensures Distinct(baseValues)
    {
      AlphabetDistinct();
    }

    /**
     * `get(index)`: the cell under Python's subscript rules, so that a
     * negative index counts back from the last cell.
     */
    function Get(index: int): (r: Result<Option<Stone>, Error>)
      reads board
      ensures r.Success? <==> -board.Length <= index < board.Length
      ensures r.Failure? ==> r.error == IndexError
      ensures r.Success? ==> r.value == board[index % board.Length]
    {
      match At(board[..], index)
      case None => Failure(IndexError)
      case Some(cell) => Success(cell)
    }

    /**
     * `position_tuple_for_index(index)`: the (column, row) symbols of a cell.
     * The column symbol is that of `index mod size`; the row subscript
     * `index div size` wraps for negative indices, so every index in
     * `[-size * size, size * size)` has a position.
     */
    function PositionTupleForIndex(index: int): (r: Result<(char, char), Error>)
      requires Valid()
      ensures r.Success? <==> -size * size <= index < size * size
      ensures r.Failure? ==> r.error == IndexError
      ensures r.Success? ==> DigitValue(r.value.0) == index % size
      ensures r.Success? && 0 <= index ==> DigitValue(r.value.1) == index / size
    {
      var row := index / size;
      RowSubscriptInRange(index, size);
      match At(baseValues, row)
      case None => Failure(IndexError)
      case Some(y) =>
        var col := index % size;
        SymbolDigit(col, size);
        assert 0 <= index ==> DigitValue(y) == row by {
          if 0 <= index {
            AtInRange(baseValues, row);
            SymbolDigit(row, size);
          }
        }
        Success((baseValues[col], y))
    }

    /**
     * `index_from_position_tuple(position)`: the row-major index of a
     * (column, row) pair, which lies on the board; ValueError when either
     * symbol is not one of this board's symbols.
     */
    function IndexFromPositionTuple(position: (char, char)): (r: Result<int, Error>)
      requires Valid()
      ensures r.Failure? <==> position.0 !in baseValues || position.1 !in baseValues
      ensures r.Failure? ==> r.error == ValueError
      ensures r.Success? ==> 0 <= r.value < size * size
      ensures r.Success? ==>
        r.value % size == DigitValue(position.0) && r.value / size == DigitValue(position.1)
    {
      match IndexOf(baseValues, position.0)
      case None => Failure(ValueError)
      case Some(x) =>
        match IndexOf(baseValues, position.1)
        case None => Failure(ValueError)
        case Some(y) =>
          AlphabetIsBase36();
          RowMajorInRange(x, y, size);
          DivModOfRowMajor(y, x, size);
          Success(y * size + x)
    }

    /** Every cell index maps to a position that maps back to it. */
    lemma IndexRoundTrip(index: int)
      requires Valid() && 0 <= index < size * size
      ensures PositionTupleForIndex(index).Success?
      ensures IndexFromPositionTuple(PositionTupleForIndex(index).value) == Success(index)
    {
      var p := PositionTupleForIndex(index).value;
      RowSubscriptInRange(index, size);
      AtInRange(baseValues, index / size);
      assert p == (baseValues[index % size], baseValues[index / size]);
      var back := IndexFromPositionTuple(p);
      assert back.Success?;
      SameRowAndColumn(back.value, index, size);
    }

    /** Every pair of board symbols maps to a cell that maps back to it. */
    lemma PositionRoundTrip(position: (char, char))
      requires Valid() && position.0 in baseValues && position.1 in baseValues
      ensures IndexFromPositionTuple(position).Success?
      ensures PositionTupleForIndex(IndexFromPositionTuple(position).value) == Success(position)
    {
      var index := IndexFromPositionTuple(position).value;
      SymbolAtDigit(position.0, size);
      SymbolAtDigit(position.1, size);
      RowSubscriptInRange(index, size);
      AtInRange(baseValues, index / size);
    }

    /** A negative index names the same position as the index `size * size` cells later. */
    lemma NegativeIndexWraps(index: int)
      requires Valid() && -size * size <= index < 0
      ensures PositionTupleForIndex(index) == PositionTupleForIndex(index + size * size)
    {
      var q, m := index / size, index % size;
      var j := index + size * size;
      assert index == q * size + m;
      assert j == (q + size) * size + m;
      DivModOfRowMajor(q + size, m, size);
      RowSubscriptInRange(index, size);
      RowSubscriptInRange(j, size);
      AtNegative(baseValues, q);
      AtInRange(baseValues, q + size);
      assert PositionTupleForIndex(index) == Success((baseValues[m], baseValues[q + size]));
      assert PositionTupleForIndex(j) == Success((baseValues[m], baseValues[q + size]));
    }

    /**
     * `place_stone(color, position)`: writes a new stone of that colour into
     * the cell of `position`, whatever the cell held before; nothing else
     * changes. An unknown symbol raises ValueError before anything is written.
     */
    method PlaceStone(color: StoneColor, position: (char, char)) returns (r: Outcome<Error>)
      requires Valid()
      modifies board
      ensures groups == old(groups)
      ensures IndexFromPositionTuple(position).Failure? ==>
        r == Fail(ValueError) && board[..] == old(board[..])
      ensures IndexFromPositionTuple(position).Success? ==>
        var i := IndexFromPositionTuple(position).value;
        r == Pass &&
        board[..] == old(board[..])[i := Some(NewStone(Some(color)))] &&
        Get(i) == Success(Some(NewStone(Some(color))))
    {
      var index := IndexFromPositionTuple(position);
      if index.Failure? {
        return Fail(index.error);
      }
      var stone := NewStone(Some(color));
      board[index.value] := Some(stone);
      r := Pass;
    }

    // The four neighbour offsets: raw index arithmetic, with no bounds check.

    function NorthIndex(index: int): (r: int) { index - size }

    function EastIndex(index: int): (r: int) { index + 1 }

    function SouthIndex(index: int): (r: int) { index + size }

    function WestIndex(index: int): (r: int) { index - 1 }

    /** North and south undo each other, and so do east and west. */
    lemma OffsetsInverse(index: int)
      ensures SouthIndex(NorthIndex(index)) == index && NorthIndex(SouthIndex(index)) == index
      ensures WestIndex(EastIndex(index)) == index && EastIndex(WestIndex(index)) == index
    {
    }

    /** From a cell, north stays on the board exactly off the top row, south exactly off the bottom row. */
    lemma VerticalInBounds(index: int)
      requires Valid() && 0 <= index < size * size
      ensures 0 <= NorthIndex(index) < size * size <==> index >= size
      ensures 0 <= SouthIndex(index) < size * size <==> index < size * size - size
    {
    }

    /** North and south keep the column and move one row. */
    lemma VerticalKeepsColumn(index: int)
      requires Valid() && 0 <= index < size * size
      ensures index >= size ==>
        NorthIndex(index) % size == index % size && NorthIndex(index) / size == index / size - 1
      ensures index < size * size - size ==>
        SouthIndex(index) % size == index % size && SouthIndex(index) / size == index / size + 1
    {
      var q, m := index / size, index % size;
      assert index == q * size + m;
      assert NorthIndex(index) == (q - 1) * size + m;
      assert SouthIndex(index) == (q + 1) * size + m;
      DivModOfRowMajor(q - 1, m, size);
      DivModOfRowMajor(q + 1, m, size);
    }

    /**
     * East moves one column right within a row, but from the last column it
     * lands on the first column of the next row; west mirrors this.
     */
    lemma HorizontalWraps(index: int)
      requires Valid() && 0 <= index < size * size
      ensures index % size < size - 1 ==>
        EastIndex(index) / size == index / size && EastIndex(index) % size == index % size + 1
      ensures index % size == size - 1 ==>
        EastIndex(index) / size == index / size + 1 && EastIndex(index) % size == 0
      ensures index % size > 0 ==>
        WestIndex(index) / size == index / size && WestIndex(index) % size == index % size - 1
      ensures index % size == 0 ==>
        WestIndex(index) / size == index / size - 1 && WestIndex(index) % size == size - 1
    {
      var q, m := index / size, index % size;
      assert index == q * size + m;
      if m < size - 1 {
        DivModOfRowMajor(q, m + 1, size);
      } else {
        assert EastIndex(index) == (q + 1) * size + 0;
        DivModOfRowMajor(q + 1, 0, size);
      }
      if m > 0 {
        DivModOfRowMajor(q, m - 1, size);
      } else {
        assert WestIndex(index) == (q - 1) * size + (size - 1);
        DivModOfRowMajor(q - 1, size - 1, size);
      }
    }

    /**
     * Fed to `get`, the north offset of a top-row cell does not fail: the
     * negative index reads the cell in the same column of the bottom row.
     */
    lemma NorthOfTopRowReadsBottomRow(index: int)
      requires Valid() && 0 <= index < size
      ensures Get(NorthIndex(index)).Success?
      ensures Get(NorthIndex(index)) == Get(index + size * size - size)
    {
      MulMonotone(1, size, size);
      AtNegative(board[..], NorthIndex(index));
      AtInRange(board[..], index + size * size - size);
    }
  }

  /**
   * The two moves the driver script plays on a 9x9 board, and what the
   * board holds afterwards.
   */
  method TwoMoveGame() returns (g: Goban)
    ensures g.Valid() && g.size == 9
    ensures g.Get(10) == Success(Some(Stone(Some(Black), None)))
    ensures g.Get(20) == Success(Some(Stone(Some(White), None)))
  {
    var made := Goban.New(9);
    g := made.value;
    assert g.baseValues == "012345678";
    var first := g.PlaceStone(Black, ('1', '1'));
    var second := g.PlaceStone(White, ('2', '2'));
  }
}
