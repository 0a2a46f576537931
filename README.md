# Go board (gopy) in Dafny

This project models the board of a small Python Go program: the `Goban`
class and the `Stone` record it stores. A board of odd size `n` (at most 35)
keeps `n * n` cells in one row-major list. Each cell is empty or holds a
stone. A cell is addressed from outside by a pair of axis symbols (column,
row), taken from the first `n` characters of the base-36 alphabet `0-9A-Z`.
Placing a stone overwrites one cell. There is no legality check. The four
neighbour helpers are plain index offsets.

Modules, one per concern:

- `Wrappers` (`wrappers.dfy`): `Option`, `Result` and `Outcome`. These stand in for Python's exceptions.
- `Lists` (`lists.dfy`): the two Python list operations the board relies on. `At` is subscription, where a negative index counts from the end and an index out of range is an IndexError. `IndexOf` is `list.index`: the first occurrence, or a ValueError.
- `Stones` (`stone.py`, in `stone.dfy`): the colour enumeration, the stone record and its one-character glyph.
- `Board` (`goban.py`, in `goban.dfy`): the `Goban` class. Its fields `size`, `baseValues` and `board` are set once by construction, so they are `const`. The cells of `board: array<Option<Stone>>` change in place, and `groups` is a list of group handles. `Valid()` is the invariant that construction establishes.

Python's `//` and `%` round toward minus infinity. For the positive board size they agree with Dafny's Euclidean `/` and `%`. A negative cell index is therefore modelled as Python evaluates it. `position_tuple_for_index` and `get` both accept indices in `[-n*n, n*n)`, and a negative index wraps to the cell `n*n` positions later.

Three points where the code is narrower than a full Go board would be, modelled as the code has them:

- The neighbour helpers do no bounds or row filtering, so east and west wrap to the adjacent row.
- The bad-symbol error is Python's ValueError from `list.index`.
- `groups` is created empty and never changed.

## Model

| member | source | states |
|---|---|---|
| `Board.Goban.New` | goban.py:17-27 | every even size (zero and negative ones included) fails with the odd-size BoardError; an odd size above 35 fails with the too-large BoardError; it succeeds exactly for odd sizes up to 35 (35 included), giving a fresh valid board of `size*size` empty cells, no groups and the first `size` alphabet symbols |
| `Board.Goban.constructor` | goban.py:22-27 | for an accepted size, the board has `size*size` cells, all empty, the symbols are the alphabet's first `size` characters and the group list is empty |
| `Board.AlphabetIsBase36` | goban.py:23-24 | the 36-character alphabet lists the base-36 digits in order: the symbol at position `k` has digit value `k` |
| `Board.AlphabetDistinct` | goban.py:23 | no symbol of the alphabet occurs twice |
| `Board.Goban.BaseValuesDistinct` | goban.py:24 | the symbols of a valid board are pairwise distinct |
| `Board.Goban.Get` | goban.py:29-30 | `get(index)` succeeds exactly for `-len <= index < len` and then returns the cell at `index mod len`; otherwise it fails with IndexError |
| `Board.Goban.PositionTupleForIndex` | goban.py:48-51 | succeeds exactly for indices in `[-size*size, size*size)`, and fails with IndexError otherwise; the column symbol has digit value `index mod size`; for a non-negative index the row symbol has digit value `index div size` |
| `Board.Goban.NegativeIndexWraps` | goban.py:48-51 | a negative index yields the same position as the index `size*size` higher |
| `Board.Goban.IndexFromPositionTuple` | goban.py:53-56 | fails, with ValueError, exactly when either symbol is not one of the board's; otherwise the index lies in `[0, size*size)`, its column is the column symbol's digit value and its row the row symbol's |
| `Board.Goban.IndexRoundTrip` | goban.py:48-56 | for every cell index `i`, translating to a position and back gives `i` |
| `Board.Goban.PositionRoundTrip` | goban.py:48-56 | for every pair of board symbols, translating to an index and back gives the same pair |
| `Board.Goban.PlaceStone` | goban.py:58-61 | on a bad symbol, ValueError and no cell changes; otherwise exactly the addressed cell now holds a new stone of the given colour with no group, even if it was occupied; every other cell and `groups` are unchanged, and `get` of that index returns the new stone |
| `Board.Goban.OffsetsInverse` | goban.py:63-73 | north and south undo each other, and so do east and west |
| `Board.Goban.VerticalInBounds` | goban.py:63-70 | from a cell, the north offset is a cell index exactly when the cell is not in the top row, and the south offset exactly when it is not in the bottom row |
| `Board.Goban.VerticalKeepsColumn` | goban.py:63-70 | when it stays on the board, north keeps the column and goes up one row, and south keeps the column and goes down one row |
| `Board.Goban.HorizontalWraps` | goban.py:66-73 | east moves one column right within a row, but from the last column it lands on the first column of the next row number; west moves one column left, and from the first column it lands on the last column of the previous row number (row-number arithmetic only: for the bottom-right cell the east offset is `size*size`, which `get` rejects with IndexError, and for cell 0 the west offset is `-1`, which `get` reads as the bottom-right cell) |
| `Board.Goban.NorthOfTopRowReadsBottomRow` | goban.py:63-64 | passing the north offset of a top-row cell to `get` does not fail: it reads the same column of the bottom row |
| `Board.TwoMoveGame` | main.py:10-13 | after Black at `('1','1')` and White at `('2','2')` on a 9x9 board, cell 10 holds a black stone and cell 20 a white one |
| `Lists.At` | goban.py:30 | Python subscription is defined exactly for `-len <= k < len` and selects the element at `k mod len` |
| `Lists.IndexOf` | goban.py:54-55 | `list.index` fails exactly when the element is absent; otherwise it returns a position holding the element, with no earlier occurrence |
| `Stones.ColorValue` | stone.py:7-9 | each colour's enumeration value is 0 or 1 |
| `Stones.ColorValueRoundTrip` | stone.py:7-9 | the enumeration is a bijection between the two colours and the values {0, 1}: `black = 0`, `white = 1` |
| `Stones.NewStone` | stone.py:13-15 | a new stone keeps the given colour and belongs to no group |
| `Stones.RenderFaithful` | stone.py:17-22 | `__str__` of a white stone returns `*` and of a black one `o`; it returns a string exactly when the stone has a colour (otherwise it returns `None`, on which `str()` would raise TypeError), and that string is one character long; two coloured stones render alike exactly when their colours agree; the group plays no part |

## Left out

- `Goban.__str__` (goban.py:32-46): the text rendering of the whole board. It is presentation only.
- main.py's `print`: output only. The two moves it plays are `Board.TwoMoveGame`.
- group.py: `Group` is never instantiated. The model gives stones and `groups` a numeric group handle (`GroupId`) instead of an object reference.
- Move legality (occupied cell, suicide), group merging, liberties, capture and highlighting: the code does not have them.
- `Board.Goban.New`: requires `size >= 1` or an even size. The Python checks let a negative odd size through, and the object built then has no sensible shape. The model does not represent that object.
- Dynamic typing: Python accepts any value as `size`, index, position or colour. The model uses integers, character pairs and `StoneColor`.
- `Board.Goban.PlaceStone`: its colour parameter is a `StoneColor`. Python would also store any other value, including `None`. The stone record keeps an optional colour, so the `None` branch of rendering is still modelled (`Stones.RenderFaithful`).
