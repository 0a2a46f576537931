/** A stone as recorded on the board: its colour and the group it belongs to. */
module Stones {
  import opened Wrappers

  /** The two players' colours; `black = 0` and `white = 1` in the enumeration. */
  datatype StoneColor = Black | White

  /** Handle of a group; no group is ever created by this code, so stones keep `None`. */
  type GroupId = nat

  /**
   * The stone record. Python does not constrain what `color` holds, and its
   * rendering tests for `None`, so the colour here is optional.
   */
  datatype Stone = Stone(color: Option<StoneColor>, group: Option<GroupId>)

  /** The number the enumeration assigns to each colour. */
  function ColorValue(c: StoneColor): (v: nat)
    ensures v < 2
  {
    match c
    case Black => 0
    case White => 1
  }

  /** Looking a colour up by its number, `StoneColor(v)`; `None` stands for ValueError. */
  function ColorOfValue(v: int): (r: Option<StoneColor>)
  {
    if v == 0 then Some(Black) else if v == 1 then Some(White) else None
  }

  /** The enumeration is a bijection between the two colours and {0, 1}. */
  lemma ColorValueRoundTrip(c: StoneColor, v: int)
    ensures ColorValue(Black) == 0 && ColorValue(White) == 1
    ensures ColorOfValue(ColorValue(c)) == Some(c)
    ensures ColorOfValue(v).Some? <==> v == 0 || v == 1
    ensures ColorOfValue(v).Some? ==> ColorValue(ColorOfValue(v).value) == v
  {
  }

  /** `Stone(color)`: records the colour as given and belongs to no group yet. */
  function NewStone(color: Option<StoneColor>): (s: Stone)
    ensures s.color == color && s.group == None
  {
    Stone(color, None)
  }

  /**
   * The value `Stone.__str__` returns: `*` for white, `o` for any other
   * colour. A stone without a colour falls through the branches, so the
   * method returns Python's `None` (here `None`); `str()` or `format` of
   * such a stone would then raise TypeError rather than produce text.
   */
  function Render(s: Stone): (r: Option<string>)
  {
    if s.color.Some? then
      if s.color.value == White then Some("*") else Some("o")
    else None
  }

  /**
   * White renders as `*` and black as `o`; rendering is a one-character
   * glyph exactly for coloured stones, it never depends on the group, and
   * two coloured stones look alike exactly when they have the same colour.
   */
  lemma RenderFaithful(a: Stone, b: Stone)
    ensures a.color == Some(White) ==> Render(a) == Some("*")
    ensures a.color == Some(Black) ==> Render(a) == Some("o")
    ensures Render(a).Some? <==> a.color.Some?
    ensures Render(a).Some? ==> |Render(a).value| == 1
    ensures a.color == b.color ==> Render(a) == Render(b)
    ensures a.color.Some? && b.color.Some? ==> (Render(a) == Render(b) <==> a.color == b.color)
  {
  }
}
