/** The four seats of a bridge table. */
module Seats {

  datatype Position = North | South | East | West

  /** The order in which the deal hands out the four 13-card packets. */
  const DrawOrder: seq<Position> := [South, West, North, East]

  /** The label the source uses for a seat: one of the four seat keys of a table. */
  function PositionName(p: Position): (name: string)
    ensures name in {"NORTH", "SOUTH", "EAST", "WEST"}
  {
    match p
    case North => "NORTH"
    case South => "SOUTH"
    case East => "EAST"
    case West => "WEST"
  }

  /** Different seats have different labels, and every seat key of a table labels a seat. */
  lemma PositionNamesDistinct(p: Position, q: Position, key: string)
    requires key in {"NORTH", "SOUTH", "EAST", "WEST"}
    ensures PositionName(p) == PositionName(q) ==> p == q
    ensures exists r :: PositionName(r) == key
  {
    if key == "NORTH" {
      assert PositionName(North) == key;
    } else if key == "SOUTH" {
      assert PositionName(South) == key;
    } else if key == "EAST" {
      assert PositionName(East) == key;
    } else {
      assert PositionName(West) == key;
    }
  }

  /** The draw order names every seat exactly once. */
  lemma DrawOrderCoversSeats(p: Position)
    ensures multiset(DrawOrder)[p] == 1
  {
  }
}
