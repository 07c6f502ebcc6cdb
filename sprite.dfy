/** The three sprite resolutions the editor supports. */
module Sprite {
  datatype SpriteDimensions = x16 | x32 | x64

  /** Cells per side of a bitmap built for the given resolution. */
  function Side(dimensions: SpriteDimensions): (side: nat)
    ensures dimensions == x16 <==> side == 16
    ensures dimensions == x32 <==> side == 32
    ensures dimensions == x64 <==> side == 64
  {
    match dimensions
    case x16 => 16
    case x32 => 32
    case x64 => 64
  }
}
