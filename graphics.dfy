/**
 * The parts of the JavaFX graphics API the editor touches: a colour value and
 * the two drawing calls it issues on a canvas' graphics context.
 */
module Graphics {
  /** An RGBA colour; javafx.scene.paint.Color keeps each channel in [0, 1]. */
  datatype Color = Color(red: real, green: real, blue: real, opacity: real)

  /** Opaque white, every cell's colour in a new bitmap. */
  const White: Color := Color(1.0, 1.0, 1.0, 1.0)

  /** Opaque black, the initial paint colour. */
  const Black: Color := Color(0.0, 0.0, 0.0, 1.0)

  /**
   * One call on a graphics context: clearRect, or setFill followed by fillRect.
   * Coordinates and sizes are canvas pixels.
   */
  datatype Command =
    | ClearRect(x: real, y: real, w: real, h: real)
    | FillRect(x: real, y: real, w: real, h: real, fill: Color)
}
