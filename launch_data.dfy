/**
 The values the Launch HN grid works on: the records of the bundled dataset,
 the paint a cell receives, and the cells themselves.
 */
module LaunchData {

  datatype Option<+T> = None | Some(value: T)

  /** One entry of the bundled dataset. `createdAt` is the timestamp the
      record's date string parses to. */
  datatype Launch = Launch(storyId: int, title: string, points: nat, createdAt: int)

  /** A saturation percentage as the browser receives it; `NaN` is what a
      division by an undefined or zero threshold yields. */
  datatype Saturation = Percent(value: real) | NaN

  /** The paint of one cell: a CSS linear gradient or an HSL colour. */
  datatype Colour =
    | LinearGradient(direction: string, stops: seq<string>)
    | Hsl(hue: nat, saturation: Saturation, lightness: nat)

  /** A grid cell: every field of its record plus the resolved colour. */
  datatype Square = Square(storyId: int, title: string, points: nat, createdAt: int, color: Colour)

  /** The record a cell was made from. */
  function Record(sq: Square): Launch
  {
    Launch(sq.storyId, sq.title, sq.points, sq.createdAt)
  }

  function Min(a: int, b: int): int
  {
    if a <= b then a else b
  }
}
