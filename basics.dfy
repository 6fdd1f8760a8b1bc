/** Value types shared by every part of the segregation model. */
module Basics {

  /** A cell content or a lookup that may be missing (Python's `None`). */
  datatype Option<+T> = None | Some(value: T)

  /** An agent colour. The admissible colours are the names 'red', 'blue', 'brown',
      'yellow' followed by the plain numbers 7 to 20, so a colour is either kind. */
  datatype Colour = Named(name: string) | Numbered(code: int)

  /** A grid coordinate `(x, y)`. */
  datatype Pos = Pos(x: int, y: int)
}
