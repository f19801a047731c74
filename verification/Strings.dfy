/** Where one text occurs in another. */
module Strings {

  ghost predicate IsAround(text: string, x: string, part: string, y: string) {
    text == x + part + y
  }
}
