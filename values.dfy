/** Values shared by every part of the model. */
module Values {

  /** Python's `None` against a present value. */
  datatype Option<+T> = None | Some(value: T)

  /** A Python value held by a normalised row dictionary or by a worksheet cell:
      either a string or an integer (the parsed seed, the default seed 3). */
  datatype Value = Str(s: string) | Int(i: int)

  /** A text field read as `x or ""`, or as `row.get(key, "")` on a row that
      lacks the key: a missing field is the empty string. */
  function OrEmpty(x: Option<string>): string {
    if x.Some? then x.value else ""
  }
}
