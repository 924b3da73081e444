/** The three packet categories and the partial map from their 16-bit codes. */
module Categories {
  import opened Bytes
  import opened Wrappers

  /** `Category`, with the discriminants 1, 2 and 3. */
  datatype Category = Authentication | User | Editor

  /** `category as u16`. */
  function CategoryCode(c: Category): (r: u16)
    ensures 1 <= r <= 3
  {
    match c
    case Authentication => 0x01
    case User => 0x02
    case Editor => 0x03
  }

  /** `TryFrom<u16> for Category`; `None` is the `Err(())` of the source. */
  function CategoryFromCode(code: u16): (r: Option<Category>)
    ensures r.Some? <==> 1 <= code <= 3
  {
    if code == 0x01 then Some(Authentication)
    else if code == 0x02 then Some(User)
    else if code == 0x03 then Some(Editor)
    else None
  }

  /** The code of a category converts back to that category. */
  lemma CodeThenFrom(c: Category)
    ensures CategoryFromCode(CategoryCode(c)) == Some(c)
  {
  }

  /** A code that converts is the code of the category it converts to. */
  lemma FromThenCode(code: u16)
    requires CategoryFromCode(code).Some?
    ensures CategoryCode(CategoryFromCode(code).value) == code
  {
  }
}
