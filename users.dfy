/** The user records the API returns and the cells of the CSV rows made from them. */
module Users {
  import opened Wrappers

  /** One CSV cell: the script writes both strings and integers (ids and counts). */
  datatype Cell = Text(text: string) | Int(value: int)

  type Row = seq<Cell>

  /** A user record as the script reads it: `id` (an integer or a string), and
      `email` and `status`, either of which may be missing from the record. Other
      fields are ignored. */
  datatype User = User(id: Cell, email: Option<string>, status: Option<string>)

  /** `u.get('email', '')`: a missing email reads as the empty string. */
  function EmailOf(u: User): string {
    u.email.GetOr("")
  }
}
