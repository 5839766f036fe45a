/** The records the application works on: one character of the catalog, and the
    optional value used for the single expanded row. */
module Characters {

  /** One entry of the remote character listing. Only the fields the logic reads
      are kept; `location` and `image` are only rendered. */
  datatype Character = Character(id: int, name: string, species: string, status: string)

  /** The selected row, or none (the component's `null`). */
  datatype Option<+T> = None | Some(value: T)
}
