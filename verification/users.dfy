/** The user record as the table reads it. */
module Users {

  /** A fetched user. Only the fields the table computes with are kept: the
      row key `id`, the sort key `name` and the filter key `address.city`. */
  datatype User = User(id: int, name: string, city: string)
}
