/**
 * The records the rock view reads and writes: one value per row of the
 * Rock, Type and User tables. A Rock row holds its Type and its owning
 * User outright, so a persisted rock can never lack either.
 */
module Models {

  datatype Option<+T> = None | Some(value: T)

  /** A rock's weight. The view only copies it from the request into the row
      and from the row into the response; it never computes with it. */
  type Weight = real

  /** A row of the Type table, read-only here. */
  datatype RockType = RockType(id: int, typeLabel: string)

  /** A row of the User table: the authenticated caller or a rock's owner. */
  datatype User = User(id: int, firstName: string, lastName: string)

  /** A row of the Rock table. */
  datatype Rock = Rock(id: int, name: string, weight: Weight, rockType: RockType, user: User)
}
