/**
 * The three nested serializers of the rock view, as explicit mappings from
 * rows to JSON values: RockTypeSerializer exposes a type's label,
 * RockUserSerializer a user's first and last name, and RockSerializer a
 * rock's id, name and weight with those two nested under "type" and "user".
 */
module Serializers {
  import opened Models

  datatype Json =
    | JNull
    | JInt(i: int)
    | JNumber(n: real)
    | JString(s: string)
    | JArray(items: seq<Json>)
    | JObject(fields: map<string, Json>)

  /** The output shape of RockTypeSerializer: an object with "label" only. */
  predicate IsTypeObject(j: Json) {
    j.JObject? && j.fields.Keys == {"label"} && j.fields["label"].JString?
  }

  /** The output shape of RockUserSerializer: "first_name" and "last_name" only. */
  predicate IsUserObject(j: Json) {
    && j.JObject?
    && j.fields.Keys == {"first_name", "last_name"}
    && j.fields["first_name"].JString?
    && j.fields["last_name"].JString?
  }

  /** The output shape of RockSerializer. */
  predicate IsRockObject(j: Json) {
    && j.JObject?
    && j.fields.Keys == {"id", "name", "weight", "type", "user"}
    && j.fields["id"].JInt?
    && j.fields["name"].JString?
    && j.fields["weight"].JNumber?
    && IsTypeObject(j.fields["type"])
    && IsUserObject(j.fields["user"])
  }

  /** The exposed fields of a rock, as a client reads them back from the JSON. */
  datatype RockFields = RockFields(
    id: int, name: string, weight: Weight, typeLabel: string, firstName: string, lastName: string)

  /** Reads the label back from a type object. */
  function LabelOf(j: Json): Option<string> {
    if IsTypeObject(j) then Some(j.fields["label"].s) else None
  }

  /** Reads (first_name, last_name) back from a user object. */
  function NamesOf(j: Json): Option<(string, string)> {
    if IsUserObject(j) then Some((j.fields["first_name"].s, j.fields["last_name"].s)) else None
  }

  /** Reads every exposed field back from a rock object, each under its own key. */
  function RockFieldsOf(j: Json): Option<RockFields> {
    if IsRockObject(j) then
      Some(RockFields(
        j.fields["id"].i, j.fields["name"].s, j.fields["weight"].n,
        j.fields["type"].fields["label"].s,
        j.fields["user"].fields["first_name"].s, j.fields["user"].fields["last_name"].s))
    else None
  }

  /** The exposed fields of a row. */
  function Exposed(r: Rock): RockFields {
    RockFields(r.id, r.name, r.weight, r.rockType.typeLabel, r.user.firstName, r.user.lastName)
  }

  function SerializeType(t: RockType): (j: Json)
    ensures IsTypeObject(j)
    ensures LabelOf(j) == Some(t.typeLabel)
  {
    JObject(map["label" := JString(t.typeLabel)])
  }

  function SerializeUser(u: User): (j: Json)
    ensures IsUserObject(j)
    ensures NamesOf(j) == Some((u.firstName, u.lastName))
  {
    JObject(map["first_name" := JString(u.firstName), "last_name" := JString(u.lastName)])
  }

  /** `RockSerializer(rock, many=False).data`. */
  function SerializeRock(r: Rock): (j: Json)
    ensures IsRockObject(j)
    ensures RockFieldsOf(j) == Some(Exposed(r))
  {
    JObject(map[
      "id" := JInt(r.id),
      "name" := JString(r.name),
      "weight" := JNumber(r.weight),
      "type" := SerializeType(r.rockType),
      "user" := SerializeUser(r.user)])
  }

  /** `RockSerializer(rocks, many=True).data`: one rock object per row, in row order. */
  function SerializeMany(rows: seq<Rock>): (j: Json)
    ensures j.JArray? && |j.items| == |rows|
    ensures forall k :: 0 <= k < |rows| ==> j.items[k] == SerializeRock(rows[k])
  {
    if rows == [] then JArray([])
    else JArray([SerializeRock(rows[0])] + SerializeMany(rows[1..]).items)
  }

  /** Two rocks serialize alike exactly when they agree on the exposed
      fields: the type's and the owner's own ids never reach the output. */
  lemma SerializedAlike(a: Rock, b: Rock)
    ensures SerializeRock(a) == SerializeRock(b) <==>
      && a.id == b.id && a.name == b.name && a.weight == b.weight
      && a.rockType.typeLabel == b.rockType.typeLabel
      && a.user.firstName == b.user.firstName && a.user.lastName == b.user.lastName
  {
  }
}
