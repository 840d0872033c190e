/**
 * The rock view set: POST /rocks (Create), DELETE /rocks/{id} (Destroy) and
 * GET /rocks (List), acting on the Rock and Type tables. Every failure the
 * view catches becomes an Outcome value; Render turns an Outcome into the
 * status code and JSON body of the response.
 */
module RockViews {
  import opened Models
  import opened Queries
  import opened Serializers

  /** The request body of POST /rocks; a key the client left out is None. */
  datatype CreateRequest = CreateRequest(typeId: Option<int>, name: Option<string>, weight: Option<Weight>)

  /** What a request ends in. */
  datatype Outcome =
    | Created(rock: Rock)
    | Ok(rocks: seq<Rock>)
    | NoContent
    | BadRequest(reason: string)
    | NotFound(message: string)
    | Forbidden(message: string)
  {
    predicate IsSuccess() {
      Created? || Ok? || NoContent?
    }
  }

  datatype Response = Response(status: int, body: Json)

  const HTTP_200_OK := 200
  const HTTP_201_CREATED := 201
  const HTTP_204_NO_CONTENT := 204
  const HTTP_400_BAD_REQUEST := 400
  const HTTP_403_FORBIDDEN := 403
  const HTTP_404_NOT_FOUND := 404

  /** The message the refused delete carries. */
  const NotOwnerMessage := "You do not own that rock"

  /** The text of the DoesNotExist error a failed `get` on a model raises. */
  function DoesNotExist(model: string): string {
    model + " matching query does not exist."
  }

  /** The response for an outcome: a 2xx status exactly for the successes,
      no body only for 204, a serialized rock or list on 201 and 200, and a
      one-key error object on every refusal. */
  function Render(o: Outcome): (resp: Response)
    ensures resp.status in {HTTP_200_OK, HTTP_201_CREATED, HTTP_204_NO_CONTENT,
                            HTTP_400_BAD_REQUEST, HTTP_403_FORBIDDEN, HTTP_404_NOT_FOUND}
    ensures 200 <= resp.status < 300 <==> o.IsSuccess()
    ensures resp.body.JNull? <==> o.NoContent?
    ensures o.Created? ==> IsRockObject(resp.body)
    ensures o.Ok? ==> resp.body.JArray? && |resp.body.items| == |o.rocks|
                      && forall k :: 0 <= k < |o.rocks| ==> IsRockObject(resp.body.items[k])
    ensures o.Created? ==>
      && resp.status == HTTP_201_CREATED && resp.body == SerializeRock(o.rock)
      && RockFieldsOf(resp.body) == Some(Exposed(o.rock))
    ensures o.Ok? ==> resp.status == HTTP_200_OK && resp.body == SerializeMany(o.rocks)
    ensures o.NoContent? ==> resp.status == HTTP_204_NO_CONTENT
    ensures o.BadRequest? ==>
      resp.status == HTTP_400_BAD_REQUEST && resp.body == JObject(map["reason" := JString(o.reason)])
    ensures o.NotFound? ==>
      resp.status == HTTP_404_NOT_FOUND && resp.body == JObject(map["message" := JString(o.message)])
    ensures o.Forbidden? ==>
      resp.status == HTTP_403_FORBIDDEN && resp.body == JObject(map["message" := JString(o.message)])
  {
    match o
    case Created(rock) => Response(HTTP_201_CREATED, SerializeRock(rock))
    case Ok(rocks) => Response(HTTP_200_OK, SerializeMany(rocks))
    case NoContent => Response(HTTP_204_NO_CONTENT, JNull)
    case BadRequest(reason) => Response(HTTP_400_BAD_REQUEST, JObject(map["reason" := JString(reason)]))
    case NotFound(message) => Response(HTTP_404_NOT_FOUND, JObject(map["message" := JString(message)]))
    case Forbidden(message) => Response(HTTP_403_FORBIDDEN, JObject(map["message" := JString(message)]))
  }

  /** Why `create` answers 400, step by step as it reads the request: a
      missing key fails with the key's name, an unknown type with the
      DoesNotExist text, a failed save with the database's message. None
      when every step succeeds. */
  function CreateRejection(types: map<int, RockType>, data: CreateRequest, saveError: Option<string>): (reason: Option<string>)
    ensures reason.None? <==>
      data.typeId.Some? && data.typeId.value in types && data.name.Some? && data.weight.Some? && saveError.None?
    ensures data.typeId.None? ==> reason == Some("typeId")
    ensures data.typeId.Some? && data.typeId.value !in types ==> reason == Some(DoesNotExist("Type"))
    ensures data.typeId.Some? && data.typeId.value in types && data.name.None? ==> reason == Some("name")
    ensures data.typeId.Some? && data.typeId.value in types && data.name.Some? && data.weight.None?
            ==> reason == Some("weight")
    ensures data.typeId.Some? && data.typeId.value in types && data.name.Some? && data.weight.Some?
            ==> reason == saveError
  {
    if data.typeId.None? then Some("typeId")
    else if data.typeId.value !in types then Some(DoesNotExist("Type"))
    else if data.name.None? then Some("name")
    else if data.weight.None? then Some("weight")
    else saveError
  }

  /** The view set together with the tables it works on: the Rock table as
      its rows in primary-key order, the read-only Type table keyed by id,
      and the next value of the Rock table's primary-key sequence. */
  class RockView {
    var rows: seq<Rock>
    const types: map<int, RockType>
    var nextId: int

    ghost predicate Valid()
      reads this
    {
      && (forall id :: id in types ==> types[id].id == id)
      && Ascending(rows)
      && (forall r :: r in rows ==> r.id < nextId)
      && (forall r :: r in rows ==> r.rockType.id in types && types[r.rockType.id] == r.rockType)
    }

    /** An empty Rock table over the given Type table; keys start at 1. */
    constructor (types: map<int, RockType>)
      requires forall id :: id in types ==> types[id].id == id
      ensures Valid()
      ensures this.types == types && rows == [] && nextId == 1
    {
      this.types := types;
      rows := [];
      nextId := 1;
    }

    /** POST /rocks on behalf of caller. saveError is what the database
        raises on `rock.save()`, if anything. */
    method Create(caller: User, data: CreateRequest, saveError: Option<string>) returns (o: Outcome)
      requires Valid()
      modifies this
      ensures Valid()
      ensures match CreateRejection(types, data, saveError)
        case Some(reason) => o == BadRequest(reason) && rows == old(rows) && nextId == old(nextId)
        case None =>
          && o == Created(Rock(old(nextId), data.name.value, data.weight.value, types[data.typeId.value], caller))
          && rows == old(rows) + [o.rock]
          && nextId == old(nextId) + 1
      ensures o.Created? ==>
        && Find(old(rows), o.rock.id).None?
        && Find(rows, o.rock.id) == Some(o.rock)
        && forall id :: id != o.rock.id ==> Find(rows, id) == Find(old(rows), id)
      ensures o.Created? ==>
        RockFieldsOf(Render(o).body) == Some(RockFields(
          old(nextId), data.name.value, data.weight.value,
          types[data.typeId.value].typeLabel, caller.firstName, caller.lastName))
    {
      if data.typeId.None? {
        return BadRequest("typeId");
      }
      if data.typeId.value !in types {
        return BadRequest(DoesNotExist("Type"));
      }
      var rockType := types[data.typeId.value];
      if data.name.None? {
        return BadRequest("name");
      }
      var name := data.name.value;
      if data.weight.None? {
        return BadRequest("weight");
      }
      var weight := data.weight.value;
      if saveError.Some? {
        return BadRequest(saveError.value);
      }
      var rock := Rock(nextId, name, weight, rockType, caller);
      ghost var before := rows;
      rows := rows + [rock];
      nextId := nextId + 1;
      o := Created(rock);
      forall id ensures Find(rows, id) == if Find(before, id).Some? then Find(before, id) else if rock.id == id then Some(rock) else None {
        FindAppend(before, rock, id);
      }
    }

    /** DELETE /rocks/{pk} on behalf of caller: only the owner may delete. */
    method Destroy(caller: User, pk: int) returns (o: Outcome)
      requires Valid()
      modifies this
      ensures Valid() && nextId == old(nextId)
      ensures Find(old(rows), pk).None? ==> o == NotFound(DoesNotExist("Rock")) && rows == old(rows)
      ensures Find(old(rows), pk).Some? && Find(old(rows), pk).value.user.id != caller.id ==>
        o == Forbidden(NotOwnerMessage) && rows == old(rows)
      ensures Find(old(rows), pk).Some? && Find(old(rows), pk).value.user.id == caller.id ==>
        o == NoContent && rows == Without(old(rows), pk) && |rows| == |old(rows)| - 1
      ensures rows != old(rows) <==> o.NoContent?
      ensures o.NoContent? ==> forall id :: Find(rows, id) == if id == pk then None else Find(old(rows), id)
    {
      var found := Find(rows, pk);
      if found.None? {
        return NotFound(DoesNotExist("Rock"));
      }
      var rock := found.value;
      if rock.user.id == caller.id {
        ghost var before := rows;
        WithoutRemovesOne(rows, pk);
        rows := Without(rows, pk);
        o := NoContent;
        forall id ensures Find(rows, id) == if id == pk then None else Find(before, id) {
          FindWithout(before, pk, id);
        }
      } else {
        o := Forbidden(NotOwnerMessage);
      }
    }

    /** GET /rocks on behalf of caller; owner is the `owner` query parameter.
        Every row, or exactly the caller's rows when owner is "current". */
    function List(caller: User, owner: Option<string>): (o: Outcome)
      reads this
      ensures o.Ok?
      ensures owner != Some("current") ==> o.rocks == rows
      ensures owner == Some("current") ==>
        forall r :: r in o.rocks <==> r in rows && r.user.id == caller.id
      ensures Ascending(rows) ==> Ascending(o.rocks)
    {
      if owner.Some? && owner.value == "current" then Ok(OwnedBy(rows, caller.id))
      else Ok(rows)
    }
  }
}
