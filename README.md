# Rock view model

A Dafny model of the request handling of the rock collecting API's `RockView`
(`rockapi/views/rock_view.py`). The API lets a user record rocks. Each rock has
a name, a weight, a Type (a labelled category) and an owning User. The view
supports three operations:

- `create` (POST /rocks) looks up the Type, builds a Rock owned by the
  authenticated user, saves it and answers 201 with the serialized rock. Any
  failure along the way answers 400 with a `reason`.
- `destroy` (DELETE /rocks/{id}) answers 404 for an unknown id. When the
  caller does not own the rock it answers 403 with "You do not own that rock"
  and keeps the rock. When the caller owns it, the rock is deleted and the
  answer is 204 with no body.
- `list` (GET /rocks) answers 200 with every rock. With `?owner=current` it
  returns only the caller's rocks.

The model has four modules, one per file:

- `Models` (models.dfy) holds the Rock, Type and User rows as datatypes.
- `Queries` (queries.dfy) holds the three ORM queries the view issues, as
  functions over the Rock table. The table is kept as its rows in ascending
  primary-key order (an ordering the model fixes; see "Left out"). `Find` is `Rock.objects.get(pk=…)`, `Without` is the
  delete, and `OwnedBy` is `.filter(user=…)`.
- `Serializers` (serializers.dfy) maps rows to JSON values of the fixed
  nested shape.
- `RockViews` (rock_view.dfy) holds the view. The class `RockView` owns the
  tables the view changes, and its methods `Create` and `Destroy` update them
  in place. `List` is a function over the table. `Render` maps each outcome
  to its status code and body.

The authenticated user is passed to each operation as an explicit `caller`.
Exceptions are replaced by the `Outcome` datatype
(Created / Ok / NoContent / BadRequest / NotFound / Forbidden).

The `destroy` docstring promises "200, 404, or 500". The code answers 204 on
success and can also answer 403. The model follows the code.

## Model

| member | source | states |
|---|---|---|
| Queries.Find | rockapi/views/rock_view.py:42 | `get(pk=id)` yields a row of the table with that key, and yields nothing exactly when no row has that key (the DoesNotExist case). |
| Queries.FindEach | rockapi/views/rock_view.py:42 | In a table with unique keys, every row is what `get` finds under its own key. |
| Queries.Without | rockapi/views/rock_view.py:44 | After the delete, the table holds exactly the rows whose key differs from the deleted one, and it stays in key order. |
| Queries.WithoutRemovesOne | rockapi/views/rock_view.py:44 | Deleting a key that is present removes exactly one row. |
| Queries.FindWithout | rockapi/views/rock_view.py:43-45 | After the delete, the deleted key finds nothing and every other key finds what it found before. |
| Queries.FindAppend | rockapi/views/rock_view.py:26 | Saving a new row leaves every earlier lookup unchanged, and the new row is found under its key when that key was free. |
| Queries.OwnedBy | rockapi/views/rock_view.py:72 | The filter keeps a row if and only if its owner is the given user. It never includes another user's rock, never omits one of theirs, and keeps key order. |
| Queries.FindOwnedBy | rockapi/views/rock_view.py:71-72 | Looking up a key in the filtered rows finds the table's row exactly when the user owns it, and nothing otherwise. |
| Serializers.SerializeType | rockapi/views/rock_view.py:80-87 | A serialized type is an object whose only field is `label`, and reading that field back gives the type's label. |
| Serializers.SerializeUser | rockapi/views/rock_view.py:90-96 | A serialized user is an object whose only fields are `first_name` and `last_name`, and reading them back gives the user's first and last name, each under its own key. |
| Serializers.SerializeRock | rockapi/views/rock_view.py:99-113 | A serialized rock has exactly the fields id, name, weight, type{label} and user{first_name, last_name}. Reading them back (`RockFieldsOf`) gives the rock's id, name and weight, its type's label and its owner's names, each under its own key. |
| Serializers.SerializeMany | rockapi/views/rock_view.py:74 | With `many=True`, the output is an array with one serialized rock per row, in row order. |
| Serializers.SerializedAlike | rockapi/views/rock_view.py:99-113 | Two rocks serialize alike if and only if they agree on id, name, weight, type label and owner names. The type id and user id are not exposed. |
| RockViews.Render | rockapi/views/rock_view.py:30-75 | Each outcome gets its own status: Created 201, Ok 200, NoContent 204, BadRequest 400, NotFound 404, Forbidden 403, so the status is 2xx exactly for successes. The 201 body is the serialized rock, and its fields read back as that rock's. The 200 body is the serialized list of the rows. NoContent is the only outcome with no body. BadRequest carries `{reason}`, while NotFound and Forbidden carry `{message}`. |
| RockViews.CreateRejection | rockapi/views/rock_view.py:18-33 | `create` fails if and only if one of these happens: `typeId` is missing, it names no Type, `name` or `weight` is missing, or the save fails. The reason is that of the first failing step, in source order: `typeId`, then the DoesNotExist text, then `name`, then `weight`, and finally the database's message on a failed save. |
| RockViews.RockView.Create | rockapi/views/rock_view.py:12-33 | A rejected create answers BadRequest with that reason and leaves the store untouched. A successful one answers Created with the rock it built. That rock has the input's name and weight, the looked-up Type and the caller as owner, under a key that was free. The table gains exactly that row, and every other lookup is unchanged. The 201 body reads back as the new id, the input's name and weight, the looked-up Type's label and the caller's first and last name. |
| RockViews.RockView.Destroy | rockapi/views/rock_view.py:35-53 | An unknown id answers NotFound and changes nothing. Another user's rock answers Forbidden("You do not own that rock") and changes nothing. The caller's own rock answers NoContent and is removed, with every other key unchanged. The table changes if and only if the answer is NoContent. |
| RockViews.RockView.List | rockapi/views/rock_view.py:60-75 | Without `owner=current` (absent or any other value) the answer holds every row. With it, the answer holds exactly the caller's rows. In the model both answers are in ascending key order; see "Left out" on ordering. |

## Left out

- The 500 answers of `destroy` and `list` (rockapi/views/rock_view.py:55-58, 76-77) are left out. They fire only on unanticipated failures inside the framework or the database. One example is a primary key in the URL that is not a number.
- Exception texts are produced by the framework and the database, not by the view. The model writes them as follows: a missing request key gives the key's name, a failed lookup gives Django's "<Model> matching query does not exist.", and a failed save gives whatever message the database supplies (the `saveError` parameter).
- Id generation is modelled as an autoincrement counter (`nextId`). The model does not cover a sequence value consumed by a failed save.
- Result order of `list` is fixed by the model, not by the source. `Rock.objects.all()` (rockapi/views/rock_view.py:70) has no `order_by`, so the database may return rows in any order. The model fixes ascending primary-key order so that the 200 array has a definite order. That is why the Rock table is a key-ordered sequence of rows and not a map. The membership clauses of `List` and `OwnedBy` would hold whatever the order; only their `Ascending` clauses and the order of the array depend on this choice.
- The view's framework machinery is not modelled: ViewSet dispatch, routing, request parsing and Response construction. Authentication is not modelled either: the caller is a parameter. An unauthenticated request, on which `request.auth.user` itself raises, is not covered.
- `typeId` is modelled as an integer or absent. A non-numeric `typeId` also ends in 400, but that case is not distinguished.
- The database's own checks on `name` and `weight` (null values, length, numeric format) are not modelled. They appear only through `saveError`.
- `weight` is copied through and never computed with, so it is modelled as a `real`. Whether the JSON renders it as a number or a decimal string depends on the model field, which is not part of this model.
- The Django models in `rockapi.models` are not part of this model. Their fields are the ones the view reads and writes.
- Concurrency between requests and transactional behaviour of save and delete are not modelled: each operation runs alone, and a failed save leaves no trace.
