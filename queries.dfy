/**
 * The three database queries the rock view issues against the Rock table,
 * with the table held as its rows in ascending primary-key order:
 * `Rock.objects.get(pk=…)` is Find, `rock.delete()` is Without and
 * `rocks.filter(user=…)` is OwnedBy.
 */
module Queries {
  import opened Models

  /** Rows in strictly ascending primary-key order, so no key occurs twice. */
  ghost predicate Ascending(rows: seq<Rock>) {
    forall i, j :: 0 <= i < j < |rows| ==> rows[i].id < rows[j].id
  }

  /** `Rock.objects.get(pk=id)`: the row with that key, or None where the
      query raises DoesNotExist. */
  function Find(rows: seq<Rock>, id: int): (r: Option<Rock>)
    ensures r.Some? ==> r.value in rows && r.value.id == id
    ensures r.None? <==> forall k :: 0 <= k < |rows| ==> rows[k].id != id
  {
    if rows == [] then None
    else if rows[0].id == id then Some(rows[0])
    else Find(rows[1..], id)
  }

  /** The table after deleting the row with primary key id: every other row
      stays, in its place. */
  function Without(rows: seq<Rock>, id: int): (r: seq<Rock>)
    ensures forall x :: x in r <==> x in rows && x.id != id
    ensures |r| <= |rows|
    ensures Ascending(rows) ==> Ascending(r)
  {
    if rows == [] then []
    else if rows[0].id == id then Without(rows[1..], id)
    else [rows[0]] + Without(rows[1..], id)
  }

  /** `rocks.filter(user=u)` for the user whose id is userId: that user's
      rows, in table order. */
  function OwnedBy(rows: seq<Rock>, userId: int): (r: seq<Rock>)
    ensures forall x :: x in r <==> x in rows && x.user.id == userId
    ensures |r| <= |rows|
    ensures Ascending(rows) ==> Ascending(r)
  {
    if rows == [] then []
    else if rows[0].user.id == userId then [rows[0]] + OwnedBy(rows[1..], userId)
    else OwnedBy(rows[1..], userId)
  }

  /** In a table with unique keys, every row is what `get` finds under its key. */
  lemma FindEach(rows: seq<Rock>, k: nat)
    requires Ascending(rows) && k < |rows|
    ensures Find(rows, rows[k].id) == Some(rows[k])
  {
  }

  /** Appending a row leaves every lookup that already succeeded as it was,
      and the new row is found under its own key when that key was free. */
  lemma {:induction false} FindAppend(rows: seq<Rock>, rock: Rock, id: int)
    ensures Find(rows + [rock], id) ==
      if Find(rows, id).Some? then Find(rows, id)
      else if rock.id == id then Some(rock)
      else None
  {
    if rows == [] {
      assert rows + [rock] == [rock];
    } else {
      assert (rows + [rock])[1..] == rows[1..] + [rock];
      FindAppend(rows[1..], rock, id);
    }
  }

  /** After deleting key id, that key is gone and every other key finds
      exactly what it found before. */
  lemma {:induction false} FindWithout(rows: seq<Rock>, id: int, other: int)
    ensures Find(Without(rows, id), other) == if other == id then None else Find(rows, other)
  {
    if rows != [] {
      FindWithout(rows[1..], id, other);
    }
  }

  /** Deleting a key that is present removes exactly one row. */
  lemma {:induction false} WithoutRemovesOne(rows: seq<Rock>, id: int)
    requires Ascending(rows) && Find(rows, id).Some?
    ensures |Without(rows, id)| == |rows| - 1
  {
    if rows[0].id == id {
      WithoutAbsent(rows[1..], id);
    } else {
      WithoutRemovesOne(rows[1..], id);
    }
  }

  /** Deleting a key that is absent changes nothing. */
  lemma {:induction false} WithoutAbsent(rows: seq<Rock>, id: int)
    requires Find(rows, id).None?
    ensures Without(rows, id) == rows
  {
    if rows != [] {
      WithoutAbsent(rows[1..], id);
      assert rows == [rows[0]] + rows[1..];
    }
  }

  /** Looking a key up in the filtered rows finds the table's row under that
      key exactly when the user owns it, and nothing otherwise. */
  lemma FindOwnedBy(rows: seq<Rock>, userId: int, id: int)
    requires Ascending(rows)
    ensures Find(OwnedBy(rows, userId), id) ==
      if Find(rows, id).Some? && Find(rows, id).value.user.id == userId then Find(rows, id) else None
  {
  }
}
