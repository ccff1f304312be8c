/**
 * A database table as the controllers use it through Eloquent: rows with an
 * auto-increment key, `findOrFail`, `create`, `update` (fill then save) and
 * `delete`. Timestamps are set by the caller's clock value `now`.
 */
module Tables {
  import opened Values
  import opened Listing

  /** The rows and the next value of the table's id sequence. */
  datatype Table = Table(rows: seq<Record>, nextId: int)

  /** Ids are positive, below the sequence's next value and ascending (hence distinct). */
  predicate Valid(t: Table) {
    t.nextId >= 1
    && (forall i :: 0 <= i < |t.rows| ==> 1 <= t.rows[i].id < t.nextId)
    && (forall i, j :: 0 <= i < j < |t.rows| ==> t.rows[i].id < t.rows[j].id)
  }

  function Ids(t: Table): set<int> {
    set i | 0 <= i < |t.rows| :: t.rows[i].id
  }

  /** The position of the row with key `id`, if there is one. */
  function IndexOf(rows: seq<Record>, id: int): (r: Option<nat>)
    ensures r.Some? ==> r.value < |rows| && rows[r.value].id == id
    ensures r.None? ==> forall i :: 0 <= i < |rows| ==> rows[i].id != id
  {
    if rows == [] then None
    else if rows[0].id == id then Some(0)
    else match IndexOf(rows[1..], id)
      case None => None
      case Some(k) => Some(k + 1)
  }

  /** `Model::findOrFail($id)`: None stands for the not-found exception. */
  function Find(t: Table, id: int): (r: Option<Record>)
    ensures r.Some? <==> id in Ids(t)
    ensures r.Some? ==> r.value in t.rows && r.value.id == id
  {
    match IndexOf(t.rows, id)
    case None => None
    case Some(k) => Some(t.rows[k])
  }

  /** In a valid table the row found for an id is the only row with that id. */
  lemma FindUnique(t: Table, id: int, x: Record)
    requires Valid(t) && x in t.rows && x.id == id
    ensures Find(t, id) == Some(x)
  {
    var k :| 0 <= k < |t.rows| && t.rows[k] == x;
    var j := IndexOf(t.rows, id).value;
    assert j == k;
  }

  /** `Model::create($attributes)`: a new row keyed by the sequence's next value, both stamps `now`. */
  function Insert(t: Table, fields: map<string, Value>, now: int): (r: (Table, Record))
    requires Valid(t)
    ensures Valid(r.0)
    ensures r.1 == Record(t.nextId, fields, now, now)
    ensures t.nextId !in Ids(t)
    ensures r.0.rows == t.rows + [r.1] && r.0.nextId == t.nextId + 1
    ensures Ids(r.0) == Ids(t) + {t.nextId}
    ensures Find(r.0, t.nextId) == Some(r.1)
  {
    var x := Record(t.nextId, fields, now, now);
    var u := Table(t.rows + [x], t.nextId + 1);
    assert u.rows[|t.rows|] == x;
    assert forall i :: 0 <= i < |t.rows| ==> u.rows[i] == t.rows[i];
    assert Ids(u) == Ids(t) + {t.nextId} by {
      forall id | id in Ids(u) ensures id in Ids(t) + {t.nextId} {
        var i :| 0 <= i < |u.rows| && u.rows[i].id == id;
        if i < |t.rows| { assert u.rows[i] == t.rows[i]; }
      }
      forall id | id in Ids(t) ensures id in Ids(u) {
        var i :| 0 <= i < |t.rows| && t.rows[i].id == id;
        assert u.rows[i] == t.rows[i];
      }
    }
    FindUnique(u, t.nextId, x);
    (u, x)
  }

  /**
   * Some attribute being written differs from the stored one (Eloquent's
   * `isDirty`). `findOrFail` loads every column, so a column the row was
   * created without is compared as NULL.
   */
  predicate Dirty(r: Record, data: map<string, Value>) {
    exists k | k in data :: !Equivalent(data[k], ValueOf(r.fields, k))
  }

  /**
   * `$model->update($attributes)`: the attributes that changed are written,
   * the others keep their stored value, and `updated_at` moves to `now`
   * only when something changed; nothing else about the row changes.
   */
  function Merge(r: Record, data: map<string, Value>, now: int): (u: Record)
    ensures u.id == r.id && u.createdAt == r.createdAt
    ensures r.fields.Keys <= u.fields.Keys <= r.fields.Keys + data.Keys
    ensures forall k :: k in r.fields && k !in data ==> u.fields[k] == r.fields[k]
    ensures forall k :: k in data ==>
      ValueOf(u.fields, k) == data[k]
      || (Equivalent(data[k], ValueOf(r.fields, k)) && ValueOf(u.fields, k) == ValueOf(r.fields, k))
    ensures forall k :: k in data && !Equivalent(data[k], ValueOf(r.fields, k)) ==>
      k in u.fields && u.fields[k] == data[k]
    ensures Dirty(r, data) ==> u.updatedAt == now
    ensures !Dirty(r, data) <==> u == r
  {
    var fields := map k | k in r.fields.Keys + data.Keys && (k in r.fields || !Equivalent(data[k], Null)) ::
      if k in data && !Equivalent(data[k], ValueOf(r.fields, k)) then data[k] else r.fields[k];
    if Dirty(r, data) then Record(r.id, fields, r.createdAt, now)
    else
      assert fields == r.fields;
      r
  }

  /**
   * After an update every written attribute reads back as the string that was
   * sent, and an attribute sent with a non-null value is stored in the row.
   */
  lemma MergeReadsBack(r: Record, data: map<string, Value>, now: int)
    ensures forall k :: k in data ==>
      StringForm(ValueOf(Merge(r, data, now).fields, k)) == StringForm(data[k])
    ensures forall k :: k in data && data[k] != Null ==> k in Merge(r, data, now).fields
  {
    var u := Merge(r, data, now);
    forall k | k in data ensures StringForm(ValueOf(u.fields, k)) == StringForm(data[k]) {
      if ValueOf(u.fields, k) != data[k] {
        EquivalentSameString(data[k], ValueOf(r.fields, k));
      }
    }
  }

  /**
   * Writing null to columns the row was created without changes nothing:
   * those columns already hold NULL, so no attribute is dirty.
   */
  lemma NullOnUnsetColumnsIsClean(r: Record, data: map<string, Value>, now: int)
    requires forall k :: k in data ==> data[k] == Null && k !in r.fields
    ensures Merge(r, data, now) == r
  {
  }

  /** Saving the same attributes again changes nothing, whatever the clock says. */
  lemma MergeIdempotent(r: Record, data: map<string, Value>, now: int, later: int)
    ensures Merge(Merge(r, data, now), data, later) == Merge(r, data, now)
  {
    var u := Merge(r, data, now);
    assert !Dirty(u, data) by {
      forall k | k in data ensures Equivalent(data[k], ValueOf(u.fields, k)) {
        if ValueOf(u.fields, k) != data[k] {
          assert Equivalent(data[k], ValueOf(r.fields, k)) && ValueOf(u.fields, k) == ValueOf(r.fields, k);
        }
      }
    }
  }

  /** The rows with the row keyed `x.id` replaced by `x`. */
  function Replace(rows: seq<Record>, x: Record): (r: seq<Record>)
    ensures |r| == |rows|
    ensures forall i :: 0 <= i < |r| ==> r[i].id == rows[i].id
    ensures forall i :: 0 <= i < |r| ==> r[i] == (if rows[i].id == x.id then x else rows[i])
  {
    if rows == [] then []
    else [if rows[0].id == x.id then x else rows[0]] + Replace(rows[1..], x)
  }

  lemma ReplaceKeepsIds(t: Table, x: Record)
    requires Valid(t)
    ensures Valid(Table(Replace(t.rows, x), t.nextId))
    ensures Ids(Table(Replace(t.rows, x), t.nextId)) == Ids(t)
  {
    var u := Table(Replace(t.rows, x), t.nextId);
    forall id ensures id in Ids(u) <==> id in Ids(t) {
      if id in Ids(u) {
        var i :| 0 <= i < |u.rows| && u.rows[i].id == id;
        assert t.rows[i].id == id;
      }
      if id in Ids(t) {
        var i :| 0 <= i < |t.rows| && t.rows[i].id == id;
        assert u.rows[i].id == id;
      }
    }
  }

  lemma ReplaceFinds(t: Table, x: Record, id: int)
    requires Valid(t)
    ensures Find(Table(Replace(t.rows, x), t.nextId), id) ==
      if id == x.id && id in Ids(t) then Some(x) else Find(t, id)
  {
    var u := Table(Replace(t.rows, x), t.nextId);
    ReplaceKeepsIds(t, x);
    if id in Ids(t) {
      var y := Find(t, id).value;
      var i :| 0 <= i < |t.rows| && t.rows[i] == y;
      FindUnique(u, id, u.rows[i]);
    }
  }

  /** Writing back the updated row `x`: the same keys, and `x` found under its own key. */
  function Save(t: Table, x: Record): (r: Table)
    requires Valid(t)
    ensures Valid(r) && Ids(r) == Ids(t) && r.nextId == t.nextId
    ensures x.id in Ids(t) ==> Find(r, x.id) == Some(x)
    ensures forall id :: id != x.id ==> Find(r, id) == Find(t, id)
  {
    ReplaceKeepsIds(t, x);
    assert forall id :: Find(Table(Replace(t.rows, x), t.nextId), id) ==
                        (if id == x.id && id in Ids(t) then Some(x) else Find(t, id)) by {
      forall id ensures Find(Table(Replace(t.rows, x), t.nextId), id) ==
        if id == x.id && id in Ids(t) then Some(x) else Find(t, id) {
        ReplaceFinds(t, x, id);
      }
    }
    Table(Replace(t.rows, x), t.nextId)
  }

  /** The rows without the one keyed `id`, in order. */
  function Without(rows: seq<Record>, id: int): (r: seq<Record>)
    ensures forall x :: x in r <==> x in rows && x.id != id
    ensures |r| <= |rows|
  {
    if rows == [] then []
    else
      assert forall x :: x in rows <==> x == rows[0] || x in rows[1..];
      (if rows[0].id == id then [] else [rows[0]]) + Without(rows[1..], id)
  }

  /** Ids in [1, bound), ascending. */
  predicate Keyed(rows: seq<Record>, bound: int) {
    (forall i :: 0 <= i < |rows| ==> 1 <= rows[i].id < bound)
    && (forall i, j :: 0 <= i < j < |rows| ==> rows[i].id < rows[j].id)
  }

  /** Every id above `lo`. */
  predicate Above(rows: seq<Record>, lo: int) {
    forall i :: 0 <= i < |rows| ==> lo < rows[i].id
  }

  lemma KeyedCons(x: Record, rest: seq<Record>, bound: int)
    requires 1 <= x.id < bound && Keyed(rest, bound) && Above(rest, x.id)
    ensures Keyed([x] + rest, bound)
  {
    var s := [x] + rest;
    assert forall i :: 1 <= i < |s| ==> s[i] == rest[i - 1];
  }

  lemma KeyedTail(rows: seq<Record>, bound: int)
    requires rows != [] && Keyed(rows, bound)
    ensures Keyed(rows[1..], bound) && Above(rows[1..], rows[0].id)
  {
    assert forall i :: 0 <= i < |rows[1..]| ==> rows[1..][i] == rows[i + 1];
  }

  lemma AboveMembers(rows: seq<Record>, sub: seq<Record>, lo: int)
    requires Above(rows, lo) && forall x :: x in sub ==> x in rows
    ensures Above(sub, lo)
  {
    forall i | 0 <= i < |sub| ensures lo < sub[i].id {
      assert sub[i] in rows;
    }
  }

  /** Order is kept, so a table's ids stay ascending after a removal. */
  lemma {:induction false} WithoutAscending(rows: seq<Record>, id: int, bound: int)
    requires Keyed(rows, bound)
    ensures Keyed(Without(rows, id), bound)
    decreases |rows|
  {
    if rows != [] {
      KeyedTail(rows, bound);
      WithoutAscending(rows[1..], id, bound);
      var rest := Without(rows[1..], id);
      AboveMembers(rows[1..], rest, rows[0].id);
      if rows[0].id != id {
        assert Without(rows, id) == [rows[0]] + rest;
        KeyedCons(rows[0], rest, bound);
      } else {
        assert Without(rows, id) == rest;
      }
    }
  }

  lemma WithoutIds(t: Table, id: int)
    ensures Ids(Table(Without(t.rows, id), t.nextId)) == Ids(t) - {id}
  {
    var u := Table(Without(t.rows, id), t.nextId);
    forall k | k in Ids(u) ensures k in Ids(t) - {id} {
      var i :| 0 <= i < |u.rows| && u.rows[i].id == k;
      IdOfMember(t, u.rows[i]);
    }
    forall k | k in Ids(t) - {id} ensures k in Ids(u) {
      var i :| 0 <= i < |t.rows| && t.rows[i].id == k;
      IdOfMember(u, t.rows[i]);
    }
  }

  lemma IdOfMember(t: Table, x: Record)
    requires x in t.rows
    ensures x.id in Ids(t)
  {
    var j :| 0 <= j < |t.rows| && t.rows[j] == x;
  }

  lemma WithoutKeepsOthers(t: Table, id: int)
    requires Valid(t)
    ensures Valid(Table(Without(t.rows, id), t.nextId))
    ensures Ids(Table(Without(t.rows, id), t.nextId)) == Ids(t) - {id}
  {
    assert Keyed(t.rows, t.nextId);
    WithoutAscending(t.rows, id, t.nextId);
    WithoutIds(t, id);
  }

  lemma WithoutFinds(t: Table, id: int, other: int)
    requires Valid(t)
    ensures Find(Table(Without(t.rows, id), t.nextId), other) == if other == id then None else Find(t, other)
  {
    var u := Table(Without(t.rows, id), t.nextId);
    WithoutKeepsOthers(t, id);
    if other != id && other in Ids(t) {
      var y := Find(t, other).value;
      assert y in u.rows;
      FindUnique(u, other, y);
    }
  }

  /** `$model->delete()`: the row keyed `id` is gone and every other row stays. */
  function Remove(t: Table, id: int): (r: Table)
    requires Valid(t)
    ensures Valid(r)
    ensures Ids(r) == Ids(t) - {id} && r.nextId == t.nextId
    ensures Find(r, id) == None
    ensures forall other :: other != id ==> Find(r, other) == Find(t, other)
  {
    WithoutKeepsOthers(t, id);
    assert forall other :: Find(Table(Without(t.rows, id), t.nextId), other) ==
                           (if other == id then None else Find(t, other)) by {
      forall other ensures Find(Table(Without(t.rows, id), t.nextId), other) ==
        if other == id then None else Find(t, other) {
        WithoutFinds(t, id, other);
      }
    }
    Table(Without(t.rows, id), t.nextId)
  }
}
