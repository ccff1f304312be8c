/**
 * The request flow every resource controller's `store`, `update` and
 * `destroy` follows: `Gate::authorize`, the row lookup, `$request->validate`,
 * a controller-specific preparation of the validated data, then the write.
 * The first failing step decides the response and nothing is written.
 *
 * The gate's decision is a parameter: for the report-category and reporter
 * controllers it is their policy's decision, for the others it comes from
 * policies that are not part of this model.
 */
module Crud {
  import opened Values
  import opened Validation
  import opened Listing
  import opened Tables
  import opened Policies

  datatype ApiError =
      /** 403: the gate denied the ability, with the policy's message */
    | Forbidden(message: string)
      /** 404: `findOrFail` or route-model binding found no row */
    | NotFound
      /** 422: the validator's errors */
    | Unprocessable(errors: seq<FieldError>)
      /** 500: the database refused a column value (its NOT NULL or CHECK constraint) */
    | ConstraintViolation(column: string)

  datatype Result<T> = Ok(value: T) | Err(error: ApiError)

  /** The table after a write and the row the response carries. */
  datatype Saved = Saved(table: Table, record: Record)

  /**
   * Where the row is looked up: by the controller's `findOrFail($id)` after
   * the gate, or by route-model binding before the controller runs.
   */
  datatype Lookup = AfterGate | BeforeGate

  /**
   * What a controller does to the validated data before writing it: drop
   * some keys, then add or overwrite others.
   */
  datatype Prep = Prep(drop: set<string>, extra: Input)

  /** The validated data as written. */
  function Apply(p: Prep, data: Input): (r: Input)
    ensures forall k :: k in r <==> k in p.extra || (k in data && k !in p.drop)
    ensures forall k :: k in r ==> r[k] == if k in p.extra then p.extra[k] else data[k]
  {
    (data - p.drop) + p.extra
  }

  /** Writing the validated data unchanged. */
  const AsValidated: Prep := Prep({}, map[])

  lemma AsValidatedKeeps(data: Input)
    ensures Apply(AsValidated, data) == data
  {
    assert Apply(AsValidated, data).Keys == data.Keys;
  }

  /** `store`: authorize, validate, prepare, `Model::create`. */
  function Store(t: Table, gate: Decision, schema: Schema, input: Input, isEmail: string -> bool,
                 prep: Prep, now: int): (r: Result<Saved>)
    requires Valid(t)
    ensures gate.Deny? ==> r == Err(Forbidden(gate.message))
    ensures r.Ok? <==> gate.Allow? && Passes(schema, input, isEmail)
    ensures r.Err? ==> r.error.Forbidden? || r.error.Unprocessable?
    ensures r.Err? && r.error.Unprocessable? ==>
      gate.Allow? && |r.error.errors| > 0
      && forall k :: 0 <= k < |r.error.errors| ==> Justified(schema, r.error.errors[k], input, isEmail)
    // the new row holds the prepared validated data under a fresh key; every old row stays
    ensures r.Ok? ==>
      r.value.record == Record(t.nextId, Apply(prep, Selected(schema, input)), now, now)
      && Valid(r.value.table) && r.value.table.rows == t.rows + [r.value.record]
      && Ids(r.value.table) == Ids(t) + {t.nextId} && t.nextId !in Ids(t)
  {
    if gate.Deny? then Err(Forbidden(gate.message))
    else match Validate(schema, input, isEmail)
      case Failed(errors) => Err(Unprocessable(errors))
      case Passed(data) =>
        var (u, x) := Insert(t, Apply(prep, data), now);
        Ok(Saved(u, x))
  }

  /** The gate and the lookup in the order `lookup` says; None when both pass. */
  function Admit(t: Table, lookup: Lookup, gate: Decision, id: int): (e: Option<ApiError>)
    ensures e.None? <==> gate.Allow? && id in Ids(t)
    ensures id !in Ids(t) && (lookup == BeforeGate || gate.Allow?) ==> e == Some(NotFound)
    ensures gate.Deny? && (lookup == AfterGate || id in Ids(t)) ==> e == Some(Forbidden(gate.message))
  {
    if lookup == BeforeGate && id !in Ids(t) then Some(NotFound)
    else if gate.Deny? then Some(Forbidden(gate.message))
    else if id !in Ids(t) then Some(NotFound)
    else None
  }

  /** `update`: authorize and look up (in either order), validate, prepare, fill and save. */
  function Update(t: Table, lookup: Lookup, gate: Decision, id: int, schema: Schema, input: Input,
                  isEmail: string -> bool, prep: Prep, now: int): (r: Result<Saved>)
    requires Valid(t)
    ensures id !in Ids(t) && (lookup == BeforeGate || gate.Allow?) ==> r == Err(NotFound)
    ensures gate.Deny? && (lookup == AfterGate || id in Ids(t)) ==> r == Err(Forbidden(gate.message))
    ensures r.Ok? <==> gate.Allow? && id in Ids(t) && Passes(schema, input, isEmail)
    ensures r.Err? && r.error.Unprocessable? ==>
      gate.Allow? && id in Ids(t) && |r.error.errors| > 0
      && forall k :: 0 <= k < |r.error.errors| ==> Justified(schema, r.error.errors[k], input, isEmail)
    // the row keyed `id` gets the prepared validated data merged in; no other row changes
    ensures r.Ok? ==>
      Find(t, id).Some?
      && r.value.record == Merge(Find(t, id).value, Apply(prep, Selected(schema, input)), now)
      && Valid(r.value.table) && Ids(r.value.table) == Ids(t) && r.value.table.nextId == t.nextId
      && Find(r.value.table, id) == Some(r.value.record)
      && forall other :: other != id ==> Find(r.value.table, other) == Find(t, other)
  {
    match Admit(t, lookup, gate, id)
    case Some(e) => Err(e)
    case None =>
      var current := Find(t, id).value;
      match Validate(schema, input, isEmail)
      case Failed(errors) => Err(Unprocessable(errors))
      case Passed(data) =>
        var x := Merge(current, Apply(prep, data), now);
        Ok(Saved(Save(t, x), x))
  }

  /**
   * After an update that writes the validated data unchanged, every declared
   * field sent reads back as sent (a column never set reads as NULL), and a
   * non-null one is held by the row.
   */
  lemma UpdateReadsBack(t: Table, lookup: Lookup, gate: Decision, id: int, schema: Schema, input: Input,
                        isEmail: string -> bool, now: int)
    requires Valid(t)
    ensures var r := Update(t, lookup, gate, id, schema, input, isEmail, AsValidated, now);
      r.Ok? ==> forall k :: k in input && Declares(schema, k) ==>
        StringForm(ValueOf(r.value.record.fields, k)) == StringForm(input[k])
        && (input[k] != Null ==> k in r.value.record.fields)
  {
    var r := Update(t, lookup, gate, id, schema, input, isEmail, AsValidated, now);
    if r.Ok? {
      MergeReadsBack(Find(t, id).value, Apply(AsValidated, Selected(schema, input)), now);
    }
  }

  /** `destroy`: authorize and look up (in either order), then delete. */
  function Destroy(t: Table, lookup: Lookup, gate: Decision, id: int): (r: Result<Table>)
    requires Valid(t)
    ensures id !in Ids(t) && (lookup == BeforeGate || gate.Allow?) ==> r == Err(NotFound)
    ensures gate.Deny? && (lookup == AfterGate || id in Ids(t)) ==> r == Err(Forbidden(gate.message))
    ensures r.Ok? <==> gate.Allow? && id in Ids(t)
    ensures r.Ok? ==>
      Valid(r.value) && Ids(r.value) == Ids(t) - {id} && Find(r.value, id) == None
      && forall other :: other != id ==> Find(r.value, other) == Find(t, other)
  {
    match Admit(t, lookup, gate, id)
    case Some(e) => Err(e)
    case None => Ok(Remove(t, id))
  }

  lemma {:induction false} WithoutAppended(rows: seq<Record>, x: Record)
    requires forall i :: 0 <= i < |rows| ==> rows[i].id != x.id
    ensures Without(rows + [x], x.id) == rows
    decreases |rows|
  {
    if rows == [] {
      assert Without([x], x.id) == [] + Without([], x.id);
    } else {
      assert (rows + [x])[1..] == rows[1..] + [x];
      WithoutAppended(rows[1..], x);
      assert rows == [rows[0]] + rows[1..];
    }
  }

  /** Deleting the row a store just created gives back the old rows; only the id sequence has moved on. */
  lemma StoreThenDestroy(t: Table, gate: Decision, schema: Schema, input: Input, isEmail: string -> bool,
                         prep: Prep, now: int, lookup: Lookup)
    requires Valid(t)
    requires Store(t, gate, schema, input, isEmail, prep, now).Ok?
    ensures Destroy(Store(t, gate, schema, input, isEmail, prep, now).value.table, lookup, Allow, t.nextId)
      == Ok(Table(t.rows, t.nextId + 1))
  {
    var s := Store(t, gate, schema, input, isEmail, prep, now).value;
    var u := s.table;
    assert u == Table(t.rows + [s.record], t.nextId + 1);
    assert s.record.id == t.nextId;
    assert t.nextId in Ids(u);
    assert Admit(u, lookup, Allow, t.nextId) == None;
    WithoutAppended(t.rows, s.record);
    assert Remove(u, t.nextId) == Table(t.rows, t.nextId + 1);
  }

  lemma {:induction false} ReplaceSame(rows: seq<Record>, x: Record)
    requires forall i :: 0 <= i < |rows| && rows[i].id == x.id ==> rows[i] == x
    ensures Replace(rows, x) == rows
    decreases |rows|
  {
    if rows != [] {
      ReplaceSame(rows[1..], x);
      assert rows == [rows[0]] + rows[1..];
    }
  }

  /** Sending the same update twice leaves the table as the first one left it. */
  lemma UpdateTwice(t: Table, lookup: Lookup, gate: Decision, id: int, schema: Schema, input: Input,
                    isEmail: string -> bool, prep: Prep, now: int, later: int)
    requires Valid(t)
    requires Update(t, lookup, gate, id, schema, input, isEmail, prep, now).Ok?
    ensures Update(Update(t, lookup, gate, id, schema, input, isEmail, prep, now).value.table,
                   lookup, gate, id, schema, input, isEmail, prep, later)
      == Update(t, lookup, gate, id, schema, input, isEmail, prep, now)
  {
    var first := Update(t, lookup, gate, id, schema, input, isEmail, prep, now).value;
    var data := Apply(prep, Selected(schema, input));
    MergeIdempotent(Find(t, id).value, data, now, later);
    var u := first.table;
    var x := first.record;
    assert Find(u, id) == Some(x);
    assert forall i :: 0 <= i < |u.rows| && u.rows[i].id == x.id ==> u.rows[i] == x by {
      forall i | 0 <= i < |u.rows| && u.rows[i].id == x.id ensures u.rows[i] == x {
        FindUnique(u, id, u.rows[i]);
      }
    }
    ReplaceSame(u.rows, x);
  }
}
