/**
 * The report-category controller
 * (app/Http/Controllers/Api/KategoriLaporanController.php): name search, the
 * unpaginated `list`, and the name rule of `store` and `update`, authorized
 * by the report-category policy. `update` and `destroy` look the row up
 * themselves, after the policy has been asked.
 */
module KategoriLaporan {
  import opened Text
  import opened Values
  import opened Validation
  import opened Listing
  import opened Tables
  import opened Policies
  import opened Crud

  /** `index`: categories whose name contains the term, newest first. */
  function Index(t: Table, req: ListRequest): (q: ListQuery)
    ensures forall x :: x in q.rows <==>
      x in t.rows && (Truthy(req.search) ==> FieldContains(x, "nama", req.search.value))
    // each listed row as often as the table holds it
    ensures forall x :: multiset(q.rows)[x] == if x in q.rows then multiset(t.rows)[x] else 0
    ensures NewestFirst(q.rows)
    ensures req.page.None? ==> q.page == 1
    ensures req.perPage.None? ==> q.perPage == 10
    ensures req.page.Some? ==> q.page == PhpIntCast(req.page.value)
    ensures req.perPage.Some? ==> q.perPage == PhpIntCast(req.perPage.value)
  {
    var q := Listing.Index(t.rows, ["nama"], req);
    assert forall x :: x in q.rows <==>
      x in t.rows && (Truthy(req.search) ==> FieldContains(x, "nama", req.search.value)) by {
      forall x ensures Truthy(req.search) ==>
        (Matches(x, ["nama"], req.search.value) <==> FieldContains(x, "nama", req.search.value)) {
        if Truthy(req.search) {
          MatchesOne(x, "nama", req.search.value);
        }
      }
    }
    q
  }

  /** One entry of `list`: the id and the name, nothing else. */
  datatype Entry = Entry(id: int, nama: Value)

  /** `select('id', 'nama')->get()`: every row in table order, projected. */
  function List(rows: seq<Record>): (r: seq<Entry>)
    ensures |r| == |rows|
    ensures forall i :: 0 <= i < |rows| ==> r[i] == Entry(rows[i].id, ValueOf(rows[i].fields, "nama"))
  {
    if rows == [] then [] else [Entry(rows[0].id, ValueOf(rows[0].fields, "nama"))] + List(rows[1..])
  }

  /** `list` names every category once per row: its ids are exactly the table's. */
  lemma ListCoversTable(t: Table)
    ensures forall e :: e in List(t.rows) ==> e.id in Ids(t)
    ensures forall id :: id in Ids(t) ==> exists e :: e in List(t.rows) && e.id == id
  {
    var l := List(t.rows);
    forall id | id in Ids(t) ensures exists e :: e in l && e.id == id {
      var i :| 0 <= i < |t.rows| && t.rows[i].id == id;
      assert l[i] in l;
    }
  }

  const Rules: Schema := [FieldRules("nama", [Required, IsString, Max(100)])]

  lemma RulesMeaning(input: Input, isEmail: string -> bool)
    ensures Passes(Rules, input, isEmail) <==> RequiredTextUpTo(input, "nama", 100)
  {
    RequiredStringMax("nama", 100, input, isEmail);
    assert Passes(Rules, input, isEmail) <==> FieldPasses(Rules[0], input, isEmail);
  }

  /** `store`: the policy's `create`, validate, create. */
  function Store<U>(t: Table, isAdmin: U -> bool, user: U, input: Input, isEmail: string -> bool,
                    now: int): (r: Result<Saved>)
    requires Valid(t)
    ensures !isAdmin(user) ==> r == Err(Forbidden(KategoriLaporanDenial(Create)))
    ensures r.Ok? <==> isAdmin(user) && RequiredTextUpTo(input, "nama", 100)
    ensures r.Ok? ==> r.value.record.fields == map["nama" := input["nama"]]
    ensures r.Ok? ==> r.value.record.id == t.nextId && r.value.table.rows == t.rows + [r.value.record]
  {
    RulesMeaning(input, isEmail);
    assert Mutating(Create);
    SelectedSingle("nama", Rules[0].rules, input);
    AsValidatedKeeps(Selected(Rules, input));
    Crud.Store(t, KategoriLaporanPolicy(isAdmin, user, Create), Rules, input, isEmail, AsValidated, now)
  }

  /** A category just created ends `list`, with the name sent. */
  lemma StoreExtendsList<U>(t: Table, isAdmin: U -> bool, user: U, input: Input, isEmail: string -> bool, now: int)
    requires Valid(t)
    requires Store(t, isAdmin, user, input, isEmail, now).Ok?
    ensures List(Store(t, isAdmin, user, input, isEmail, now).value.table.rows)
      == List(t.rows) + [Entry(t.nextId, input["nama"])]
  {
    var s := Store(t, isAdmin, user, input, isEmail, now).value;
    assert s.table.rows == t.rows + [s.record];
    assert s.record.fields == map["nama" := input["nama"]];
    assert ValueOf(s.record.fields, "nama") == input["nama"];
  }

  /** `update`: the policy's `update`, `findOrFail`, validate, fill and save. */
  function Update<U>(t: Table, isAdmin: U -> bool, user: U, id: int, input: Input, isEmail: string -> bool,
                     now: int): (r: Result<Saved>)
    requires Valid(t)
    // the policy answers first: a non-administrator is refused even for an unknown id
    ensures !isAdmin(user) ==> r == Err(Forbidden(KategoriLaporanDenial(Ability.Update)))
    ensures isAdmin(user) && id !in Ids(t) ==> r == Err(NotFound)
    ensures r.Ok? <==> isAdmin(user) && id in Ids(t) && RequiredTextUpTo(input, "nama", 100)
    ensures r.Ok? ==>
      "nama" in input && "nama" in r.value.record.fields
      && StringForm(r.value.record.fields["nama"]) == StringForm(input["nama"])
    // the answered record is the row now stored under `id`; no row appears, vanishes or otherwise changes
    ensures r.Ok? ==> Find(r.value.table, id) == Some(r.value.record) && Ids(r.value.table) == Ids(t)
    ensures r.Ok? ==> forall other :: other != id ==> Find(r.value.table, other) == Find(t, other)
  {
    RulesMeaning(input, isEmail);
    var gate := KategoriLaporanPolicy(isAdmin, user, Ability.Update);
    assert Mutating(Ability.Update);
    UpdateReadsBack(t, AfterGate, gate, id, Rules, input, isEmail, now);
    assert Declares(Rules, "nama") by { assert Rules[0].field == "nama"; }
    Crud.Update(t, AfterGate, gate, id, Rules, input, isEmail, AsValidated, now)
  }

  /** `destroy`: the policy's `delete`, `findOrFail`, delete. */
  function Destroy<U>(t: Table, isAdmin: U -> bool, user: U, id: int): (r: Result<Table>)
    requires Valid(t)
    ensures !isAdmin(user) ==> r == Err(Forbidden(KategoriLaporanDenial(Delete)))
    ensures isAdmin(user) && id !in Ids(t) ==> r == Err(NotFound)
    ensures r.Ok? <==> isAdmin(user) && id in Ids(t)
    // exactly the row keyed `id` is gone; every other row reads as before
    ensures r.Ok? ==> Ids(r.value) == Ids(t) - {id} && Find(r.value, id) == None
    ensures r.Ok? ==> forall other :: other != id ==> Find(r.value, other) == Find(t, other)
  {
    assert Mutating(Delete);
    Crud.Destroy(t, AfterGate, KategoriLaporanPolicy(isAdmin, user, Delete), id)
  }
}
