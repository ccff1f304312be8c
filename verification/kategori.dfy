/**
 * The item-category controller (app/Http/Controllers/Api/KategoriController.php):
 * name search and the one-field rule of `store` and `update`.
 */
module Kategori {
  import opened Text
  import opened Values
  import opened Validation
  import opened Listing
  import opened Tables
  import opened Policies
  import opened Crud

  /** `index`: categories whose name contains the term, newest first. */
  function Index(t: Table, req: ListRequest): (q: ListQuery)
    ensures forall x :: x in q.rows <==>
      x in t.rows && (Truthy(req.search) ==> FieldContains(x, "kategori", req.search.value))
    // each listed row as often as the table holds it
    ensures forall x :: multiset(q.rows)[x] == if x in q.rows then multiset(t.rows)[x] else 0
    ensures NewestFirst(q.rows)
    ensures req.page.None? ==> q.page == 1
    ensures req.perPage.None? ==> q.perPage == 10
    ensures req.page.Some? ==> q.page == PhpIntCast(req.page.value)
    ensures req.perPage.Some? ==> q.perPage == PhpIntCast(req.perPage.value)
  {
    var q := Listing.Index(t.rows, ["kategori"], req);
    assert forall x :: x in q.rows <==>
      x in t.rows && (Truthy(req.search) ==> FieldContains(x, "kategori", req.search.value)) by {
      forall x ensures Truthy(req.search) ==>
        (Matches(x, ["kategori"], req.search.value) <==> FieldContains(x, "kategori", req.search.value)) {
        if Truthy(req.search) {
          MatchesOne(x, "kategori", req.search.value);
        }
      }
    }
    q
  }

  /** `required|string`, with no length cap. */
  const Rules: Schema := [FieldRules("kategori", [Required, IsString])]

  lemma RulesMeaning(input: Input, isEmail: string -> bool)
    ensures Passes(Rules, input, isEmail) <==> RequiredText(input, "kategori")
  {
    RequiredString("kategori", input, isEmail);
    assert Passes(Rules, input, isEmail) <==> FieldPasses(Rules[0], input, isEmail);
  }

  /** `store`: authorize, validate, create. */
  function Store(t: Table, gate: Decision, input: Input, isEmail: string -> bool, now: int): (r: Result<Saved>)
    requires Valid(t)
    ensures gate.Deny? ==> r == Err(Forbidden(gate.message))
    ensures r.Ok? <==> gate.Allow? && RequiredText(input, "kategori")
    ensures r.Ok? ==> r.value.record.fields == map["kategori" := input["kategori"]]
    ensures r.Ok? ==> r.value.record.id == t.nextId && r.value.table.rows == t.rows + [r.value.record]
  {
    RulesMeaning(input, isEmail);
    SelectedSingle("kategori", Rules[0].rules, input);
    AsValidatedKeeps(Selected(Rules, input));
    Crud.Store(t, gate, Rules, input, isEmail, AsValidated, now)
  }

  /** `update`: authorize, `findOrFail`, validate, fill and save. */
  function Update(t: Table, gate: Decision, id: int, input: Input, isEmail: string -> bool, now: int): (r: Result<Saved>)
    requires Valid(t)
    ensures gate.Deny? ==> r == Err(Forbidden(gate.message))
    ensures gate.Allow? && id !in Ids(t) ==> r == Err(NotFound)
    ensures r.Ok? <==> gate.Allow? && id in Ids(t) && RequiredText(input, "kategori")
    ensures r.Ok? ==>
      "kategori" in input && "kategori" in r.value.record.fields
      && StringForm(r.value.record.fields["kategori"]) == StringForm(input["kategori"])
    // the answered record is the row now stored under `id`; no row appears, vanishes or otherwise changes
    ensures r.Ok? ==> Find(r.value.table, id) == Some(r.value.record) && Ids(r.value.table) == Ids(t)
    ensures r.Ok? ==> forall other :: other != id ==> Find(r.value.table, other) == Find(t, other)
  {
    RulesMeaning(input, isEmail);
    UpdateReadsBack(t, AfterGate, gate, id, Rules, input, isEmail, now);
    assert Declares(Rules, "kategori") by { assert Rules[0].field == "kategori"; }
    Crud.Update(t, AfterGate, gate, id, Rules, input, isEmail, AsValidated, now)
  }

  /** `destroy`: authorize, `findOrFail`, delete. */
  function Destroy(t: Table, gate: Decision, id: int): (r: Result<Table>)
    requires Valid(t)
    ensures gate.Deny? ==> r == Err(Forbidden(gate.message))
    ensures gate.Allow? && id !in Ids(t) ==> r == Err(NotFound)
    ensures r.Ok? <==> gate.Allow? && id in Ids(t)
    // exactly the row keyed `id` is gone; every other row reads as before
    ensures r.Ok? ==> Ids(r.value) == Ids(t) - {id} && Find(r.value, id) == None
    ensures r.Ok? ==> forall other :: other != id ==> Find(r.value, other) == Find(t, other)
  {
    Crud.Destroy(t, AfterGate, gate, id)
  }
}
