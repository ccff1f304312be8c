/**
 * The reporter controller (app/Http/Controllers/Api/PelaporController.php):
 * name-or-phone search and the one rule set `store` and `update` share,
 * authorized by the reporter policy.
 *
 * `update` and `destroy` receive the row through route-model binding, which
 * runs before the controller body: an unknown id is answered 404 before the
 * policy is asked.
 */
module Pelapor {
  import opened Text
  import opened Values
  import opened Validation
  import opened Listing
  import opened Tables
  import opened Policies
  import opened Crud

  /** `index`: reporters whose name or phone number contains the term, newest first. */
  function Index(t: Table, req: ListRequest): (q: ListQuery)
    ensures forall x :: x in q.rows <==>
      x in t.rows
      && (Truthy(req.search) ==>
            FieldContains(x, "nama", req.search.value) || FieldContains(x, "telepon", req.search.value))
    // each listed row as often as the table holds it
    ensures forall x :: multiset(q.rows)[x] == if x in q.rows then multiset(t.rows)[x] else 0
    ensures NewestFirst(q.rows)
    ensures req.page.None? ==> q.page == 1
    ensures req.perPage.None? ==> q.perPage == 10
    ensures req.page.Some? ==> q.page == PhpIntCast(req.page.value)
    ensures req.perPage.Some? ==> q.perPage == PhpIntCast(req.perPage.value)
  {
    var q := Listing.Index(t.rows, ["nama", "telepon"], req);
    assert forall x :: x in q.rows <==>
      x in t.rows
      && (Truthy(req.search) ==>
            FieldContains(x, "nama", req.search.value) || FieldContains(x, "telepon", req.search.value)) by {
      forall x ensures Truthy(req.search) ==>
        (Matches(x, ["nama", "telepon"], req.search.value) <==>
         FieldContains(x, "nama", req.search.value) || FieldContains(x, "telepon", req.search.value)) {
        if Truthy(req.search) {
          MatchesTwo(x, "nama", "telepon", req.search.value);
        }
      }
    }
    q
  }

  /** The rules of both `store` and `update`. */
  const Rules: Schema := [
    FieldRules("nama", [Required, IsString, Max(100)]),
    FieldRules("nik", [Required, IsString, Max(16)]),
    FieldRules("telepon", [Required, IsString, Max(20)]),
    FieldRules("alamat", [Required, IsString, Max(255)])
  ]

  /** Four non-blank strings within their column widths. */
  predicate ReporterFields(input: Input) {
    RequiredTextUpTo(input, "nama", 100) && RequiredTextUpTo(input, "nik", 16)
    && RequiredTextUpTo(input, "telepon", 20) && RequiredTextUpTo(input, "alamat", 255)
  }

  lemma RulesMeaning(input: Input, isEmail: string -> bool)
    ensures Passes(Rules, input, isEmail) <==> ReporterFields(input)
  {
    var rs := Rules;
    RequiredStringMax("nama", 100, input, isEmail);
    RequiredStringMax("nik", 16, input, isEmail);
    RequiredStringMax("telepon", 20, input, isEmail);
    RequiredStringMax("alamat", 255, input, isEmail);
    if Passes(rs, input, isEmail) {
      assert FieldPasses(rs[0], input, isEmail) && FieldPasses(rs[1], input, isEmail)
        && FieldPasses(rs[2], input, isEmail) && FieldPasses(rs[3], input, isEmail);
    }
    if ReporterFields(input) {
      forall j | 0 <= j < |rs| ensures FieldPasses(rs[j], input, isEmail) {
        if j == 0 {} else if j == 1 {} else if j == 2 {}
      }
    }
  }

  /**
   * `store`: the policy's `create`, validate, create from the validated fields.
   * None of the rules is `email`, so `isEmail` is never consulted.
   */
  function Store<U>(t: Table, isAdmin: U -> bool, user: U, input: Input, isEmail: string -> bool,
                    now: int): (r: Result<Saved>)
    requires Valid(t)
    ensures !isAdmin(user) ==> r == Err(Forbidden(PelaporDenial(Create)))
    ensures r.Ok? <==> isAdmin(user) && ReporterFields(input)
    ensures r.Ok? ==> r.value.record.fields == Selected(Rules, input)
    ensures r.Ok? ==> r.value.record.id == t.nextId && r.value.table.rows == t.rows + [r.value.record]
  {
    RulesMeaning(input, isEmail);
    assert Mutating(Create);
    AsValidatedKeeps(Selected(Rules, input));
    Crud.Store(t, PelaporPolicy(isAdmin, user, Create), Rules, input, isEmail, AsValidated, now)
  }

  /** `update`: bind the row, the policy's `update`, validate, fill and save. */
  function Update<U>(t: Table, isAdmin: U -> bool, user: U, id: int, input: Input, isEmail: string -> bool,
                     now: int): (r: Result<Saved>)
    requires Valid(t)
    // the binding answers first: an unknown id is not found, whoever asks
    ensures id !in Ids(t) ==> r == Err(NotFound)
    ensures id in Ids(t) && !isAdmin(user) ==> r == Err(Forbidden(PelaporDenial(Ability.Update)))
    ensures r.Ok? <==> id in Ids(t) && isAdmin(user) && ReporterFields(input)
    ensures r.Ok? ==> forall k :: k in input && Declares(Rules, k) ==>
      StringForm(ValueOf(r.value.record.fields, k)) == StringForm(input[k])
    // the answered record is the row now stored under `id`; no row appears, vanishes or otherwise changes
    ensures r.Ok? ==> Find(r.value.table, id) == Some(r.value.record) && Ids(r.value.table) == Ids(t)
    ensures r.Ok? ==> forall other :: other != id ==> Find(r.value.table, other) == Find(t, other)
  {
    RulesMeaning(input, isEmail);
    var gate := PelaporPolicy(isAdmin, user, Ability.Update);
    assert Mutating(Ability.Update);
    UpdateReadsBack(t, BeforeGate, gate, id, Rules, input, isEmail, now);
    Crud.Update(t, BeforeGate, gate, id, Rules, input, isEmail, AsValidated, now)
  }

  /** `destroy`: bind the row, the policy's `delete`, delete. */
  function Destroy<U>(t: Table, isAdmin: U -> bool, user: U, id: int): (r: Result<Table>)
    requires Valid(t)
    ensures id !in Ids(t) ==> r == Err(NotFound)
    ensures id in Ids(t) && !isAdmin(user) ==> r == Err(Forbidden(PelaporDenial(Delete)))
    ensures r.Ok? <==> id in Ids(t) && isAdmin(user)
    // exactly the row keyed `id` is gone; every other row reads as before
    ensures r.Ok? ==> Ids(r.value) == Ids(t) - {id} && Find(r.value, id) == None
    ensures r.Ok? ==> forall other :: other != id ==> Find(r.value, other) == Find(t, other)
  {
    assert Mutating(Delete);
    Crud.Destroy(t, BeforeGate, PelaporPolicy(isAdmin, user, Delete), id)
  }
}
