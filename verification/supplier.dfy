/**
 * The supplier controller (app/Http/Controllers/Api/SupplierController.php):
 * supplier-name search and the one rule set `store` and `update` share.
 */
module Supplier {
  import opened Text
  import opened Values
  import opened Validation
  import opened Listing
  import opened Tables
  import opened Policies
  import opened Crud

  /** `index`: suppliers whose name contains the term, newest first. */
  function Index(t: Table, req: ListRequest): (q: ListQuery)
    ensures forall x :: x in q.rows <==>
      x in t.rows && (Truthy(req.search) ==> FieldContains(x, "supplier", req.search.value))
    // each listed row as often as the table holds it
    ensures forall x :: multiset(q.rows)[x] == if x in q.rows then multiset(t.rows)[x] else 0
    ensures NewestFirst(q.rows)
    ensures req.page.None? ==> q.page == 1
    ensures req.perPage.None? ==> q.perPage == 10
    ensures req.page.Some? ==> q.page == PhpIntCast(req.page.value)
    ensures req.perPage.Some? ==> q.perPage == PhpIntCast(req.perPage.value)
  {
    var q := Listing.Index(t.rows, ["supplier"], req);
    assert forall x :: x in q.rows <==>
      x in t.rows && (Truthy(req.search) ==> FieldContains(x, "supplier", req.search.value)) by {
      forall x ensures Truthy(req.search) ==>
        (Matches(x, ["supplier"], req.search.value) <==> FieldContains(x, "supplier", req.search.value)) {
        if Truthy(req.search) {
          MatchesOne(x, "supplier", req.search.value);
        }
      }
    }
    q
  }

  const ContactRules: seq<Rule> := [Required, Max(20), PhonePattern]

  const EmailRules: seq<Rule> := [IsString, Nullable, Email, Max(255)]

  /** The rules of both `store` and `update`. */
  const Rules: Schema := [
    FieldRules("supplier", [Required, IsString, Max(100)]),
    FieldRules("alamat", [IsString, Nullable, Max(255)]),
    FieldRules("kontak", ContactRules),
    FieldRules("email", EmailRules),
    FieldRules("deskripsi", [IsString, Nullable, Max(255)])
  ]

  /** A contact of at most 20 characters, all digits, `+ - ( )` or white space, that is not blank. */
  predicate ValidContact(input: Input) {
    "kontak" in input && input["kontak"] != Null && !IsBlankText(input["kontak"])
    && |StringForm(input["kontak"])| <= 20 && AllPhoneChars(StringForm(input["kontak"]))
  }

  /** Absent, null, blank, or a valid address of at most 255 characters. */
  predicate OptionalEmail(input: Input, isEmail: string -> bool) {
    "email" !in input || input["email"] == Null
    || (input["email"].Text? && (IsBlankText(input["email"]) || (isEmail(input["email"].s) && |input["email"].s| <= 255)))
  }

  /** What the rule set accepts, in plain terms. */
  predicate SupplierFields(input: Input, isEmail: string -> bool) {
    RequiredTextUpTo(input, "supplier", 100) && OptionalTextUpTo(input, "alamat", 255)
    && ValidContact(input) && OptionalEmail(input, isEmail) && OptionalTextUpTo(input, "deskripsi", 255)
  }

  lemma ContactRulesMeaning(input: Input, isEmail: string -> bool)
    ensures FieldPasses(FieldRules("kontak", ContactRules), input, isEmail) <==> ValidContact(input)
  {
    var rs := ContactRules;
    if ValidContact(input) {
      assert Numeric !in rs;
    } else {
      assert !(Runs(rs[0], rs, "kontak", input) ==> Holds(rs[0], rs, "kontak", input, isEmail))
        || !(Runs(rs[1], rs, "kontak", input) ==> Holds(rs[1], rs, "kontak", input, isEmail))
        || !(Runs(rs[2], rs, "kontak", input) ==> Holds(rs[2], rs, "kontak", input, isEmail));
    }
  }

  lemma EmailRulesMeaning(input: Input, isEmail: string -> bool)
    ensures FieldPasses(FieldRules("email", EmailRules), input, isEmail) <==> OptionalEmail(input, isEmail)
  {
    var rs := EmailRules;
    if OptionalEmail(input, isEmail) {
      assert Numeric !in rs;
    } else {
      assert !(Runs(rs[0], rs, "email", input) ==> Holds(rs[0], rs, "email", input, isEmail))
        || !(Runs(rs[2], rs, "email", input) ==> Holds(rs[2], rs, "email", input, isEmail))
        || !(Runs(rs[3], rs, "email", input) ==> Holds(rs[3], rs, "email", input, isEmail));
    }
  }

  /** The empty contact matches the pattern, yet `required` turns it away. */
  lemma EmptyContactRejected(input: Input, isEmail: string -> bool)
    requires "kontak" !in input || input["kontak"] == Text("")
    ensures AllPhoneChars(StringForm(Text("")))
    ensures !FieldPasses(FieldRules("kontak", ContactRules), input, isEmail)
  {
    ContactRulesMeaning(input, isEmail);
  }

  lemma RulesMeaning(input: Input, isEmail: string -> bool)
    ensures Passes(Rules, input, isEmail) <==> SupplierFields(input, isEmail)
  {
    var rs := Rules;
    RequiredStringMax("supplier", 100, input, isEmail);
    StringNullableMax("alamat", 255, input, isEmail);
    ContactRulesMeaning(input, isEmail);
    EmailRulesMeaning(input, isEmail);
    StringNullableMax("deskripsi", 255, input, isEmail);
    if Passes(rs, input, isEmail) {
      assert FieldPasses(rs[0], input, isEmail) && FieldPasses(rs[1], input, isEmail)
        && FieldPasses(rs[2], input, isEmail) && FieldPasses(rs[3], input, isEmail)
        && FieldPasses(rs[4], input, isEmail);
    }
    if SupplierFields(input, isEmail) {
      forall j | 0 <= j < |rs| ensures FieldPasses(rs[j], input, isEmail) {
        if j == 0 {} else if j == 1 {} else if j == 2 {} else if j == 3 {}
      }
    }
  }

  /** `store`: authorize, validate, create from the validated fields. */
  function Store(t: Table, gate: Decision, input: Input, isEmail: string -> bool, now: int): (r: Result<Saved>)
    requires Valid(t)
    ensures gate.Deny? ==> r == Err(Forbidden(gate.message))
    ensures r.Ok? <==> gate.Allow? && SupplierFields(input, isEmail)
    ensures r.Ok? ==> r.value.record.fields == Selected(Rules, input)
    ensures r.Ok? ==> r.value.record.id == t.nextId && r.value.table.rows == t.rows + [r.value.record]
  {
    RulesMeaning(input, isEmail);
    AsValidatedKeeps(Selected(Rules, input));
    Crud.Store(t, gate, Rules, input, isEmail, AsValidated, now)
  }

  /** `update`: authorize, `findOrFail`, validate, fill and save. */
  function Update(t: Table, gate: Decision, id: int, input: Input, isEmail: string -> bool, now: int): (r: Result<Saved>)
    requires Valid(t)
    ensures gate.Deny? ==> r == Err(Forbidden(gate.message))
    ensures gate.Allow? && id !in Ids(t) ==> r == Err(NotFound)
    ensures r.Ok? <==> gate.Allow? && id in Ids(t) && SupplierFields(input, isEmail)
    ensures r.Ok? ==> forall k :: k in input && Declares(Rules, k) ==>
      StringForm(ValueOf(r.value.record.fields, k)) == StringForm(input[k])
    // the answered record is the row now stored under `id`; no row appears, vanishes or otherwise changes
    ensures r.Ok? ==> Find(r.value.table, id) == Some(r.value.record) && Ids(r.value.table) == Ids(t)
    ensures r.Ok? ==> forall other :: other != id ==> Find(r.value.table, other) == Find(t, other)
  {
    RulesMeaning(input, isEmail);
    UpdateReadsBack(t, AfterGate, gate, id, Rules, input, isEmail, now);
    Crud.Update(t, AfterGate, gate, id, Rules, input, isEmail, AsValidated, now)
  }

  /** `destroy`: authorize, `findOrFail`, delete. */
  function Destroy(t: Table, gate: Decision, id: int): (r: Result<Table>)
    requires Valid(t)
    ensures gate.Deny? ==> r == Err(Forbidden(gate.message))
    ensures gate.Allow? && id !in Ids(t) ==> r == Err(NotFound)
    ensures r.Ok? <==> gate.Allow? && id in Ids(t)
    // exactly the row keyed `id` is gone; every other row reads as before
    ensures r.Ok? ==> Ids(r.value) == Ids(t) - {id} && Find(r.value, id) == None
    ensures r.Ok? ==> forall other :: other != id ==> Find(r.value, other) == Find(t, other)
  {
    Crud.Destroy(t, AfterGate, gate, id)
  }
}
