/**
 * The user controller (app/Http/Controllers/Api/UserController.php): name
 * search, the rule sets of `store` and `update`, password hashing and the
 * partial-update rule for the password.
 *
 * bcrypt is the parameter `hash`; its salting is not modelled, so the same
 * password always hashes to the same string here.
 */
module Users {
  import opened Text
  import opened Values
  import opened Validation
  import opened Listing
  import opened Tables
  import opened Policies
  import opened Crud

  /** `index`: users whose name contains the term, newest first. */
  function Index(t: Table, req: ListRequest): (q: ListQuery)
    ensures forall x :: x in q.rows <==>
      x in t.rows && (Truthy(req.search) ==> FieldContains(x, "name", req.search.value))
    // each listed row as often as the table holds it
    ensures forall x :: multiset(q.rows)[x] == if x in q.rows then multiset(t.rows)[x] else 0
    ensures NewestFirst(q.rows)
    ensures req.page.None? ==> q.page == 1
    ensures req.perPage.None? ==> q.perPage == 10
    ensures req.page.Some? ==> q.page == PhpIntCast(req.page.value)
    ensures req.perPage.Some? ==> q.perPage == PhpIntCast(req.perPage.value)
  {
    var q := Listing.Index(t.rows, ["name"], req);
    assert forall x :: x in q.rows <==>
      x in t.rows && (Truthy(req.search) ==> FieldContains(x, "name", req.search.value)) by {
      forall x ensures Truthy(req.search) ==>
        (Matches(x, ["name"], req.search.value) <==> FieldContains(x, "name", req.search.value)) {
        if Truthy(req.search) {
          MatchesOne(x, "name", req.search.value);
        }
      }
    }
    q
  }

  /** The e-mail addresses stored in the rows other than `ignore` (`unique:users,email[,id]`). */
  function TakenEmails(t: Table, ignore: Option<int>): set<string> {
    set i | 0 <= i < |t.rows| && "email" in t.rows[i].fields && (ignore.None? || t.rows[i].id != ignore.value)
      :: StringForm(t.rows[i].fields["email"])
  }

  const Roles: seq<string> := ["admin", "user"]

  function StoreRules(t: Table): Schema {
    [
      FieldRules("name", [Required, IsString, Max(255)]),
      FieldRules("email", [Required, Email, Unique(TakenEmails(t, None))]),
      FieldRules("role", [Required, In(Roles)]),
      FieldRules("password", [Required, IsString, Min(4), Confirmed])
    ]
  }

  /** As `store`, but the row being updated may keep its address and the password may be left out. */
  function UpdateRules(t: Table, id: int): Schema {
    [
      FieldRules("name", [Required, IsString, Max(255)]),
      FieldRules("email", [Required, Email, Unique(TakenEmails(t, Some(id)))]),
      FieldRules("role", [Required, In(Roles)]),
      FieldRules("password", [Nullable, IsString, Min(4), Confirmed])
    ]
  }

  /** A valid address that no row in `taken` holds. */
  predicate FreshEmail(input: Input, taken: set<string>, isEmail: string -> bool) {
    "email" in input && input["email"].Text? && !IsBlank(input["email"].s)
    && isEmail(input["email"].s) && input["email"].s !in taken
  }

  /** Sent, and reading as "admin" or "user". */
  predicate ValidRole(input: Input) {
    "role" in input && (StringForm(input["role"]) == "admin" || StringForm(input["role"]) == "user")
  }

  /** At least four characters, repeated in `password_confirmation`. */
  predicate ConfirmedPassword(input: Input) {
    "password" in input && input["password"].Text? && |input["password"].s| >= 4
    && ValueOf(input, "password" + "_confirmation") == input["password"]
  }

  /** `required|string|min:4|confirmed`. */
  predicate NewPassword(input: Input) {
    ConfirmedPassword(input) && !IsBlank(input["password"].s)
  }

  /** `nullable|string|min:4|confirmed`: left out, null, blank, or a confirmed password. */
  predicate ChangedPassword(input: Input) {
    "password" !in input || input["password"] == Null
    || (input["password"].Text? && IsBlank(input["password"].s))
    || ConfirmedPassword(input)
  }

  /** What `store` accepts, in plain terms. */
  predicate NewUser(t: Table, input: Input, isEmail: string -> bool) {
    RequiredTextUpTo(input, "name", 255) && FreshEmail(input, TakenEmails(t, None), isEmail)
    && ValidRole(input) && NewPassword(input)
  }

  /** What `update` accepts for row `id`, in plain terms. */
  predicate ChangedUser(t: Table, id: int, input: Input, isEmail: string -> bool) {
    RequiredTextUpTo(input, "name", 255) && FreshEmail(input, TakenEmails(t, Some(id)), isEmail)
    && ValidRole(input) && ChangedPassword(input)
  }

  lemma EmailRules(taken: set<string>, input: Input, isEmail: string -> bool)
    ensures FieldPasses(FieldRules("email", [Required, Email, Unique(taken)]), input, isEmail)
      <==> FreshEmail(input, taken, isEmail)
  {
    var rs := [Required, Email, Unique(taken)];
    if !FreshEmail(input, taken, isEmail) {
      assert !(Runs(rs[0], rs, "email", input) ==> Holds(rs[0], rs, "email", input, isEmail))
        || !(Runs(rs[1], rs, "email", input) ==> Holds(rs[1], rs, "email", input, isEmail))
        || !(Runs(rs[2], rs, "email", input) ==> Holds(rs[2], rs, "email", input, isEmail));
    }
  }

  lemma RoleRules(input: Input, isEmail: string -> bool)
    ensures FieldPasses(FieldRules("role", [Required, In(Roles)]), input, isEmail) <==> ValidRole(input)
  {
    var rs := [Required, In(Roles)];
    if ValidRole(input) {
      var v := input["role"];
      assert v != Null && !IsBlankText(v) by {
        if v.Text? {
          assert v.s[0] == 'a' || v.s[0] == 'u';
        }
      }
    } else {
      assert !(Runs(rs[0], rs, "role", input) ==> Holds(rs[0], rs, "role", input, isEmail))
        || !(Runs(rs[1], rs, "role", input) ==> Holds(rs[1], rs, "role", input, isEmail));
    }
  }

  lemma NewPasswordRules(input: Input, isEmail: string -> bool)
    ensures FieldPasses(FieldRules("password", [Required, IsString, Min(4), Confirmed]), input, isEmail)
      <==> NewPassword(input)
  {
    var rs := [Required, IsString, Min(4), Confirmed];
    if NewPassword(input) {
      assert Numeric !in rs;
    } else {
      assert !(Runs(rs[0], rs, "password", input) ==> Holds(rs[0], rs, "password", input, isEmail))
        || !(Runs(rs[1], rs, "password", input) ==> Holds(rs[1], rs, "password", input, isEmail))
        || !(Runs(rs[2], rs, "password", input) ==> Holds(rs[2], rs, "password", input, isEmail))
        || !(Runs(rs[3], rs, "password", input) ==> Holds(rs[3], rs, "password", input, isEmail));
    }
  }

  lemma ChangedPasswordRules(input: Input, isEmail: string -> bool)
    ensures FieldPasses(FieldRules("password", [Nullable, IsString, Min(4), Confirmed]), input, isEmail)
      <==> ChangedPassword(input)
  {
    var rs := [Nullable, IsString, Min(4), Confirmed];
    if ChangedPassword(input) {
      assert Numeric !in rs;
    } else {
      assert !(Runs(rs[1], rs, "password", input) ==> Holds(rs[1], rs, "password", input, isEmail))
        || !(Runs(rs[2], rs, "password", input) ==> Holds(rs[2], rs, "password", input, isEmail))
        || !(Runs(rs[3], rs, "password", input) ==> Holds(rs[3], rs, "password", input, isEmail));
    }
  }

  lemma StoreRulesMeaning(t: Table, input: Input, isEmail: string -> bool)
    ensures Passes(StoreRules(t), input, isEmail) <==> NewUser(t, input, isEmail)
  {
    var rs := StoreRules(t);
    RequiredStringMax("name", 255, input, isEmail);
    EmailRules(TakenEmails(t, None), input, isEmail);
    RoleRules(input, isEmail);
    NewPasswordRules(input, isEmail);
    if Passes(rs, input, isEmail) {
      assert FieldPasses(rs[0], input, isEmail) && FieldPasses(rs[1], input, isEmail)
        && FieldPasses(rs[2], input, isEmail) && FieldPasses(rs[3], input, isEmail);
    }
    if NewUser(t, input, isEmail) {
      forall j | 0 <= j < |rs| ensures FieldPasses(rs[j], input, isEmail) {
        if j == 0 {} else if j == 1 {} else if j == 2 {}
      }
    }
  }

  lemma UpdateRulesMeaning(t: Table, id: int, input: Input, isEmail: string -> bool)
    ensures Passes(UpdateRules(t, id), input, isEmail) <==> ChangedUser(t, id, input, isEmail)
  {
    var rs := UpdateRules(t, id);
    RequiredStringMax("name", 255, input, isEmail);
    EmailRules(TakenEmails(t, Some(id)), input, isEmail);
    RoleRules(input, isEmail);
    ChangedPasswordRules(input, isEmail);
    if Passes(rs, input, isEmail) {
      assert FieldPasses(rs[0], input, isEmail) && FieldPasses(rs[1], input, isEmail)
        && FieldPasses(rs[2], input, isEmail) && FieldPasses(rs[3], input, isEmail);
    }
    if ChangedUser(t, id, input, isEmail) {
      forall j | 0 <= j < |rs| ensures FieldPasses(rs[j], input, isEmail) {
        if j == 0 {} else if j == 1 {} else if j == 2 {}
      }
    }
  }

  /** `store` replaces the validated password by its hash. */
  function Hashed(input: Input, hash: string -> string): Prep {
    Prep({}, map["password" := Text(hash(StringForm(ValueOf(input, "password"))))])
  }

  /** `update` hashes a non-empty password and otherwise drops the key, so the stored hash stays. */
  function Rehashed(input: Input, hash: string -> string): Prep {
    if "password" in input && !PhpEmpty(input["password"]) then Hashed(input, hash)
    else Prep({"password"}, map[])
  }

  /** `store`: authorize, validate, hash the password, create. */
  function Store(t: Table, gate: Decision, input: Input, isEmail: string -> bool, hash: string -> string,
                 now: int): (r: Result<Saved>)
    requires Valid(t)
    ensures gate.Deny? ==> r == Err(Forbidden(gate.message))
    ensures r.Ok? <==> gate.Allow? && NewUser(t, input, isEmail)
    // what is stored is the hash of the password sent, never the password itself
    ensures r.Ok? ==>
      "password" in input && input["password"].Text? && "password" in r.value.record.fields
      && r.value.record.fields["password"] == Text(hash(input["password"].s))
    // the address is new to the table
    ensures r.Ok? ==>
      "email" in r.value.record.fields && StringForm(r.value.record.fields["email"]) !in TakenEmails(t, None)
    ensures r.Ok? ==> r.value.record.id == t.nextId && r.value.table.rows == t.rows + [r.value.record]
  {
    StoreRulesMeaning(t, input, isEmail);
    StoreFields(t, input, isEmail, hash);
    Crud.Store(t, gate, StoreRules(t), input, isEmail, Hashed(input, hash), now)
  }

  lemma StoreFields(t: Table, input: Input, isEmail: string -> bool, hash: string -> string)
    ensures NewUser(t, input, isEmail) ==>
      var f := Apply(Hashed(input, hash), Selected(StoreRules(t), input));
      "password" in f && f["password"] == Text(hash(input["password"].s))
      && "email" in f && f["email"] == input["email"]
  {
    assert StoreRules(t)[1].field == "email";
  }

  /** `update`: authorize, `findOrFail`, validate, rehash or drop the password, fill and save. */
  function Update(t: Table, gate: Decision, id: int, input: Input, isEmail: string -> bool,
                  hash: string -> string, now: int): (r: Result<Saved>)
    requires Valid(t)
    ensures gate.Deny? ==> r == Err(Forbidden(gate.message))
    ensures gate.Allow? && id !in Ids(t) ==> r == Err(NotFound)
    ensures r.Ok? <==> gate.Allow? && id in Ids(t) && ChangedUser(t, id, input, isEmail)
    // the answered record is the row now stored under `id`, holding the name, address and role sent
    ensures r.Ok? ==> Find(r.value.table, id) == Some(r.value.record) && Ids(r.value.table) == Ids(t)
    ensures r.Ok? ==>
      ReadsBack(r.value.record, input, "name") && ReadsBack(r.value.record, input, "email")
      && ReadsBack(r.value.record, input, "role")
    ensures r.Ok? ==> forall other :: other != id ==> Find(r.value.table, other) == Find(t, other)
  {
    UpdateRulesMeaning(t, id, input, isEmail);
    var r := Crud.Update(t, AfterGate, gate, id, UpdateRules(t, id), input, isEmail, Rehashed(input, hash), now);
    if r.Ok? then
      UpdateFields(t, id, input, isEmail, hash);
      MergeReadsBack(Find(t, id).value, Apply(Rehashed(input, hash), Selected(UpdateRules(t, id), input)), now);
      r
    else r
  }

  /** Field `k` was sent and the record holds it as sent. */
  predicate ReadsBack(x: Record, input: Input, k: string) {
    k in input && k in x.fields && StringForm(x.fields[k]) == StringForm(input[k])
  }

  lemma UpdateFields(t: Table, id: int, input: Input, isEmail: string -> bool, hash: string -> string)
    requires ChangedUser(t, id, input, isEmail)
    ensures var f := Apply(Rehashed(input, hash), Selected(UpdateRules(t, id), input));
      "name" in f && f["name"] == input["name"] && "email" in f && f["email"] == input["email"]
      && "role" in f && f["role"] == input["role"]
  {
    var rs := UpdateRules(t, id);
    assert rs[0].field == "name" && rs[1].field == "email" && rs[2].field == "role";
  }

  /** An empty or absent password leaves the stored one exactly as it was. */
  lemma EmptyPasswordKeepsHash(t: Table, gate: Decision, id: int, input: Input, isEmail: string -> bool,
                               hash: string -> string, now: int)
    requires Valid(t)
    ensures var r := Update(t, gate, id, input, isEmail, hash, now);
      r.Ok? && ("password" !in input || PhpEmpty(input["password"])) ==>
        var before := Find(t, id).value;
        var after := Find(r.value.table, id).value;
        ("password" in after.fields <==> "password" in before.fields)
        && ("password" in before.fields ==> after.fields["password"] == before.fields["password"])
  {
    var r := Update(t, gate, id, input, isEmail, hash, now);
    if r.Ok? && ("password" !in input || PhpEmpty(input["password"])) {
      var data := Apply(Rehashed(input, hash), Selected(UpdateRules(t, id), input));
      assert "password" !in data;
    }
  }

  /** A non-empty password is stored as its hash. */
  lemma PasswordRehashed(t: Table, gate: Decision, id: int, input: Input, isEmail: string -> bool,
                         hash: string -> string, now: int)
    requires Valid(t)
    ensures var r := Update(t, gate, id, input, isEmail, hash, now);
      r.Ok? && "password" in input && !PhpEmpty(input["password"]) ==>
        var after := Find(r.value.table, id).value;
        "password" in after.fields
        && StringForm(after.fields["password"]) == hash(StringForm(input["password"]))
  {
    var r := Update(t, gate, id, input, isEmail, hash, now);
    if r.Ok? && "password" in input && !PhpEmpty(input["password"]) {
      var data := Apply(Rehashed(input, hash), Selected(UpdateRules(t, id), input));
      MergeReadsBack(Find(t, id).value, data, now);
    }
  }

  /** `destroy`: authorize, `findOrFail`, delete. */
  function Destroy(t: Table, gate: Decision, id: int): (r: Result<Table>)
    requires Valid(t)
    ensures gate.Deny? ==> r == Err(Forbidden(gate.message))
    ensures gate.Allow? && id !in Ids(t) ==> r == Err(NotFound)
    ensures r.Ok? <==> gate.Allow? && id in Ids(t)
    // exactly the row keyed `id` is gone; every other row reads as before
    ensures r.Ok? ==> Ids(r.value) == Ids(t) - {id} && Find(r.value, id) == None
    ensures r.Ok? ==> forall other :: other != id ==> Find(r.value, other) == Find(t, other)
  {
    Crud.Destroy(t, AfterGate, gate, id)
  }

  /** No two rows hold the same address. */
  predicate DistinctEmails(t: Table) {
    forall i, j :: 0 <= i < |t.rows| && 0 <= j < |t.rows| && i != j
      && "email" in t.rows[i].fields && "email" in t.rows[j].fields
      ==> StringForm(t.rows[i].fields["email"]) != StringForm(t.rows[j].fields["email"])
  }

  /** Appending a row whose address no row holds keeps addresses distinct. */
  lemma AppendKeepsEmailsDistinct(t: Table, u: Table, x: Record)
    requires DistinctEmails(t) && u.rows == t.rows + [x]
    requires "email" in x.fields && StringForm(x.fields["email"]) !in TakenEmails(t, None)
    ensures DistinctEmails(u)
  {
    forall i | 0 <= i < |t.rows| && "email" in t.rows[i].fields
      ensures StringForm(t.rows[i].fields["email"]) != StringForm(x.fields["email"])
    {
      assert StringForm(t.rows[i].fields["email"]) in TakenEmails(t, None);
    }
    forall i, j | 0 <= i < |u.rows| && 0 <= j < |u.rows| && i != j
      && "email" in u.rows[i].fields && "email" in u.rows[j].fields
      ensures StringForm(u.rows[i].fields["email"]) != StringForm(u.rows[j].fields["email"])
    {
      if i < |t.rows| && j < |t.rows| {
        assert u.rows[i] == t.rows[i] && u.rows[j] == t.rows[j];
      } else if i < |t.rows| {
        assert u.rows[i] == t.rows[i] && u.rows[j] == x;
      } else {
        assert u.rows[j] == t.rows[j] && u.rows[i] == x;
      }
    }
  }

  /** `store` keeps addresses distinct. */
  lemma StoreKeepsEmailsDistinct(t: Table, gate: Decision, input: Input, isEmail: string -> bool,
                                 hash: string -> string, now: int)
    requires Valid(t) && DistinctEmails(t)
    ensures var r := Store(t, gate, input, isEmail, hash, now);
      r.Ok? ==> DistinctEmails(r.value.table)
  {
    var r := Store(t, gate, input, isEmail, hash, now);
    if r.Ok? {
      AppendKeepsEmailsDistinct(t, r.value.table, r.value.record);
    }
  }

  /** The address of a row other than `ignore` is taken. */
  lemma TakenEmailsHas(t: Table, k: int, ignore: int)
    requires 0 <= k < |t.rows| && "email" in t.rows[k].fields && t.rows[k].id != ignore
    ensures StringForm(t.rows[k].fields["email"]) in TakenEmails(t, Some(ignore))
  {
  }

  /** Writing back a row whose address no other row holds keeps addresses distinct. */
  lemma SaveKeepsEmailsDistinct(t: Table, x: Record)
    requires Valid(t) && DistinctEmails(t)
    requires "email" in x.fields && StringForm(x.fields["email"]) !in TakenEmails(t, Some(x.id))
    ensures DistinctEmails(Save(t, x))
  {
    var u := Save(t, x);
    assert u.rows == Replace(t.rows, x);
    forall i, j | 0 <= i < |u.rows| && 0 <= j < |u.rows| && i != j
      && "email" in u.rows[i].fields && "email" in u.rows[j].fields
      ensures StringForm(u.rows[i].fields["email"]) != StringForm(u.rows[j].fields["email"])
    {
      if t.rows[i].id == x.id {
        assert t.rows[j].id != x.id;
        assert u.rows[i] == x && u.rows[j] == t.rows[j];
        TakenEmailsHas(t, j, x.id);
      } else if t.rows[j].id == x.id {
        assert u.rows[j] == x && u.rows[i] == t.rows[i];
        TakenEmailsHas(t, i, x.id);
      } else {
        assert u.rows[i] == t.rows[i] && u.rows[j] == t.rows[j];
      }
    }
  }

  /** `update` keeps addresses distinct: the new address is held by no other row. */
  lemma UpdateKeepsEmailsDistinct(t: Table, gate: Decision, id: int, input: Input, isEmail: string -> bool,
                                  hash: string -> string, now: int)
    requires Valid(t) && DistinctEmails(t)
    ensures var r := Update(t, gate, id, input, isEmail, hash, now);
      r.Ok? ==> DistinctEmails(r.value.table)
  {
    var r := Update(t, gate, id, input, isEmail, hash, now);
    if r.Ok? {
      var x := r.value.record;
      UpdateRulesMeaning(t, id, input, isEmail);
      assert r.value.table == Save(t, x);
      assert x.id == id;
      SaveKeepsEmailsDistinct(t, x);
    }
  }
}
