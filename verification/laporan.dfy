/**
 * The report controller (app/Http/Controllers/Api/LaporanController.php):
 * title-or-body search, the one rule set `store` and `update` share, and the
 * `status` column's default and constraint from the table's migration.
 *
 * `update` and `destroy` are modelled twice: as written, where the action's
 * model parameter is never bound to the row the URL names, and as evidently
 * intended, with the row bound before the controller runs.
 */
module Laporan {
  import opened Text
  import opened Values
  import opened Validation
  import opened Listing
  import opened Tables
  import opened Policies
  import opened Crud

  /** `index`: reports whose title or body contains the term, newest first. */
  function Index(t: Table, req: ListRequest): (q: ListQuery)
    ensures forall x :: x in q.rows <==>
      x in t.rows
      && (Truthy(req.search) ==>
            FieldContains(x, "judul", req.search.value) || FieldContains(x, "isi_laporan", req.search.value))
    // each listed row as often as the table holds it
    ensures forall x :: multiset(q.rows)[x] == if x in q.rows then multiset(t.rows)[x] else 0
    ensures NewestFirst(q.rows)
    ensures req.page.None? ==> q.page == 1
    ensures req.perPage.None? ==> q.perPage == 10
    ensures req.page.Some? ==> q.page == PhpIntCast(req.page.value)
    ensures req.perPage.Some? ==> q.perPage == PhpIntCast(req.perPage.value)
  {
    var q := Listing.Index(t.rows, ["judul", "isi_laporan"], req);
    assert forall x :: x in q.rows <==>
      x in t.rows
      && (Truthy(req.search) ==>
            FieldContains(x, "judul", req.search.value) || FieldContains(x, "isi_laporan", req.search.value)) by {
      forall x ensures Truthy(req.search) ==>
        (Matches(x, ["judul", "isi_laporan"], req.search.value) <==>
         FieldContains(x, "judul", req.search.value) || FieldContains(x, "isi_laporan", req.search.value)) {
        if Truthy(req.search) {
          MatchesTwo(x, "judul", "isi_laporan", req.search.value);
        }
      }
    }
    q
  }

  /** The values of the `status` enum column. */
  const Statuses: seq<string> := ["Diajukan", "Diproses", "Selesai", "Ditolak"]

  /** The column's default, filled in when an insert leaves `status` out. */
  const DefaultStatus: string := "Diajukan"

  /** The rules of both `store` and `update`, given the reporter and category tables. */
  function Rules(reporters: Table, categories: Table): Schema {
    [
      FieldRules("pelapor_id", [Required, Exists(Ids(reporters))]),
      FieldRules("kategori_id", [Required, Exists(Ids(categories))]),
      FieldRules("judul", [Required, IsString, Max(255)]),
      FieldRules("isi_laporan", [Required, IsString]),
      FieldRules("status", [Nullable, In(Statuses)])
    ]
  }

  /** The field holds the id of a row of `t`. */
  predicate ExistingId(input: Input, field: string, t: Table) {
    field in input && IsNumeric(input[field]) && NumericValue(input[field]) in Ids(t)
  }

  /** Absent, null, blank, or reading as one of the four statuses. */
  predicate OptionalStatus(input: Input) {
    "status" !in input || input["status"] == Null || IsBlankText(input["status"])
    || StringForm(input["status"]) in Statuses
  }

  /** What the rule set accepts, in plain terms. */
  predicate ReportFields(input: Input, reporters: Table, categories: Table) {
    ExistingId(input, "pelapor_id", reporters) && ExistingId(input, "kategori_id", categories)
    && RequiredTextUpTo(input, "judul", 255) && RequiredText(input, "isi_laporan") && OptionalStatus(input)
  }

  /** A value the `status` column takes: NOT NULL, and one of the enum's strings. */
  predicate Storable(v: Value) {
    v.Text? && v.s in Statuses
  }

  /** The `status` the request would write, if it sends one, is one the column takes. */
  predicate StatusFits(input: Input) {
    "status" !in input || Storable(input["status"])
  }

  lemma ExistsRules(field: string, t: Table, input: Input, isEmail: string -> bool)
    ensures FieldPasses(FieldRules(field, [Required, Exists(Ids(t))]), input, isEmail) <==> ExistingId(input, field, t)
  {
    var rs := [Required, Exists(Ids(t))];
    if ExistingId(input, field, t) {
      NumericNotBlank(input[field]);
    } else {
      assert !(Runs(rs[0], rs, field, input) ==> Holds(rs[0], rs, field, input, isEmail))
        || !(Runs(rs[1], rs, field, input) ==> Holds(rs[1], rs, field, input, isEmail));
    }
  }

  lemma StatusRules(input: Input, isEmail: string -> bool)
    ensures FieldPasses(FieldRules("status", [Nullable, In(Statuses)]), input, isEmail) <==> OptionalStatus(input)
  {
    var rs := [Nullable, In(Statuses)];
    if !OptionalStatus(input) {
      assert !(Runs(rs[1], rs, "status", input) ==> Holds(rs[1], rs, "status", input, isEmail));
    }
  }

  lemma RulesMeaning(reporters: Table, categories: Table, input: Input, isEmail: string -> bool)
    ensures Passes(Rules(reporters, categories), input, isEmail) <==> ReportFields(input, reporters, categories)
  {
    var rs := Rules(reporters, categories);
    ExistsRules("pelapor_id", reporters, input, isEmail);
    ExistsRules("kategori_id", categories, input, isEmail);
    RequiredStringMax("judul", 255, input, isEmail);
    RequiredString("isi_laporan", input, isEmail);
    StatusRules(input, isEmail);
    if Passes(rs, input, isEmail) {
      assert FieldPasses(rs[0], input, isEmail) && FieldPasses(rs[1], input, isEmail)
        && FieldPasses(rs[2], input, isEmail) && FieldPasses(rs[3], input, isEmail)
        && FieldPasses(rs[4], input, isEmail);
    }
    if ReportFields(input, reporters, categories) {
      forall j | 0 <= j < |rs| ensures FieldPasses(rs[j], input, isEmail) {
        if j == 0 {} else if j == 1 {} else if j == 2 {} else if j == 3 {}
      }
    }
  }

  /** The insert leaves `status` out when the request did, and the column's default fills it. */
  function WithDefaultStatus(input: Input): Prep {
    if "status" in input then AsValidated else Prep({}, map["status" := Text(DefaultStatus)])
  }

  /** `store`: authorize, validate, create; the database then checks `status`. */
  function Store(t: Table, reporters: Table, categories: Table, gate: Decision, input: Input,
                 isEmail: string -> bool, now: int): (r: Result<Saved>)
    requires Valid(t)
    ensures gate.Deny? ==> r == Err(Forbidden(gate.message))
    ensures r.Ok? <==> gate.Allow? && ReportFields(input, reporters, categories) && StatusFits(input)
    // a status sent as null or blank passes validation but not the column's constraint
    ensures r == Err(ConstraintViolation("status")) <==>
      gate.Allow? && ReportFields(input, reporters, categories) && !StatusFits(input)
    // a report left without a status gets the default, and every stored status is an enum value
    ensures r.Ok? ==>
      "status" in r.value.record.fields
      && r.value.record.fields["status"] == (if "status" in input then input["status"] else Text(DefaultStatus))
      && Storable(r.value.record.fields["status"])
    // the report points at an existing reporter and an existing category
    ensures r.Ok? ==>
      "pelapor_id" in r.value.record.fields && IsNumeric(r.value.record.fields["pelapor_id"])
      && NumericValue(r.value.record.fields["pelapor_id"]) in Ids(reporters)
      && "kategori_id" in r.value.record.fields && IsNumeric(r.value.record.fields["kategori_id"])
      && NumericValue(r.value.record.fields["kategori_id"]) in Ids(categories)
    ensures r.Ok? ==> r.value.record.id == t.nextId && r.value.table.rows == t.rows + [r.value.record]
  {
    RulesMeaning(reporters, categories, input, isEmail);
    StoreFields(reporters, categories, input);
    var s := Crud.Store(t, gate, Rules(reporters, categories), input, isEmail, WithDefaultStatus(input), now);
    if s.Ok? && !Storable(s.value.record.fields["status"]) then Err(ConstraintViolation("status")) else s
  }

  lemma StoreFields(reporters: Table, categories: Table, input: Input)
    ensures var f := Apply(WithDefaultStatus(input), Selected(Rules(reporters, categories), input));
      "status" in f && f["status"] == (if "status" in input then input["status"] else Text(DefaultStatus))
      && ("pelapor_id" in input ==> "pelapor_id" in f && f["pelapor_id"] == input["pelapor_id"])
      && ("kategori_id" in input ==> "kategori_id" in f && f["kategori_id"] == input["kategori_id"])
  {
    var rs := Rules(reporters, categories);
    assert rs[0].field == "pelapor_id" && rs[1].field == "kategori_id" && rs[4].field == "status";
  }

  /**
   * `update` as written. The resource route names its parameter `{laporan}`
   * but the action's model parameter is `$lapo`, so route-model binding leaves
   * it alone and the container injects a new, unsaved report. The gate and the
   * validator still run; `update` on an unsaved model writes nothing, and the
   * action answers success. The id in the URL is never read.
   */
  function UpdateAsWritten(t: Table, reporters: Table, categories: Table, gate: Decision, id: int, input: Input,
                           isEmail: string -> bool): (r: Result<Table>)
    ensures gate.Deny? ==> r == Err(Forbidden(gate.message))
    ensures r.Ok? <==> gate.Allow? && ReportFields(input, reporters, categories)
    ensures r.Ok? ==> r.value == t
  {
    RulesMeaning(reporters, categories, input, isEmail);
    if gate.Deny? then Err(Forbidden(gate.message))
    else match Validate(Rules(reporters, categories), input, isEmail)
      case Failed(errors) => Err(Unprocessable(errors))
      case Passed(_) => Ok(t)
  }

  /** `destroy` as written: the gate, then `delete` on the same unsaved model, which deletes nothing. */
  function DestroyAsWritten(t: Table, gate: Decision, id: int): (r: Result<Table>)
    ensures gate.Deny? ==> r == Err(Forbidden(gate.message))
    ensures r.Ok? <==> gate.Allow?
    ensures r.Ok? ==> r.value == t
  {
    if gate.Deny? then Err(Forbidden(gate.message)) else Ok(t)
  }

  /** `update` as intended: bind the row, authorize, validate, fill and save; the database then checks `status`. */
  function Update(t: Table, reporters: Table, categories: Table, gate: Decision, id: int, input: Input,
                  isEmail: string -> bool, now: int): (r: Result<Saved>)
    requires Valid(t)
    ensures id !in Ids(t) ==> r == Err(NotFound)
    ensures id in Ids(t) && gate.Deny? ==> r == Err(Forbidden(gate.message))
    ensures r.Ok? <==>
      id in Ids(t) && gate.Allow? && ReportFields(input, reporters, categories) && StatusFits(input)
    ensures r.Ok? ==> forall k :: k in input && Declares(Rules(reporters, categories), k) ==>
      StringForm(ValueOf(r.value.record.fields, k)) == StringForm(input[k])
    ensures r.Ok? ==> Find(r.value.table, id) == Some(r.value.record) && Ids(r.value.table) == Ids(t)
    ensures r.Ok? ==> forall other :: other != id ==> Find(r.value.table, other) == Find(t, other)
  {
    RulesMeaning(reporters, categories, input, isEmail);
    UpdateReadsBack(t, BeforeGate, gate, id, Rules(reporters, categories), input, isEmail, now);
    var s := Crud.Update(t, BeforeGate, gate, id, Rules(reporters, categories), input, isEmail, AsValidated, now);
    if s.Ok? && !StatusFits(input) then Err(ConstraintViolation("status")) else s
  }

  /** `destroy` as intended: bind the row, authorize, delete. */
  function Destroy(t: Table, gate: Decision, id: int): (r: Result<Table>)
    requires Valid(t)
    ensures id !in Ids(t) ==> r == Err(NotFound)
    ensures id in Ids(t) && gate.Deny? ==> r == Err(Forbidden(gate.message))
    ensures r.Ok? <==> id in Ids(t) && gate.Allow?
    // exactly the row keyed `id` is gone; every other row reads as before
    ensures r.Ok? ==> Ids(r.value) == Ids(t) - {id} && Find(r.value, id) == None
    ensures r.Ok? ==> forall other :: other != id ==> Find(r.value, other) == Find(t, other)
  {
    Crud.Destroy(t, BeforeGate, gate, id)
  }

  /**
   * Whenever the intended update would change the row, the action as written
   * answers success and leaves the table as it was.
   */
  lemma UpdateAsWrittenLosesChange(t: Table, reporters: Table, categories: Table, gate: Decision, id: int,
                                   input: Input, isEmail: string -> bool, now: int)
    requires Valid(t)
    ensures var r := Update(t, reporters, categories, gate, id, input, isEmail, now);
      r.Ok? && Dirty(Find(t, id).value, Selected(Rules(reporters, categories), input)) ==>
        UpdateAsWritten(t, reporters, categories, gate, id, input, isEmail) == Ok(t) && r.value.table != t
  {
    var r := Update(t, reporters, categories, gate, id, input, isEmail, now);
    if r.Ok? && Dirty(Find(t, id).value, Selected(Rules(reporters, categories), input)) {
      var row := Find(t, id).value;
      var data := Selected(Rules(reporters, categories), input);
      AsValidatedKeeps(data);
      assert r.value.record == Merge(row, data, now);
      assert r.value.record != row;
      assert Find(r.value.table, id) != Find(t, id);
    }
  }

  /** For an id no row has, the action as written answers success where the intended one answers 404. */
  lemma UpdateAsWrittenUnknownId(t: Table, reporters: Table, categories: Table, gate: Decision, id: int,
                                 input: Input, isEmail: string -> bool, now: int)
    requires Valid(t) && id !in Ids(t)
    requires gate.Allow? && ReportFields(input, reporters, categories)
    ensures UpdateAsWritten(t, reporters, categories, gate, id, input, isEmail) == Ok(t)
    ensures Update(t, reporters, categories, gate, id, input, isEmail, now) == Err(NotFound)
  {
  }

  /** The delete as written answers success and keeps the row the intended one removes. */
  lemma DestroyAsWrittenKeepsRow(t: Table, gate: Decision, id: int)
    requires Valid(t) && id in Ids(t) && gate.Allow?
    ensures DestroyAsWritten(t, gate, id) == Ok(t) && id in Ids(DestroyAsWritten(t, gate, id).value)
    ensures Destroy(t, gate, id).Ok? && id !in Ids(Destroy(t, gate, id).value)
  {
  }
}
