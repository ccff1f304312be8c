/**
 * The declarative request validation every controller applies through
 * `$request->validate([...])`: a rule list per field, checked the way
 * Laravel's validator checks it.
 *
 * - `required` is the only implicit rule: it runs even when the field is
 *   missing or blank. Every other rule is skipped for a missing field and
 *   for a string that `trim` reduces to "".
 * - When the field's rules include `nullable`, the other non-implicit rules
 *   are skipped for a null value.
 * - Once `required` fails, the field's remaining rules are not run.
 * - Once any rule of a field fails, its `unique` and `exists` rules are not run.
 * - On success the validated data is the input restricted to the declared
 *   fields that are present in it.
 */
module Validation {
  import opened Text
  import opened Values

  datatype Rule =
    | Required
    | Nullable
    | IsString
    | Numeric
    | Max(limit: nat)
    | Min(limit: nat)
    | Email
    | Confirmed
    | In(options: seq<string>)
      /** `regex:/^[0-9\+\-\(\)\s]*$/`, the supplier contact pattern */
    | PhonePattern
      /** `exists:<table>,id`, given the ids currently in that table */
    | Exists(ids: set<int>)
      /** `unique:<table>,<column>[,<ignored id>]`, given the values that would clash */
    | Unique(taken: set<string>)

  datatype FieldRules = FieldRules(field: string, rules: seq<Rule>)

  type Schema = seq<FieldRules>

  type Input = map<string, Value>

  datatype FieldError = FieldError(field: string, rule: Rule)

  datatype Verdict = Passed(data: Input) | Failed(errors: seq<FieldError>)

  predicate IsBlankText(v: Value) {
    v.Text? && IsBlank(v.s)
  }

  /** The size `max`/`min` compare: the number itself under `numeric`, else the length. */
  function Size(v: Value, rules: seq<Rule>): int {
    if Numeric in rules && IsNumeric(v) then NumericValue(v) else |StringForm(v)|
  }

  /** The characters the contact pattern admits: digits, + - ( ) and PCRE's `\s`. */
  predicate PhoneChar(c: char) {
    IsDigit(c) || c == '+' || c == '-' || c == '(' || c == ')'
    || c == ' ' || c == '\t' || c == '\n' || c == '\r' || c == '\U{B}' || c == '\U{C}'
  }

  predicate AllPhoneChars(s: string) {
    forall i :: 0 <= i < |s| ==> PhoneChar(s[i])
  }

  /** Whether `rule` is checked at all for this field (Laravel's `isValidatable`). */
  predicate Runs(rule: Rule, rules: seq<Rule>, field: string, input: Input) {
    if rule == Required then true
    else
      field in input
      && !IsBlankText(input[field])
      && !(Nullable in rules && input[field] == Null)
  }

  /** Whether `rule` accepts the field's value. */
  predicate Holds(rule: Rule, rules: seq<Rule>, field: string, input: Input, isEmail: string -> bool) {
    var v := ValueOf(input, field);
    match rule
    case Required => v != Null && !IsBlankText(v)
    case Nullable => true
    case IsString => v.Text?
    case Numeric => IsNumeric(v)
    case Max(limit) => Size(v, rules) <= limit
    case Min(limit) => Size(v, rules) >= limit
    case Email => v.Text? && isEmail(v.s)
    case Confirmed => ValueOf(input, field + "_confirmation") == v
    case In(options) => StringForm(v) in options
    case PhonePattern => (v.Text? || v.Number?) && AllPhoneChars(StringForm(v))
    case Exists(ids) => IsNumeric(v) && NumericValue(v) in ids
    case Unique(taken) => StringForm(v) !in taken
  }

  /** Every rule of the field that runs accepts the value. */
  predicate FieldPasses(fr: FieldRules, input: Input, isEmail: string -> bool) {
    forall i :: 0 <= i < |fr.rules| ==>
      (Runs(fr.rules[i], fr.rules, fr.field, input) ==> Holds(fr.rules[i], fr.rules, fr.field, input, isEmail))
  }

  /** `unique` and `exists`, which Laravel skips once the field has an error. */
  predicate PresenceRule(rule: Rule) {
    rule.Unique? || rule.Exists?
  }

  /**
   * The failed rules among `rules` (a suffix of the field's rule list `all`), in
   * order; `failed` says whether an earlier rule of the field has failed.
   */
  function Failures(field: string, rules: seq<Rule>, all: seq<Rule>, input: Input, isEmail: string -> bool,
                    failed: bool): (r: seq<Rule>)
    ensures forall k :: 0 <= k < |r| ==>
      r[k] in rules && Runs(r[k], all, field, input) && !Holds(r[k], all, field, input, isEmail)
    // a `unique` or `exists` failure is reported only as the field's first error
    ensures forall k :: 0 <= k < |r| && PresenceRule(r[k]) ==> k == 0 && !failed
    // while no rule has failed, the first rule that runs and fails is reported first
    ensures !failed && rules != [] && Runs(rules[0], all, field, input) && !Holds(rules[0], all, field, input, isEmail)
      ==> r != [] && r[0] == rules[0]
    decreases |rules|
  {
    if rules == [] then []
    else if failed && PresenceRule(rules[0]) then Failures(field, rules[1..], all, input, isEmail, failed)
    else if Runs(rules[0], all, field, input) && !Holds(rules[0], all, field, input, isEmail) then
      if rules[0] == Required then [rules[0]]
      else [rules[0]] + Failures(field, rules[1..], all, input, isEmail, true)
    else Failures(field, rules[1..], all, input, isEmail, failed)
  }

  /**
   * An address that is not valid is reported once, as `email`, whether or not
   * some row holds it: `unique` does not run after the failure.
   */
  lemma InvalidEmailSkipsUnique(taken: set<string>, input: Input, isEmail: string -> bool)
    requires "email" in input && input["email"].Text? && !IsBlank(input["email"].s) && !isEmail(input["email"].s)
    ensures Failures("email", [Required, Email, Unique(taken)], [Required, Email, Unique(taken)], input, isEmail, false)
         == [Email]
  {
    var all := [Required, Email, Unique(taken)];
    assert all[1..] == [Email, Unique(taken)] && all[1..][1..] == [Unique(taken)] && all[1..][1..][1..] == [];
    assert Nullable !in all;
    assert Holds(Required, all, "email", input, isEmail);
    assert Runs(Email, all, "email", input) && !Holds(Email, all, "email", input, isEmail);
    assert Failures("email", [Unique(taken)], all, input, isEmail, true) == [];
    assert Failures("email", [Email, Unique(taken)], all, input, isEmail, false) == [Email];
  }

  lemma {:induction false} FailuresEmpty(field: string, rules: seq<Rule>, all: seq<Rule>, input: Input, isEmail: string -> bool)
    ensures Failures(field, rules, all, input, isEmail, false) == [] <==>
      forall i :: 0 <= i < |rules| ==> (Runs(rules[i], all, field, input) ==> Holds(rules[i], all, field, input, isEmail))
    decreases |rules|
  {
    if rules != [] {
      FailuresEmpty(field, rules[1..], all, input, isEmail);
      assert forall i :: 1 <= i < |rules| ==> rules[i] == rules[1..][i - 1];
    }
  }

  function FieldErrors(field: string, failed: seq<Rule>): (r: seq<FieldError>)
    ensures |r| == |failed| && forall k :: 0 <= k < |r| ==> r[k] == FieldError(field, failed[k])
  {
    seq(|failed|, k requires 0 <= k < |failed| => FieldError(field, failed[k]))
  }

  /** `e` names a declared field and one of its rules that rejects the field's value. */
  predicate Justified(schema: Schema, e: FieldError, input: Input, isEmail: string -> bool) {
    exists j | 0 <= j < |schema| ::
      schema[j].field == e.field && e.rule in schema[j].rules && !Holds(e.rule, schema[j].rules, e.field, input, isEmail)
  }

  /** The errors of every field, in declaration order. */
  function Errors(schema: Schema, input: Input, isEmail: string -> bool): (r: seq<FieldError>)
    ensures forall k :: 0 <= k < |r| ==> Justified(schema, r[k], input, isEmail)
  {
    if schema == [] then []
    else
      var fr := schema[0];
      var head := FieldErrors(fr.field, Failures(fr.field, fr.rules, fr.rules, input, isEmail, false));
      var tail := Errors(schema[1..], input, isEmail);
      assert forall k :: 0 <= k < |tail| ==> Justified(schema, tail[k], input, isEmail) by {
        forall k | 0 <= k < |tail|
          ensures Justified(schema, tail[k], input, isEmail)
        {
          var j :| 0 <= j < |schema[1..]| && schema[1..][j].field == tail[k].field
            && tail[k].rule in schema[1..][j].rules
            && !Holds(tail[k].rule, schema[1..][j].rules, tail[k].field, input, isEmail);
          assert schema[1..][j] == schema[j + 1];
        }
      }
      head + tail
  }

  lemma {:induction false} ErrorsEmpty(schema: Schema, input: Input, isEmail: string -> bool)
    ensures Errors(schema, input, isEmail) == [] <==>
      forall j :: 0 <= j < |schema| ==> FieldPasses(schema[j], input, isEmail)
    decreases |schema|
  {
    if schema != [] {
      ErrorsEmpty(schema[1..], input, isEmail);
      FailuresEmpty(schema[0].field, schema[0].rules, schema[0].rules, input, isEmail);
      assert forall j :: 1 <= j < |schema| ==> schema[j] == schema[1..][j - 1];
    }
  }

  predicate Declares(schema: Schema, field: string) {
    exists j | 0 <= j < |schema| :: schema[j].field == field
  }

  /** Every declared field passes all its rules. */
  predicate Passes(schema: Schema, input: Input, isEmail: string -> bool) {
    forall j :: 0 <= j < |schema| ==> FieldPasses(schema[j], input, isEmail)
  }

  /** The declared fields the request supplied, with their values. */
  function Selected(schema: Schema, input: Input): Input {
    map k | k in input && Declares(schema, k) :: input[k]
  }

  /** A one-field rule set validates to just that field. */
  lemma SelectedSingle(field: string, rules: seq<Rule>, input: Input)
    ensures field in input ==> Selected([FieldRules(field, rules)], input) == map[field := input[field]]
  {
    var schema := [FieldRules(field, rules)];
    assert forall k :: Declares(schema, k) <==> k == field by {
      assert schema[0].field == field;
    }
    if field in input {
      assert Selected(schema, input).Keys == {field};
    }
  }

  /** `$request->validate($rules)`. */
  function Validate(schema: Schema, input: Input, isEmail: string -> bool): (r: Verdict)
    // it succeeds exactly when every declared field passes all its rules
    ensures r.Passed? <==> Passes(schema, input, isEmail)
    // the validated data holds the declared fields the request supplied, unchanged
    ensures r.Passed? ==> forall k :: k in r.data <==> k in input && Declares(schema, k)
    ensures r.Passed? ==> forall k :: k in r.data ==> r.data[k] == input[k]
    ensures r.Passed? ==> r.data == Selected(schema, input)
    // every reported error is a declared rule of a declared field that rejects the value
    ensures r.Failed? ==>
      |r.errors| > 0 && forall k :: 0 <= k < |r.errors| ==> Justified(schema, r.errors[k], input, isEmail)
  {
    ErrorsEmpty(schema, input, isEmail);
    var errors := Errors(schema, input, isEmail);
    if errors == [] then Passed(Selected(schema, input))
    else Failed(errors)
  }

  // ---- The rule lists the controllers use, each with its plain meaning ----

  /** `required|string|max:n` and `required|nullable|string|max:n`. */
  predicate RequiredTextUpTo(input: Input, field: string, limit: nat) {
    field in input && input[field].Text? && !IsBlank(input[field].s) && |input[field].s| <= limit
  }

  /** `required|string`. */
  predicate RequiredText(input: Input, field: string) {
    field in input && input[field].Text? && !IsBlank(input[field].s)
  }

  /** `string|nullable|max:n`: absent, null, blank, or a string of at most n characters. */
  predicate OptionalTextUpTo(input: Input, field: string, limit: nat) {
    field !in input || input[field] == Null
    || (input[field].Text? && (IsBlank(input[field].s) || |input[field].s| <= limit))
  }

  lemma RequiredStringMax(field: string, limit: nat, input: Input, isEmail: string -> bool)
    ensures FieldPasses(FieldRules(field, [Required, IsString, Max(limit)]), input, isEmail)
      <==> RequiredTextUpTo(input, field, limit)
  {
    var rs := [Required, IsString, Max(limit)];
    if RequiredTextUpTo(input, field, limit) {
      assert Numeric !in rs;
    } else {
      assert !(Runs(rs[0], rs, field, input) ==> Holds(rs[0], rs, field, input, isEmail))
        || !(Runs(rs[1], rs, field, input) ==> Holds(rs[1], rs, field, input, isEmail))
        || !(Runs(rs[2], rs, field, input) ==> Holds(rs[2], rs, field, input, isEmail));
    }
  }

  lemma RequiredNullableStringMax(field: string, limit: nat, input: Input, isEmail: string -> bool)
    ensures FieldPasses(FieldRules(field, [Required, Nullable, IsString, Max(limit)]), input, isEmail)
      <==> RequiredTextUpTo(input, field, limit)
  {
    var rs := [Required, Nullable, IsString, Max(limit)];
    if RequiredTextUpTo(input, field, limit) {
      assert Numeric !in rs;
    } else {
      assert !(Runs(rs[0], rs, field, input) ==> Holds(rs[0], rs, field, input, isEmail))
        || !(Runs(rs[2], rs, field, input) ==> Holds(rs[2], rs, field, input, isEmail))
        || !(Runs(rs[3], rs, field, input) ==> Holds(rs[3], rs, field, input, isEmail));
    }
  }

  lemma RequiredString(field: string, input: Input, isEmail: string -> bool)
    ensures FieldPasses(FieldRules(field, [Required, IsString]), input, isEmail) <==> RequiredText(input, field)
  {
    var rs := [Required, IsString];
    if !RequiredText(input, field) {
      assert !(Runs(rs[0], rs, field, input) ==> Holds(rs[0], rs, field, input, isEmail))
        || !(Runs(rs[1], rs, field, input) ==> Holds(rs[1], rs, field, input, isEmail));
    }
  }

  lemma StringNullableMax(field: string, limit: nat, input: Input, isEmail: string -> bool)
    ensures FieldPasses(FieldRules(field, [IsString, Nullable, Max(limit)]), input, isEmail)
      <==> OptionalTextUpTo(input, field, limit)
  {
    var rs := [IsString, Nullable, Max(limit)];
    if OptionalTextUpTo(input, field, limit) {
      assert Numeric !in rs;
    } else {
      assert !(Runs(rs[0], rs, field, input) ==> Holds(rs[0], rs, field, input, isEmail))
        || !(Runs(rs[2], rs, field, input) ==> Holds(rs[2], rs, field, input, isEmail));
    }
  }

  /** `required|numeric`: present and numeric. */
  predicate RequiredNumber(input: Input, field: string) {
    field in input && IsNumeric(input[field])
  }

  /** `nullable|string`: absent, null or a string. */
  predicate OptionalText(input: Input, field: string) {
    field !in input || input[field] == Null || input[field].Text?
  }

  /** An integer literal starts with a sign or a digit, so `trim` never empties it. */
  lemma NumericNotBlank(v: Value)
    requires IsNumeric(v)
    ensures !IsBlankText(v) && v != Null
  {
    if v.Text? {
      assert !TrimmedChar(v.s[0]);
    }
  }

  lemma RequiredNumeric(field: string, input: Input, isEmail: string -> bool)
    ensures FieldPasses(FieldRules(field, [Required, Numeric]), input, isEmail) <==> RequiredNumber(input, field)
  {
    var rs := [Required, Numeric];
    if RequiredNumber(input, field) {
      NumericNotBlank(input[field]);
    } else {
      assert !(Runs(rs[0], rs, field, input) ==> Holds(rs[0], rs, field, input, isEmail))
        || !(Runs(rs[1], rs, field, input) ==> Holds(rs[1], rs, field, input, isEmail));
    }
  }

  lemma NullableString(field: string, input: Input, isEmail: string -> bool)
    ensures FieldPasses(FieldRules(field, [Nullable, IsString]), input, isEmail) <==> OptionalText(input, field)
  {
    var rs := [Nullable, IsString];
    if !OptionalText(input, field) {
      assert !(Runs(rs[1], rs, field, input) ==> Holds(rs[1], rs, field, input, isEmail));
    }
  }
}
