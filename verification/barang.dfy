/**
 * The item controller (app/Http/Controllers/Api/BarangController.php): its
 * list query, the item code `store` synthesises from the request and the
 * clock, and the rule sets of `store` and `update`.
 */
module Barang {
  import opened Text
  import opened Values
  import opened Validation
  import opened Listing
  import opened Tables
  import opened Policies
  import opened Crud

  /** `index`: items whose name or code contains the term, newest first. */
  function Index(t: Table, req: ListRequest): (q: ListQuery)
    ensures forall x :: x in q.rows <==>
      x in t.rows
      && (Truthy(req.search) ==>
            FieldContains(x, "nama", req.search.value) || FieldContains(x, "kode", req.search.value))
    // each listed row as often as the table holds it
    ensures forall x :: multiset(q.rows)[x] == if x in q.rows then multiset(t.rows)[x] else 0
    ensures NewestFirst(q.rows)
    ensures req.page.None? ==> q.page == 1
    ensures req.perPage.None? ==> q.perPage == 10
    ensures req.page.Some? ==> q.page == PhpIntCast(req.page.value)
    ensures req.perPage.Some? ==> q.perPage == PhpIntCast(req.perPage.value)
  {
    var q := Listing.Index(t.rows, ["nama", "kode"], req);
    assert forall x :: x in q.rows <==>
      x in t.rows
      && (Truthy(req.search) ==>
            FieldContains(x, "nama", req.search.value) || FieldContains(x, "kode", req.search.value)) by {
      forall x ensures Truthy(req.search) ==>
        (Matches(x, ["nama", "kode"], req.search.value) <==>
         FieldContains(x, "nama", req.search.value) || FieldContains(x, "kode", req.search.value)) {
        if Truthy(req.search) {
          MatchesTwo(x, "nama", "kode", req.search.value);
        }
      }
    }
    q
  }

  /** The calendar reading of `Carbon::now()` that the code uses. */
  datatype Clock = Clock(year: nat, month: nat, hour: nat, minute: nat)

  predicate ValidClock(c: Clock) {
    1 <= c.month <= 12 && c.hour < 24 && c.minute < 60
  }

  /** `Str::substr($nama, 0, 3)`: the first three characters at most. */
  function FirstThree(nama: string): string {
    nama[..if |nama| < 3 then |nama| else 3]
  }

  /**
   * `Str::upper(Str::substr($nama, 0, 3))`. `Str::upper` is `mb_strtoupper`,
   * given here as `upper`, its mapping of one character.
   */
  function NamePrefix(nama: string, upper: char -> string): string {
    MapChars(FirstThree(nama), upper)
  }

  /**
   * The prefix is the upper-cased first three characters. It can be longer
   * than three (ß becomes SS); under a one-for-one mapping it has exactly
   * min(3, |nama|) characters, each the mapping of the name's character.
   */
  lemma NamePrefixShape(nama: string, upper: char -> string)
    ensures |nama| <= 3 ==> NamePrefix(nama, upper) == MapChars(nama, upper)
    ensures OneForOne(upper) ==>
      |NamePrefix(nama, upper)| == (if |nama| < 3 then |nama| else 3)
      && forall i :: 0 <= i < |NamePrefix(nama, upper)| ==> NamePrefix(nama, upper)[i] == upper(nama[i])[0]
  {
    if |nama| <= 3 {
      assert FirstThree(nama) == nama;
    }
    if OneForOne(upper) {
      MapCharsInPlace(FirstThree(nama), upper);
    }
  }

  /** `format('m')`, `format('H')`, `format('i')`: two digits, zero-padded. */
  function TwoDigits(n: nat): (s: string)
    requires n < 100
    ensures |s| == 2 && AllDigits(s)
  {
    assert Pow10(2) == 100;
    DecimalFits(n, 2);
    ParseZeroPad(n, 2);
    ZeroPad(NatToDecimal(n), 2)
  }

  /** `format('Y')`: at least four digits, zero-padded. */
  function YearDigits(y: nat): (s: string)
    ensures |s| >= 4 && AllDigits(s)
    ensures y < 10000 ==> |s| == 4
  {
    assert Pow10(4) == 10000 by {
      assert Pow10(2) == 100;
    }
    assert y < 10000 ==> |NatToDecimal(y)| <= 4 by {
      if y < 10000 { DecimalFits(y, 4); }
    }
    ParseZeroPad(y, 4);
    ZeroPad(NatToDecimal(y), 4)
  }

  /** `format('Y')`, `format('m')` and `format('Hi')` run together. */
  function DateSuffix(c: Clock): (s: string)
    requires ValidClock(c)
    ensures AllDigits(s) && |s| >= 10
    ensures c.year < 10000 ==> |s| == 10
  {
    var y, m, h, i := YearDigits(c.year), TwoDigits(c.month), TwoDigits(c.hour), TwoDigits(c.minute);
    AllDigitsConcat(y, m);
    AllDigitsConcat(y + m, h);
    AllDigitsConcat(y + m + h, i);
    y + m + h + i
  }

  lemma TwoDigitsValue(n: nat)
    requires n < 100
    ensures ParseDigits(TwoDigits(n)) == n
  {
    ParseZeroPad(n, 2);
  }

  lemma YearDigitsValue(y: nat)
    ensures ParseDigits(YearDigits(y)) == y
  {
    ParseZeroPad(y, 4);
  }

  /** The four parts of a concatenation, recovered by position. */
  lemma SplitFour(a: string, b: string, c: string, d: string)
    ensures var s := a + b + c + d;
      s[..|a|] == a && s[|a|..|a| + |b|] == b
      && s[|a| + |b|..|a| + |b| + |c|] == c && s[|a| + |b| + |c|..] == d
  {
  }

  /** The ten date digits read back as year, month, hour and minute. */
  lemma DateSuffixFields(c: Clock)
    requires ValidClock(c) && c.year < 10000
    ensures var s := DateSuffix(c);
      |s| == 10
      && ParseDigits(s[..4]) == c.year && ParseDigits(s[4..6]) == c.month
      && ParseDigits(s[6..8]) == c.hour && ParseDigits(s[8..]) == c.minute
  {
    var y, m, h, i := YearDigits(c.year), TwoDigits(c.month), TwoDigits(c.hour), TwoDigits(c.minute);
    YearDigitsValue(c.year);
    TwoDigitsValue(c.month);
    TwoDigitsValue(c.hour);
    TwoDigitsValue(c.minute);
    SplitFour(y, m, h, i);
  }

  /** The `sprintf('K%dS%d%s%s%s%s', …)` layout, given its parts. */
  function Layout(kategori: int, supplier: int, prefix: string, date: string): string {
    "K" + IntToDecimal(kategori) + "S" + IntToDecimal(supplier) + prefix + date
  }

  /** The item code: category id, supplier id, name prefix and the date digits. */
  function ItemCode(kategori: Value, supplier: Value, nama: Value, c: Clock, upper: char -> string): string
    requires ValidClock(c)
  {
    Layout(IntCast(kategori), IntCast(supplier), NamePrefix(StringForm(nama), upper), DateSuffix(c))
  }

  /** The code built from a request's raw fields. */
  function CodeOf(input: Input, c: Clock, upper: char -> string): string
    requires ValidClock(c)
  {
    ItemCode(ValueOf(input, "kategori_id"), ValueOf(input, "supplier_id"), ValueOf(input, "nama"), c, upper)
  }

  lemma Regroup(a: string, b: string, c: string, d: string, e: string, f: string)
    ensures a + b + c + d + e + f == a + (b + (c + d + e + f))
  {
  }

  lemma LayoutCategory(k: nat, s: int, prefix: string, date: string)
    ensures Layout(k, s, prefix, date)[0] == 'K'
    ensures ParseDigits(DigitPrefix(Layout(k, s, prefix, date)[1..])) == k
  {
    var d := NatToDecimal(k);
    var rest := "S" + IntToDecimal(s) + prefix + date;
    Regroup("K", d, "S", IntToDecimal(s), prefix, date);
    assert Layout(k, s, prefix, date) == "K" + (d + rest);
    DigitPrefixStops(d, rest);
    ParseNatToDecimal(k);
  }

  lemma LayoutEnd(k: int, s: int, prefix: string, date: string)
    ensures var code := Layout(k, s, prefix, date);
      |code| >= |date| && code[|code| - |date|..] == date
  {
    var head := "K" + IntToDecimal(k) + "S" + IntToDecimal(s) + prefix;
    assert Layout(k, s, prefix, date) == head + date;
  }

  lemma LayoutShift(k: int, s: nat, d: nat, short: int, long: int, longer: string, prefix: string, date: string)
    requires s >= 1 && d < 10 && short == s && long == 10 * s + d && longer == [DigitChar(d)] + prefix
    ensures Layout(k, short, longer, date) == Layout(k, long, prefix, date)
  {
    assert long / 10 == s && long % 10 == d;
    assert IntToDecimal(long) == IntToDecimal(s) + [DigitChar(d)];
    var h := "K" + IntToDecimal(k) + "S";
    var a := IntToDecimal(s);
    var c := [DigitChar(d)];
    assert h + a + (c + prefix) + date == h + (a + c) + prefix + date;
  }

  /** The code opens with 'K' and the category id, which reads back up to the 'S'. */
  lemma CodeStartsWithCategory(kategori: Value, supplier: Value, nama: Value, c: Clock, upper: char -> string)
    requires ValidClock(c) && IntCast(kategori) >= 0
    ensures ItemCode(kategori, supplier, nama, c, upper)[0] == 'K'
    ensures ParseDigits(DigitPrefix(ItemCode(kategori, supplier, nama, c, upper)[1..])) == IntCast(kategori)
  {
    LayoutCategory(IntCast(kategori), IntCast(supplier), NamePrefix(StringForm(nama), upper), DateSuffix(c));
  }

  /** For years below 10000 the code ends with the ten date digits, which read back as the clock. */
  lemma CodeEndsWithDate(kategori: Value, supplier: Value, nama: Value, c: Clock, upper: char -> string)
    requires ValidClock(c) && c.year < 10000
    ensures var code := ItemCode(kategori, supplier, nama, c, upper);
      |code| >= 10 && code[|code| - 10..] == DateSuffix(c)
      && ParseDigits(DateSuffix(c)[..4]) == c.year && ParseDigits(DateSuffix(c)[4..6]) == c.month
      && ParseDigits(DateSuffix(c)[6..8]) == c.hour && ParseDigits(DateSuffix(c)[8..]) == c.minute
  {
    DateSuffixFields(c);
    LayoutEnd(IntCast(kategori), IntCast(supplier), NamePrefix(StringForm(nama), upper), DateSuffix(c));
  }

  /**
   * Codes are not unique: a name starting with a digit reads as one more digit
   * of the supplier id, so two different requests in the same minute can get
   * the same code.
   */
  lemma SupplierDigitAmbiguity(kategori: Value, s: nat, d: nat, rest: string, c: Clock, upper: char -> string)
    requires ValidClock(c) && KeepsDigits(upper) && s >= 1 && d < 10 && |rest| <= 2
    ensures ItemCode(kategori, Number(s), Text([DigitChar(d)] + rest), c, upper)
         == ItemCode(kategori, Number(10 * s + d), Text(rest), c, upper)
  {
    var longer := NamePrefix([DigitChar(d)] + rest, upper);
    var prefix := NamePrefix(rest, upper);
    var k := IntCast(kategori);
    var date := DateSuffix(c);
    var long := 10 * s + d;
    NamePrefixDigit(d, rest, upper);
    assert IntCast(Number(s)) == s && IntCast(Number(long)) == long;
    assert StringForm(Text([DigitChar(d)] + rest)) == [DigitChar(d)] + rest && StringForm(Text(rest)) == rest;
    LayoutShift(k, s, d, s, long, longer, prefix, date);
  }

  /** A leading digit survives upper-casing and stays in front of the rest of the prefix. */
  lemma NamePrefixDigit(d: nat, rest: string, upper: char -> string)
    requires d < 10 && |rest| <= 2 && KeepsDigits(upper)
    ensures NamePrefix([DigitChar(d)] + rest, upper) == [DigitChar(d)] + NamePrefix(rest, upper)
  {
    var name := [DigitChar(d)] + rest;
    assert FirstThree(name) == name && FirstThree(rest) == rest;
    assert name[0] == DigitChar(d) && name[1..] == rest;
    assert upper(DigitChar(d)) == [DigitChar(d)];
  }

  const StoreRules: Schema := [
    FieldRules("nama", [Required, IsString, Max(255)]),
    FieldRules("kategori_id", [Required, Numeric]),
    FieldRules("supplier_id", [Required, Numeric]),
    FieldRules("merk", [Required, Nullable, IsString, Max(255)]),
    FieldRules("spesifikasi", [Required, Nullable, IsString, Max(255)]),
    FieldRules("satuan", [Required, IsString, Max(255)]),
    FieldRules("stok", [Required, Numeric]),
    FieldRules("stok_minimum", [Required, Numeric]),
    FieldRules("gambar", [Nullable, IsString])
  ]

  /** `update` also demands the code, as a string. */
  const UpdateRules: Schema := [FieldRules("kode", [Required, IsString])] + StoreRules

  /** What the item fields must look like, in plain terms. */
  predicate ItemFields(input: Input) {
    RequiredTextUpTo(input, "nama", 255)
    && RequiredNumber(input, "kategori_id") && RequiredNumber(input, "supplier_id")
    && RequiredTextUpTo(input, "merk", 255) && RequiredTextUpTo(input, "spesifikasi", 255)
    && RequiredTextUpTo(input, "satuan", 255)
    && RequiredNumber(input, "stok") && RequiredNumber(input, "stok_minimum")
    && OptionalText(input, "gambar")
  }

  lemma StoreRulesMeaning(input: Input, isEmail: string -> bool)
    ensures Passes(StoreRules, input, isEmail) <==> ItemFields(input)
  {
    var rs := StoreRules;
    RequiredStringMax("nama", 255, input, isEmail);
    RequiredNumeric("kategori_id", input, isEmail);
    RequiredNumeric("supplier_id", input, isEmail);
    RequiredNullableStringMax("merk", 255, input, isEmail);
    RequiredNullableStringMax("spesifikasi", 255, input, isEmail);
    RequiredStringMax("satuan", 255, input, isEmail);
    RequiredNumeric("stok", input, isEmail);
    RequiredNumeric("stok_minimum", input, isEmail);
    NullableString("gambar", input, isEmail);
    if Passes(rs, input, isEmail) {
      assert FieldPasses(rs[0], input, isEmail) && FieldPasses(rs[1], input, isEmail)
        && FieldPasses(rs[2], input, isEmail) && FieldPasses(rs[3], input, isEmail)
        && FieldPasses(rs[4], input, isEmail) && FieldPasses(rs[5], input, isEmail)
        && FieldPasses(rs[6], input, isEmail) && FieldPasses(rs[7], input, isEmail)
        && FieldPasses(rs[8], input, isEmail);
    }
    if ItemFields(input) {
      forall j | 0 <= j < |rs| ensures FieldPasses(rs[j], input, isEmail) {
        if j == 0 {} else if j == 1 {} else if j == 2 {} else if j == 3 {}
        else if j == 4 {} else if j == 5 {} else if j == 6 {} else if j == 7 {}
      }
    }
  }

  lemma UpdateRulesMeaning(input: Input, isEmail: string -> bool)
    ensures Passes(UpdateRules, input, isEmail) <==> RequiredText(input, "kode") && ItemFields(input)
  {
    StoreRulesMeaning(input, isEmail);
    RequiredString("kode", input, isEmail);
    var rs := UpdateRules;
    assert rs[0] == FieldRules("kode", [Required, IsString]);
    assert forall j :: 1 <= j < |rs| ==> rs[j] == StoreRules[j - 1];
    if Passes(rs, input, isEmail) {
      assert FieldPasses(rs[0], input, isEmail);
      forall j | 0 <= j < |StoreRules| ensures FieldPasses(StoreRules[j], input, isEmail) {
        assert FieldPasses(rs[j + 1], input, isEmail);
      }
    }
  }

  /** The validated item fields with the synthesised code added. */
  function WithCode(code: string): Prep {
    Prep({}, map["kode" := Text(code)])
  }

  lemma WithCodeFields(input: Input, code: string)
    ensures var f := Apply(WithCode(code), Selected(StoreRules, input));
      "kode" in f && f["kode"] == Text(code)
      && (forall k :: k in f <==> k == "kode" || (k in input && Declares(StoreRules, k)))
      && (forall k :: k in f && k != "kode" ==> f[k] == input[k])
  {
  }

  /**
   * `store`: authorize, validate the item fields, add the synthesised code, create.
   * `now` is the row's timestamp, `clock` its calendar reading and `upper`
   * the character mapping of `Str::upper`.
   */
  function Store(t: Table, gate: Decision, input: Input, isEmail: string -> bool, clock: Clock,
                 upper: char -> string, now: int): (r: Result<Saved>)
    requires Valid(t) && ValidClock(clock)
    ensures gate.Deny? ==> r == Err(Forbidden(gate.message))
    ensures r.Ok? <==> gate.Allow? && ItemFields(input)
    // the stored code is always the synthesised one, whatever code the client sent
    ensures r.Ok? ==> "kode" in r.value.record.fields && r.value.record.fields["kode"] == Text(CodeOf(input, clock, upper))
    ensures r.Ok? ==> forall k :: k in r.value.record.fields <==> k == "kode" || (k in input && Declares(StoreRules, k))
    ensures r.Ok? ==> forall k :: k in r.value.record.fields && k != "kode" ==> r.value.record.fields[k] == input[k]
    ensures r.Ok? ==> r.value.record.id == t.nextId && r.value.table.rows == t.rows + [r.value.record]
  {
    StoreRulesMeaning(input, isEmail);
    WithCodeFields(input, CodeOf(input, clock, upper));
    Crud.Store(t, gate, StoreRules, input, isEmail, WithCode(CodeOf(input, clock, upper)), now)
  }

  /** `update`: authorize, `findOrFail`, validate, fill and save the fields as sent. */
  function Update(t: Table, gate: Decision, id: int, input: Input, isEmail: string -> bool, now: int): (r: Result<Saved>)
    requires Valid(t)
    ensures gate.Deny? ==> r == Err(Forbidden(gate.message))
    ensures gate.Allow? && id !in Ids(t) ==> r == Err(NotFound)
    ensures r.Ok? <==> gate.Allow? && id in Ids(t) && RequiredText(input, "kode") && ItemFields(input)
    // the code is stored as the client sent it, never recomputed from the other fields
    ensures r.Ok? ==>
      "kode" in r.value.record.fields && "kode" in input
      && StringForm(r.value.record.fields["kode"]) == StringForm(input["kode"])
    ensures r.Ok? ==> forall k :: k in input && Declares(UpdateRules, k) ==>
      StringForm(ValueOf(r.value.record.fields, k)) == StringForm(input[k])
    // the answered record is the row now stored under `id`; no row appears, vanishes or otherwise changes
    ensures r.Ok? ==> Find(r.value.table, id) == Some(r.value.record) && Ids(r.value.table) == Ids(t)
    ensures r.Ok? ==> forall other :: other != id ==> Find(r.value.table, other) == Find(t, other)
  {
    UpdateRulesMeaning(input, isEmail);
    UpdateReadsBack(t, gate, id, input, isEmail, now);
    Crud.Update(t, AfterGate, gate, id, UpdateRules, input, isEmail, AsValidated, now)
  }

  lemma UpdateReadsBack(t: Table, gate: Decision, id: int, input: Input, isEmail: string -> bool, now: int)
    requires Valid(t)
    ensures var r := Crud.Update(t, AfterGate, gate, id, UpdateRules, input, isEmail, AsValidated, now);
      r.Ok? ==>
        (forall k :: k in input && Declares(UpdateRules, k) ==>
           StringForm(ValueOf(r.value.record.fields, k)) == StringForm(input[k]))
        && "kode" in r.value.record.fields && "kode" in input
        && StringForm(r.value.record.fields["kode"]) == StringForm(input["kode"])
  {
    var r := Crud.Update(t, AfterGate, gate, id, UpdateRules, input, isEmail, AsValidated, now);
    if r.Ok? {
      MergeReadsBack(Find(t, id).value, Apply(AsValidated, Selected(UpdateRules, input)), now);
      UpdateRulesMeaning(input, isEmail);
      assert UpdateRules[0].field == "kode";
    }
  }

  /** `destroy`: authorize, `findOrFail`, delete. */
  function Destroy(t: Table, gate: Decision, id: int): (r: Result<Table>)
    requires Valid(t)
    ensures gate.Deny? ==> r == Err(Forbidden(gate.message))
    ensures gate.Allow? && id !in Ids(t) ==> r == Err(NotFound)
    ensures r.Ok? <==> gate.Allow? && id in Ids(t)
    // exactly the row keyed `id` is gone; every other row reads as before
    ensures r.Ok? ==> Ids(r.value) == Ids(t) - {id} && Find(r.value, id) == None
    ensures r.Ok? ==> forall other :: other != id ==> Find(r.value, other) == Find(t, other)
  {
    Crud.Destroy(t, AfterGate, gate, id)
  }
}
