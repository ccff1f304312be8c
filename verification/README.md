# manajemen_laporan — a Dafny model of the API core

manajemen_laporan is a Laravel + React admin application for inventory items
(barang), suppliers, item categories, users, reporters (pelapor), report
categories (kategori laporan) and reports (laporan). This project models, as
pure Dafny functions over immutable data, what its API controllers do with a
request:

- the list query of every `index`: an optional search, newest first, paged;
- the declarative rule set every `store` and `update` validates with;
- the write that follows validation;
- the item code `store` synthesises for a new item;
- the user controller's password handling;
- the two registered authorization policies.

It also models the page selector the React tables share.

Modules, one per file:

| file | module | models |
|---|---|---|
| `text.dfy` | `Text` | decimal digits, zero padding, PHP's `(int)` cast of a string, ASCII lower-casing, a per-character mapping given as a parameter, substring search, `trim` blanks |
| `values.dfy` | `Values` | request values (null, string, integer), PHP's string cast, `empty()`, truthiness and `is_numeric` |
| `validation.dfy` | `Validation` | the rules the controllers use (`required`, `nullable`, `string`, `numeric`, `max`, `min`, `email`, `confirmed`, `in`, `regex`, `exists`, `unique`) and the validator that applies them |
| `listing.dfy` | `Listing` | search columns, a stable newest-first sort, the query parameters and the page slice |
| `tables.dfy` | `Tables` | a table of rows keyed by an id sequence, with Eloquent's `create`, `update` (dirty attributes only) and `delete` |
| `policies.dfy` | `Policies` | `KategoriLaporanPolicy` and `PelaporPolicy` |
| `crud.dfy` | `Crud` | the shared `store` / `update` / `destroy` flow: gate, lookup, validation, preparation, write |
| `barang.dfy` … `laporan.dfy` | one per controller | each controller's search columns, rule sets and actions |
| `pagination.dfy` | `Pagination` | `getCenteredPagination`, the current page, page buttons and the go-to-page input |

The controller modules are `barang.dfy`, `users.dfy`, `supplier.dfy`,
`laporan.dfy`, `pelapor.dfy`, `kategori_laporan.dfy` and `kategori.dfy`.

Some things the code calls but does not define enter as parameters:

- the clock (`Carbon::now()`), as a `Clock` and a timestamp `now`;
- bcrypt, as `hash`;
- `Str::upper` (PHP's `mb_strtoupper`), as `upper`, the upper-case form of one character, which may be longer than one character;
- the validator's e-mail check, as `isEmail`;
- `User::isAdmin`, as `isAdmin`;
- the decision of a gate whose policy is not part of the model, as a `Decision`.

## Model

| member | source | states |
|---|---|---|
| Pagination.CenteredPagination | resources/js/components/table/BottomBar.tsx:15-48 | The pages form one ascending run. A window at least as wide as the total lists pages 1 to total; for a total below 1 the list is empty. Otherwise the window holds exactly that many pages, all between 1 and the total, and contains the current page when that page is real. Away from the edges it spans current - half + evenOffset to current + half. Near the start it begins at 1, and near the end it stops at the total. |
| Pagination.CenteredIsClampedWindow | resources/js/components/table/BottomBar.tsx:23-39 | An independent description of the narrow case: the centred start clamped into [1, total - size + 1], followed by `size` consecutive pages. |
| Pagination.PagesToShow | resources/js/components/table/BottomBar.tsx:52-56 | With the default size 3 and page `pageIndex + 1`, the window holds the current page. It has min(3, pageCount) pages, all between 1 and pageCount. |
| Pagination.ButtonTarget | resources/js/components/table/BottomBar.tsx:104 | A page button goes to the index whose displayed page is the button's number. |
| Pagination.OneDisabledButton | resources/js/components/table/BottomBar.tsx:100-109 | On a real page exactly one button of the window is disabled, and it is the current page's. |
| Pagination.GoToPageIndex | resources/js/components/table/BottomBar.tsx:79-87 | An empty input selects index 0. An integer n selects index n - 1. Anything else selects nothing. |
| Pagination.GoToShownPage | resources/js/components/table/BottomBar.tsx:55-86 | Typing the page number that is displayed selects the same page index again. |
| Text.PhpIntCastDecimal | app/Http/Controllers/Api/BarangController.php:21-22 | PHP's `(int)` cast reads back every 64-bit integer printed in decimal. A larger magnitude is capped at PHP_INT_MAX or PHP_INT_MIN, and one beyond the range of a double gives 0. |
| Text.PhpIntCastExponent | app/Http/Controllers/Api/BarangController.php:21-22 | The cast of `a` followed by `e` and `n` is a · 10^n, capped to 64 bits, or 0 beyond the range of a double. |
| Text.PhpIntCastFraction | app/Http/Controllers/Api/BarangController.php:21-22 | The cast of a decimal with a fraction drops the fraction, toward zero. |
| Text.MapCharsConcat | app/Http/Controllers/Api/BarangController.php:56 | Mapping each character of a concatenation maps each part in turn. |
| Text.MapCharsInPlace | app/Http/Controllers/Api/BarangController.php:56 | A mapping that gives one character for each character keeps the length and maps each position in place. |
| Text.ParseZeroPad | app/Http/Controllers/Api/BarangController.php:52-54 | A zero-padded number reads back as the number. |
| Text.ParseNatToDecimal | app/Http/Controllers/Api/BarangController.php:57-65 | A number printed with `%d` reads back as the number. |
| Text.NatToDecimalParse | app/Http/Controllers/Api/BarangController.php:57-65 | A canonical digit string is the `%d` rendering of its value. |
| Text.IntLiteralDecimal | app/Http/Controllers/Api/BarangController.php:68-69 | A printed integer is an integer literal with that value, so `numeric` accepts it. |
| Values.IntCastRendered | app/Http/Controllers/Api/BarangController.php:58-60 | The `%d` cast of a 64-bit integer sent as a decimal string gives that integer. |
| Validation.Validate | app/Http/Controllers/Api/BarangController.php:66-76 | Validation passes exactly when every declared field passes all its rules. The validated data is then the declared fields the request sent, unchanged. Every reported error names a declared field and one of its rules that rejects the value. |
| Validation.Errors | app/Http/Controllers/Api/BarangController.php:66-76 | Every error is justified by a declared rule that fails. |
| Validation.Failures | app/Http/Controllers/Api/UserController.php:42 | Every rule reported for a field runs and rejects the value. A `unique` or `exists` failure is reported only as the field's first error, as Laravel skips those rules once the field has one. While nothing has failed, the first rule that runs and fails is reported first. |
| Validation.InvalidEmailSkipsUnique | app/Http/Controllers/Api/UserController.php:42 | An address that is not valid is reported only as `email`, whether or not a row holds it: `unique` does not run after that failure. |
| Validation.ErrorsEmpty | app/Http/Controllers/Api/BarangController.php:66-76 | There are no errors exactly when every field passes. |
| Validation.FailuresEmpty | app/Http/Controllers/Api/BarangController.php:67-75 | A field has no failures exactly when every rule that runs on it holds. |
| Validation.RequiredStringMax | app/Http/Controllers/Api/BarangController.php:67 | `required\|string\|max:n` accepts exactly a non-blank string of at most n characters. |
| Validation.RequiredNullableStringMax | app/Http/Controllers/Api/BarangController.php:70-71 | `required\|nullable\|string\|max:n` accepts the same values as `required\|string\|max:n`, because `required` still rejects null. |
| Validation.RequiredString | app/Http/Controllers/Api/KategoriController.php:41 | `required\|string` accepts exactly a non-blank string. |
| Validation.StringNullableMax | app/Http/Controllers/Api/SupplierController.php:42 | `string\|nullable\|max:n` accepts an absent field, null, a blank string, or a string of at most n characters. |
| Validation.RequiredNumeric | app/Http/Controllers/Api/BarangController.php:68-69 | `required\|numeric` accepts exactly an integer or an integer literal. |
| Validation.NullableString | app/Http/Controllers/Api/BarangController.php:75 | `nullable\|string` accepts an absent field, null or a string. |
| Validation.SelectedSingle | app/Http/Controllers/Api/KategoriController.php:40-43 | Validating with a one-field rule set keeps just that field. |
| Listing.MatchesTwo | app/Http/Controllers/Api/BarangController.php:26-31 | A row matches a two-column search exactly when either column contains the term. |
| Listing.MatchesOne | app/Http/Controllers/Api/UserController.php:22 | A row matches a one-column search exactly when that column contains the term. |
| Listing.Filter | app/Http/Controllers/Api/BarangController.php:26-31 | The search keeps exactly the rows that match. |
| Listing.FilterCounts | app/Http/Controllers/Api/BarangController.php:26-31 | The search keeps each matching row as often as it occurs, and no other row. |
| Listing.SortNewestFirst | app/Http/Controllers/Api/BarangController.php:32 | The result is ordered newest `updated_at` first and is a permutation of the input. |
| Listing.InsertAddsOne | app/Http/Controllers/Api/BarangController.php:32 | Inserting into the sorted list adds exactly that one row. |
| Listing.SortKeepsTies | app/Http/Controllers/Api/BarangController.php:32 | Rows that share a timestamp keep their relative order. |
| Listing.Index | app/Http/Controllers/Api/BarangController.php:21-32 | `page` and `per_page` default to 1 and 10, and are otherwise PHP's `(int)` of the query string. A truthy term keeps exactly the matching rows, each as often as it occurs. A term that is absent, empty or "0" keeps every row, as a permutation. The result is newest first. |
| Listing.LastPage | app/Http/Controllers/Api/BarangController.php:34 | At this call site the framework's `paginate` (its source is not part of this model) slices the ordered rows. The last page is the least page count that holds every row, and at least 1. |
| Listing.Paginate | app/Http/Controllers/Api/BarangController.php:34 | At this call site the framework's `paginate` (its source is not part of this model) slices the ordered rows. The page holds at most perPage rows, taken in order from offset (page - 1) * perPage. It is full before the last page and empty past it. |
| Listing.AllPagesListEveryRow | app/Http/Controllers/Api/BarangController.php:34 | At this call site the framework's `paginate` (its source is not part of this model) slices the ordered rows. Reading pages 1 through the last gives back every row once, in order. |
| Listing.FirstPagesPrefix | app/Http/Controllers/Api/BarangController.php:34 | At this call site the framework's `paginate` (its source is not part of this model) slices the ordered rows. Pages 1 through k, read one after another, are the first k · perPage rows. |
| Listing.OffsetMonotone | app/Http/Controllers/Api/BarangController.php:34 | At this call site the framework's `paginate` (its source is not part of this model) slices the ordered rows. A later page never starts before an earlier one. |
| Listing.InsertNewestFirst | app/Http/Controllers/Api/BarangController.php:32 | Inserting into a newest-first list keeps it newest first. |
| Tables.Find | app/Http/Controllers/Api/BarangController.php:126 | `findOrFail` finds a row exactly when its id is in the table. |
| Tables.Insert | app/Http/Controllers/Api/BarangController.php:78 | `create` adds one row keyed by the sequence's next value and keeps the table valid. Every old row stays. |
| Tables.Merge | app/Http/Controllers/Api/BarangController.php:141 | `update` writes the attributes whose values changed and keeps the rest. A column the row was created without compares as NULL. It moves `updated_at` only when something changed, and returns the same row when nothing did. |
| Tables.MergeReadsBack | app/Http/Controllers/Api/BarangController.php:141 | After an update every written attribute reads back as the string that was sent, a never-set column reading as NULL, and a non-null attribute is held by the row (values are stored as sent; see Left out). |
| Tables.NullOnUnsetColumnsIsClean | app/Http/Controllers/Api/BarangController.php:126-141 | Sending null for columns the row was created without leaves the row, and its `updated_at`, as it was. |
| Tables.MergeIdempotent | app/Http/Controllers/Api/BarangController.php:141 | Sending the same attributes again changes nothing, at any later time (values are stored as sent; see Left out). |
| Tables.Save | app/Http/Controllers/Api/BarangController.php:141 | The updated row is found under its key and no other row changes. |
| Tables.Remove | app/Http/Controllers/Api/BarangController.php:157-158 | `delete` removes exactly the row with that key and keeps the table valid. |
| Tables.FindUnique | app/Http/Controllers/Api/BarangController.php:126 | In a valid table the row that carries an id is the one `findOrFail` returns. |
| Tables.WithoutKeepsOthers | app/Http/Controllers/Api/BarangController.php:157-158 | Deleting a row removes exactly its id from the table's ids and keeps the table valid. |
| Crud.ReplaceSame | app/Http/Controllers/Api/BarangController.php:141 | Writing back a row that is already stored leaves the rows as they were. |
| Policies.KategoriLaporanPolicy | app/Policies/KategoriLaporanPolicy.php:14-74 | Viewing is always allowed. A mutating ability is allowed exactly for administrators. A refusal carries that ability's message. |
| Policies.PelaporPolicy | app/Policies/PelaporPolicy.php:14-74 | Viewing is always allowed. A mutating ability is allowed exactly for administrators. A refusal carries that ability's message. |
| Crud.Store | app/Http/Controllers/Api/BarangController.php:49-78 | A denied gate answers 403 before anything else. The action succeeds exactly when the gate allows and validation passes. A 422 lists only justified errors. On success the new row holds the prepared validated data under a fresh key. |
| Crud.Admit | app/Http/Controllers/Api/BarangController.php:124-126 | The gate and the lookup run in the given order, and the first to fail decides the answer. |
| Crud.Update | app/Http/Controllers/Api/BarangController.php:124-141 | An unknown id answers 404 and a denied gate 403, in the order of the lookup. On success the row with that id gets the prepared validated data merged in, and no other row changes. |
| Crud.Destroy | app/Http/Controllers/Api/BarangController.php:155-158 | The same ordering of 403 and 404 as update. On success exactly that row is gone. |
| Crud.StoreThenDestroy | app/Http/Controllers/Api/BarangController.php:78 | Deleting the row a store just created gives back the old rows. Only the id sequence has moved on. |
| Crud.UpdateTwice | app/Http/Controllers/Api/BarangController.php:141 | Sending the same update twice leaves the table as the first update left it (values are stored as sent; see Left out). |
| Crud.UpdateReadsBack | app/Http/Controllers/Api/SupplierController.php:86 | After an update every declared field the request sent reads back as sent (values are stored as sent; see Left out). |
| Barang.Index | app/Http/Controllers/Api/BarangController.php:21-32 | A truthy term keeps the items whose `nama` or `kode` contains it. The result is newest first. `page` and `per_page` default to 1 and 10 and are otherwise PHP's `(int)` of the query string. Each listed row appears as often as in the table. |
| Barang.NamePrefixShape | app/Http/Controllers/Api/BarangController.php:56 | The name part maps the first three characters of the name, or all of a shorter name, through `upper`. When `upper` gives one character per character, the part has exactly min(3, length) characters, each the upper-case form of the name's character at that position. |
| Barang.DateSuffix | app/Http/Controllers/Api/BarangController.php:52-54 | The date part is all digits, and exactly 10 of them for a four-digit year. |
| Barang.DateSuffixFields | app/Http/Controllers/Api/BarangController.php:52-54 | The ten digits read back as year, zero-padded month, hour and minute. |
| Barang.CodeStartsWithCategory | app/Http/Controllers/Api/BarangController.php:57-59 | For a non-negative category id, the code opens with 'K' followed by that id, which reads back from the digits before the 'S'. |
| Barang.CodeEndsWithDate | app/Http/Controllers/Api/BarangController.php:57-65 | The code ends with the ten date digits, which read back as the clock. |
| Barang.SupplierDigitAmbiguity | app/Http/Controllers/Api/BarangController.php:56-65 | Two different requests can get the same code. When `upper` leaves digits alone, supplier s with a name starting with digit d codes like supplier 10·s + d with the rest of the name. |
| Barang.StoreRulesMeaning | app/Http/Controllers/Api/BarangController.php:66-76 | The create rules accept exactly the item fields described in plain terms: name, ids, brand, specification, unit, stock levels and picture. |
| Barang.UpdateRulesMeaning | app/Http/Controllers/Api/BarangController.php:128-139 | The update rules accept exactly those fields plus a non-blank string code. |
| Barang.Store | app/Http/Controllers/Api/BarangController.php:47-78 | The stored `kode` is always the synthesised code, whatever code the client sent. Every other stored field is a declared field as sent (values are stored as sent; see Left out). The action succeeds exactly when the gate allows and the fields are valid. |
| Barang.Update | app/Http/Controllers/Api/BarangController.php:122-141 | The code is stored as the client sent it and never recomputed. Every declared field reads back as sent (values are stored as sent; see Left out). The answered record is the row now stored under the id, the ids are unchanged, and no other row changes. A denied gate answers 403, and an unknown id 404 after the gate. |
| Barang.Destroy | app/Http/Controllers/Api/BarangController.php:153-158 | A denied gate answers 403. An unknown id answers 404 after the gate. It succeeds exactly when the gate allows and the id exists. Then exactly that id is gone and every other row reads as before. |
| Barang.UpdateReadsBack | app/Http/Controllers/Api/BarangController.php:128-141 | After an update the client's `kode` and every other declared field read back as sent (values are stored as sent; see Left out). |
| Barang.NamePrefixDigit | app/Http/Controllers/Api/BarangController.php:56 | When `upper` leaves digits alone, a name of at most three characters that starts with a digit has that digit followed by the rest's prefix as its prefix. |
| Users.Index | app/Http/Controllers/Api/UserController.php:17-24 | A truthy term keeps the users whose `name` contains it. The result is newest first. `page` and `per_page` default to 1 and 10 and are otherwise PHP's `(int)` of the query string. Each listed row appears as often as in the table. |
| Users.EmailRules | app/Http/Controllers/Api/UserController.php:42 | `required\|email\|unique` accepts exactly a valid address that no other row holds. |
| Users.RoleRules | app/Http/Controllers/Api/UserController.php:43 | The role must read as exactly "admin" or "user". |
| Users.NewPasswordRules | app/Http/Controllers/Api/UserController.php:44 | On create the password is a non-blank string of at least 4 characters, equal to `password_confirmation`. |
| Users.ChangedPasswordRules | app/Http/Controllers/Api/UserController.php:84 | On update the password may be absent, null or blank. Otherwise it is a string of at least 4 characters, equal to its confirmation. |
| Users.StoreRulesMeaning | app/Http/Controllers/Api/UserController.php:40-45 | The create rules accept exactly a valid name, a fresh address, a valid role and a confirmed password. |
| Users.UpdateRulesMeaning | app/Http/Controllers/Api/UserController.php:80-85 | The update rules accept the same, except that the address may be the row's own and the password may be left out. |
| Users.Store | app/Http/Controllers/Api/UserController.php:36-49 | The stored password is the hash of the password sent, never the plaintext. The address is new to the table. |
| Users.Update | app/Http/Controllers/Api/UserController.php:74-94 | A denied gate answers 403, and an unknown id 404 after the gate. The action succeeds exactly for valid fields. The answered record is the row now stored under the id, holding the name, address and role sent. The ids are unchanged and no other row changes. |
| Users.EmptyPasswordKeepsHash | app/Http/Controllers/Api/UserController.php:88-94 | An absent or empty password leaves the password of the row stored under the id exactly as it was. |
| Users.PasswordRehashed | app/Http/Controllers/Api/UserController.php:88-94 | The row stored under the id holds the hash of a non-empty password sent. |
| Users.Destroy | app/Http/Controllers/Api/UserController.php:106-111 | An unknown id answers 404 after the gate. On success exactly that id is gone and every other row reads as before. |
| Users.StoreKeepsEmailsDistinct | app/Http/Controllers/Api/UserController.php:42-49 | If no two users share an address before a create, none do after it. |
| Users.AppendKeepsEmailsDistinct | app/Http/Controllers/Api/UserController.php:42-49 | Appending a row whose address no row holds keeps the addresses distinct. |
| Users.UpdateKeepsEmailsDistinct | app/Http/Controllers/Api/UserController.php:80-94 | If no two users share an address before an update, none do after it: `unique` ignores only the row being updated. |
| Users.SaveKeepsEmailsDistinct | app/Http/Controllers/Api/UserController.php:82-94 | Writing back a row whose address no other row holds keeps the addresses distinct. |
| Supplier.Index | app/Http/Controllers/Api/SupplierController.php:15-24 | A truthy term keeps the suppliers whose `supplier` contains it. The result is newest first. `page` and `per_page` default to 1 and 10 and are otherwise PHP's `(int)` of the query string. Each listed row appears as often as in the table. |
| Supplier.ContactRulesMeaning | app/Http/Controllers/Api/SupplierController.php:43 | `kontak` is present and not blank, at most 20 characters, and made only of digits, `+`, `-`, `(`, `)` and white space. |
| Supplier.EmptyContactRejected | app/Http/Controllers/Api/SupplierController.php:43 | The empty contact matches the pattern, yet `required` rejects it. |
| Supplier.EmailRulesMeaning | app/Http/Controllers/Api/SupplierController.php:44 | The address may be absent, null or blank. Otherwise it is a valid address of at most 255 characters. |
| Supplier.RulesMeaning | app/Http/Controllers/Api/SupplierController.php:40-46 | The shared rules accept exactly the supplier fields described in plain terms. |
| Supplier.Store | app/Http/Controllers/Api/SupplierController.php:36-47 | The action succeeds exactly for an allowed gate and valid fields. The stored fields are the declared fields sent. |
| Supplier.Update | app/Http/Controllers/Api/SupplierController.php:72-86 | The same rules as create. Unknown ids answer 404 after the gate. Declared fields read back as sent. The answered record is the row now stored under the id, the ids are unchanged, and no other row changes. |
| Supplier.Destroy | app/Http/Controllers/Api/SupplierController.php:98-103 | An unknown id answers 404 after the gate. On success exactly that id is gone and every other row reads as before. |
| Laporan.Index | app/Http/Controllers/Api/LaporanController.php:15-30 | A truthy term keeps the reports whose `judul` or `isi_laporan` contains it. The result is newest first. `page` and `per_page` default to 1 and 10 and are otherwise PHP's `(int)` of the query string. Each listed row appears as often as in the table. |
| Laporan.ExistsRules | app/Http/Controllers/Api/LaporanController.php:55-56 | `required\|exists` accepts exactly the id of an existing row of the referenced table. |
| Laporan.StatusRules | app/Http/Controllers/Api/LaporanController.php:59 | `status` may be absent, null or blank. Otherwise it is one of Diajukan, Diproses, Selesai and Ditolak. |
| Laporan.RulesMeaning | app/Http/Controllers/Api/LaporanController.php:54-60 | The shared rules accept exactly an existing reporter and category, a title of at most 255 characters, a non-blank body and an allowed status. |
| Laporan.Store | app/Http/Controllers/Api/LaporanController.php:50-61 | A report sent without a status gets `Diajukan`, and every stored status is an enum value. A null or blank status passes validation but fails at the column. The stored ids refer to existing rows. |
| Laporan.UpdateAsWritten | app/Http/Controllers/Api/LaporanController.php:94-106 | As written, the action answers success for every allowed, valid request and leaves the table unchanged. |
| Laporan.DestroyAsWritten | app/Http/Controllers/Api/LaporanController.php:118-122 | As written, the action answers success whenever the gate allows and deletes nothing. |
| Laporan.UpdateAsWrittenLosesChange | app/Http/Controllers/Api/LaporanController.php:94-106 | Whenever the intended update would change the row, the action as written answers success and leaves the table as it was. |
| Laporan.UpdateAsWrittenUnknownId | app/Http/Controllers/Api/LaporanController.php:94-106 | For an id no row has, the action as written answers success where the intended one answers 404. |
| Laporan.DestroyAsWrittenKeepsRow | app/Http/Controllers/Api/LaporanController.php:118-122 | The delete as written keeps the row the intended delete removes. |
| Laporan.Update | app/Http/Controllers/Api/LaporanController.php:94-106 | As intended: an unknown id answers 404 before the gate. Success comes exactly for valid fields and a status the column takes. Every declared field reads back as sent (values are stored as sent; see Left out). The answered record is the row now stored under the id, the ids are unchanged, and no other row changes. |
| Laporan.Destroy | app/Http/Controllers/Api/LaporanController.php:118-122 | As intended: an unknown id answers 404 before the gate. On success exactly that id is gone and every other row reads as before. |
| Pelapor.Index | app/Http/Controllers/Api/PelaporController.php:17-32 | A truthy term keeps the reporters whose `nama` or `telepon` contains it. The result is newest first. `page` and `per_page` default to 1 and 10 and are otherwise PHP's `(int)` of the query string. Each listed row appears as often as in the table. |
| Pelapor.RulesMeaning | app/Http/Controllers/Api/PelaporController.php:56-61 | `nama`, `nik`, `telepon` and `alamat` are non-blank strings of at most 100, 16, 20 and 255 characters. |
| Pelapor.Store | app/Http/Controllers/Api/PelaporController.php:52-62 | A non-administrator gets the policy's create refusal. Otherwise the action succeeds exactly for valid fields, and stores the declared fields sent. |
| Pelapor.Update | app/Http/Controllers/Api/PelaporController.php:95-106 | The bound row answers first: an unknown id is 404 for anyone. A non-administrator then gets the policy's update refusal. On success the declared fields read back as sent, the answered record is the row now stored under the id, and no other row changes. |
| Pelapor.Destroy | app/Http/Controllers/Api/PelaporController.php:118-122 | An unknown id is 404 for anyone. A non-administrator then gets the delete refusal. On success exactly that id is gone and every other row reads as before. |
| KategoriLaporan.Index | app/Http/Controllers/Api/KategoriLaporanController.php:17-26 | A truthy term keeps the categories whose `nama` contains it. The result is newest first. `page` and `per_page` default to 1 and 10 and are otherwise PHP's `(int)` of the query string. Each listed row appears as often as in the table. |
| KategoriLaporan.List | app/Http/Controllers/Api/KategoriLaporanController.php:35-37 | `list` gives one entry per row, with only the id and the name. The query has no ORDER BY; the model lists the rows in table order. |
| KategoriLaporan.ListCoversTable | app/Http/Controllers/Api/KategoriLaporanController.php:37 | The ids in `list` are exactly the table's ids. |
| KategoriLaporan.RulesMeaning | app/Http/Controllers/Api/KategoriLaporanController.php:61 | `nama` is a non-blank string of at most 100 characters. |
| KategoriLaporan.Store | app/Http/Controllers/Api/KategoriLaporanController.php:56-63 | A non-administrator gets the create refusal. On success the new row holds just the name. |
| KategoriLaporan.StoreExtendsList | app/Http/Controllers/Api/KategoriLaporanController.php:37-63 | A category just created ends `list`, with the name sent. |
| KategoriLaporan.Update | app/Http/Controllers/Api/KategoriLaporanController.php:96-106 | The policy answers first, so a non-administrator is refused even for an unknown id. An unknown id then answers 404. On success the name reads back as sent, the answered record is the row now stored under the id, and no other row changes. |
| KategoriLaporan.Destroy | app/Http/Controllers/Api/KategoriLaporanController.php:118-123 | The policy's delete refusal comes first, then 404 for an unknown id. On success exactly that id is gone and every other row reads as before. |
| Kategori.Index | app/Http/Controllers/Api/KategoriController.php:15-24 | A truthy term keeps the categories whose `kategori` contains it. The result is newest first. `page` and `per_page` default to 1 and 10 and are otherwise PHP's `(int)` of the query string. Each listed row appears as often as in the table. |
| Kategori.RulesMeaning | app/Http/Controllers/Api/KategoriController.php:41 | `kategori` is a non-blank string, with no length cap. |
| Kategori.Store | app/Http/Controllers/Api/KategoriController.php:36-43 | The action succeeds exactly for an allowed gate and a valid name. The new row holds just the name. |
| Kategori.Update | app/Http/Controllers/Api/KategoriController.php:68-78 | An unknown id answers 404 after the gate. On success the name reads back as sent, the answered record is the row now stored under the id, and no other row changes. |
| Kategori.Destroy | app/Http/Controllers/Api/KategoriController.php:90-95 | An unknown id answers 404 after the gate. On success exactly that id is gone and every other row reads as before. |

## Left out

- Middleware. This covers `auth:sanctum`, so requests here are already authenticated. It also covers Laravel's `TrimStrings` and `ConvertEmptyStringsToNull`: a blank string stays a blank string here. The validator treats a blank string as absent, as Laravel does.
- Gates without a policy in the model. The Barang, Supplier, Kategori, Laporan and User gates take the gate's decision as a parameter, because their policies are not registered or not shown. `Gate::authorize` dispatch itself is not modelled.
- bcrypt's salt. `hash` is a function, so the same password always gives the same hash here.
- The e-mail check. The validator's `email` rule is the parameter `isEmail`.
- `User::isAdmin` is the parameter `isAdmin`.
- The clock. `Carbon::now()` is the `Clock` and `now` parameters, and its time zone is not modelled.
- `Tables.Merge` and `Tables.Insert` store each value exactly as sent. The database converts a value to its column's type, so the bigint columns `laporan.pelapor_id` and `laporan.kategori_id` store the text "05" as 5; column types are not modelled.
- `Tables.MergeReadsBack`, `Crud.UpdateReadsBack`, `Barang.Store`, `Barang.Update`, `Barang.UpdateReadsBack` and `Laporan.Update`: for a typed column the stored row holds the converted value, so "05" reads back as 5, not as the text sent. This is not promised here.
- `Laporan.Store`: a null or blank status fails at the insert, after the `id` column's default has already drawn a value from the sequence, and Postgres never gives that value back. The model answers the error without a table, so the sequence advance it consumed is not modelled: the next successful store gets `t.nextId` here where Postgres gives `t.nextId + 1`.
- `Tables.MergeIdempotent` and `Crud.UpdateTwice`: Eloquent compares a resent "05" with the stored 5 as strings, finds them different, and moves `updated_at` again. The model, which stores "05", finds nothing changed.
- `Listing.Paginate` requires a page and a page size of at least 1. The framework's `paginate` is not part of this model, and its handling of other values is not modelled.
- `Listing.FieldContains`: Postgres `ILIKE` is plain substring search after ASCII lower-casing here. Collation, non-ASCII case folding and the `%` and `_` wildcards inside a search term are not modelled.
- `Listing.SortNewestFirst`: it is a stable sort. SQL leaves the order of rows with equal `updated_at` unspecified, so the model fixes one of the allowed orders.
- Non-numeric route ids. Ids are integers here; `findOrFail` on a string that is not an id is not modelled.
- Route registration. The Barang, Supplier and Kategori controllers have no routes in routes/api.php, and UserController's `{id}` routes bind nothing. Each action is modelled as the controller defines it.
- `PelaporController::list`. routes/api.php registers `pelapor/list`, but the controller has no `list` method, so there is nothing to model.
- `BarangController::listKategori` and `listSupplier` are unrouted projections, like `KategoriLaporan.List`. They are not modelled.
- `show`, `create` and `edit`. `show` is a plain `findOrFail` (`Tables.Find`); `create` and `edit` are empty.
- `$fillable`. The models whose source is available list exactly the validated fields. For the others the validated data is written as is.
- The response JSON envelope (`success`, `message`, `data`) and the eager loading of `pelapor` and `kategori` in the report list are not modelled.
- The report's foreign keys. `exists` is checked against the given reporter and category tables; the cascade on delete is not modelled.
- `Validation.RequiredNumeric`: `numeric` accepts integers and integer literals only. PHP's `is_numeric` also accepts surrounding white space, decimals and exponent forms; those are rejected here.
- `Laporan.ExistsRules`: an id that is not an integer is answered 422 here. On Postgres the `exists` query for such a value against an integer column raises an error, which Laravel answers with 500.
- `Values.Value`: a request value is null, a string or an unbounded integer. JSON booleans, floats and arrays have no counterpart, and a JSON integer beyond 64 bits, which PHP decodes as a float, is kept exact here.
- `KategoriLaporan.List` and `KategoriLaporan.StoreExtendsList`: the `list` query has no ORDER BY, so the database may return the rows in any order. The model fixes table order, and a new category ends the list only under that choice.
- `Text.PhpIntCast`: a decimal or exponent form is computed exactly here. PHP converts it through a double first, so results differ beyond about 15 to 17 significant digits.
- `Text.ParseDigits` reads a non-digit as 0. It is only applied to digit strings, where this never matters.
- `Pagination.GoToPageIndex` reads integers only. JavaScript's `Number` also accepts decimals, exponents and surrounding blanks; those inputs give None here.
- The React UI other than the bottom bar, AuthController, the client session and transport, the seeders and the date formatting are not part of this model.

## Findings

| source | as written | input that shows it | evidently intended | confidence | as-written member | corrected member |
|---|---|---|---|---|---|---|
| app/Http/Controllers/Api/LaporanController.php:94-128 | `update` and `destroy` take `Laporan $lapo`, but `Route::resource('laporan', …)` (routes/api.php:50) names the parameter `{laporan}`. Route-model binding therefore never fills `$lapo`, and the action gets a new, unsaved report. `update` and `delete` on it write nothing, and the action still answers success. | `PUT /laporan/5` from an allowed user with a valid body whose `judul` differs from row 5's. Or `DELETE /laporan/5`, or any id no row has. | The row named by the URL is updated or deleted. An unknown id answers 404. | not executed | Laporan.UpdateAsWritten, Laporan.DestroyAsWritten (shown by Laporan.UpdateAsWrittenLosesChange, Laporan.UpdateAsWrittenUnknownId, Laporan.DestroyAsWrittenKeepsRow) | Laporan.Update, Laporan.Destroy |
