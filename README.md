# Phonebook directory

A model of the in-memory phonebook served by `index.js`: one ordered list of
`{id, name, number}` records held in the server's `phonebooks` variable,
seeded with four people, and the handlers that read and change it.

- **Lookup** (`GET /api/persons/:id`): the first record whose id string equals
  the requested one, or 404 `'Person not found'`.
- **Count** (`GET /info`): the number of records.
- **Delete** (`DELETE /api/persons/:id`): keep the records whose id differs, in
  order; the reply is always 204, whether or not anything was removed.
- **Id allocation** (`generateId`): one more than the largest numeric id, as
  decimal text; `"1"` for an empty list.
- **Add** (`POST /api/persons`): 400 `'name or number missing'` when either
  field is absent or empty, 400 `'name must be unique'` when a record already
  has exactly that name, otherwise append one record with the allocated id and
  answer it.

Files:

- `wrappers.dfy`: `Option` and `Result`.
- `decimal_ids.dfy` (module `DecimalIds`): ids as decimal text. `Text(n)` is
  `String(n)` for a natural `n`, `Value(s)` is `Number(s)` for a digit string,
  and `Value(Text(n)) == n` is proved.
- `phonebook.dfy` (module `Phonebook`): the `Person` and `Error` datatypes, the
  directory invariant `WellFormed`, and every handler as a pure function of the
  list. Each function comes with lemmas: preservation of the invariant,
  lookup/add and lookup/delete round trips, order of the survivors of a
  delete, counts, and id reuse.
- `directory.dfy` (module `Directories`): class `Directory`, whose field
  `phonebooks` is the server's list. `Delete` and `Post` reassign it, as the
  handlers reassign the variable with `filter` and `concat`. `Lookup` and
  `Info` are functions that only read it. `Valid()` is the invariant that every
  method keeps. `RecreateReusesId` is a client run showing id reuse.

Record ids stay strings, as in the JSON. The invariant requires each id to be
the canonical decimal text of a natural number: digits only, no leading zero.
That holds for the seeded records and for every id the model's id allocation
produces; ids are unbounded naturals here (see "Left out" for JavaScript's
number limits). Lookup
and delete compare id strings exactly, as `===` and `!==` do. A request for
`"01"` therefore finds nothing, even when a record has id `"1"`.

The request fields `name` and `number` are `Option<string>`. `None` is an absent
field and `Some("")` an empty one. `!body.name` rejects both.

Three behaviours of `index.js` that a reader might expect to be otherwise are
kept as the code has them:

- DELETE of an absent id answers 204, not 404.
- There is no update operation, because `index.js` has no PUT route.
- Ids are reused. Deleting the record an add just created lets the next add
  receive that id again (`IdReusedAfterDelete`, `RecreateReusesId`). Deleting
  the record with the largest id in general only bounds the next id by the
  deleted one: when some record survives, it is equal exactly when a survivor
  holds the id just below; when none survives, the next id is "1"
  (`DeleteMaxNextId`). From the seed, deleting "3" and then "4" makes the
  next id "3" (`SeededMaxDeleteGivesLowerId`).

## Model

| member | source | states |
|---|---|---|
| `Directories.Directory.constructor` | index.js:32-53 | the server starts with exactly the four seeded records, and they satisfy the directory invariant |
| `Phonebook.InitialPhonebook` | index.js:32-53 | the seeded list has four records, the i-th with id `String(i + 1)`, each with a non-empty name and number |
| `Phonebook.SeededNamesUnique` | index.js:32-53 | the four seeded names are pairwise different |
| `Phonebook.InitialWellFormed` | index.js:32-53 | the seeded list has canonical numeric ids, a name and number in each record, unique names and unique ids |
| `DecimalIds.SingleDigitCanonical` | index.js:34-49 | a single non-zero digit such as the seeded ids "1" to "4" is a canonical id, and its numeric value is that digit |
| `Phonebook.Find` | index.js:64 | `find` comparing the id (line 64) or the name (line 104): nothing iff no record's field equals the key; otherwise a stored record whose field equals it, with no earlier record matching |
| `Phonebook.LookupPerson` | index.js:62-71 | GET by id fails exactly when no record has the id, and then with PersonNotFound; on success the answer is a stored record with that id |
| `Phonebook.LookupUnique` | index.js:64-66 | with unique ids, looking up the id of the k-th record answers that record |
| `Directories.Directory.Lookup` | index.js:62-71 | on the live directory: 404 'Person not found' exactly when no record has the id, otherwise the one record carrying it |
| `Phonebook.Status` | index.js:69-107 | PersonNotFound is the only 404; both validation errors are 400 |
| `Phonebook.Message` | index.js:69-108 | the `error` texts: 'Person not found', 'name or number missing' and 'name must be unique', each used by exactly one error |
| `Phonebook.MessagesDistinguishErrors` | index.js:69-108 | status and error text together identify the error |
| `Directories.Directory.Info` | index.js:73-74 | the /info count is the list length and equals the number of distinct ids |
| `Phonebook.CountIsDistinctIds` | index.js:74 | with unique ids, the set of ids has as many elements as the list has records |
| `Phonebook.DeletePerson` | index.js:83 | the `filter`: a record survives iff it was present and its id differs from the deleted one; the list never grows |
| `Phonebook.DeleteDistributes` | index.js:83 | the filter acts piecewise over concatenation, so survivors keep their relative order |
| `Phonebook.DeleteAbsent` | index.js:83 | deleting an id no record carries leaves the list exactly unchanged |
| `Phonebook.DeleteCount` | index.js:83 | with unique ids, delete removes exactly one record when the id is present and none otherwise |
| `Phonebook.DeleteKeepsUnique` | index.js:83 | the filter keeps names unique and ids unique |
| `Phonebook.DeletePreservesWellFormed` | index.js:81-86 | delete preserves the whole directory invariant |
| `Phonebook.LookupAfterDelete` | index.js:83 | after deleting an id, looking it up answers PersonNotFound |
| `Phonebook.LookupOthersAfterDelete` | index.js:83 | after deleting one id, every other id finds and looks up exactly what it did before |
| `Phonebook.DeleteFromMiddle` | index.js:83 | deleting an id only one record carries removes just that record; the records before and after it stay, in order |
| `Phonebook.SeededDelete` | index.js:32-86 | deleting "2" from the seeded list leaves records 1, 3 and 4 in their original order |
| `Directories.Directory.Delete` | index.js:81-86 | the new list is the filtered old list; no record with the id remains; the count drops by one iff the id was present; the reply is always 204; the invariant is kept |
| `DecimalIds.Text` | index.js:92 | `String(n)` is non-empty digit text, with a leading zero only for 0 |
| `DecimalIds.ValueOfText` | index.js:90-92 | `Number(String(n)) == n` for every natural n |
| `DecimalIds.TextInjective` | index.js:90-92 | two numbers have the same text iff they are equal, and every text is canonical |
| `DecimalIds.Value` | index.js:90 | `Number(n.id)` on a digit string: zero exactly when every digit is '0' (so `Number("") == 0`) |
| `Phonebook.MaxIdValue` | index.js:89-91 | `Math.max` over the numeric ids of a non-empty list bounds every id and is attained by some record |
| `Phonebook.MaxIdValueAt` | index.js:90 | the maximum equals the value at any position that bounds all the others |
| `Phonebook.NextId` | index.js:88-93 | the new id is canonical; "1" for an empty list; otherwise its value is the maximum plus one; it is numerically greater than, and distinct from, every existing id |
| `Phonebook.SeededNextId` | index.js:32-93 | on the seeded list the next id is "5" |
| `Phonebook.AddPerson` | index.js:95-121 | missing field gives 'name or number missing' with the list unchanged; otherwise a taken name gives 'name must be unique' with the list unchanged; otherwise exactly one record with the next id, given name and number is appended and answered |
| `Phonebook.FirstAddOnEmpty` | index.js:88-120 | on an empty list, adding Ada Lovelace answers and stores the record with id "1" |
| `Phonebook.AppendKeepsWellFormed` | index.js:112-118 | appending a complete record whose name and id are new keeps the invariant |
| `Phonebook.AddPreservesWellFormed` | index.js:95-121 | add, successful or not, preserves unique names, unique numeric ids and present fields |
| `Phonebook.LookupAfterAdd` | index.js:62-120 | the record a successful add answers is exactly what GET of its id then answers |
| `Directories.Directory.Post` | index.js:95-121 | the reply and new list are those of `AddPerson`; failures are 400 and leave the list unchanged; success appends the answered record, whose id is `generateId` of the old list; the invariant is kept |
| `Phonebook.IdReusedAfterDelete` | index.js:83-93 | after an add, deleting the new record restores the old list, whose next id is the deleted record's id again |
| `Phonebook.NextIdBelow` | index.js:88-93 | when every id is below v, the next id is at most v, and equals v exactly when some id is v - 1 |
| `Phonebook.DeleteMaxNextId` | index.js:83-93 | after deleting the record with the largest id m, the list stays well formed, every survivor is below m, and, when some record survives, the next id is at most m and equal to m exactly when a survivor holds m - 1; when none survives, the next id is "1" |
| `Phonebook.SurvivorsBelowMax` | index.js:83-90 | with unique canonical ids, every record surviving the deletion of the largest id has a strictly smaller numeric id |
| `DecimalIds.CanonicalValuesDiffer` | index.js:90 | two different well-formed id strings have different `Number` values |
| `Phonebook.SeededMaxDeleteGivesLowerId` | index.js:32-93 | from the seed, DELETE "3" then DELETE "4" (the largest id) leaves records 1 and 2, and the next id is "3", not "4" |
| `Directories.RecreateReusesId` | index.js:81-121 | add, delete by the returned id, add the same person again: both adds succeed and answer the identical record, id included |

## Left out

- Express setup, CORS, JSON body parsing, the morgan logger and its body token, the root HTML route and `app.listen`: framework and I/O wiring.
- `GET /api/persons` answers the list itself. The model reads the `phonebooks` field directly and has no member for it.
- The success status 200 and JSON serialisation of replies: transport.
- The `/info` timestamp (`new Date().toString()`) and the HTML around the count: wall clock and presentation. Only the count is modelled.
- Phonebook.NextId: ids are unbounded naturals. JavaScript numbers are 64-bit floats, so from 2^53 on `maxId + 1` rounds back to `maxId` and `generateId` repeats the largest id; freshness of the new id holds in the source only below 2^53, which takes about 9·10^15 POSTs to reach. Separately, `Math.max(...array)` passes one argument per record, and once the list outgrows the engine's argument or stack limit (an engine-dependent size, on the order of 10^5 records in V8) the spread throws `RangeError`: `generateId` fails, POST answers 500 and the list stays unchanged. The model has no size bound, so `AddPerson` and `Directories.Directory.Post` succeed there.
- DecimalIds.Text: `String(n)` gives exponent notation ("1e+21") from 10^21 on; the model's decimal text, and the canonical form of every allocated id, match the source only below that (and below 2^53, as above).
- Ids that are not canonical decimal text, such as "01" or "abc": `Number` of such a string, the resulting `NaN` and `Math.max` propagating it are not modelled; below the limits above they cannot arise from the seeded list or from id allocation.
- `name` or `number` given as a non-string JSON value, such as a number or an object: only absent, empty and non-empty strings are modelled.
- Concurrent requests: the model is sequential. A read-then-write race between two POSTs with the same name is not captured.
- Updating a number: `index.js` has no PUT route.
- `mongo.js` and `models/persons.js` are not part of this model: a command-line script and a schema wrapper over a database library.
