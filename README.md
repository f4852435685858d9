# Service registry model

A Dafny model of the in-memory service registry behind the small Express CRUD
API in `server.js`. The registry is an ordered table of service records
(`id`, `name`, optional `description`, `price`, `createdAt`, `updatedAt`)
plus a counter `nextId`. The table starts with one seeded record, id 1, and
the counter starts at 2. Five handlers act on it: create, list with an
optional search query, get by id, update in place, and delete. Three helpers
validate their inputs: `isNonEmptyString`, `isNonNegativeNumber` and
`parseId`.

Files, one module each:

- `wrappers.dfy` (`Wrappers`): `Option`, standing for `undefined`/`null`.
- `text.dfy` (`Text`): `trim` with the full ECMAScript whitespace and
  line-terminator set, `toLowerCase` on ASCII letters, and `includes`.
- `validation.dfy` (`Validation`): the loosely typed body field `Value`
  (`Missing | Null | Str | Num | NonFinite | Other`, mirroring `typeof` and
  `!== undefined`), the two value validators, `Number(string)` on decimal
  literals, and `parseId`.
- `catalog.dfy` (`Catalog`): `Record`, request `Body`, the error kinds
  `InvalidId | NotFound | ValidationError(message)`, the search filter, the
  `findIndex` linear search, and the table invariant with the lemmas that
  each mutation keeps it.
- `registry.dfy` (`Registry`): the class `Registry` with fields
  `services: seq<Record>` and `nextId: nat`. It has the seeding constructor
  and one method per handler. Every mutating method keeps `Valid()` and says
  what the new table and counter are. A method returns `Err(...)` exactly
  where the handler answers 400 or 404, and then it changes nothing.
- `scenario.dfy` (`Scenario`): client methods that replay a create then an
  update, a delete then a get and a create, and the rejected requests, for any
  valid name and price. Their assertions follow from the handlers' contracts
  alone.

The table invariant (`Catalog.WellFormed`) holds in every state the handlers
leave behind:

- ids are positive, unique and below `nextId`;
- names are non-empty and trimmed;
- descriptions are trimmed;
- prices are at least zero.

`nextId` never decreases, and a created record takes the old `nextId`. So an
id freed by a delete is never issued again.

The update handler differs from create on one point. Update stores a string
description trimmed even when it trims to `""`. Create stores a description
that trims to `""` as absent.

## Model

| member | source | states |
|---|---|---|
| Text.TrimStart | server.js:27 | the result is the suffix left after the longest all-whitespace prefix, and it starts with a non-space |
| Text.TrimEnd | server.js:27 | the result is the prefix left before the longest all-whitespace suffix, and it ends with a non-space |
| Text.Trim | server.js:27 | the result has no whitespace at either end |
| Text.TrimSpan | server.js:27 | the trimmed string is one contiguous piece of the input, and every character before and after that piece is whitespace |
| Text.TrimEmpty | server.js:27 | trimming gives the empty string exactly when every character of the input is whitespace |
| Text.TrimTrimmed | server.js:57 | trimming a string with no whitespace at either end returns it unchanged |
| Text.TrimIdempotent | server.js:27 | trimming twice gives the same string as trimming once |
| Text.ToLower | server.js:73 | lower-casing keeps the length and maps each character through ASCII lower-casing |
| Text.ContainsIff | server.js:79-80 | `includes` holds exactly when the needle occurs at some position of the text |
| Validation.NonEmptyStringIff | server.js:26-28 | `isNonEmptyString` holds exactly for a string value with at least one non-whitespace character |
| Validation.NonNegativeNumberRefuses | server.js:30-32 | `isNonNegativeNumber` refuses exactly: an absent field, null, a string, NaN or an infinity, a boolean, object or array, and a number below zero |
| Validation.ToNumber | server.js:35 | only a leading minus can make `Number(raw)` negative, and a leading minus never gives a positive number |
| Validation.ToNumberDefined | server.js:35 | `Number(raw)` is a number exactly for the empty string and for `digits[.digits]` (at least one digit in all) with at most one leading `+` or `-`; anything else is NaN |
| Validation.UnsignedLiteralIff | server.js:35 | the unsigned part of `Number` gives a value exactly for `digits[.digits]` with at least one digit |
| Validation.UnsignedValue | server.js:35 | `Number` of an unsigned decimal literal is never negative |
| Validation.ParseId | server.js:34-37 | a parsed id is a positive integer equal to `Number(raw)` |
| Validation.ParseIdAccepts | server.js:36 | every raw id whose `Number` is a positive integer is accepted as that integer |
| Validation.ParseIdDecimal | server.js:34-37 | a positive id written in decimal parses back to itself |
| Validation.ParseIdZeroFraction | server.js:35-36 | `"2.0"`, `"2.00"`, … are accepted as the integer 2, as `Number.isInteger` does |
| Validation.ParseIdNegative | server.js:36 | any id with a leading minus, including `-0`, is rejected |
| Validation.ParseIdZero | server.js:36 | `0`, `00`, … are rejected |
| Validation.ParseIdFraction | server.js:36 | an id with a non-zero fractional digit (`1.5`, `.5`) is rejected |
| Validation.ParseIdForeignChar | server.js:35-36 | an id with any character other than digits, `.` and a sign (`abc`) is rejected |
| Validation.DigitsValueBound | server.js:35 | a k-digit decimal fraction part is below 10^k, so it is a proper fraction |
| Validation.DigitsValueZero | server.js:35 | a digit string denotes zero exactly when all its digits are `0` |
| Validation.DecimalString | server.js:35 | the decimal digits of n denote n and have no leading zero |
| Validation.PointedValue | server.js:35 | `Number` of digits, a point and digits is the whole part plus the digits after the point divided by ten to their count |
| Validation.ProperFraction | server.js:35-36 | digits after the point that are not all `0` denote a value strictly between 0 and 1 |
| Validation.WholePlusFraction | server.js:36 | a whole number plus a proper fraction fails `Number.isInteger` |
| Validation.UnsignedValueChars | server.js:35 | an unsigned literal that `Number` accepts holds only digits and a point |
| Catalog.FilterMembership | server.js:76-82 | a record is in the filtered list exactly when it is in the table and matches the query |
| Catalog.FilterConcat | server.js:76-82 | filtering distributes over concatenation, so records keep their relative order |
| Catalog.FilterAllMatch | server.js:76-82 | when every record matches, the filter returns the table unchanged |
| Catalog.FilterNoneMatch | server.js:76-82 | when no record matches, the filter returns an empty list |
| Catalog.Search | server.js:71-85 | `count` is the length of `data`; a blank query returns the whole table; otherwise `data` is the table's filter |
| Catalog.SearchMembership | server.js:76-82 | a non-blank query returns exactly the records whose lower-cased name or present description contains the trimmed lower-cased query |
| Catalog.SearchBlank | server.js:72-76 | an absent query, or one of whitespace only, lists every record in order |
| Catalog.FindIndex | server.js:113 | returns the first position holding the id, or -1 exactly when no record has it |
| Catalog.AppendWellFormed | server.js:55-64 | appending a well-formed record that takes `nextId`, then incrementing `nextId`, keeps ids unique and below the counter |
| Catalog.ReplaceWellFormed | server.js:126-141 | replacing a record by a well-formed one with the same id keeps the invariant |
| Catalog.RemoveWellFormed | server.js:155 | splicing one record out keeps the invariant and leaves no record with its id |
| Catalog.UniqueId | server.js:97 | in a well-formed table at most one position holds a given id |
| Registry.Registry.constructor | server.js:12-23 | the startup table is the seeded "Basic Support" record with id 1, and `nextId` is 2 |
| Registry.Registry.Create | server.js:42-66 | a name that is not a non-blank string is rejected first, then a price that is not a finite number ≥ 0; a rejection changes nothing; on success the record gets the old `nextId`, `nextId` goes up by one, and the record is appended after the untouched old table; the name is trimmed; the description is trimmed, or absent if missing, null or blank; the price is stored as given; `createdAt == updatedAt == now`; the new id exceeds every id in the table |
| Registry.Registry.List | server.js:71-85 | answers the search over the current table and changes nothing |
| Registry.Registry.Get | server.js:90-104 | an unparsable id gives InvalidId; an id no record has gives NotFound; otherwise the answer is the record with that id; nothing changes |
| Registry.Registry.Update | server.js:109-143 | errors come in a fixed order (InvalidId, NotFound, then name, then price), and each leaves the table unchanged; on success only that record's position is replaced; id and `createdAt` are kept; an omitted name, price or description keeps its old value; a null description clears it; a string description is stored trimmed, even if empty; `updatedAt == now`; `nextId` never changes |
| Registry.Registry.Delete | server.js:148-157 | InvalidId, then NotFound, change nothing; on success the removed record is returned, the others stay in order, no record keeps that id, and `nextId` is unchanged, so the id is never reissued |

## Left out

- HTTP plumbing is not modelled: the Express app, the `express.json()` middleware, routing, status codes, JSON response shapes, `app.listen`, the `PORT` variable, logging and the `/health` endpoint. The error kinds of `Catalog.Error` stand for the 400/404 answers.
- Clock readings are a `now: nat` parameter instead of `new Date().toISOString()`. The seed's timestamps are the constructor's `now`. `createdAt <= updatedAt` is not claimed, because the source does not guarantee it if the clock goes back.
- Prices are `real`. JavaScript's NaN and ±Infinity are the input tag `NonFinite`, which validation rejects. Floating-point rounding is not modelled.
- Validation.ToNumber: models `Number(string)` only for decimal literals with an optional sign and fraction (`""` gives 0). Hex, octal and binary prefixes, exponents (`1e2`), `Infinity`, surrounding whitespace and the 53-bit precision limit are not modelled. Any input outside the modelled grammar counts as NaN, so `ParseId` rejects `0x10` and `1e2`, which the source would accept as 16 and 100.
- Text.ToLower: lower-cases ASCII capitals only, where the source uses Unicode `toLowerCase`. Text.Trim: removes the ECMAScript whitespace and line-terminator code points. Neither does Unicode normalisation.
- Registry.Registry.Create and Registry.Registry.Update: a description that is not missing, null or a string is accepted only on requests the handler refuses first: a bad name or price, or in update a bad or unknown id. On a request that passes validation, the source throws at `.trim()`. In create that happens after `nextId++`, so the failed request consumes an id. That path is not modelled.
- Registry.Registry.Create: `nextId` is an unbounded `nat`. In the source it is a JavaScript number, and `nextId++` stops advancing at 2^53, because 2^53 + 1 rounds back to 2^53. From then on every create would reuse id 2^53. The uniqueness of ids, and the promise that a deleted id is never issued again, hold in the model only because its integers do not round.
- A request body that is not an object, and body keys other than `name`, `description` and `price`, are not modelled. Absent keys are `Missing`.
- Concurrency is not modelled. Node runs each handler to completion, so each method is one atomic step.
