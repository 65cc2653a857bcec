# Gas wells: the well lifecycle in Dafny

This project models the core of the gas-wells service. That core has four parts:

- the service that validates a well, derives its maximum pressure (`Pmax`) and drives the repository through create / get / update / delete / list;
- what the repository's SQL statements promise about the `wells` table;
- the validation helpers;
- the standalone derived-value formula, in its current and its older (`bak/`) form.

Modules, one per source file:

- `Entity` (`entity.dfy`): the `Well` record. It carries the 22 data columns written by INSERT and UPDATE, plus `id`, `result`, `createdAt` and `updatedAt`. Every `float64` is a `real`; `status` is opaque text. It also holds the older `BakWell` record and `Result<T>`, which stands for Go's `(T, error)`.
- `Rounding` (`rounding.dfy`): `math.Round` over the reals, rounding halves away from zero, and rounding to two decimals.
- `Calculations` and `BakCalculations`: `ProcessWellData` over `pbuf`/`temp` and over `pressure`/`temperature`.
- `Validation`: the `Validator` class (an error map where the first write to a key wins) and the predicates `NotBlank`, `MinLength`, `MaxLength`, `Between`, `IsPassword` and `In`.
- `WellRepo`: class `WellTable`, an in-memory `wells` table. It holds a `map<int, Well>` of rows, the next SERIAL identity, a logical clock standing for `NOW()`, and two failure flags. While `online` is false every statement fails and changes nothing. While `writable` is false only INSERT, UPDATE and DELETE fail ("write rejected"), and reads still work. So a service call can see its lookup succeed and its write fail. The SQL ordering (`ORDER BY created_at DESC`) is the function `Ordered`. `Valid()` keeps identities positive and below `nextId`, every row stored under its own id, `created_at <= updated_at <= clock`, and creation times increasing with the id.
- `Service`: class `WellService`, holding a `WellTable`. Every operation returns an `Outcome` (`Ok`, `InvalidInput`, `NotFound`, `CalcError`, `RepoError`) with Go's error text. `calculateWellParameters` is the pure function `CalculateWellParameters`. `Lifecycle` is a client method that creates a well (pressure 100, temperature 20, so `Pmax` is 1700), renames its location, and deletes it twice; it proves the specified outcomes from the contracts alone.

Facts about the code that a reader might not expect, which the model keeps:

- `CreateWell` rejects only the exactly empty name. A trimmed check would also reject a name of spaces; this one lets it pass (`NameCheckIsNotTrimmed`).
- `CreateWell` does not check the buffer pressure, and `calculateWellParameters` has no lower bound. Pressure -5 gives -85 (`CalculationExamples`).
- The diameter check reports "pressure must be positive".
- `DeleteWell` ignores a nil result of its existence check. A missing well is reported by the repository's `Delete` ("well not found", the `NotFound` outcome), and that error is passed on unwrapped.

## Model

| member | source | states |
|---|---|---|
| `Rounding.Round` | internal/service/well_service.go:140 | the result is the nearest integer to `x`, ties going away from zero |
| `Rounding.RoundingIsUnique` | internal/service/well_service.go:140 | only one integer meets that description, so `Round` is fully determined by it |
| `Rounding.RoundIsOdd` | internal/service/well_service.go:140 | rounding commutes with negation |
| `Rounding.RoundOfInteger` | internal/service/well_service.go:140 | integers are left unchanged |
| `Rounding.Round2` | internal/service/well_service.go:139-140 | the result has two decimals, is the half-away rounding of `x*100` divided by 100, and lies within 0.005 of `x` |
| `Calculations.ProcessWellData` | internal/pkg/calculations/well.go:9-14 | fails with "pressure must be positive" iff `pbuf <= 0`; otherwise the value is exactly `pbuf*temp*0.85` (no rounding, no upper bound), it is zero iff `temp` is zero, and it has the sign of `temp` |
| `Calculations.ProcessWellDataReadsPbufAndTemp` | internal/pkg/calculations/well.go:9-13 | two wells that agree on `pbuf` and `temp` get the same result |
| `BakCalculations.ProcessWellData` | bak/internal/pkg/calculations/well.go:6-11 | the same for `pressure`/`temperature` of the older record |
| `BakCalculations.ProcessWellDataReadsPressureAndTemperature` | bak/internal/pkg/calculations/well.go:6-10 | only `pressure` and `temperature` influence the result |
| `Validation.WithError` | bak/internal/pkg/validation/validator.go:21-25 | the key set grows by the key; an existing entry keeps its message; a new key gets the given message; no other entry changes |
| `Validation.FirstWriteWins` | bak/internal/pkg/validation/validator.go:21-25 | a second message under the same key is ignored |
| `Validation.Validator.New` | bak/internal/pkg/validation/validator.go:13-15 | the new validator has no errors and is valid |
| `Validation.Validator.Valid` | bak/internal/pkg/validation/validator.go:17-19 | true iff no key has a message |
| `Validation.Validator.AddError` | bak/internal/pkg/validation/validator.go:21-25 | the error map becomes `WithError` of the old one; afterwards the key is present and the validator is not valid |
| `Validation.Validator.Check` | bak/internal/pkg/validation/validator.go:27-31 | no change when `ok`; otherwise acts as `AddError`; valid afterwards iff it was valid before and `ok` |
| `Validation.TrimLeft` | bak/internal/pkg/validation/validator.go:35 | the result is a suffix of the input; everything removed is white space (Go's `unicode.IsSpace` set); the result does not start with white space |
| `Validation.TrimRight` | bak/internal/pkg/validation/validator.go:35 | the mirror image: a prefix, only white space removed, no trailing white space |
| `Validation.TrimSpace` | bak/internal/pkg/validation/validator.go:35 | the result is a contiguous stretch of the input with only white space before and after it (`Trims`); it neither starts nor ends with white space, and it is empty iff every character of the input is white space |
| `Validation.TrimBothEnds` | bak/internal/pkg/validation/validator.go:35 | trimming the left and then the right end leaves the stretch of the input that starts after its leading white space |
| `Validation.NotBlank` | bak/internal/pkg/validation/validator.go:34-36 | holds iff some character is not white space; so it is false for the empty and the all-space string |
| `Validation.Utf8Width` | bak/internal/pkg/validation/validator.go:39 | each character takes 1 to 4 bytes, exactly 1 for ASCII |
| `Validation.Utf8Len` | bak/internal/pkg/validation/validator.go:38-44 | Go's byte length lies between the character count and four times it, and equals the count iff the text is ASCII |
| `Validation.MinLength` | bak/internal/pkg/validation/validator.go:38-40 | counts bytes, not characters: `n` characters always suffice, fewer than `n/4` never do, and on ASCII text it holds iff there are at least `n` characters |
| `Validation.MaxLength` | bak/internal/pkg/validation/validator.go:42-44 | counts bytes: more than `n` characters never pass, at most `n/4` always do, and on ASCII text it holds iff there are at most `n` characters |
| `Validation.LengthBounds` | bak/internal/pkg/validation/validator.go:38-44 | `MinLength` and `MaxLength` together hold iff the byte length is `n` |
| `Validation.Between` | bak/internal/pkg/validation/validator.go:46-48 | holding implies `min <= max`; either bound itself is inside the range iff the range is not empty |
| `Validation.BetweenIsInclusive` | bak/internal/pkg/validation/validator.go:46-48 | every value strictly between the bounds passes, and every value below `min` or above `max` fails |
| `Validation.IsPassword` | bak/internal/pkg/validation/validator.go:59-82 | true iff the value is at least 8 bytes and contains an upper-case letter, a lower-case letter, a digit and a punctuation/symbol character; each character counts only for the first class it matches |
| `Validation.In` | bak/internal/pkg/validation/validator.go:84-91 | true iff the value equals some element of the list; false for an empty list |
| `WellRepo.Newest` | bak/internal/repository/well_repo.go:166-169 | every listed record is the stored row under its own id, and ids strictly decrease along the list |
| `WellRepo.NewestIsComplete` | bak/internal/repository/well_repo.go:166-169 | no row with an id in range is left out |
| `WellRepo.Page` | bak/internal/repository/well_repo.go:170 | at most `limit` elements; element `k` is element `offset + k` of the input; the length is what LIMIT/OFFSET leave |
| `WellRepo.Summary` | bak/internal/repository/well_repo.go:180-194 | keeps id, name, location, pbuf, status, result, created_at and updated_at; every other data column (all 18 unscanned ones) reads back as zero |
| `WellRepo.WellTable.constructor` | bak/internal/repository/well_repo.go:18-20 | an empty, reachable table whose first identity is 1 (`id SERIAL`, bak/migration/migrations.go:60) |
| `WellRepo.WellTable.Create` | bak/internal/repository/well_repo.go:23-62 | when unreachable or refusing writes: fails with that store's error and changes nothing. Otherwise: assigns the next id, which is positive and not already in the table. It stores all 22 columns as given, with `result` defaulted and both timestamps set to the new clock tick. It returns the caller's record with `id` and `created_at` filled in; the invariant is kept |
| `WellRepo.WellTable.GetByID` | bak/internal/repository/well_repo.go:65-99 | a stored row comes back as `Found` with that id; an absent id gives `Missing`, which is not a failure |
| `WellRepo.WellTable.Update` | bak/internal/repository/well_repo.go:102-146 | when unreachable or refusing writes: fails and changes nothing. On an existing id: replaces the 22 data columns and advances `updated_at`; keeps `id`, `created_at` and `result`; no other row changes. On an absent id: zero rows affected and the table unchanged |
| `WellRepo.WellTable.Delete` | bak/internal/repository/well_repo.go:149-162 | when unreachable or refusing writes: fails and changes nothing. On an existing id: removes exactly that row and nothing else. On an absent id: zero rows affected and the table unchanged |
| `WellRepo.WellTable.Ordered` | bak/internal/repository/well_repo.go:166-169 | every row in order of creation, newest first, one entry per row |
| `WellRepo.WellTable.OrderedIsComplete` | bak/internal/repository/well_repo.go:166-169 | every stored row appears in the ordering |
| `WellRepo.WellTable.List` | bak/internal/repository/well_repo.go:165-201 | fails on an unreachable store; a negative OFFSET gives PostgreSQL's OFFSET error, which it reports before the LIMIT one; a negative LIMIT gives the LIMIT error. Otherwise: at most `limit` summaries, newest first, equal to the projections of the ordered rows after skipping `offset` |
| `WellRepo.ScanSummaries` | bak/internal/repository/well_repo.go:177-194 | one record per selected row, in the same order, each the row's `Summary` |
| `WellRepo.PageKeepsOrder` | bak/internal/repository/well_repo.go:168-169 | a run of rows taken in order from a newest-first sequence is itself newest first |
| `WellRepo.CreateThenGetByID` | bak/internal/repository/well_repo_test.go:49-55 | a created well has a nonzero id and is found again under it with the same name |
| `Service.CalculateWellParameters` | internal/service/well_service.go:129-141 | fails ("pressure exceeds maximum allowed value") iff the pressure exceeds 1000. Otherwise the value has two decimals, is the half-away rounding of `p*t*0.85`, and lies within 0.005 of it |
| `Service.CalculationExamples` | internal/service/well_service.go:131-140 | (100, 20) gives 1700; (1500, 20) is refused; (-5, 20) gives -85 |
| `Service.CalculationIsRoundedProduct` | internal/service/well_service.go:136-140 | below the ceiling, the value is `Round2` of the product |
| `Service.CalculationRoundsProcessWellData` | internal/service/well_service.go:136-140 | for `0 < pbuf <= 1000` the service's value is the standalone formula's result rounded to two decimals |
| `Service.CheckNewWell` | internal/service/well_service.go:29-37 | passes iff the name is not the empty string, the diameter is positive and the temperature is above -273.15. Otherwise it gives the message of the first failing check, in source order |
| `Service.NameCheckIsNotTrimmed` | internal/service/well_service.go:29-31 | a name of one space passes the name check although it is blank after trimming |
| `Service.RecomputePmax` | internal/service/well_service.go:88-94 | with `pbuf` and `temp` unchanged, the record is kept as supplied, even above the pressure ceiling. Otherwise `pmax` is the new calculation, which fails iff `pbuf > 1000`. No column other than `pmax` changes |
| `Service.UnchangedInputsSkipCalculation` | internal/service/well_service.go:88-94 | unchanged inputs write the supplied record, even when the calculation itself would refuse the pressure |
| `Service.WellService.constructor` | internal/service/well_service.go:19-24 | the service holds the given repository |
| `Service.WellService.CreateWell` | internal/service/well_service.go:27-52 | validation, calculation and store failures (unreachable, or refusing the insert) each yield their own outcome, and none of them writes to the store. On success: `pmax` is the calculated value, the id is fresh and positive, the next identity and the clock each advance by one, and the record returned is the stored row (apart from the store-set `result` and `updated_at`) |
| `Service.WellService.GetWell` | internal/service/well_service.go:55-69 | `id <= 0` gives "invalid well ID" without a lookup. A missing row gives `NotFound`, distinct from a repository error. A found row is returned with that id |
| `Service.WellService.UpdateWell` | internal/service/well_service.go:72-102 | a missing id, `pbuf <= 0`, a failed recalculation, an unreachable store, or a store that refuses the write after the lookup succeeded each give their own outcome and leave the store unchanged. Otherwise the row is replaced by `RecomputePmax`'s record, keeping `created_at` and `result` and advancing `updated_at`; the next identity is unchanged and no other row changes |
| `Service.WellService.DeleteWell` | internal/service/well_service.go:105-116 | `id <= 0`, an unreachable store and a missing id fail with the store unchanged. A store that refuses the delete after the lookup succeeded gives its error unwrapped, with the store unchanged. An existing id removes exactly that row |
| `Service.WellService.ListWells` | internal/service/well_service.go:119-126 | the repository's page, passed through: at most `limit` summaries, newest first, after skipping `offset`. An unreachable store, a negative offset and (with a non-negative offset) a negative limit each give the repository's error, wrapped as a repository error |

## Left out

- HTTP handlers, routing, templates, form parsing and the authentication middleware: request I/O.
- The connection pool, per-call timeouts, pgx scanning and the migration files: I/O. Store failures are the two flags `online` and `writable`, which do not change during a call. A failure that only one statement meets (a constraint violation, a failed row scan in `List`, a connection lost between a read and the next read) is modelled only where it is a refused write.
- Identities are unbounded in the model. `id SERIAL` is a 4-byte integer: PostgreSQL's sequence fails after 2147483647, and an id beyond that range cannot be passed to a query. The model never runs out of identities, and a lookup of such an id gives `NotFound` rather than a repository error.
- `GetByID` scans `SELECT *` into 22 targets without the id. The model gives the intended row lookup, not that column mismatch.
- The repository interface's `List` takes no limit or offset, while the service passes both. The model uses the implementation's `List(limit, offset)`.
- `CreateWell` and `UpdateWell` write `Pmax`, `ID` and `CreatedAt` into the caller's record in place. The model returns the new record as a value. A caller's record that was changed before a later step failed (for example `Pmax` set and then the insert failed) is not modelled.
- The `result` column is not written by INSERT or UPDATE, and its default is not part of this model. 0.0 is taken on insert, and an update keeps the stored value.
- IEEE-754 arithmetic: reals replace `float64`, so float rounding and the float `!=` comparison in `UpdateWell` are exact in the model.
- `Matches` and `IsEmail`: they depend on Go's regular-expression engine.
- `Validation.IsPassword`: classifies characters as ASCII upper/lower/digit/punctuation-or-symbol. Non-ASCII letters, digits and symbols, which Go's `unicode` tables would count, fall into no class.
- Strings are sequences of Unicode scalar values. Go strings holding invalid UTF-8 are not modelled; `len` is the UTF-8 byte length of valid text.
- Concurrency: the check-then-write sequences of `UpdateWell` and `DeleteWell` run without interleaving. The last-writer-wins race is not modelled.
- Wall-clock time: `NOW()` is a logical clock that ticks on every insert and update.
- Configuration loading, the logger wrapper, the spreadsheet exporter and the test harnesses' mocks and containers: plumbing outside the core.
