# Room allocation rules of the Decameron hotel inventory

This project models, in Dafny, the room-inventory core of the hotel
back end: the `habitaciones` table (one row per hotel, room type and
accommodation, with a room count `cantidad`), the hotel capacities
(`numero_habitaciones`) it is checked against, and the four actions of the
room controller — `show`, `store`, `update`, `destroy` — plus the cascade
that removes a hotel's rows when the hotel is deleted.

The table is a `Ledger`: a sequence of `Habitacion` rows and the next
auto-increment key. Hotels are a `map<int, int>` from hotel id to capacity.
Every action is a pure function returning `Result<…, Error>`; a failed
action returns only its error, so the table it was given is the table that
remains.

The allocation invariant `Inventory.Valid` is: primary keys unique and below
the key counter, every `hotel_id` naming a hotel, one row per
(hotel, type, accommodation), every pair admitted by the compatibility
table, and every hotel's total at most its capacity. `store` keeps it.
`update` and `destroy` do not, and concrete counterexamples show how.

Modules:

- `Wrappers`: `Option` and `Result`.
- `Rooms`: the `tipo` and `acomodacion` enumerations, their spellings, and the compatibility guard.
- `Inventory`: rows, the ledger, per-hotel totals, and the invariant.
- `Habitaciones`: the controller actions.
- `Hoteles`: hotel deletion and its cascade.
- `StoreProofs`, `UpdateProofs`, `DestroyProofs`: properties of each action.
- `Scenarios`: concrete request sequences.

Behaviours of the code the model keeps as they are:

- `cantidad` may be negative: neither the column (migration, line 20) nor the validator (`HabitacionController.php`, line 113) forbids it.
- `update` re-checks none of the three rules (`HabitacionController.php`, lines 194-195). It writes the whole body, so it can also move a row to another hotel; only the foreign key (migration, line 17) refuses a `hotel_id` that names no hotel.
- A store naming a missing hotel fails field validation (the `exists` rule), not a separate hotel-not-found error.
- Capacity is any integer, not necessarily a positive one.

## Model

| member | source | states |
|---|---|---|
| Rooms.ParseTipo | backend/hoteles-decameron/app/Http/Controllers/HabitacionController.php:111 | a room type is accepted exactly when it is one of the three spellings, and the parsed value prints back to the input |
| Rooms.ParseAcomodacion | backend/hoteles-decameron/app/Http/Controllers/HabitacionController.php:112 | an accommodation is accepted exactly when it is one of the four spellings, and the parsed value prints back to the input |
| Rooms.ParseNameRoundTrip | backend/hoteles-decameron/database/migrations/2024_11_26_152904_create_habitaciones_table.php:18-19 | parsing the spelling of any enumerated value gives that value back |
| Rooms.CompatibilityTable | backend/hoteles-decameron/app/Http/Controllers/HabitacionController.php:126-130 | the guard admits exactly ESTANDAR with SENCILLA or DOBLE, JUNIOR with TRIPLE or CUADRUPLE, SUITE with SENCILLA, DOBLE or TRIPLE |
| Rooms.CuadrupleOnlyJunior | backend/hoteles-decameron/app/Http/Controllers/HabitacionController.php:126-128 | CUADRUPLE is admitted for JUNIOR only, TRIPLE for every type but ESTANDAR, SENCILLA and DOBLE for every type but JUNIOR |
| Inventory.Total | backend/hoteles-decameron/app/Http/Controllers/HabitacionController.php:132 | a hotel with no rows has total 0; if no quantity is negative, no total is negative |
| Inventory.FindIndex | backend/hoteles-decameron/app/Http/Controllers/HabitacionController.php:67 | the lookup finds the first row with the key, or reports that no row has it |
| Inventory.EmptyLedgerValid | backend/hoteles-decameron/database/migrations/2024_11_26_152904_create_habitaciones_table.php:14-22 | the freshly created table satisfies the invariant for any hotels with non-negative capacity |
| Inventory.TotalRemoveAt | backend/hoteles-decameron/app/Http/Controllers/HabitacionController.php:132 | removing one row takes exactly that row's share out of each hotel's total |
| Inventory.TotalReplaceAt | backend/hoteles-decameron/app/Http/Controllers/HabitacionController.php:132 | replacing one row swaps its share for the new row's share in each hotel's total |
| Habitaciones.Show | backend/hoteles-decameron/app/Http/Controllers/HabitacionController.php:64-71 | show fails with not-found exactly when no row has the key; otherwise it returns a stored row with that key |
| Habitaciones.ValidateStore | backend/hoteles-decameron/app/Http/Controllers/HabitacionController.php:109-114 | an accepted request is the encoding of its validated allocation and names an existing hotel; every refusal is the one validation error |
| StoreProofs.ValidateStoreComplete | backend/hoteles-decameron/app/Http/Controllers/HabitacionController.php:109-114 | the encoding of any allocation at an existing hotel passes validation unchanged |
| Habitaciones.Store | backend/hoteles-decameron/app/Http/Controllers/HabitacionController.php:105-139 | an accepted store appends one row under the next key and keeps every existing row; that row carries the request's fields, its triple was free, its pair is compatible, and its hotel's new total fits |
| StoreProofs.StoreChecksFieldsFirst | backend/hoteles-decameron/app/Http/Controllers/HabitacionController.php:109-114 | a request failing field validation reports the validation error whatever the table holds |
| StoreProofs.StoreRejectsDuplicate | backend/hoteles-decameron/app/Http/Controllers/HabitacionController.php:116-122 | a request for a taken (hotel, type, accommodation) triple reports a duplicate, even when its pair is incompatible or its quantity too large |
| StoreProofs.StoreRejectsIncompatible | backend/hoteles-decameron/app/Http/Controllers/HabitacionController.php:126-130 | a free triple with an inadmissible pair reports incompatibility, whatever its quantity |
| StoreProofs.StoreCapacityIff | backend/hoteles-decameron/app/Http/Controllers/HabitacionController.php:132-134 | a free compatible request fails for capacity if and only if the hotel total plus the quantity is above capacity; equal to capacity is accepted |
| StoreProofs.StoreAdmitted | backend/hoteles-decameron/app/Http/Controllers/HabitacionController.php:136-139 | an allocation that all three rules admit is inserted as one new last row under the next key, the counter moving on by one |
| StoreProofs.StoreSucceedsIff | backend/hoteles-decameron/app/Http/Controllers/HabitacionController.php:109-139 | store succeeds if and only if the request encodes an allocation at an existing hotel that all three rules admit; the table after it is the old table plus that row |
| StoreProofs.StorePreservesValid | backend/hoteles-decameron/app/Http/Controllers/HabitacionController.php:116-139 | an accepted store on a valid table leaves it valid |
| StoreProofs.StoreKeepsSchema | backend/hoteles-decameron/database/migrations/2024_11_26_152904_create_habitaciones_table.php:15-17 | an accepted store keeps keys unique and below the counter and every hotel reference valid, even on a table whose allocation rules are already broken |
| StoreProofs.ShowAfterStore | backend/hoteles-decameron/app/Http/Controllers/HabitacionController.php:136-139 | show for the key a store just handed out returns the stored row |
| DestroyProofs.DestroyLast | backend/hoteles-decameron/app/Http/Controllers/HabitacionController.php:233-234 | destroying a last row whose key is unique gives back exactly the earlier rows |
| StoreProofs.DestroyUndoesStore | backend/hoteles-decameron/app/Http/Controllers/HabitacionController.php:136-139 | destroying the row a store just added restores the old rows; only the key counter has advanced |
| Habitaciones.ValidateChanges | backend/hoteles-decameron/app/Http/Controllers/HabitacionController.php:188-192 | an accepted update body is the encoding of its validated changes; every refusal is the one validation error |
| UpdateProofs.ValidateChangesComplete | backend/hoteles-decameron/app/Http/Controllers/HabitacionController.php:188-192 | the encoding of any set of changes passes validation unchanged |
| Habitaciones.Update | backend/hoteles-decameron/app/Http/Controllers/HabitacionController.php:182-198 | update succeeds exactly when the row exists, the body validates and any supplied hotel exists; it fails with not-found exactly when no row has the key, and with the foreign-key error exactly when the row exists, the fields validate and the body names a missing hotel; on success it rewrites only the supplied fields of that row (its hotel included), keeps its key, and leaves every other row and the key counter as they were |
| UpdateProofs.UpdateApplies | backend/hoteles-decameron/app/Http/Controllers/HabitacionController.php:194-195 | a valid body on an existing row, naming no hotel or an existing one, writes exactly its supplied fields over that row and nothing else |
| UpdateProofs.UpdateRefusesUnknownHotel | backend/hoteles-decameron/database/migrations/2024_11_26_152904_create_habitaciones_table.php:17 | a valid update body that moves an existing row to a hotel that does not exist is refused by the foreign key |
| UpdateProofs.EmptyUpdateIsIdentity | backend/hoteles-decameron/app/Http/Controllers/HabitacionController.php:194-195 | an update body with no fields leaves the table as it was |
| UpdateProofs.UpdateKeepsSchema | backend/hoteles-decameron/app/Http/Controllers/HabitacionController.php:194-195 | an update keeps keys unique and hotel references valid, a moved row included |
| UpdateProofs.DistinctSlotsReplaceAt | backend/hoteles-decameron/app/Http/Controllers/HabitacionController.php:116-119 | rewriting one row keeps triples unique if and only if its new triple is held by no other row |
| UpdateProofs.WithinCapacityReplaceAt | backend/hoteles-decameron/app/Http/Controllers/HabitacionController.php:132 | rewriting one row keeps every hotel within capacity if and only if the hotel the row now belongs to and the hotel it came from both fit with the adjusted totals |
| UpdateProofs.UpdateValidIff | backend/hoteles-decameron/app/Http/Controllers/HabitacionController.php:186-198 | on a valid table, an update leaves it valid if and only if the rewritten row is compatible, its triple is free elsewhere, and both the hotel it now belongs to and the hotel it came from fit with the adjusted totals; these are the checks update skips |
| Habitaciones.Destroy | backend/hoteles-decameron/app/Http/Controllers/HabitacionController.php:229-241 | destroy fails with not-found exactly when no row has the key; on success it removes one row, keeps every row with another key, adds none, and with unique keys leaves no row with that key |
| DestroyProofs.DestroyRemovesExactlyOne | backend/hoteles-decameron/app/Http/Controllers/HabitacionController.php:233-234 | the rows before destroy are the rows after it plus exactly one copy of the row show returns |
| DestroyProofs.DestroyKeepsSchema | backend/hoteles-decameron/app/Http/Controllers/HabitacionController.php:233-234 | a destroy keeps keys unique and hotel references valid |
| DestroyProofs.AllCompatibleRemoveAt | backend/hoteles-decameron/app/Http/Controllers/HabitacionController.php:234 | removing a row keeps every remaining pair compatible |
| DestroyProofs.WithinCapacityRemoveAt | backend/hoteles-decameron/app/Http/Controllers/HabitacionController.php:234 | removing a row keeps every hotel within capacity if and only if its hotel's reduced total fits |
| DestroyProofs.DestroyValidIff | backend/hoteles-decameron/app/Http/Controllers/HabitacionController.php:233-234 | on a valid table, a destroy leaves it valid if and only if the removed row's hotel still fits once that row's quantity is taken out |
| DestroyProofs.DestroyNonNegativePreservesValid | backend/hoteles-decameron/app/Http/Controllers/HabitacionController.php:233-234 | destroying a row of non-negative quantity keeps the invariant |
| Hoteles.WithoutHotel | backend/hoteles-decameron/database/migrations/2024_11_26_152904_create_habitaciones_table.php:17 | the rows kept are exactly the rows of other hotels, each as many times as before |
| Hoteles.DeleteHotel | backend/hoteles-decameron/database/migrations/2024_11_26_152904_create_habitaciones_table.php:17 | deleting a hotel removes it from the capacities and removes exactly its rows, leaving every other hotel and every other row, with its multiplicity, as it was |
| Hoteles.TotalWithoutHotel | backend/hoteles-decameron/database/migrations/2024_11_26_152904_create_habitaciones_table.php:17 | after the cascade the deleted hotel's total is 0 and every other hotel's total is unchanged |
| Hoteles.DistinctWithoutHotel | backend/hoteles-decameron/database/migrations/2024_11_26_152904_create_habitaciones_table.php:17 | the cascade keeps distinct keys and distinct triples distinct |
| Hoteles.CascadePreservesValid | backend/hoteles-decameron/database/migrations/2024_11_26_152904_create_habitaciones_table.php:16-17 | deleting a hotel from a valid table leaves a valid table for the remaining hotels |
| Hoteles.CascadeKeepsSchema | backend/hoteles-decameron/database/migrations/2024_11_26_152904_create_habitaciones_table.php:15-17 | deleting a hotel keeps keys unique and below the counter and every remaining hotel reference valid, even on a table whose allocation rules are already broken |
| Hoteles.KeepAllWithoutHotel | backend/hoteles-decameron/database/migrations/2024_11_26_152904_create_habitaciones_table.php:17 | the cascade keeps every row when the hotel owns none |
| Hoteles.DeleteMissingHotelIsNoop | backend/hoteles-decameron/app/Http/Controllers/HotelController.php:216-224 | deleting an id that names no hotel leaves the table and the hotels unchanged |
| Scenarios.OneStandardDouble | backend/hoteles-decameron/app/Http/Controllers/HabitacionController.php:136-139 | two ESTANDAR/DOBLE rooms stored into an empty five-room hotel give one row with key 1 and a valid table |
| Scenarios.StandardSingleAndDouble | backend/hoteles-decameron/app/Http/Controllers/HabitacionController.php:136-139 | a second, distinct triple stored beside it gives a valid two-row table |
| Scenarios.UpdateIgnoresCompatibility | backend/hoteles-decameron/app/Http/Controllers/HabitacionController.php:194-195 | update turns a valid ESTANDAR/DOBLE row into ESTANDAR/CUADRUPLE, and the table is no longer valid |
| Scenarios.UpdateIgnoresCapacity | backend/hoteles-decameron/app/Http/Controllers/HabitacionController.php:194-195 | update raises a quantity to 6 in a five-room hotel, and the table is no longer valid |
| Scenarios.UpdateIgnoresUniqueness | backend/hoteles-decameron/app/Http/Controllers/HabitacionController.php:194-195 | update moves a row onto another row's triple, and the table is no longer valid |
| Scenarios.UpdateMovesRowPastCapacity | backend/hoteles-decameron/app/Http/Controllers/HabitacionController.php:194-195 | update moves a two-room row into a hotel with room for one, and the table is no longer valid |
| Scenarios.UpdateToMissingHotelRefused | backend/hoteles-decameron/database/migrations/2024_11_26_152904_create_habitaciones_table.php:17 | update moving a row to a hotel that does not exist is refused |
| Scenarios.DuplicateReportedBeforeIncompatible | backend/hoteles-decameron/app/Http/Controllers/HabitacionController.php:116-130 | a request that is both a duplicate and incompatible reports the duplicate |
| Scenarios.DestroyNegativeCantidadBreaksCapacity | backend/hoteles-decameron/database/migrations/2024_11_26_152904_create_habitaciones_table.php:20 | stores of -5 and 10 rooms in a five-room hotel give a valid table; destroying the -5 row raises the total to 10, and the table is no longer valid |
| Scenarios.CapacityScenario | backend/hoteles-decameron/app/Http/Controllers/HabitacionController.php:132-134 | with 7 of 10 rooms taken, 4 more are refused for capacity and 3 are accepted, filling the hotel exactly; an incompatible pair and a taken triple are refused with their own errors |

## Left out

- The `index` action returns every row with its hotel. It changes nothing, and the model has nothing to state about it.
- HTTP status codes and response bodies are not modelled. In the source, validation failures thrown inside `store` or `update`, and a missing key in `update` or `destroy`, all surface as a generic server error. The model keeps them as distinct `Error` constructors.
- All field-validation failures are one `ValidationFailed` error. The Laravel validator's internals and its message collection are not modelled.
- Database transactions are not modelled. In `store`, a validation failure is thrown at line 109, caught at line 140 and rolled back at line 141. The duplicate, incompatibility and capacity refusals return at lines 121, 129 and 133 without committing or rolling back the open transaction. The model treats every refusal as leaving the table unchanged.
- Concurrency is not modelled: two stores for the same hotel can both pass the capacity check, and the source takes no lock.
- The `hotel_id` and `cantidad` fields are modelled as optional integers. The type stands in for Laravel's `integer` rule. Non-integer inputs and numeric strings are not represented.
- Habitaciones.Update: only `hotel_id`, `tipo`, `acomodacion` and `cantidad` are written. The source passes the whole body to mass assignment; `hotel_id` must be mass-assignable because `store` creates rows from the whole body, but whether other keys such as `id` would also be written depends on the row model's fillable list, which is not part of this model.
- Habitaciones.Update: a `hotel_id` that names no hotel is refused by the foreign key as an exception inside the transaction; the model returns the distinct `UnknownHotel` error and leaves the table unchanged.
- `cantidad` is an unbounded integer. The column's storage width depends on the database engine, and PHP integer overflow in the sum is not modelled.
- Timestamps, eager loading of the owning hotel, and the API annotations are not modelled.
- The hotel controller is not part of this model. That covers hotel creation, hotel update, image storage, and the uniqueness of name and tax id. Hotel capacities are an input map. The model does not cover a hotel update lowering `numero_habitaciones` below a hotel's allocated total, which nothing in the source checks. Hotel deletion is modelled only through its cascade on the rows.
- The `Hotel::findOrFail` lookup inside `store` is not modelled separately. It always succeeds once the `exists` rule has passed, because the model has no concurrent deletion.
