# Marine species record service — a verified model

This project models the backend of a marine species database. The backend is
a single canister that keeps two record collections:

- **Taxonomy**: a biological classification, from kingdom to species.
- **MarineSpecie**: an observed species. It holds a soft `taxonomy_id`
  reference to a Taxonomy, and that reference is never checked.

Each collection has three parts:

- a persistent ordered map from `u64` id to record;
- a persistent id counter;
- create, read, read-all, update and delete entry points.

MarineSpecie also has a case-insensitive search by conservation status.

The create, update and delete entry points work the same way in both
collections:

- Validation comes first. Every string field of the payload must be at least one character long.
- A create then takes the counter's current value as the new id and advances the counter by one.
- The new record is owned by the caller and stamped with the current time.
- Update and delete look the record up first. They then check that the caller is the record's `researcher`.
- Update overwrites the payload fields and sets `updated_at`.

The model is in seven modules:

- `Types` (types.dfy) holds the records, the payloads, the `Error` enum and `Result`. `u64` is a subset type of `int` bounded by `U64_MAX`.
- `OrderedMap` (ordered_map.dfy) is the part of the persistent B-tree map that the service uses: point lookup, and iteration in ascending key order. The key order is rebuilt from the map's key set.
- `Text` (text.dfy) holds the lowercasing used by the status search.
- `Validation` (validation.dfy) holds the payload constraints. A check reports the set of all failing field names.
- `Service` (service.dfy) holds the durable state as a value `Db`: two maps and two counters. Each update entry point is a function from the old state to the new state and the reply. Each query is a function of one map. The ambient `caller()` and `time()` are parameters.
- `History` (history.dfy) runs sequences of update calls. Its lemmas cover ids across whole runs and pairs of calls such as "get after delete".
- `Backend` (canister.dfy) holds the class `Canister`. Its fields are the two maps and the two counters. It has one `modifies this` method per update entry point, and each method follows the steps of the Rust function. Each method ensures that its new state and reply equal those of the matching `Service` function.

The invariant `Db.Valid` says two things:

- every record is stored under its own id;
- every id is below its collection's counter.

Every entry point preserves it. It is why a freshly issued id is never a key in use, and why listings in key order are also in id order.

Some points of what the code does that a reader might not expect:

- Ids start at 0, not 1. `Cell::set` returns the value it replaces, so the id handed out is the counter before the increment.
- Validation is `length(min = 1)`. A string of spaces passes, because nothing is trimmed.
- The owner-check error is `NotResearcher`.
- There is no `EncodingError`. The 1024-byte `MAX_SIZE` bound is declared in the `BoundedStorable` impls and applied by the stable map when a record is stored. An oversized record makes the `insert` in `do_insert_*` trap, and the call returns no error.
- Update checks in the order validate, look up, then check the owner.

## Model

| member | source | states |
|---|---|---|
| `OrderedMap.Get` | src/marine_species_database_backend/src/lib.rs:161-164 | A lookup returns `Some` exactly when the key is stored, carrying the stored value. This is `_get_taxonomy`; `_get_marinespecie` at lines 311-313 is the same. |
| `OrderedMap.SortedKeys` | src/marine_species_database_backend/src/lib.rs:134-135 | Map iteration visits each stored key exactly once, with keys strictly increasing. |
| `OrderedMap.ValuesInKeyOrder` | src/marine_species_database_backend/src/lib.rs:134-139 | The collected values, one per key: the i-th is the value stored under the i-th smallest key. |
| `OrderedMap.ValuesInKeyOrderMembers` | src/marine_species_database_backend/src/lib.rs:286-289 | The collected values are exactly the stored values. |
| `Text.ToLower` | src/marine_species_database_backend/src/lib.rs:327 | Lowercasing keeps the length and maps each ASCII capital to its small letter, leaving every other character as it is. |
| `Text.ToLowerIdempotent` | src/marine_species_database_backend/src/lib.rs:327 | Lowercasing leaves no capital behind, so applying it twice is the same as once. |
| `Text.MatchesOwnLowercase` | src/marine_species_database_backend/src/lib.rs:327 | A status matches its lowercase spelling. |
| `Text.EndangeredMatchesAnyCase` | src/marine_species_database_backend/src/lib.rs:327 | "Endangered" matches "endangered" and "ENDANGERED" but not "Vulnerable". |
| `Validation.TaxonomyViolations` | src/marine_species_database_backend/src/lib.rs:101-117 | Each of the seven fields is reported exactly when it is empty, and nothing else is reported. The result is empty exactly when the payload is valid. |
| `Validation.MarineSpecieViolations` | src/marine_species_database_backend/src/lib.rs:119-129 | `name`, `habitat` and `conservation_status` are each reported exactly when empty. `taxonomy_id` is never reported. The result is empty exactly when the payload is valid. |
| `Validation.AllEmptyTaxonomyFieldsReported` | src/marine_species_database_backend/src/lib.rs:186-191 | Validation does not stop at the first failure: an all-empty payload reports all seven fields. |
| `Validation.BlankStringsPass` | src/marine_species_database_backend/src/lib.rs:121-128 | Only the length is checked, so strings of spaces pass. |
| `Service.EmptyIsValid` | src/marine_species_database_backend/src/lib.rs:81-97 | The initial state (counters at 0, maps empty) satisfies the store invariant. |
| `Service.KeyOrderIsIdOrder` | src/marine_species_database_backend/src/lib.rs:134-139 | When records are stored under their own ids, iteration order is strictly increasing id order. |
| `Service.CheckResearcher` | src/marine_species_database_backend/src/lib.rs:165-180 | The guard passes exactly when the record's researcher is the caller; otherwise it fails with `NotResearcher`. |
| `Service.GetTaxonomy` | src/marine_species_database_backend/src/lib.rs:149-157 | Returns the stored record exactly when the id is stored, otherwise `NotFound`. |
| `Service.GetMarineSpecie` | src/marine_species_database_backend/src/lib.rs:301-309 | Returns the stored record exactly when the id is stored, otherwise `NotFound`. |
| `Service.GetAllTaxonomy` | src/marine_species_database_backend/src/lib.rs:132-148 | Fails with `NotFound` exactly when the map is empty. Otherwise it returns every stored record once, and nothing else, in strictly increasing id order. |
| `Service.GetAllMarineSpecie` | src/marine_species_database_backend/src/lib.rs:285-298 | Fails with `NotFound` exactly when the map is empty. Otherwise it returns every stored record once, and nothing else, in strictly increasing id order. |
| `Service.WithStatus` | src/marine_species_database_backend/src/lib.rs:324-328 | The filter's result holds exactly the records whose status equals the query up to case, and is never longer than its input. |
| `Service.WithStatusCounts` | src/marine_species_database_backend/src/lib.rs:324-328 | Each matching record occurs in the result as often as in the input, and a record that does not match never occurs: no repeat is dropped or added. |
| `Service.WithStatusDistributes` | src/marine_species_database_backend/src/lib.rs:324-328 | Filtering a listing made of two parts gives the filtered first part followed by the filtered second part, so the filter keeps the input's order. |
| `Service.WithStatusKeepsIdOrder` | src/marine_species_database_backend/src/lib.rs:324-328 | A listing in strictly increasing id order is still in strictly increasing id order after filtering. |
| `Service.StatusFilterFindsStored` | src/marine_species_database_backend/src/lib.rs:320-330 | Filtering the whole collection keeps exactly the matching stored records. The result is empty exactly when no stored record matches. |
| `Service.GetMarineSpecieByConservationStatus` | src/marine_species_database_backend/src/lib.rs:318-337 | Fails with `NotFound` exactly when no stored record's status matches up to case. Otherwise it returns exactly the matching records, in increasing id order. |
| `Service.WithStatusIgnoresCase` | src/marine_species_database_backend/src/lib.rs:327 | The filter gives the same records for two queries that are equal up to case. |
| `Service.StatusSearchIgnoresCase` | src/marine_species_database_backend/src/lib.rs:319-337 | The status search gives the same answer for "endangered" and "ENDANGERED". |
| `Service.AddTaxonomy` | src/marine_species_database_backend/src/lib.rs:183-215 | Fails with `ValidationFailed(all empty fields)` exactly when the payload is invalid, and then changes nothing. Otherwise the new id is the old counter, and the counter advances by exactly one. The new record is stored under that id with researcher = caller, created_at = now, updated_at = None and the payload's fields. No other key and nothing in the other collection changes. The invariant is kept, and the new id was not in use. |
| `Service.UpdateTaxonomy` | src/marine_species_database_backend/src/lib.rs:218-250 | Invalid payload gives `ValidationFailed`. A valid payload with an absent id gives `NotFound`. A valid payload with a present id and another owner gives `NotResearcher`. Every failure leaves the state unchanged. Success happens exactly when all three checks pass. It keeps id, researcher and created_at, takes the payload's fields, sets updated_at = Some(now), and rewrites only that key. The counters and the other collection never change. |
| `Service.DeleteTaxonomy` | src/marine_species_database_backend/src/lib.rs:262-279 | An absent id gives `NotFound`; another owner gives `NotResearcher`; in both cases nothing changes. Otherwise it returns the stored record and removes exactly that key. Counters and marine species, dangling references included, stay as they were. |
| `Service.AddMarineSpecie` | src/marine_species_database_backend/src/lib.rs:340-370 | As for taxonomy. The taxonomy reference is stored as given, whether or not such a taxonomy exists. |
| `Service.UpdateMarineSpecie` | src/marine_species_database_backend/src/lib.rs:373-399 | Same checks and frame as the taxonomy update. The taxonomy reference is replaced unchecked. |
| `Service.DeleteMarineSpecie` | src/marine_species_database_backend/src/lib.rs:406-423 | Same outcomes and frame as the taxonomy delete. |
| `History.Apply` | src/marine_species_database_backend/src/lib.rs:193-198 | One update call advances a counter by one exactly when it is a successful create in that collection. The id handed out is the counter before the call. The invariant is kept. |
| `History.IssuedIdsIncrease` | src/marine_species_database_backend/src/lib.rs:350-355 | Along any run of update calls, the ids handed out in a collection strictly increase. They lie between the counter before and after the run, and the counter advances by exactly their number. Deletes in between change none of this. |
| `History.RunKeepsValid` | src/marine_species_database_backend/src/lib.rs:253-258 | Any run of update calls keeps every record stored under its own id, below the counter. |
| `History.IssuedIdsAreFresh` | src/marine_species_database_backend/src/lib.rs:193-198 | No id handed out during a run belongs to a record stored before the run, even if that record was deleted during the run. |
| `History.DeleteDoesNotFreeIds` | src/marine_species_database_backend/src/lib.rs:263-279 | Create, delete that record, create again: the second id is the first plus one. |
| `History.GetAfterAddTaxonomy` | src/marine_species_database_backend/src/lib.rs:199-214 | Reading the returned id after a successful create gives the created record. |
| `History.GetAfterAddMarineSpecie` | src/marine_species_database_backend/src/lib.rs:357-369 | Reading the returned id after a successful create gives the created record. |
| `History.GetAfterDeleteTaxonomy` | src/marine_species_database_backend/src/lib.rs:270-271 | After a successful delete, reading that id gives `NotFound`. |
| `History.GetAfterDeleteMarineSpecie` | src/marine_species_database_backend/src/lib.rs:414-415 | After a successful delete, reading that id gives `NotFound`. |
| `History.DanglingReferenceSurvivesDelete` | src/marine_species_database_backend/src/lib.rs:36 | Create a taxonomy and a marine species that refers to it, then delete the taxonomy. The marine species is still found, unchanged, and its reference dangles. |
| `History.FirstIdsAreZero` | src/marine_species_database_backend/src/lib.rs:81-88 | On an empty service, the first id in each collection is 0. |
| `Backend.Canister.constructor` | src/marine_species_database_backend/src/lib.rs:81-97 | Both counters start at 0 and both maps start empty. |
| `Backend.Canister.DoInsertTaxonomy` | src/marine_species_database_backend/src/lib.rs:252-259 | Writes the record under its own id and changes nothing else. |
| `Backend.Canister.DoInsertMarineSpecie` | src/marine_species_database_backend/src/lib.rs:401-404 | Writes the record under its own id and changes nothing else. |
| `Backend.Canister.AddTaxonomy` | src/marine_species_database_backend/src/lib.rs:183-215 | Changes the fields in place, with the new state and reply of `Service.AddTaxonomy`. It keeps the invariant. |
| `Backend.Canister.UpdateTaxonomy` | src/marine_species_database_backend/src/lib.rs:218-250 | Changes the fields in place, with the new state and reply of `Service.UpdateTaxonomy`. It keeps the invariant. |
| `Backend.Canister.DeleteTaxonomy` | src/marine_species_database_backend/src/lib.rs:262-279 | Changes the fields in place, with the new state and reply of `Service.DeleteTaxonomy`. The second `NotFound` branch, after `remove`, is proved never taken. |
| `Backend.Canister.AddMarineSpecie` | src/marine_species_database_backend/src/lib.rs:340-370 | Changes the fields in place, with the new state and reply of `Service.AddMarineSpecie`. It keeps the invariant. |
| `Backend.Canister.UpdateMarineSpecie` | src/marine_species_database_backend/src/lib.rs:373-399 | Changes the fields in place, with the new state and reply of `Service.UpdateMarineSpecie`. It keeps the invariant. |
| `Backend.Canister.DeleteMarineSpecie` | src/marine_species_database_backend/src/lib.rs:406-423 | Changes the fields in place, with the new state and reply of `Service.DeleteMarineSpecie`. The second `NotFound` branch, after `remove`, is proved never taken. |
| `Backend.DanglingReferenceSession` | src/marine_species_database_backend/src/lib.rs:36 | On a new canister, one caller creates a taxonomy, then a marine species pointing to it (both get id 0), then deletes the taxonomy. Reading the marine species back still succeeds, with its reference unchanged. |

## Left out

- Host plumbing is not modelled: the `#[ic_cdk::query]`/`#[ic_cdk::update]` attributes, `export_candid!`, the `thread_local!`/`RefCell` wrappers, and the `MemoryManager` that puts the four structures in memory regions 0-3. The four structures are plain fields of `Backend.Canister`. Reloading them from stable memory across a canister upgrade is not modelled either: `Backend.Canister.constructor` describes the first install, where both counters are 0 and both maps are empty.
- `ic_cdk::caller()` and `ic_cdk::api::time()` are foreign calls. They become the `caller` and `now` parameters; a principal is its text form.
- Candid encoding and decoding are not modelled, and neither is the 1024-byte `MAX_SIZE` bound that the stable map applies on `insert`. Encoded sizes come from a library outside this model, and an oversized record traps rather than returning an error.
- Error message texts from `format!` and from the `validator` crate's rendering are not modelled. `NotFound` carries nothing, and `ValidationFailed` carries the set of failing field names.
- `InvalidInput` is declared in `Error` but never produced, as in the source.
- Text.ToLower: ASCII letters only. Rust's `to_lowercase` also folds non-ASCII letters, so two statuses that differ only in the case of a non-ASCII letter match in the source but not in the model.
- Backend.Canister.AddTaxonomy: requires the counter to be below `u64::MAX`. Overflow of `current_value + 1` is taken as unreachable. The same holds for `Backend.Canister.AddMarineSpecie`, `Service.AddTaxonomy`, `Service.AddMarineSpecie`, and the run lemmas of `History`, which require enough headroom.
- The `range(min = 0)` rule on the unsigned `taxonomy_id` is not modelled, because it can never fail.
- Read-only entry points are functions of the maps in `Service`, not methods of `Backend.Canister`. Runs in `History` contain update calls only, because queries never change the state.
