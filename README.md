# Phonebook core in Dafny

This project models the core of a hexagonal contact-management application ("phonebook"):

- **Phone number value object.** It validates a raw string: only digits, white space, `-`, `(`, `)` and `+` are allowed, and it must hold 10 to 15 digits. A valid number is normalised to its digits. Ten-digit numbers display as `(XXX) XXX-XXXX`.
- **Contact entity.** It holds the contact record, the `fullName` getter, and `update`, which applies a partial record in place with `Object.assign` and then stamps `updatedAt`.
- **Browser-storage repository.** The whole contact list lives as one JSON array under one storage key. Every read parses the array again, and every write stores the whole array back. Without a browser window, a read sees an empty list and a write does nothing. A missing or corrupt array also reads as empty. The repository provides `findAll` (sorted by lower-cased full name), `findById`, `findByPhoneNumber`, `search`, `save` (which draws a UUID for an empty id), `update` (each field is `patch ?? existing`), `delete` and `count`.
- **The five use cases:**
  - create: names required, then the phone format, then no duplicate phone, then save;
  - update: contact must exist, then the phone is checked if one is given, then the repository update;
  - delete: contact must exist, then the repository delete;
  - get;
  - list: `search` for a non-empty query, otherwise `findAll`, plus `count`.

Create, update and delete are methods that change the repository object; get and list are functions that read it. Each state-changing use case also has a step function over the contact list (`CreateStep`, `UpdateStep`, `DeleteStep`). A step function gives the result and the list left behind, and the methods are proved against it.

The program maintains an invariant on the stored list, `Consistent`:
- ids are non-empty, since `save` assigns one (LocalStorageContactRepository.ts:73), and unique;
- phone numbers are unique, since create refuses a held phone (CreateContact.ts:22-25);
- names are non-empty, since create requires both (CreateContact.ts:16-18);
- every phone is canonical (10 to 15 digits), since the normalised phone is stored (PhoneNumber.ts:8);
- `createdAt <= updatedAt`, as long as the clock never runs backwards.

The model proves that create and delete preserve `Consistent`. It also shows that the update use case, as written, does not: see "## Findings".

The environment is modelled as follows:
- The clock (`new Date()`) is the parameter `now`.
- `crypto.randomUUID()` is the parameter `freshId`.
- Whether a `window` exists is the repository's `windowPresent`.
- Whether the stored array can be parsed is its `readable` flag.
- A thrown error is a `Result` whose `Err` carries the source's message text.

With this repository and no other writer to the same storage key, the use cases' "Failed to update contact" and "Failed to delete contact" branches can never be taken: the lookup just before them has already found the contact. `UpdateStep` and `DeleteStep` state this in their contracts.

Modules:
- `Common`: Option, Result, and `Slot`. A `Slot` is a patch field that is absent, `undefined`, or set.
- `Text`: lower-casing, substring search and lexicographic order.
- `Seqs`: filter, find-index and distinctness.
- `Sorting`: stable sort by key.
- `PhoneNumbers`.
- `Contacts`: the record, patches, the two merge rules, and the `ContactEntity` class.
- `LocalStorage`: the `LocalStorageContactRepository` class.
- `UseCases`.

## Model

| member | source | states |
|---|---|---|
| PhoneNumbers.Normalize | src/domain/value-objects/PhoneNumber.ts:17-19 | the result keeps only digits and is no longer than the input |
| PhoneNumbers.IsValid | src/domain/value-objects/PhoneNumber.ts:11-15 | a valid input's digits form a canonical phone (10 to 15 digits) |
| PhoneNumbers.Parse | src/domain/value-objects/PhoneNumber.ts:4-15 | succeeds exactly when the input is non-empty, uses only allowed characters and has 10 to 15 digits; otherwise fails with "Invalid phone number format"; the value is the input's digits |
| PhoneNumbers.PhoneNumber.Format | src/domain/value-objects/PhoneNumber.ts:25-31 | ten digits become `(ddd) ddd-dddd` with the digit groups in place; any other length is returned unchanged |
| PhoneNumbers.PhoneNumber.ToString | src/domain/value-objects/PhoneNumber.ts:21-23 | the value returned is canonical and is its own normal form |
| PhoneNumbers.NormalizeAppend | src/domain/value-objects/PhoneNumber.ts:17-19 | the digits of a concatenation are the digits of each part, in order |
| PhoneNumbers.NormalizeDigits | src/domain/value-objects/PhoneNumber.ts:17-19 | an all-digit string normalises to itself |
| PhoneNumbers.NormalizeNoDigits | src/domain/value-objects/PhoneNumber.ts:17-19 | a digit-free string normalises to the empty string |
| PhoneNumbers.NormalizeIdempotent | src/domain/value-objects/PhoneNumber.ts:17-19 | normalising twice is normalising once |
| PhoneNumbers.ParseToString | src/domain/value-objects/PhoneNumber.ts:4-23 | constructing from `toString()` succeeds and gives back the same phone number |
| PhoneNumbers.FormatNormalizes | src/domain/value-objects/PhoneNumber.ts:25-31 | stripping the ten-digit display form to its digits gives back the stored digits |
| PhoneNumbers.FormatAllowed | src/domain/value-objects/PhoneNumber.ts:25-31 | every character of the ten-digit display form passes the character check of the validation |
| PhoneNumbers.ParseFormat | src/domain/value-objects/PhoneNumber.ts:25-31 | constructing from `format()` succeeds and gives back the same phone number (display form round trip) |
| Contacts.Contact.FullName | src/domain/entities/Contact.ts:26-28 | first name, one space, last name: length and the three pieces in position |
| Contacts.MergeAssign | src/domain/entities/Contact.ts:30-33 | per field: an absent key keeps, `undefined` clears an optional field, a value replaces; id and createdAt kept; updatedAt becomes now |
| Contacts.MergeNullish | src/infrastructure/adapters/localstorage/LocalStorageContactRepository.ts:99-110 | per field: a value replaces, absent or `undefined` keeps; id and createdAt kept; updatedAt becomes now |
| Contacts.EmptyPatchOnlyStamps | src/domain/entities/Contact.ts:30-33 | an empty patch changes only updatedAt, under both merge rules |
| Contacts.AssignVersusNullish | src/domain/entities/Contact.ts:30-33 | `Object.assign` and `??` give the same record exactly when no `undefined` hits an optional field holding a value |
| Contacts.ContactEntity.constructor | src/domain/entities/Contact.ts:13-24 | the object holds the given fields; omitted timestamps default to now |
| Contacts.ContactEntity.FullName | src/domain/entities/Contact.ts:26-28 | the object's first name, one space, its last name: length and the three pieces in position |
| Contacts.ContactEntity.Update | src/domain/entities/Contact.ts:30-33 | the object's new record is `MergeAssign` of its old record |
| Text.Lower | src/infrastructure/adapters/localstorage/LocalStorageContactRepository.ts:57 | same length; each character lower-cased |
| Text.LowerAppend | src/infrastructure/adapters/localstorage/LocalStorageContactRepository.ts:39-40 | lower-casing a concatenation lower-cases each part |
| Text.LexLeReflexive | src/infrastructure/adapters/localstorage/LocalStorageContactRepository.ts:38-42 | the sort comparator's order is reflexive |
| Text.LexLeTotal | src/infrastructure/adapters/localstorage/LocalStorageContactRepository.ts:38-42 | the order is total |
| Text.LexLeTransitive | src/infrastructure/adapters/localstorage/LocalStorageContactRepository.ts:38-42 | the order is transitive |
| Text.LexLeAntisymmetric | src/infrastructure/adapters/localstorage/LocalStorageContactRepository.ts:38-42 | the order is antisymmetric |
| Seqs.Filter | src/infrastructure/adapters/localstorage/LocalStorageContactRepository.ts:121 | no longer than the input; holds exactly the input's elements that satisfy the predicate (both directions, by position) |
| Seqs.FilterMembership | src/infrastructure/adapters/localstorage/LocalStorageContactRepository.ts:59-63 | an element is in the filtered list exactly when it is in the list and satisfies the predicate |
| Seqs.FilterShrinks | src/infrastructure/adapters/localstorage/LocalStorageContactRepository.ts:120-123 | the filtered list is shorter exactly when some element fails the predicate; equal length means nothing was dropped |
| Seqs.FilterKeepsDistinct | src/infrastructure/adapters/localstorage/LocalStorageContactRepository.ts:121 | filtering keeps keys pairwise distinct |
| Seqs.AppendKeepsDistinct | src/infrastructure/adapters/localstorage/LocalStorageContactRepository.ts:87 | appending an element with a new key keeps keys distinct |
| Seqs.ReplaceKeepsDistinct | src/infrastructure/adapters/localstorage/LocalStorageContactRepository.ts:112 | replacing one element by one whose key no other element has keeps keys distinct |
| Seqs.FindIndex | src/infrastructure/adapters/localstorage/LocalStorageContactRepository.ts:95 | None exactly when no element matches; otherwise the first matching position |
| Sorting.SortBy | src/infrastructure/adapters/localstorage/LocalStorageContactRepository.ts:36-43 | the sorted list is a permutation of the input |
| Sorting.InsertSorted | src/infrastructure/adapters/localstorage/LocalStorageContactRepository.ts:38-42 | inserting into a sorted list keeps it sorted |
| Sorting.SortBySorted | src/infrastructure/adapters/localstorage/LocalStorageContactRepository.ts:36-43 | the sorted list is ordered by key |
| Sorting.FilterSortBy | src/infrastructure/adapters/localstorage/LocalStorageContactRepository.ts:55-69 | filtering then sorting equals sorting then filtering |
| LocalStorage.SortKey | src/infrastructure/adapters/localstorage/LocalStorageContactRepository.ts:39-41 | the key is the lower-cased first name, one space, the lower-cased last name |
| LocalStorage.Matches | src/infrastructure/adapters/localstorage/LocalStorageContactRepository.ts:59-63 | an empty query matches every contact |
| LocalStorage.MatchesIgnoresCase | src/infrastructure/adapters/localstorage/LocalStorageContactRepository.ts:57-63 | for a contact with an all-digit phone, a query and its lower-cased form match the same way, so the search ignores case |
| LocalStorage.SortedMatches | src/infrastructure/adapters/localstorage/LocalStorageContactRepository.ts:55-69 | sorting the matches equals filtering the sorted list; it holds exactly the matching contacts, sorted by key |
| LocalStorage.LocalStorageContactRepository.Contacts | src/infrastructure/adapters/localstorage/LocalStorageContactRepository.ts:7-29 | the stored array when there is a window and it can be read; the empty list otherwise |
| LocalStorage.LocalStorageContactRepository.Count | src/infrastructure/adapters/localstorage/LocalStorageContactRepository.ts:131-133 | the number of stored contacts, which is also the length of the `findAll` list |
| LocalStorage.FindFirst | src/infrastructure/adapters/localstorage/LocalStorageContactRepository.ts:47 | None exactly when nothing matches; otherwise the first matching element |
| LocalStorage.LocalStorageContactRepository.constructor | src/infrastructure/adapters/localstorage/LocalStorageContactRepository.ts:7-29 | the store holds the initial array, or reads as missing or corrupt |
| LocalStorage.LocalStorageContactRepository.SaveContacts | src/infrastructure/adapters/localstorage/LocalStorageContactRepository.ts:31-34 | with a window the stored list becomes the argument; without one nothing changes |
| LocalStorage.LocalStorageContactRepository.FindAll | src/infrastructure/adapters/localstorage/LocalStorageContactRepository.ts:36-43 | a permutation of the stored contacts, ordered by lower-cased full name |
| LocalStorage.LocalStorageContactRepository.FindById | src/infrastructure/adapters/localstorage/LocalStorageContactRepository.ts:45-48 | null exactly when no stored contact has the id; otherwise the first one that has it |
| LocalStorage.LocalStorageContactRepository.FindByPhoneNumber | src/infrastructure/adapters/localstorage/LocalStorageContactRepository.ts:50-53 | null exactly when no stored contact has that exact phone; otherwise the first one |
| LocalStorage.LocalStorageContactRepository.Search | src/infrastructure/adapters/localstorage/LocalStorageContactRepository.ts:55-69 | the `findAll` list filtered by the query; a contact is returned exactly when it is stored and matches; result sorted |
| LocalStorage.LocalStorageContactRepository.Save | src/infrastructure/adapters/localstorage/LocalStorageContactRepository.ts:71-91 | the contact, with the fresh id when its id is empty; appended to the store when there is a window, nothing changes otherwise |
| LocalStorage.LocalStorageContactRepository.Update | src/infrastructure/adapters/localstorage/LocalStorageContactRepository.ts:93-116 | null and no change when the id is absent; otherwise the `??`-merge of the first contact with the id, written back at its position |
| LocalStorage.LocalStorageContactRepository.Delete | src/infrastructure/adapters/localstorage/LocalStorageContactRepository.ts:118-129 | true exactly when a stored contact had the id; then the store holds the others in order; otherwise no change |
| LocalStorage.UnreadableStoreReadsEmpty | src/infrastructure/adapters/localstorage/LocalStorageContactRepository.ts:7-29 | without a window, or with a missing or corrupt array, every query returns empty, null or 0 |
| LocalStorage.SearchWithinCount | src/infrastructure/adapters/localstorage/LocalStorageContactRepository.ts:131-133 | a search returns at most `count()` contacts, and `findAll` returns exactly `count()` |
| LocalStorage.DeleteKeepsOthers | src/infrastructure/adapters/localstorage/LocalStorageContactRepository.ts:118-129 | after delete no contact has the id, and every contact with another id remains |
| LocalStorage.DeleteRemovesOne | src/infrastructure/adapters/localstorage/LocalStorageContactRepository.ts:118-129 | with unique ids, delete removes exactly one contact |
| UseCases.CreateStep | src/application/use-cases/CreateContact.ts:8-38 | each error, in the order checked, exactly when its condition holds; success exactly when the names are non-empty, the phone is valid and no stored contact holds its normalised form; errors leave the list unchanged; success appends the new record with normalised phone, fresh id and both stamps now |
| UseCases.CreateKeepsConsistent | src/application/use-cases/CreateContact.ts:16-37 | create preserves `Consistent`, and a success adds exactly one contact |
| UseCases.CreateKeepsUniquePhones | src/application/use-cases/CreateContact.ts:22-37 | on any list whose phones are pairwise distinct, create keeps them distinct |
| UseCases.CreateContact | src/application/use-cases/CreateContact.ts:8-38 | result and stored list are those of `CreateStep`; errors or a missing window change nothing; `Consistent` is preserved |
| UseCases.UpdateStep | src/application/use-cases/UpdateContact.ts:8-43 | not found, invalid format and phone taken by another contact each exactly when their condition holds; never "Failed to update contact"; succeeds exactly when the id is stored and the phone is unchecked, or valid with its first stored holder absent or the contact itself; every error is not found, invalid format or phone taken; success is the `??`-merge at the contact's position |
| UseCases.UpdateKeepsConsistent | src/application/use-cases/UpdateContact.ts:8-43 | as written, update preserves `Consistent` as long as the patch sets no name and no phone to the empty string and the clock is no earlier than every stored `updatedAt` |
| UseCases.UpdateToOwnPhone | src/application/use-cases/UpdateContact.ts:26-35 | on a consistent list, updating a contact to its own phone, in any valid format, succeeds and keeps that phone |
| UseCases.UpdateBlanksPhone | src/application/use-cases/UpdateContact.ts:26 | as written, a patch with phone "" succeeds on any existing contact, stores phone "" and breaks `Consistent` |
| UseCases.UpdateDuplicatesBlankPhone | src/application/use-cases/UpdateContact.ts:26-35 | as written, two such updates on two contacts both succeed and leave duplicate phones |
| UseCases.UpdateBlanksName | src/application/use-cases/UpdateContact.ts:24 | as written, a patch with first name "" succeeds, stores it and breaks `Consistent` |
| UseCases.UpdateStepChecked | src/application/use-cases/UpdateContact.ts:26 | corrected update: not found exactly as before; success only for patches that blank no field; for a stored id and such a patch it equals the update as written; errors change nothing |
| UseCases.UpdateCheckedKeepsConsistent | src/application/use-cases/UpdateContact.ts:24-37 | the corrected update preserves `Consistent` for every patch, provided the clock is no earlier than every stored `updatedAt` |
| UseCases.UpdateContact | src/application/use-cases/UpdateContact.ts:8-43 | result and stored list are those of `UpdateStep`; errors change nothing |
| UseCases.UpdateContactChecked | src/application/use-cases/UpdateContact.ts:26-35 | result and stored list are those of `UpdateStepChecked`; `Consistent` is preserved when the clock is no earlier than every stored `updatedAt` |
| UseCases.DeleteStep | src/application/use-cases/DeleteContact.ts:6-16 | "Contact not found" exactly when no contact has the id; never "Failed to delete contact"; succeeds whenever the id is stored; success drops the contacts with the id and shortens the list |
| UseCases.DeleteKeepsConsistent | src/application/use-cases/DeleteContact.ts:6-16 | delete preserves `Consistent`, and a success removes exactly the one contact with the id |
| UseCases.DeleteContact | src/application/use-cases/DeleteContact.ts:6-16 | result and stored list are those of `DeleteStep`; `Consistent` is preserved |
| UseCases.GetContact | src/application/use-cases/GetContact.ts:7-13 | "Contact not found" exactly when no stored contact has the id; otherwise exactly the contact `findById` returns, the first stored one with that id |
| UseCases.ListContacts | src/application/use-cases/ListContacts.ts:7-21 | total is the stored count; a non-empty query gives the sorted list filtered by it; otherwise exactly the `findAll` list: all stored contacts, sorted by name |

## Left out

- The repository port `ContactRepository` (src/domain/repositories/ContactRepository.ts) is an interface. The use cases here take the browser-storage class directly, because the model has no abstract types.
- The MySQL and SQLite adapters, the repository factory, the database configuration, `ContactService`, the API routes and the React components are not part of this model.
- Promises and `await` are sequential calls. No other writer (another browser tab on the same storage key) changes the store between a use case's lookup and its write; such a writer is what would make "Failed to update contact" and "Failed to delete contact" reachable.
- Repository calls are not recorded as a trace. The contracts state their observable effect on the store instead.
- Failures inside the store are not modelled: `localStorage.setItem` throwing (for example, over quota) and `crypto.randomUUID` being unavailable. Unparseable or non-array storage content is the `readable` flag.
- JSON details are not modelled. Dates become integers (milliseconds). Stored records with missing or mistyped fields, and `null` field values in stored records, are not modelled. In a patch, `null` behaves as `undefined` under both merge rules (`??` keeps the old value; `Object.assign` empties the field), so the `Undefined` slot stands for both.
- `toLowerCase` folds ASCII letters only. `localeCompare` is lexicographic order on Unicode code points, so keys that a locale treats as equal but that differ as strings are ordered, not tied.
- `Array.prototype.sort` is a stable insertion sort by key. The model does not state stability as a lemma.
- The clock is assumed never to run backwards: update stamps `updatedAt` with `new Date()`, so `createdAt <= updatedAt` and the update lemmas hold only when `now` is no earlier than every stored `updatedAt`.
- CreateInput's phone is always a string. A request without `phoneNumber` makes `value.replace` throw a TypeError at PhoneNumber.ts:13, instead of failing with "Invalid phone number format". The names, by contrast, may be missing in the model.
- The create use case builds the entity with two separate `new Date()` defaults. The model stamps both with the same `now`.
- `save`'s fallback `contact.createdAt || new Date()` is not modelled: a timestamp is always present in the model.
- Contacts.ContactEntity.Update: requires that the patch does not set a name or the phone to `undefined`. `Object.assign` would do that, leaving a required field undefined, which the record type cannot hold.
- Contacts.MergeAssign: the same precondition, for the same reason.
- UseCases.CreateKeepsConsistent: assumes `freshId` differs from every stored id. A UUID collision is not modelled.

## Findings

| source | as written | input that shows it | evidently intended | confidence | as-written member | corrected member |
|---|---|---|---|---|---|---|
| src/application/use-cases/UpdateContact.ts:26 | `if (data.phoneNumber)` skips validation for the empty string, which is then forwarded and stored, since `"" ?? existing` is `""` | `update(id, { phoneNumber: "" })` on any existing contact; repeating it on a second contact gives two contacts with phone `""` | a phone present in the patch is validated even when empty, so `""` is rejected as an invalid format | high, not executed | UseCases.UpdateBlanksPhone | UseCases.UpdateStepChecked |
| src/application/use-cases/UpdateContact.ts:24 | names in the patch are forwarded without the non-empty check that create applies | `update(id, { firstName: "" })` on any existing contact | an update may not empty a required name ("First name and last name are required") | medium, not executed | UseCases.UpdateBlanksName | UseCases.UpdateStepChecked |
