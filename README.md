# Wardrobe item list of LaundryPro

LaundryPro is a household laundry tracker. Its `WardrobeProvider` keeps one
list of wardrobe item types, each a record `{name, total, available,
inLaundry}`. The wardrobe screen changes that list through four updaters:
`addItem`, `deleteItem`, `incrementItem` and `decrementItem`. Each one maps the
previous list to the next one.

This project models the list as `seq<Item>` and each updater as a Dafny
function (module `WardrobeContext`, file `wardrobe_context.dfy`). The string
trimming that `addItem` relies on is modelled in module `JsString`
(`js_string.dfy`). It follows ECMAScript `String.prototype.trim`, where white
space is the WhiteSpace and LineTerminator code points.

Behaviour worth knowing:

- `addItem` has no duplicate-name check, in any letter case. It appends a
  second record even when the name is exactly equal (`AddIgnoresDuplicates`,
  `SocksTwice`).
- `decrementItem` never draws from `inLaundry`. It lowers `available` by 1,
  flooring it at 0. When `available` is already 0, only `total` drops. So on
  a consistent list
  `total == available + inLaundry` survives a decrement exactly when
  `available > 0` or `inLaundry == 0` (`DecrementKeepsInvariantIff`,
  `DecrementFromLaundryBreaksInvariant`).
- An out-of-range index is a silent no-op for delete, increment and
  decrement; no error is raised.
- None of the four updaters raises `inLaundry`. So from the initial empty list
  every sequence of updates keeps every record consistent
  (`RunPreservesInvariant`).

## Model

| member | source | states |
|---|---|---|
| JsString.SkipLeading | contexts/WardrobeContext.jsx:53 | the left scan of `trim()` stops at the first index from `i` on that is not white space, or at the end; everything it passes is white space |
| JsString.SkipTrailing | contexts/WardrobeContext.jsx:53 | the right scan of `trim()` stops, never below `lo`, just after the last character that is not white space; everything it passes is white space |
| JsString.Trim | contexts/WardrobeContext.jsx:53-56 | `trim()` returns a contiguous slice of the input with only white space outside it, and the slice neither starts nor ends with white space |
| JsString.TrimEmptyIffAllWhitespace | contexts/WardrobeContext.jsx:53 | `item.trim() !== ''` fails exactly when every character of the input is white space, in both directions |
| JsString.TrimIdempotent | contexts/WardrobeContext.jsx:56 | a trimmed name trims to itself |
| WardrobeContext.AddItem | contexts/WardrobeContext.jsx:52-64 | a missing or blank input leaves the list unchanged; otherwise exactly one record is appended at the end, with the trimmed name and all three counts 0, and the earlier records are kept in order; the new name is non-empty with no white space at either end; the count invariant and "nothing in the laundry" are preserved |
| WardrobeContext.AddIgnoresDuplicates | contexts/WardrobeContext.jsx:53-61 | adding a name already present still grows the list by one and keeps both records |
| WardrobeContext.ReAddStoredName | contexts/WardrobeContext.jsx:53-61 | re-adding the stored name of a record appends a second record with the same name |
| WardrobeContext.NotBlank | contexts/WardrobeContext.jsx:53 | a string whose first character is not white space passes the guard of `addItem` |
| WardrobeContext.SocksTwice | contexts/WardrobeContext.jsx:53-61 | adding "Socks" and then "socks" to the empty list gives two records, named "Socks" and "socks", because names are not compared in any letter case |
| WardrobeContext.DeleteItem | contexts/WardrobeContext.jsx:66-68 | the index-aware filter removes exactly the record at an in-range index and keeps the others in order; any other index leaves the list unchanged |
| WardrobeContext.DeleteRemovesOne | contexts/WardrobeContext.jsx:67 | deleting in range removes exactly one occurrence of the deleted record from the list's multiset |
| WardrobeContext.DeletePreserves | contexts/WardrobeContext.jsx:67 | deletion preserves the count invariant and "nothing in the laundry" |
| WardrobeContext.IncrementItem | contexts/WardrobeContext.jsx:70-78 | the length is unchanged and every other record is untouched; an in-range record gets `total` and `available` raised by exactly 1 and keeps its `name` and `inLaundry` |
| WardrobeContext.IncrementPreserves | contexts/WardrobeContext.jsx:70-78 | incrementing preserves the count invariant and "nothing in the laundry" |
| WardrobeContext.DecrementItem | contexts/WardrobeContext.jsx:80-88 | an out-of-range index or a record with `total <= 0` is a no-op; otherwise `total` drops by exactly 1, `available` becomes `max(available - 1, 0)`, `name` and `inLaundry` are kept, neither count goes negative and the other records are untouched |
| WardrobeContext.DecrementPreserves | contexts/WardrobeContext.jsx:80-88 | decrementing keeps "nothing in the laundry", and preserves the count invariant when the index is out of range or the record has `available > 0` or `inLaundry == 0` |
| WardrobeContext.DecrementKeepsInvariantIff | contexts/WardrobeContext.jsx:80-88 | on a consistent list and an in-range index, the list stays consistent after a decrement if and only if the record has `available > 0` or `inLaundry == 0` |
| WardrobeContext.TrimmedAlready | contexts/WardrobeContext.jsx:53-56 | a string that neither starts nor ends with white space passes the guard of `addItem` and trims to itself |
| WardrobeContext.DecrementFromLaundryBreaksInvariant | contexts/WardrobeContext.jsx:84 | a consistent record `{total 1, available 0, inLaundry 1}` decrements to `{0, 0, 1}`, which breaks the invariant |
| WardrobeContext.DecrementUndoesIncrement | contexts/WardrobeContext.jsx:70-88 | decrementing right after incrementing the same index gives back the original list, provided that record's `total` and `available` are not negative |
| WardrobeContext.IncrementTimes | contexts/WardrobeContext.jsx:70-78 | n increments raise the record's `total` and `available` by exactly n and leave every other record alone |
| WardrobeContext.DecrementTimes | contexts/WardrobeContext.jsx:80-88 | n decrements keep the length and leave every other record alone; on a record with non-negative `total` and `available` they lower `total` by `k = min(n, total)` and set `available` to `max(available - k, 0)`, so neither count goes negative, and keep `name` and `inLaundry` |
| WardrobeContext.IncrementsThenDecrementsRestore | contexts/WardrobeContext.jsx:70-88 | n increments followed by n decrements of one record give back the original list |
| WardrobeContext.FreshRecordRoundTrip | contexts/WardrobeContext.jsx:52-88 | a freshly added record incremented n times and then decremented n times is back at all-zero counts |
| WardrobeContext.RunPreservesInvariant | contexts/WardrobeContext.jsx:52-88 | from a consistent list with nothing in the laundry, such as the initial empty list, every sequence of the four updates keeps every record consistent with nothing in the laundry |

## Left out

- Loading and saving the list through AsyncStorage, the JSON parse and
  stringify, and the `isLoading` gate (contexts/WardrobeContext.jsx:20-50).
  These are asynchronous I/O through a library that is not part of this
  model. Loaded data is an arbitrary `seq<Item>` input, and
  `RunPreservesInvariant` states its precondition on that list.
- The React context, the provider component and the `useWardrobe` hook
  (contexts/WardrobeContext.jsx:4-14,90-94). The state cell is replaced
  wholesale by each updater, which the functions on `seq<Item>` capture.
- JavaScript numbers are doubles. Counts are modelled as unbounded `int`, so
  precision loss above 2^53 and non-integer or NaN counts from edited
  storage are not modelled.
- Indices are modelled as `int`. A non-integer index, or one that is not a
  number, never satisfies `i === index`, so it acts like an out-of-range
  index. The model has no such values.
- A truthy argument to `addItem` that is not a string would throw at
  `trim()`; that path is not modelled. The input is modelled as
  `Option<string>`, where `None` stands for every falsy argument (`null`,
  `undefined`, `0`, `false`, `NaN`), all of which `addItem` ignores.
- Strings are modelled as sequences of Unicode scalar values (Dafny `char`),
  while JavaScript strings are sequences of UTF-16 code units, so a lone
  surrogate is not representable. This does not change `trim()`: every
  WhiteSpace and LineTerminator code point lies in the Basic Multilingual
  Plane, so it is a single code unit either way.
- Sending to the laundry, marking batches returned, and the active-batch list.
  The send and history screens read `sendToLaundry`, `markBatchReturned` and
  `activeBatches` from the context, but the provider does not define them.
  There is no implementation to model.
- Category-code generation and backup export/import. No file implements
  them, and the Backup and Restore buttons have no handlers.
- Screens, navigation and the splash screen, which are UI only.
