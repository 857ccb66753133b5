# dac — a verified model of the header-only C string buffer

`dac.h` ("dynamic array of chars") is a growable, NUL-terminated byte buffer
for C. A `dac` has three fields: `ptr`, the heap buffer; `count`, the string
length plus the terminator; and `capacity`, the bytes allocated. This project
models that buffer and the operations on it in Dafny. It proves what each
operation does to the buffer, and what the source promises about the results.

Files:

- `dac_spec.dfy`, module `DacSpec`. This holds the meaning of the operations on
  plain sequences: C strings and `strlen`, and the capacity growth policy of
  `dac_reserve_capacity` (`Doubled`, `GrownCapacity`). It also defines
  concatenation (`Concat`), the interleaved array of `dac_join` (`Interleave`)
  and its result (`Joined`), and what the three scans answer (`IsSubstring`,
  `PrefixMatches`, `SuffixMatches`). The lemmas about these definitions are
  here too.
- `dac.dfy`, module `Dac`. Class `Dac` has the source's three fields:
  `buf: array<char>` (the `ptr`), `count` and `capacity`. Its object invariant
  `Valid()` says that `buf` has `capacity` bytes, that `1 <= count <=
  capacity`, that `buf[count-1]` is the terminator and that no terminator
  comes before it. The ghost function `Contents()` is `buf[..count-1]`. The
  mutators are methods with `modifies` clauses. Each one states the new
  contents and the new capacity in terms of the old ones. The scans are
  methods with the source's index loops and early returns. `memcpy` and
  `realloc` are small methods (`MemCopy`, `Realloc`). `dac_join` is the
  module-level method `Join`, which builds its local array of `2n-1` entries.
- `dac_client.dfy`, module `DacClient`. These are callers that use the
  contracts alone to prove the expected values of `dac_test.c` for the
  functions that `dac.h` defines, the true and the false ones.

`dac_contains` returns true for an empty search on every string. Its outer
loop at dac.h:78 also visits the terminator slot `count-1`, where the first
byte of the empty search (its terminator) matches and `j == 0 == search_len`.
`Dac.Dac.Contains` answers `IsSubstring`, and the empty run is a substring of
every string. This differs from the empty-affix rule of `dac_starts_with` and
`dac_ends_with`, where an empty affix matches only the empty string.

## Model

| member | source | states |
|---|---|---|
| `DacSpec.ToSize` | dac.h:162-164 | size_t arithmetic: the result is below 2^64 and congruent to the exact value modulo 2^64 |
| `DacSpec.StrLen` | dac.h:58 | `strlen`: the result indexes a terminator, and no terminator comes before it |
| `DacSpec.CStringRoundTrip` | dac.h:56-67 | a string without terminators, written with its terminator, reads back through `strlen` as its length and its contents |
| `DacSpec.Doubled` | dac.h:177-179 | the doubling loop ends at or above both the start and the request, and below twice the request unless no doubling happened |
| `DacSpec.GrownCapacity` | dac.h:172-184 | the new capacity covers the request and never shrinks; it is unchanged exactly when the request already fits |
| `DacSpec.Scaled` | dac.h:177-179 | a capacity doubled k times is at least the capacity it started from |
| `DacSpec.ScaledIsPowerMultiple` | dac.h:177-179 | doubling k times multiplies the capacity by 2^k |
| `DacSpec.DoubledStopsAtScaled` | dac.h:177-179 | the doubling loop stops after the least number of doublings that covers the request |
| `DacSpec.DoubledIsLeastCover` | dac.h:177-179 | doubling from `cap` stops at `cap * 2^k` for the least `k` that covers the request |
| `DacSpec.FromZeroCapacity` | dac.h:173-179 | from capacity 0, a non-zero request yields `256 * 2^k` for the least such `k` |
| `DacSpec.DoubledTwice` | dac.h:177-179 | doubling for one request and then for another ends where doubling once for the larger request ends |
| `DacSpec.ReserveTwiceIsReserveOnce` | dac.h:172-184 | two reservations leave the same capacity as one reservation of the larger request |
| `DacSpec.ConcatAppend` | dac.h:110-113 | concatenating two runs of items equals concatenating the two results |
| `DacSpec.InterleaveSnoc` | dac.h:118-126 | the interleaved array for n items is that for the first n-1 items, followed by the delimiter and the last item |
| `DacSpec.ConcatSnoc2` | dac.h:110-113 | concatenating a run followed by two more items appends both items, in order |
| `DacSpec.ConcatInterleave` | dac.h:117-130 | concatenating the interleaved array gives items[0] + delim + ... + delim + items[n-1] |
| `DacSpec.JoinedHasEachItem` | dac.h:117-130 | every item occurs as a substring of the joined string |
| `DacSpec.PrefixIsSubstring` | dac.h:140-153 | a prefix that `dac_starts_with` accepts is a substring |
| `DacSpec.SuffixIsSubstring` | dac.h:155-170 | a suffix that ends the string is a substring |
| `DacSpec.SuffixMissesOnlyWholeString` | dac.h:162 | for a non-empty suffix, the as-written answer differs from "the string ends with it" exactly when the suffix is the whole string |
| `DacSpec.WholeStringIsNotASuffix` | dac.h:162 | a non-empty string is not accepted as a suffix of itself, though it does end with itself |
| `DacSpec.AppendedPartsMatch` | dac.h:69-75 | after an append to a non-empty string, the old string is a prefix and a non-empty item is a suffix; both are substrings |
| `DacSpec.SubstringOfExtension` | dac.h:77-92 | a substring stays a substring when text is added on either side |
| `DacSpec.MissingCharNotSubstring` | dac.h:77-92 | a search holding a character the string lacks is not a substring, so `dac_contains` answers false |
| `Dac.MemCopy` | dac.h:73 | `memcpy`: the target range holds the source, and every other byte is unchanged |
| `Dac.Realloc` | dac.h:181 | `realloc` to a larger size: a fresh array of the new size whose prefix holds the old bytes |
| `Dac.Dac.constructor` | dac.h:56-63 | `dac_new`: the contents are the C string up to its terminator, `count` is `strlen + 1`, the capacity is the growth policy's answer for that count from 0, and the invariant holds |
| `Dac.Dac.Len` | dac.h:65 | `dac_len` is the length of the contents |
| `Dac.Dac.CStr` | dac.h:67 | `dac_to_cstr`: the buffer read as a C string has `strlen` equal to the length and holds the contents |
| `Dac.Dac.ReserveCapacity` | dac.h:172-184 | the capacity becomes the growth policy's answer; `count` and the old bytes are kept; the buffer is not replaced when the request fits; a valid buffer stays valid with the same contents |
| `Dac.Dac.CopyAtTerminator` | dac.h:72-74 | copying a C string over the terminator appends it to the contents and keeps the invariant |
| `Dac.Dac.Append` | dac.h:69-75 | the contents become old contents + item contents and the length grows by the item's length; the capacity is one reservation for the new count; the item is unchanged |
| `Dac.Dac.AppendStr` | dac.h:94-100 | the contents become old contents + the C string up to its terminator; the capacity is one reservation for the new count |
| `Dac.Dac.CountAfter` | dac.h:103-107 | the first loop of `dac_append_many` computes the current length plus all item lengths plus one |
| `Dac.Dac.CopyItems` | dac.h:110-113 | the copy loop of `dac_append_many` appends every item in order into room already reserved, keeping the buffer and the invariant |
| `Dac.Dac.AppendMany` | dac.h:102-115 | the contents become old + items[0] + ... + items[n-1]; `count` is the precomputed new count; the capacity is one reservation for it; no items leaves the contents unchanged |
| `Dac.Dac.Contains` | dac.h:77-92 | true exactly when the search string occurs as a contiguous run; always true for an empty search |
| `Dac.Dac.StartsWith` | dac.h:140-153 | an empty prefix matches only the empty string; otherwise true exactly when the prefix is no longer than the string and equals its first bytes |
| `Dac.Dac.EndsWith` | dac.h:155-170 | an empty suffix matches only the empty string; otherwise true exactly when the suffix is strictly shorter than the string and equals its last bytes |
| `Dac.Dac.EndsWithCorrected` | dac.h:155-170 | with the bound check `< len` alone: true exactly when the suffix is no longer than the string and equals its last bytes |
| `Dac.WrittenOverTerminator` | dac.h:111-112 | a C string copied over the terminator leaves the old contents followed by the item, terminated, with no earlier terminator |
| `Dac.SuffixIndex` | dac.h:162-164 | the size_t index is the true offset `len - sl + i` when that is not negative, and that offset plus 2^64 otherwise |
| `Dac.Join` | dac.h:117-130 | for at least one item, a fresh valid buffer holding items[0] + delim + items[1] + ... + delim + items[n-1] |
| `DacClient.NewFromLiteral` | dac_test.c:105-108 | `dac_new` on a literal holds exactly that literal |

## Left out

- `dac_free` and `dac_free_many` (dac.h:132-138) only release memory. Dafny's heap is garbage-collected, so use after release is not modelled.
- Allocation failure is not modelled: the `assert` after `realloc` at dac.h:182 is not there. `Realloc` always returns a fresh array with the old bytes copied.
- `dac_find`, `dac_replace`, `dac_replace_all`, `dac_eq` and `dac_init` are called by dac_test.c but are not defined in `dac.h`. Replace and replace-all are only a TODO there. None of them is modelled.
- The test harness in dac_test.c (its output macros and `random_string`) is not part of this model. `DacClient` uses only its expected values.
- Dac.Dac.ReserveCapacity: capacity is a `nat`, so the doubling at dac.h:178 never wraps around size_t.
- Dac.Dac.Append: the sum `new_count` at dac.h:70 is computed without size_t overflow.
- Dac.Dac.AppendStr: the sum `new_count` at dac.h:95 is computed without size_t overflow. The string is passed as a value, so a `str` that points into the destination's own buffer (as in `dac_append_str(&s, dac_to_cstr(&s))`) is not modelled: in C it goes stale after the `realloc` at dac.h:181, and without a reallocation the `memcpy` at dac.h:98 copies between overlapping ranges.
- Dac.Dac.AppendMany: the sum at dac.h:105 is computed without size_t overflow. The items are passed as their contents, as values, so the stale pointer left when `dest` is also among the items is not modelled.
- Dac.Join: the items and the delimiter are passed as their contents, as values. `n >= 1` is a precondition, because for `n == 0` the array size `n*2-1` at dac.h:118 wraps around.
- Dac.Dac.Append requires that the item does not share the destination's buffer. Appending a buffer to itself leaves a stale `ptr` after `realloc` in the source.
- Dac.Dac.CStr returns the bytes `buf[..count]` as a value. The pointer's lifetime, up to the next mutation, is not modelled.
- Dac.Dac.EndsWith and Dac.Dac.EndsWithCorrected require `count < 2^64` for both strings. This is the range of their size_t fields, so the wrap-around at dac.h:162-164 can be computed exactly.
- `Valid()` excludes terminators inside the contents. `dac_new` and the appends cannot create them, because every copy stops at a terminator.

## Findings

| source | as written | input that shows it | evidently intended | confidence | as-written member | corrected member |
|---|---|---|---|---|---|---|
| dac.h:162 | the index check `len(s) - 1 - (len(suffix) - 1) + i > 0` rejects index 0 | `dac_ends_with("Hello world", "Hello world")` returns false, as does any non-empty string checked against itself | a suffix may start at index 0, so every non-empty string ends with itself. On size_t the check reads as an attempt at `>= 0`, which always holds | medium, not executed | `Dac.Dac.EndsWith`, with `DacSpec.WholeStringIsNotASuffix` and `DacSpec.SuffixMissesOnlyWholeString` | `Dac.Dac.EndsWithCorrected` |
