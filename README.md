# Cursor pagination of apollo-connection-directives, in Dafny

This project models the pagination core of `src/connection.ts`, the Relay-style
connection used by the GraphQL directives. It has two parts.

- `applyCursors` makes one left-to-right pass over an in-memory list of records and
  gives each record an opaque cursor. The cursor is the base64 text of the UTF-8 bytes
  of the key option's `name`, followed by `":"` and the text of each key field in key
  order. The pass cuts the list at the `after` and `before` cursors:
  - a record whose cursor equals `after` empties the result, so the last such record wins;
  - a record whose cursor equals `before` stops the pass and is not kept;
  - the `after` test comes first;
  - once the pass has stopped, later records are skipped.

  The pass also records `firstCursor` (the cursor at index 0) and `endCursor` (the
  cursor at index `n - 1`, which stays `""` when the pass stopped before it).
- `paging` narrows that result with `first` (when it is non-zero, `slice(0, first)`),
  then always applies `slice(-last)`. It sets `hasPreviousPage` and `hasNextPage` by
  comparing the page's end cursors with `firstCursor` and `endCursor`.

The Dafny modules follow the pieces the code relies on:

| file | module | what it holds |
|---|---|---|
| `wrappers.dfy` | `Wrappers` | `Option` |
| `utf8.dfy` | `Utf8` | UTF-8 encoding of a string, as `Buffer.from(string)` produces, with a decoder and its round trip |
| `base64.dfy` | `Base64` | padded base64 of section 4 of RFC 4648 (`toString('base64')`), with a decoder, the round trip and the length |
| `js_array.dfy` | `JsArray` | `Array.prototype.slice` with negative and oversized indices, and how the two slices of `paging` compose |
| `cursor_codec.dfy` | `CursorCodec` | records as maps from field name to text, the cursor-key fold and the cursor |
| `connection.dfy` | `Connection` | `ApplyCursors`, a method with the pass as a `while` loop; `Paging`, a method with the slices and the flag tests; and the functions that specify them (`Window`, `PageOf`) |
| `connection_lemmas.dfy` | `ConnectionLemmas` | what the window and the page mean: contiguity, cut points, flags, and the documented examples |

`ApplyCursors` is proved against `CursorWindow`, which states the result as index
arithmetic:
- `StopIndex` is the first record that matches `before` and not `after`;
- `StartIndex` is one past the last `after` match below that stop;
- the edges are the records between the two, each with its own cursor.

`Paging` is proved against `Paginated`. It returns the edges `SlicedBounds` picks out of
that run, with the two flags as the code computes them.

## Model

| member | source | states |
|---|---|---|
| Connection.ApplyCursors | src/connection.ts:34-66 | the pass returns exactly `CursorWindow`: the records strictly after the last `after` match that precedes the first stop, up to that stop, each with its cursor; `firstCursor` is the cursor at index 0; `endCursor` is the cursor at index n-1 unless a stop came before it |
| Connection.Paging | src/connection.ts:68-92 | returns exactly `Paginated`: the window cut by `first` and then `last`, with `hasPreviousPage` / `hasNextPage` set when the page is non-empty and its first / last cursor differs from `firstCursor` / `endCursor` |
| Connection.PagingComputesPageOf | src/connection.ts:82-86 | the optional `slice(0, first)`, then `slice(-last)` and the two flag tests give the page `PageOf` describes by bounds |
| Connection.Matches | src/connection.ts:52-53 | `cursor === target`, false for an absent (`null`) target; `AfterKeepsTail`, `BeforeKeepsPrefix` and `StartIndexIsPastLastAfter` state what a match does to the pass |
| Connection.IsStop | src/connection.ts:52-56 | a record stops the pass when it matches `before` and not `after`, since the `after` test at line 52 comes first; `StopIndexIsFirstStop` and `BeforeEqualToAfterNeverStops` state what this means |
| Connection.Cursors | src/connection.ts:46-48 | one cursor per record (same length) |
| Connection.CursorsAt | src/connection.ts:46-48 | the cursor at position i is the cursor of record i |
| Connection.RunAt | src/connection.ts:57 | a run from lo to hi holds record lo+k with its own cursor at offset k |
| Connection.StopIndexIsFirstStop | src/connection.ts:52-56 | no record before `StopIndex` stops the pass; the record at it matches `before` and not `after` |
| Connection.StopIndexUnique | src/connection.ts:52-56 | `StopIndex` is the only index with those two properties |
| Connection.StartIndexIsPastLastAfter | src/connection.ts:52 | no record from `StartIndex` up to the stop matches `after`; the record just before `StartIndex` does |
| Connection.StartIndexUnique | src/connection.ts:52 | `StartIndex` is the only index with those properties |
| Connection.RunGrows | src/connection.ts:57-58 | a record that does not match `after` extends the current run by itself |
| Connection.RunRestarts | src/connection.ts:52 | an `after` match starts an empty run just past itself |
| Connection.AfterStep | src/connection.ts:52 | the `return []` branch keeps the loop invariant `PassState` |
| Connection.BeforeStep | src/connection.ts:53-56 | the `before` branch keeps `PassState`, with the stop at this record, which is not added |
| Connection.GrowStep | src/connection.ts:57-58 | the `push` branch keeps `PassState` |
| Connection.SkipStep | src/connection.ts:46 | once `cursorEnd` is set, a record changes nothing |
| Connection.PassEnd | src/connection.ts:45-59 | when the pass ends, the stop is `StopIndex` and the result is the window's edges |
| CursorCodec.FieldText | src/connection.ts:47 | `${data[val]}`: the text of a field the record has, and "undefined" for one it lacks; `CursorKeyDeterminedByFields` and `MissingFieldReadsUndefined` state what this means for cursors |
| CursorCodec.Preimage | src/connection.ts:48 | the template `${name}${cursorKey}`; `CursorDecodes` and `CursorInjective` state that it is what a cursor encodes and determines |
| CursorCodec.Cursor | src/connection.ts:48 | `Buffer.from(...).toString('base64')` of the preimage; `CursorDecodes` (it decodes back to the preimage), `CursorInjective` (equal cursors, equal preimages) and `SameKeyFieldsSameCursor` state its meaning |
| CursorCodec.CursorKey | src/connection.ts:47 | the key text is at least one character per key field |
| CursorCodec.CursorKeyIsSegments | src/connection.ts:47 | the left fold `${acc}:${data[val]}` equals ":" and the first field's text, followed by the rest of the key |
| CursorCodec.CursorKeyDeterminedByFields | src/connection.ts:47 | the key text depends only on the texts of the key fields |
| CursorCodec.SameKeyFieldsSameCursor | src/connection.ts:46-48 | records that agree on all key fields get the same cursor |
| CursorCodec.MissingFieldReadsUndefined | src/connection.ts:47 | a missing field renders as the text "undefined", so it gives the same cursor as a field holding "undefined" |
| CursorCodec.ColonMakesCursorsAmbiguous | src/connection.ts:47 | two records that differ on key fields can share a cursor when a field value contains ":" |
| CursorCodec.CursorDecodes | src/connection.ts:48 | decoding a cursor from base64 and then UTF-8 gives back `name` + key text |
| CursorCodec.CursorInjective | src/connection.ts:48 | equal cursors come from equal preimages `name` + key text |
| CursorCodec.CursorNonEmpty | src/connection.ts:48 | with a non-empty `name`, no cursor is "", never the initial `firstCursor` / `endCursor` |
| Utf8.Encode | src/connection.ts:48 | a string of n characters takes between n and 4n bytes |
| Utf8.DecodeEncodeChar | src/connection.ts:48 | the bytes of one character announce their own length and decode to that character |
| Utf8.DecodeEncode | src/connection.ts:48 | decoding the UTF-8 bytes of any string gives that string back |
| Utf8.EncodeInjective | src/connection.ts:48 | different strings have different UTF-8 bytes |
| Base64.Encode | src/connection.ts:48 | `toString('base64')` of the UTF-8 bytes; `DecodeEncode` (it decodes back), `EncodeLength` (its padded length) and `EncodeInjective` state its meaning |
| Base64.DigitValueOfDigit | src/connection.ts:48 | every base64 digit reads back as its 6-bit value |
| Base64.DecodeTriple | src/connection.ts:48 | four digits encoding three bytes decode to those bytes |
| Base64.DecodeTail | src/connection.ts:48 | a padded final group of one or two bytes decodes to those bytes |
| Base64.DecodeEncode | src/connection.ts:48 | decoding the base64 text of any bytes gives those bytes back |
| Base64.EncodeLength | src/connection.ts:48 | n bytes give 4 * ceil(n / 3) characters, padding included |
| Base64.EncodeInjective | src/connection.ts:48 | different byte strings have different base64 text |
| JsArray.RelativeIndex | src/connection.ts:82-83 | a relative slice index is clamped into 0..length |
| JsArray.Slice | src/connection.ts:82-83 | a slice is never longer than the array |
| JsArray.SlicePrefix | src/connection.ts:82 | `slice(0, k)` with k > 0 is the first min(k, n) elements |
| JsArray.SliceSuffix | src/connection.ts:83 | `slice(-k)` with k > 0 is the last min(k, n) elements |
| JsArray.SliceWhole | src/connection.ts:83 | `slice(0)`, which is what `slice(-0)` means, is the whole array |
| JsArray.SliceIsRange | src/connection.ts:82-83 | every slice is a contiguous range of the array |
| JsArray.SlicedBounds | src/connection.ts:82-83 | the bounds the two slices keep: the high end is min(first, n) when first > 0 and n when first is 0; the low end keeps the last min(last, ...) elements when last > 0 and is 0 when last is 0 |
| JsArray.SlicesCompose | src/connection.ts:82-83 | the optional first slice followed by `slice(-last)` keeps exactly the range `SlicedBounds` gives |
| ConnectionLemmas.RunAgrees | src/connection.ts:57 | a run depends only on the records and cursors inside it |
| ConnectionLemmas.RunEnds | src/connection.ts:57 | a non-empty run starts and ends with the cursors of its end records |
| ConnectionLemmas.NoMatchKeepsAll | src/connection.ts:45-59 | when no cursor matches `after` or `before`, every record is kept, and the boundary cursors are those of the first and last record |
| ConnectionLemmas.AfterKeepsTail | src/connection.ts:52 | with the last `after` match at i and no stop, the edges are exactly the records after i |
| ConnectionLemmas.BeforeKeepsPrefix | src/connection.ts:53-56 | with the first stop at i and no cut before it, the edges are exactly the records before i; `endCursor` is set only when i is the last index |
| ConnectionLemmas.StopIgnoresRest | src/connection.ts:46 | records after a stop have no effect on the edges or on `firstCursor` |
| ConnectionLemmas.BeforeEqualToAfterNeverStops | src/connection.ts:52-53 | a `before` equal to `after` acts as if `before` were absent, because the `after` test wins |
| ConnectionLemmas.WindowIsContiguousRun | src/connection.ts:45-59 | the edges are one contiguous run of the records, in order, each with its own cursor |
| ConnectionLemmas.EdgesCarryOwnCursors | src/connection.ts:46-57 | every edge's cursor is the cursor of the record it carries |
| ConnectionLemmas.BoundaryCursors | src/connection.ts:50-51 | `firstCursor` is the first record's cursor (or "" for no records); `endCursor` is the last record's cursor when no stop comes before it, and "" when one does |
| ConnectionLemmas.PageSlices | src/connection.ts:82-83 | for non-negative arguments, the page is a range of the window with at most `first` and at most `last` edges |
| ConnectionLemmas.EmptyPageHasNoNeighbours | src/connection.ts:85-86 | an empty page has both flags false |
| ConnectionLemmas.PageOfRun | src/connection.ts:82-86 | slicing a run from t to s gives the records from t+lo to t+hi; each flag holds exactly when the page is non-empty and its end cursor differs from the boundary cursor |
| ConnectionLemmas.PageIsRun | src/connection.ts:68-92 | the page is the records from t+lo to t+hi of the collection, where t is the window's start; each flag holds exactly when the corresponding cursor comparison fails |
| ConnectionLemmas.FlagsMeaning | src/connection.ts:85-86 | with distinct non-empty cursors, `hasPreviousPage` holds exactly when the page is non-empty and starts after record 0, and `hasNextPage` exactly when it is non-empty and ends before the last record |
| ConnectionLemmas.EmptyCollection | src/connection.ts:68-92 | no records give empty edges, empty boundary cursors and both flags false, for any arguments |
| ConnectionLemmas.NoArgumentsReturnsAll | src/connection.ts:68-92 | with no arguments, the page is every record, and both flags are false |
| ConnectionLemmas.FirstPage | src/connection.ts:82-86 | `first: k` alone gives the first min(k, n) records, with no previous page, and a next page exactly when k < n |
| ConnectionLemmas.LastPage | src/connection.ts:83-86 | `last: k` alone gives the last min(k, n) records, with no next page, and a previous page exactly when k < n |
| ConnectionLemmas.AfterFirstLastOne | src/connection.ts:68-92 | `after` the first cursor with `last: 1` gives only the last record, with a previous page and no next page |

## Left out

- `createArgument`, `injectArgs` and the connection directive (src/connection.ts:94-144) are left out. They build GraphQL schema objects and resolvers around `paging`, and the model has no GraphQL runtime.
- Field values are taken to be text already. The model does not capture how a template literal coerces numbers, objects or `null`. A missing field is modelled as the text "undefined". Only the record's own fields are modelled: a key field named like a property inherited from `Object.prototype` (`constructor`, `toString`, `valueOf`) renders that inherited value in the code, and "undefined" in the model.
- Dafny's `char` is a Unicode scalar value, so lone UTF-16 surrogates, which `Buffer.from` replaces with U+FFFD, are not modelled.
- `first` and `last` are modelled as integers. A `last` argument the caller leaves absent makes `last * -1` NaN, and `slice(NaN)` keeps the whole array; the model represents that case as `last = 0`, which gives the same slice. Fractional values are not modelled.
- An absent `after` or `before` (the `null` default) is modelled as `None`, which equals no cursor, as `null === cursor` is false for every string.
- Sparse arrays and the holes `reduce` skips are not modelled. `datas` is a sequence with no holes.
- PageSlices: says nothing about negative `first` or `last`. For those, `slice` counts from the other end, and `SlicedBounds` and `SlicesCompose` state the exact bounds for every integer.
- FlagsMeaning: assumes distinct non-empty cursors. With duplicate cursors, the flags compare cursor text rather than positions, and `PageIsRun` states what they compare.
- CursorInjective: relates equal cursors to equal preimages only. The preimage itself does not determine the fields, as `ColonMakesCursorsAmbiguous` and `MissingFieldReadsUndefined` show.
- A missing key field gives the segment `:undefined`, not an empty segment (`MissingFieldReadsUndefined`).
- Equal key fields give equal cursors (`SameKeyFieldsSameCursor`), but not the other way round: a `:` inside a field value lets records that differ on key fields share a cursor (`ColonMakesCursorsAmbiguous`).
