# Array storage (`Array_Prototype`) in Dafny

`Array_Prototype` (Prototype.php) is a non-persistent, in-memory key/value
pool. Its state is one private PHP array (`$data`). It offers:

- `exists` and `get` to read;
- `add` (insert only if absent), `set` (insert or overwrite) and `replace`
  (overwrite only if present) to write;
- `delete` to remove a key;
- `uuid`, which builds a version-4-style identifier from eight `mt_rand` draws;
- `store`, which adds a value under a freshly generated identifier.

The model has three modules:

- `ArrayStore` (store.dfy) holds the pool and its seven public methods. The pool
  is a `map<string, Mixed<T>>`, where `Mixed<T>` is PHP `null` or any other
  value. Each method is a pure function from the pool (and its arguments) to a
  `Step`: the method's return value together with the pool after the call.
  `exists` and `get` return the pool they were given. `store` takes the eight
  random draws as a parameter.
- `Identifier` (uuid.dfy) is `uuid()` as a pure function of the eight draws
  (`Draws`), each within its `mt_rand` range. PHP's `|` is modelled by `BitOr`
  on naturals. The `sprintf` format of eight `%04x` conversions is modelled by
  `FormatGroups`. The partner is `Decode`, which reads an identifier back into
  the draws. The model proves that `uuid()` is injective on the draws and onto
  the identifier shape.
- `Hex` (hex.dfy) is `%x` (minimal lowercase digits) and the `0`-padding to
  width 4 that `%04x` adds, together with `Value`, which reads hex text back.

The identifier is 32 lowercase hex digits with no hyphens, not the hyphenated
36-character form of section 3 of RFC 4122. Its 13th digit (index 12) is always
`4`, the version of section 4.1.3 of RFC 4122. Its 17th digit (index 16) is one of
`8`, `9`, `a`, `b`, the variant of section 4.1.1 of RFC 4122. The source's doc
comment calls it a "32 bit" hash; the code produces 128 bits in 32 characters, and
the model follows the code.

`get` returns `null` for an absent key, not `FALSE` as its doc comment says. The
model follows the code and proves that `get` cannot tell an absent key from a key
that stores `null`.

## Model

| member | source | states |
|---|---|---|
| ArrayStore.Empty | Prototype.php:26 | a new pool holds no key |
| ArrayStore.Exists | Prototype.php:35-38 | true exactly when the key is in the pool; the pool is unchanged |
| ArrayStore.Get | Prototype.php:50-57 | the stored value when the key is present, `null` when absent; the pool is unchanged |
| ArrayStore.Set | Prototype.php:85-90 | always true; afterwards the key maps to the value, the key set gains only that key, and every other entry is unchanged |
| ArrayStore.Add | Prototype.php:68-75 | true exactly when the key was absent, and then the pool is the old pool plus the new entry; on a present key the pool is unchanged |
| ArrayStore.Replace | Prototype.php:101-108 | true exactly when the key was present; the key set never changes; a present key takes the new value and every other entry is unchanged |
| ArrayStore.Delete | Prototype.php:117-126 | true exactly when the key was present; afterwards the key set has lost only that key and every remaining entry is unchanged |
| ArrayStore.Store | Prototype.php:168-177 | returns the generated identifier, which has the identifier shape, exactly when it was absent, and then the pool gains that entry; on a collision returns false with the pool unchanged and no second identifier tried |
| ArrayStore.EmptyReads | Prototype.php:26-57 | on a new pool `exists` is false and `get` is `null` for every key |
| ArrayStore.GetAgreesWithExists | Prototype.php:50-57 | a non-null `get` implies `exists`, and `exists` makes `get` return the stored value |
| ArrayStore.NullIsAmbiguous | Prototype.php:50-57 | `get` reads the same for a key holding `null` and an absent key, while `exists` tells them apart |
| ArrayStore.ReadAfterSet | Prototype.php:85-90 | after `set(k, v)`, `exists(k)` holds and `get(k)` is `v`; reads of every other key are unchanged |
| ArrayStore.AddReplaceAreGuardedSet | Prototype.php:68-108 | `add` is `set` on an absent key and a failing no-op otherwise; `replace` is `set` on a present key and a failing no-op otherwise |
| ArrayStore.AddTwice | Prototype.php:68-75 | a second `add` of the same key returns false, changes nothing, and the first value stays readable |
| ArrayStore.ReplaceDoesNotCreate | Prototype.php:101-108 | `replace` on an absent key leaves it absent |
| ArrayStore.DeleteUndoesAdd | Prototype.php:117-126 | `delete` after a successful `add` returns true and restores the earlier pool |
| ArrayStore.DeleteTwice | Prototype.php:117-126 | after `delete(k)` the key is absent, and a second `delete(k)` returns false with the pool unchanged |
| ArrayStore.StoreIsAdd | Prototype.php:168-177 | `store` leaves the pool as `add` under the generated key would, and a successful `store` makes the key read back the value |
| ArrayStore.StoreKeysDiffer | Prototype.php:139-177 | two successful `store` calls on the same pool with different draws return different keys |
| ArrayStore.StoreAfterStore | Prototype.php:168-177 | after a successful `store`, a second `store` with the same draws returns false and leaves the pool unchanged (no other key is tried); with other draws it succeeds exactly when its key was absent from the original pool |
| ArrayStore.Session | Prototype.php:68-126 | the sequence add a 1, add a 2, get a, replace a 2, get a, delete a, exists a gives true, false, 1, true, 2, true, false |
| Identifier.InRange | Prototype.php:142-157 | the eight draws lie in the ranges the `mt_rand` calls ask for: `0..0xffff`, except `0..0x0fff` for the fourth and `0..0x3fff` for the fifth |
| Identifier.Words | Prototype.php:142-157 | the eight `sprintf` arguments in order; on in-range draws the fourth is the draw plus `0x4000` and the fifth the draw plus `0x8000`, the others the draws themselves |
| Identifier.BitOr | Prototype.php:149 | PHP's `\|` on non-negative integers is at least each operand and at most their sum |
| Identifier.BitOrAbove | Prototype.php:149-154 | or-ing bits that lie wholly above a number adds them |
| Identifier.MarkersAdd | Prototype.php:147-154 | the version marker `0x4000` and the variant marker `0x8000` add to in-range draws and leave the drawn bits intact |
| Identifier.MarkedWords | Prototype.php:142-157 | the eight `sprintf` arguments fit in 16 bits; the fourth lies in `0x4000..0x4fff` and the fifth in `0x8000..0xbfff` |
| Identifier.FormatGroups | Prototype.php:139 | eight `%04x` conversions with no separator print 4 hex digits per word |
| Identifier.GroupOfFormat | Prototype.php:139 | the `i`-th four-character group of the printed text is `%04x` of the `i`-th word |
| Identifier.Concat | Prototype.php:139 | four-digit groups written one after another give 4 hex digits per group |
| Identifier.GroupOfConcat | Prototype.php:139 | the `i`-th group of concatenated groups is the `i`-th part |
| Identifier.Groups | Prototype.php:139 | reading a text of whole groups gives one 16-bit value per group |
| Identifier.GroupsOfFormat | Prototype.php:139 | reading the printed groups back gives the words printed |
| Identifier.FormatOfGroups | Prototype.php:139 | printing the values read from a group text gives that text back |
| Identifier.EqualByGroups | Prototype.php:139 | two group texts with equal groups are equal |
| Identifier.ShapeOfMarkedWords | Prototype.php:139-158 | eight words with the marker ranges print as 32 lowercase hex digits with `4` at index 12 and `8`, `9`, `a` or `b` at index 16 |
| Identifier.FirstDigitOfGroup | Prototype.php:139 | the first digit of each printed group is the top nibble of its word |
| Identifier.IsUuidText | Prototype.php:137-158 | the identifier shape: 32 lowercase hex digits, `4` at index 12, one of `8`, `9`, `a`, `b` at index 16 |
| Identifier.Uuid | Prototype.php:137-158 | every identifier from in-range draws is 32 lowercase hex digits with `4` at index 12 and `8`, `9`, `a` or `b` at index 16 |
| Identifier.MarkedGroups | Prototype.php:147-154 | in any text of the identifier shape, the fourth group reads in `0x4000..0x4fff` and the fifth in `0x8000..0xbfff` |
| Identifier.UnmarkWords | Prototype.php:147-154 | removing the markers from marked words gives in-range draws whose `sprintf` arguments are those words |
| Identifier.Decode | Prototype.php:137-158 | every text of the identifier shape is what `uuid()` prints for the in-range draws `Decode` returns |
| Identifier.DecodeUuid | Prototype.php:137-158 | decoding an identifier returns the draws it was built from |
| Identifier.UuidInjective | Prototype.php:137-158 | two in-range draw sets give the same identifier exactly when they are equal |
| Identifier.UuidOnto | Prototype.php:137-158 | every text of the identifier shape is some generated identifier |
| Hex.DigitChar | Prototype.php:139 | `%x` writes nibble `d` as character `d` of `0123456789abcdef`, so `0` only for zero |
| Hex.DigitValue | Prototype.php:139 | reading a hex digit gives a nibble that `%x` writes as that digit |
| Hex.Digits | Prototype.php:139 | `%x` writes at least one lowercase hex digit, with a leading `0` only for zero |
| Hex.PadLeft | Prototype.php:139 | the `0` flag pads on the left with `0` up to the width and never truncates |
| Hex.Format04x | Prototype.php:139 | `%04x` writes at least four lowercase hex digits (its value and exact digits are in `Format04xValue` and `Format04xNibbles`) |
| Hex.Value | Prototype.php:139 | a text of k hex digits reads as a number below 16^k |
| Hex.ValueOfDigits | Prototype.php:139 | `%x` text reads back as the number printed |
| Hex.ValueOfZeros | Prototype.php:139 | leading zeros do not change what a hex text reads as |
| Hex.Format04xValue | Prototype.php:139 | `%04x` text reads back as the number printed, for every number |
| Hex.Format04xNibbles | Prototype.php:139 | for a 16-bit word, `%04x` writes exactly its four nibbles, most significant first |
| Hex.FirstDigit | Prototype.php:139 | for a 16-bit word, the first `%04x` digit is its top nibble |
| Hex.ValueOfFour | Prototype.php:139 | four hex digits read as their nibbles weighted by position |
| Hex.Format04xRoundTrip | Prototype.php:139 | for a 16-bit word, `%04x` writes four hex digits that read back as the word |
| Hex.ValueRoundTrip | Prototype.php:139 | any four hex digits read as a 16-bit word whose `%04x` text is those digits |

## Left out

- The randomness of `mt_rand`, and any claim that generated identifiers are probably distinct: the eight draws are parameters, limited to the ranges the calls ask for. `UuidInjective` states the exact condition under which two identifiers collide.
- PHP's conversion of numeric-string array keys to integers: keys are plain strings.
- The doc comments' array-of-keys lookups and "stored serialized" values: the code implements neither.
- `Storage_Interface`, the interface the class implements, is not part of this model.
- The object's lifetime: the pool lives as long as the object and has no persistence, I/O or concurrency to model.
- Hex.PadLeft, Hex.Digits: `%04x` is modelled for non-negative integers only. PHP's `%x` of a negative integer prints its two's-complement bits, but `uuid()` never passes a negative argument.
