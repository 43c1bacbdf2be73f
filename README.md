# Quadratic_hash_table<int> in Dafny

This project models `Quadratic_hash_table<Type>`, with `Type` instantiated as `int`. It is a
fixed-capacity open-addressing hash set. The table has 2^n bins held in two co-indexed arrays:

- `array` holds the keys. Its Dafny name is `keys`, because `array` is a reserved word in Dafny.
- `occupied` holds one `bin_state_t` tag per bin: UNOCCUPIED, OCCUPIED or ERASED.

Beside the arrays the class keeps the fields `count`, `power`, `array_size`, `mask` and `erased`.

The project has three modules:

- `Probing` (`probing.dfy`) covers the arithmetic of the probe loops.
  - Each loop runs `bin = (bin + i) % capacity()` for i = 0, 1, 2, ...
  - So the k-th probe from home bin h is `(h + Tri(k)) mod 2^n`, where Tri(k) = 0 + 1 + ... + k.
  - It proves that these 2^n probes visit every bin exactly once (`ProbeInjective`, `ProbeCovers`).
  - It defines `CRem`, the C++ remainder, which truncates toward zero.
- `TableModel` (`table_model.dfy`) gives the table's mutable state as a value: `Table(keys, states, erased)`.
  - `member`, `insert`, `erase` and `clear` are functions of that value and the key's home bin.
  - Lemmas state what the operations promise and where the code departs from its own comments.
  - `operator<<` is modelled as a token sequence and its text. The text is proved to decode back to the
    tokens.
- `HashTable` (`quadratic_hash_table.dfy`) holds the class `QuadraticHashTable`.
  - It has the source's fields, both constructors and the accessors.
  - `member`, `insert`, `erase`, `clear` and `operator<<` are methods that keep the source's loops and
    early returns.
  - Each method's postcondition ties the new state (`Model()`) to the matching `TableModel` function,
    applied to the old state and `Hash(obj)`.

The model follows the code as written:

- `count` is set to 0 by both constructors and nothing changes it. The model therefore declares it
  `const`, and `size()` is always 0 and `empty()` always true.
- `member` and `erase` compare keys without looking at bin states. So ERASED bins and never-written
  bins can match.
- `insert` does not check for duplicates.
- In the probing branch of `insert`, `if (occupied[h] == ERASED) erased--;` runs right after the bin
  was set to OCCUPIED. So reusing a tombstone there never decrements `erased`.
- `clear` turns OCCUPIED bins into ERASED and counts each one in `erased`. It does not reset bins to
  UNOCCUPIED.
- The constructors never initialise `erased` or the key array. The model leaves both arbitrary.
- `power`, `array_size`, `mask` and the two arrays themselves are assigned only in the constructors. The
  model declares them `const`.

## Model

| member | source | states |
|---|---|---|
| Probing.Pow2 | Project4/Quadratic_hash_table.h:99 | The capacity `1 << power` is at least 1 and even once power > 0. |
| Probing.TriClosedForm | Project4/Quadratic_hash_table.h:205-206 | The offset accumulated by the probe step after passes 0..k is k(k+1)/2. |
| Probing.Probe | Project4/Quadratic_hash_table.h:205-206 | The k-th probe from home bin h is a bin index below the capacity. |
| Probing.NextProbe | Project4/Quadratic_hash_table.h:205-206 | One pass of `bin = (bin + i) % capacity()` takes the running bin from the home bin (i = 0) or probe i-1 to probe i. |
| Probing.ProbeZero | Project4/Quadratic_hash_table.h:197-206 | The first probe revisits the home bin. |
| Probing.CRem | Project4/Quadratic_hash_table.h:225-229 | C++ `%` on int: for a >= 0 the result lies in [0, b), for a < 0 in (-b, 0], and it is always congruent to a modulo b. |
| Probing.TriGapNotMultiple | Project4/Quadratic_hash_table.h:205-206 | Two distinct triangular offsets below 2^n never differ by a multiple of 2^n. |
| Probing.ProbeInjective | Project4/Quadratic_hash_table.h:205-206 | Distinct probe indices below 2^n reach distinct bins, from any home bin. |
| Probing.ProbeCovers | Project4/Quadratic_hash_table.h:285-298 | Every bin of a 2^n-bin table is reached by one of the first 2^n probes, so the probe loops scan the whole table. |
| TableModel.FindKey | Project4/Quadratic_hash_table.h:329-337 | The first probe index from j whose bin holds obj, in any state; None exactly when no remaining probe holds it. |
| TableModel.FindVacant | Project4/Quadratic_hash_table.h:285-295 | The first probe index from j whose bin is UNOCCUPIED or ERASED; None exactly when every remaining probe is OCCUPIED. |
| TableModel.Member | Project4/Quadratic_hash_table.h:195-214 | member holds exactly when some probe from the home bin reaches a bin holding obj, whatever that bin's state. |
| TableModel.InsertTarget | Project4/Quadratic_hash_table.h:276-298 | insert's target bin is the home bin when it is not OCCUPIED. Otherwise it is a probe k from the home bin that is not OCCUPIED while probes 0..k-1 all are, that is, the first non-OCCUPIED probe. It is None (overflow) only when every probe is OCCUPIED. |
| TableModel.Insert | Project4/Quadratic_hash_table.h:271-307 | A successful insert writes obj into one formerly non-OCCUPIED bin and marks it OCCUPIED. It lowers `erased` by one exactly when the home bin was ERASED. |
| TableModel.Erase | Project4/Quadratic_hash_table.h:315-343 | erase succeeds exactly when member holds. It then marks one bin holding obj ERASED, raises `erased` by one and keeps the keys; otherwise nothing changes. |
| TableModel.Clear | Project4/Quadratic_hash_table.h:351-360 | clear turns every OCCUPIED bin into ERASED (per bin, through `Retire` and `RetireAll`, the body of the loop at :355-358) and leaves UNOCCUPIED and ERASED bins and all keys as they were. `erased` grows by the number of formerly OCCUPIED bins, which is also how many bins become ERASED. |
| TableModel.InsertAtProbe | Project4/Quadratic_hash_table.h:285-293 | When the home bin and probes 0..i-1 are OCCUPIED and probe i is not, insert writes at probe i and leaves `erased` unchanged. |
| TableModel.InsertAllProbed | Project4/Quadratic_hash_table.h:285-298 | When every probe from an OCCUPIED home bin is OCCUPIED, insert overflows. |
| TableModel.EraseAtProbe | Project4/Quadratic_hash_table.h:321-336 | erase marks the first probe holding obj ERASED and counts one more erasure. |
| TableModel.EraseAllProbed | Project4/Quadratic_hash_table.h:329-340 | When no probe reaches obj, erase returns false and changes nothing. |
| TableModel.CountUpdate | Project4/Quadratic_hash_table.h:280-304 | Setting one bin's state changes the number of bins in any state by exactly the bin's old and new state. |
| TableModel.CountRetireAll | Project4/Quadratic_hash_table.h:354-358 | Retiring every OCCUPIED bin leaves none OCCUPIED and adds their number to the ERASED bins. |
| TableModel.MemberIffStored | Project4/Quadratic_hash_table.h:195-214 | With 2^n bins, member from any home bin answers whether obj is stored in any bin at all, in any state. This is not "is in the set", as the comment at :192 says. |
| TableModel.InsertOverflowIffFull | Project4/Quadratic_hash_table.h:283-298 | insert throws overflow if and only if every bin is OCCUPIED. |
| TableModel.MemberAfterInsert | Project4/Quadratic_hash_table.h:271-307 | After a successful insert of obj, member(obj) holds from any home bin. |
| TableModel.InsertAddsOccupied | Project4/Quadratic_hash_table.h:271-307 | Every successful insert adds one OCCUPIED bin, even when obj is already present: there is no duplicate check. |
| TableModel.MemberAfterErase | Project4/Quadratic_hash_table.h:315-343 | erase never changes any member answer, because it keeps the keys. Erasing the same key again reports the same result. |
| TableModel.InsertDrift | Project4/Quadratic_hash_table.h:283-305 | insert keeps `erased` minus the number of ERASED bins fixed, except when the probing branch reuses a tombstone. Then the dead test at :292 leaves `erased` one too high. |
| TableModel.EraseDrift | Project4/Quadratic_hash_table.h:321-336 | erase keeps `erased` in step with the ERASED bins, except that erasing an already ERASED bin counts it twice. |
| TableModel.ClearDrift | Project4/Quadratic_hash_table.h:351-360 | clear keeps `erased` in step with the ERASED bins, leaves no OCCUPIED bin, and a second clear changes nothing. |
| TableModel.TokensReadOccupiedKeys | Project4/Quadratic_hash_table.h:363-375 | The rendered text depends on the bin states and on the keys of OCCUPIED bins only. |
| TableModel.NatToString | Project4/Quadratic_hash_table.h:370 | A non-negative key's decimal text is non-empty, made of digits, and has no leading zero, as `out << n` writes it. |
| TableModel.IntToString | Project4/Quadratic_hash_table.h:370 | A key's text starts with `-` exactly when the key is negative, is digits after that, and has no leading zero. |
| TableModel.TextAppend | Project4/Quadratic_hash_table.h:364-372 | Rendering one more bin appends that bin's word and a space. |
| TableModel.ParseNatRoundTrip | Project4/Quadratic_hash_table.h:370 | Reading back the decimal text of a natural number gives the number. |
| TableModel.ParseWordRoundTrip | Project4/Quadratic_hash_table.h:365-371 | Each word `-`, `x` or a key's text reads back as the token it came from. |
| TableModel.DecodeText | Project4/Quadratic_hash_table.h:363-375 | The whole output of `operator<<` reads back to the tokens it was made from. |
| HashTable.QuadraticHashTable.constructor | Project4/Quadratic_hash_table.h:96-107 | Exponent n in 0..30 gives capacity 2^n, count 0 and every bin UNOCCUPIED. |
| HashTable.QuadraticHashTable.Default | Project4/Quadratic_hash_table.h:113-124 | The default exponent m = 5 gives 32 bins, count 0 and every bin UNOCCUPIED. |
| HashTable.QuadraticHashTable.Size | Project4/Quadratic_hash_table.h:150-153 | size() is always 0, since count never changes. |
| HashTable.QuadraticHashTable.Capacity | Project4/Quadratic_hash_table.h:160-163 | capacity() is 2^power, the length of both arrays. |
| HashTable.QuadraticHashTable.Empty | Project4/Quadratic_hash_table.h:183-186 | empty() is always true. |
| HashTable.QuadraticHashTable.Hash | Project4/Quadratic_hash_table.h:221-230 | hash(obj) is congruent to obj modulo the capacity and equals `obj % capacity` for obj >= 0. It lies in [0, capacity], and equals capacity exactly for negative multiples of the capacity. |
| HashTable.QuadraticHashTable.Bin | Project4/Quadratic_hash_table.h:237-245 | bin(n) is the key of an OCCUPIED bin (its rendered token) and 0 for any other. |
| HashTable.QuadraticHashTable.Member | Project4/Quadratic_hash_table.h:194-214 | member's loop computes TableModel.Member from the home bin, which is true exactly when obj is anywhere in the key array. |
| HashTable.QuadraticHashTable.Place | Project4/Quadratic_hash_table.h:279-280 | Storing obj at bin h changes exactly that key and that bin's state, to OCCUPIED. |
| HashTable.QuadraticHashTable.Insert | Project4/Quadratic_hash_table.h:270-307 | ok is false exactly when TableModel.Insert overflows, and the state is then unchanged. Otherwise the new state is TableModel.Insert of the old one. |
| HashTable.QuadraticHashTable.Erase | Project4/Quadratic_hash_table.h:314-343 | The new state and the result are TableModel.Erase of the old state. |
| HashTable.QuadraticHashTable.Clear | Project4/Quadratic_hash_table.h:350-360 | The new state is TableModel.Clear of the old state. |
| HashTable.QuadraticHashTable.WriteTo | Project4/Quadratic_hash_table.h:362-375 | The stream gains exactly `Text(Tokens(...))`: for each bin in order, `TokenOf` picks `-` (UNOCCUPIED), `x` (ERASED) or the key (OCCUPIED) as in :365-371, and `Word` followed by a space is written for it. |

## Left out

- `load_factor()` (Project4/Quadratic_hash_table.h:174-176) is left out because it is floating-point
  division. Its integer parts, `erased + count` and `capacity`, are in the model.
- The destructor and the `new`/`delete` memory management are left out; they are resource handling
  only.
- `print()` is left out because its body is empty.
- The `overflow` exception class is not part of this model. `ece250.h` and `exception.h` are not
  part of this model either. A thrown `overflow` is modelled as `Insert` returning `ok == false`,
  with the state unchanged.
- `std::ostream` is modelled as a `string` that `WriteTo` appends to. A key is written as its
  decimal text, with a leading `-` when it is negative.
- The template parameter `Type` is fixed to `int`.
- HashTable.QuadraticHashTable.Hash: keys are unbounded integers, so the model also accepts keys
  outside the 32-bit range of `int`, which the source can never receive. With `Type` = `int` the
  `static_cast<int>` at :223 changes nothing.
- HashTable.QuadraticHashTable.Insert: `erased` is an unbounded integer; the source's `int` could
  overflow after about 2^31 decrements or increments, which is undefined behaviour in C++.
- HashTable.QuadraticHashTable.Member: requires that obj is not a negative multiple of the
  capacity. For such keys the source reads one past the end of `array`, and the model does not
  describe that read. Insert and Erase carry the same requirement.
- HashTable.QuadraticHashTable.Bin: requires 0 <= n < capacity, because the source does no range
  check and reads out of bounds otherwise.
- HashTable.QuadraticHashTable.constructor: requires the exponent to be in 0..30, so that
  `1 << power` and `bin + i` stay within `int`.
- HashTable.QuadraticHashTable.WriteTo: its postcondition gives the text only. That the text reads
  back to the tokens is proved separately, as TableModel.DecodeText.
