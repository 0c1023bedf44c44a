# universal-database, modelled in Dafny

This project models the engine-independent core of universal-database, a
Kotlin multiplatform key-value database library. The library comes in two
generations: the current `com.darkyen.database` package and the older
`com.darkyen.ud` snapshot. The model covers both, in these parts:

- **Key codecs** (`key_codec.dfy`, `string_codec.dfy`, `legacy_key_codec.dfy`).
  These are the order-preserving key serializers: boolean, unsigned and
  biased signed integers, IEEE 754 floats and doubles by their raw bits, enum
  ordinals, and the "WTF-8" string codec in its terminated and unterminated
  variants. The proofs cover round trips, the agreement of unsigned byte
  order with value order, and the totalOrder of section 5.10 of IEEE
  754-2008 for floats (`ieee754.dfy`).
- **TableSet** (`table_set.dfy`). The bitset over table ids, in its Android
  and JS forms. It covers construction, `contains`, `intersects` and
  `isSubsetOf`, each proved equal to the set operation it implements.
- **Configuration** (`validation.dfy`, `database.dfy`, `legacy_database.dfy`).
  This covers `validateName`, `validateSchemaSequence`, table-id allocation,
  and how a `Table` attaches and names its indices, in both generations.
- **TableObservers** (`table_observers.dfy`). The array-backed observer
  registry, as a class over arrays.
- **LazyResourcePool** (`resource_pool.dfy`). The connection pool, as a
  sequential state machine.
- **Backend logic that does not depend on the engine.**
  - The SQL clause builders and their parameter binding (`sql_clauses.dfy`).
  - The write observers and their trigger coalescing (`write_observers.dfy`).
  - The current SQLite database object (`sqlite_database.dfy`).
  - The migration planner shared by all backends (`migrations.dfy`).
  - The current SQLite open (`sqlite_open.dfy`).
  - The older SQLite open helper (`legacy_sqlite_open.dfy`).
  - The older IndexedDB backend (`indexeddb.dfy`).

Engine requests are recorded as actions in a log, and their effect on the
set of stored table names is a function of the log (`Migrations.Apply`).
Kotlin `Int` and `Long` are bounded integer types, and wrap-around is
written out (`kotlin_ints.dfy`). Bytes are `0..255`.

## Model

| member | source | states |
|---|---|---|
| KeyCodec.WriteRawBE | src/commonMain/kotlin/com/darkyen/database/DatabaseKey.kt:27 | `writeRawBE(v, n)` writes n bytes whose big-endian value is v modulo 256^n |
| KeyCodec.ReadRawBE | src/commonMain/kotlin/com/darkyen/database/DatabaseKey.kt:30 | `readRawBE(n)` succeeds exactly when at least n bytes remain |
| KeyCodec.ReadWritten | src/commonMain/kotlin/com/darkyen/database/DatabaseKey.kt:27-30 | reading n bytes back gives the written value modulo 256^n, widened to a `Long` |
| KeyCodec.BooleanRoundTrip | src/commonMain/kotlin/com/darkyen/database/DatabaseKey.kt:25-32 | true is written as the byte 1 and false as 0, and both decode back |
| KeyCodec.BooleanReadsNonZeroAsTrue | src/commonMain/kotlin/com/darkyen/database/DatabaseKey.kt:29-31 | any non-zero first byte decodes as true and 0 as false |
| KeyCodec.BooleanOrder | src/commonMain/kotlin/com/darkyen/database/DatabaseKey.kt:24-32 | false's key sorts below true's, and no other pair is ordered |
| KeyCodec.UnsignedIntRoundTrip | src/commonMain/kotlin/com/darkyen/database/DatabaseKey.kt:45-53 | every `Int` round-trips through its 4-byte key |
| KeyCodec.UnsignedIntOrder | src/commonMain/kotlin/com/darkyen/database/DatabaseKey.kt:44-53 | key byte order is the order of the values read as unsigned, in both directions |
| KeyCodec.UnsignedLongRoundTrip | src/commonMain/kotlin/com/darkyen/database/DatabaseKey.kt:35-43 | every `Long` round-trips through its 8-byte key |
| KeyCodec.UnsignedLongOrder | src/commonMain/kotlin/com/darkyen/database/DatabaseKey.kt:34-43 | key byte order is unsigned 64-bit order, in both directions |
| KeyCodec.IntBias | src/commonMain/kotlin/com/darkyen/database/DatabaseKey.kt:59-68 | adding `Int.MIN_VALUE` with wrap-around maps v to v + 2^31 as unsigned, and subtracting it undoes that |
| KeyCodec.LongBias | src/commonMain/kotlin/com/darkyen/database/DatabaseKey.kt:60-77 | the same for `Long.MIN_VALUE` and 2^63 |
| KeyCodec.IntEncodedValue | src/commonMain/kotlin/com/darkyen/database/DatabaseKey.kt:62-65 | the key of v, read as a number, is v + 2^31 |
| KeyCodec.LongEncodedValue | src/commonMain/kotlin/com/darkyen/database/DatabaseKey.kt:71-74 | the key of v, read as a number, is v + 2^63 |
| KeyCodec.IntRoundTrip | src/commonMain/kotlin/com/darkyen/database/DatabaseKey.kt:62-70 | every `Int` round-trips, `MIN_VALUE` and `MAX_VALUE` included |
| KeyCodec.IntOrder | src/commonMain/kotlin/com/darkyen/database/DatabaseKey.kt:55-70 | key byte order is signed order, in both directions |
| KeyCodec.LongRoundTrip | src/commonMain/kotlin/com/darkyen/database/DatabaseKey.kt:71-79 | every `Long` round-trips |
| KeyCodec.LongOrder | src/commonMain/kotlin/com/darkyen/database/DatabaseKey.kt:71-79 | key byte order is signed 64-bit order, in both directions |
| KeyCodec.FloatMagnitude | src/commonMain/kotlin/com/darkyen/database/DatabaseKey.kt:86-88 | `bits and MASK32` is the magnitude: the bits without the sign bit |
| KeyCodec.DoubleMagnitude | src/commonMain/kotlin/com/darkyen/database/DatabaseKey.kt:114-116 | the same for `MASK64` |
| KeyCodec.FloatBiasedRank | src/commonMain/kotlin/com/darkyen/database/DatabaseKey.kt:85-95 | the biased bits are the sign-magnitude rank of the float, shifted by 2^31 |
| KeyCodec.DoubleBiasedRank | src/commonMain/kotlin/com/darkyen/database/DatabaseKey.kt:113-123 | the biased bits are the sign-magnitude rank of the double, shifted by 2^63 |
| KeyCodec.FloatUnbiasBias | src/commonMain/kotlin/com/darkyen/database/DatabaseKey.kt:85-107 | deserialize's unbiasing inverts serialize's biasing on every bit pattern |
| KeyCodec.DoubleUnbiasBias | src/commonMain/kotlin/com/darkyen/database/DatabaseKey.kt:113-135 | the same for doubles |
| KeyCodec.FloatEncodedValue | src/commonMain/kotlin/com/darkyen/database/DatabaseKey.kt:85-96 | the key, read as a number, is the float's sign-magnitude rank + 2^31 |
| KeyCodec.DoubleEncodedValue | src/commonMain/kotlin/com/darkyen/database/DatabaseKey.kt:113-124 | the key, read as a number, is the double's rank + 2^63 |
| KeyCodec.FloatRoundTrip | src/commonMain/kotlin/com/darkyen/database/DatabaseKey.kt:84-110 | every raw float bit pattern, NaNs included, round-trips |
| KeyCodec.DoubleRoundTrip | src/commonMain/kotlin/com/darkyen/database/DatabaseKey.kt:112-138 | every raw double bit pattern round-trips |
| KeyCodec.FloatTotalOrder | src/commonMain/kotlin/com/darkyen/database/DatabaseKey.kt:83-96 | key byte order is IEEE 754 totalOrder: negative NaNs, -inf, negatives, -0, +0, positives, +inf, positive NaNs |
| KeyCodec.FloatCompareOrder | src/commonMain/kotlin/com/darkyen/database/DatabaseKey.kt:83-96 | on non-NaN floats, key byte order is `Float.compareTo` order |
| KeyCodec.DoubleTotalOrder | src/commonMain/kotlin/com/darkyen/database/DatabaseKey.kt:112-124 | key byte order is IEEE 754 totalOrder on doubles |
| KeyCodec.DoubleCompareOrder | src/commonMain/kotlin/com/darkyen/database/DatabaseKey.kt:112-124 | on non-NaN doubles, key byte order is `Double.compareTo` order |
| KeyCodec.EnumRoundTrip | src/commonMain/kotlin/com/darkyen/database/DatabaseKey.kt:140-151 | with at most 65536 variants, every variant round-trips through its 2-byte ordinal |
| KeyCodec.EnumOrder | src/commonMain/kotlin/com/darkyen/database/DatabaseKey.kt:144-146 | key byte order is ordinal order, in both directions |
| KeyCodec.EnumUnknownOrdinal | src/commonMain/kotlin/com/darkyen/database/DatabaseKey.kt:148-150 | a stored ordinal at or past the variant count fails with an out-of-bounds error |
| KeyCodec.EnumOrdinalWraps | src/commonMain/kotlin/com/darkyen/database/DatabaseKey.kt:145 | only 16 bits of the ordinal are written, so ordinals 2^16 apart share a key |
| Ieee754.CompareLessIsRankLess | src/commonMain/kotlin/com/darkyen/database/DatabaseKey.kt:83-138 | on non-NaN patterns, `compareTo` order (with -0 below +0) is exactly the order of sign-magnitude ranks |
| Ieee754.TotalOrderIsRankLess | src/commonMain/kotlin/com/darkyen/database/DatabaseKey.kt:83-138 | IEEE 754 totalOrder on all patterns, NaNs included, is exactly the order of sign-magnitude ranks |
| StringCodec.CodePointFromSurrogate | src/commonMain/kotlin/com/darkyen/database/DatabaseKey.kt:209-218 | the code point is non-zero exactly for a high surrogate followed, within the string, by a low one, and then it is supplementary |
| StringCodec.Serialize | src/commonMain/kotlin/com/darkyen/database/DatabaseKey.kt:220-257 | the loop writes exactly `Serialized`: each unit's form, a surrogate pair as one 4-byte form, and a 0 byte at the end when terminated |
| StringCodec.EncodeUnit | src/commonMain/kotlin/com/darkyen/database/DatabaseKey.kt:224-243 | a unit that starts no pair is written as its own form, followed by the rest of the string |
| StringCodec.EncodePair | src/commonMain/kotlin/com/darkyen/database/DatabaseKey.kt:238-250 | a surrogate pair is written as one 4-byte form, and encoding continues after both units |
| StringCodec.ContinuationData | src/commonMain/kotlin/com/darkyen/database/DatabaseKey.kt:203-207 | a continuation byte 10xxxxxx yields its low 6 bits; anything else, or the end of the key read as -1, fails with that value |
| StringCodec.DecodeUnit | src/commonMain/kotlin/com/darkyen/database/DatabaseKey.kt:167-197 | one character consumes between 1 byte and the rest of the key |
| StringCodec.UnitShape | src/commonMain/kotlin/com/darkyen/database/DatabaseKey.kt:167-197 | a character decodes exactly when its start byte and continuation bytes are well formed; it consumes the start byte's sequence length and yields two units for a 4-byte form |
| StringCodec.ReadCharacter | src/commonMain/kotlin/com/darkyen/database/DatabaseKey.kt:167-197 | one iteration of the read loop computes `DecodeUnit` |
| StringCodec.DecodeFrom | src/commonMain/kotlin/com/darkyen/database/DatabaseKey.kt:166-200 | the bytes read never run past the end of the key |
| StringCodec.Deserialize | src/commonMain/kotlin/com/darkyen/database/DatabaseKey.kt:163-201 | the read loop computes `Decode`, stopping at the first 0 byte in the terminated variant |
| StringCodec.UnitRoundTrip | src/commonMain/kotlin/com/darkyen/database/DatabaseKey.kt:167-237 | each single-unit form reads back as that unit, has no 0 lead byte when terminated, and continues with continuation bytes |
| StringCodec.SurrogatesOfCodePoint | src/commonMain/kotlin/com/darkyen/database/DatabaseKey.kt:192-217 | the surrogates computed from a pair's code point are the original pair |
| StringCodec.PairRoundTrip | src/commonMain/kotlin/com/darkyen/database/DatabaseKey.kt:185-248 | a surrogate pair's 4-byte form, which has no 0 byte, reads back as the two units |
| StringCodec.DecodeEncode | src/commonMain/kotlin/com/darkyen/database/DatabaseKey.kt:163-257 | decoding an encoded string, followed by the terminator or by nothing, appends the string and stops after it |
| StringCodec.RoundTrip | src/commonMain/kotlin/com/darkyen/database/DatabaseKey.kt:153-257 | UNTERMINATED: `deserialize(serialize(s)) == s` for every sequence of code units, lone surrogates included |
| StringCodec.TerminatedRoundTrip | src/commonMain/kotlin/com/darkyen/database/DatabaseKey.kt:153-257 | TERMINATED: the key of s, followed by anything, reads back as s and consumes exactly the key |
| StringCodec.TerminatorIsOnlyZero | src/commonMain/kotlin/com/darkyen/database/DatabaseKey.kt:227-256 | a terminated key ends with 0, and no earlier byte is 0 (U+0000 takes C0 80) |
| StringCodec.NotStartByteFails | src/commonMain/kotlin/com/darkyen/database/DatabaseKey.kt:197 | a byte that starts no UTF-8 sequence makes the read fail with that byte |
| StringCodec.BadContinuationFails | src/commonMain/kotlin/com/darkyen/database/DatabaseKey.kt:203-205 | a missing or malformed continuation byte makes the read fail with that byte, or -1 at the end of the key |
| StringCodec.UnitBytesOrder | src/commonMain/kotlin/com/darkyen/database/DatabaseKey.kt:226-237 | of two single units, the smaller one's form is smaller at the first byte where the forms differ |
| StringCodec.OrderWithoutSurrogates | src/commonMain/kotlin/com/darkyen/database/DatabaseKey.kt:158 | for strings without surrogates, and without U+0000 when terminated, key byte order is `String.compareTo` order, in both directions |
| StringCodec.SupplementaryOrderCounterexample | src/commonMain/kotlin/com/darkyen/database/DatabaseKey.kt:158 | the ordering claim fails with surrogates: U+10000 is below U+FFFF as UTF-16 but its key sorts above |
| StringCodec.TerminatedNulOrderCounterexample | src/commonMain/kotlin/com/darkyen/database/DatabaseKey.kt:225-228 | the ordering claim fails for U+0000 when terminated: its key C0 80 sorts above the key of U+0001 |
| LegacyKeyCodec.IntBias | src/commonMain/kotlin/com/darkyen/ud/DatabaseKey.kt:48-57 | adding `0x7FFF_FFFF` wraps only `MIN_VALUE`, to -1; subtracting it undoes the addition for every value |
| LegacyKeyCodec.LongBias | src/commonMain/kotlin/com/darkyen/ud/DatabaseKey.kt:49-66 | the same for `0x7FFF_FFFF_FFFF_FFFF` |
| LegacyKeyCodec.IntEncodedValue | src/commonMain/kotlin/com/darkyen/ud/DatabaseKey.kt:51-54 | the key of v, read as a number, is v + 2^31 - 1, except that `MIN_VALUE` gives 2^32 - 1 |
| LegacyKeyCodec.LongEncodedValue | src/commonMain/kotlin/com/darkyen/ud/DatabaseKey.kt:60-63 | the same for 64 bits |
| LegacyKeyCodec.IntRoundTrip | src/commonMain/kotlin/com/darkyen/ud/DatabaseKey.kt:51-59 | every `Int`, `MIN_VALUE` included, round-trips |
| LegacyKeyCodec.LongRoundTrip | src/commonMain/kotlin/com/darkyen/ud/DatabaseKey.kt:60-68 | every `Long` round-trips |
| LegacyKeyCodec.IntOrderAboveMin | src/commonMain/kotlin/com/darkyen/ud/DatabaseKey.kt:44-59 | above `MIN_VALUE`, key byte order is signed order, in both directions |
| LegacyKeyCodec.LongOrderAboveMin | src/commonMain/kotlin/com/darkyen/ud/DatabaseKey.kt:44-68 | the same for `Long` |
| LegacyKeyCodec.IntMinSortsLast | src/commonMain/kotlin/com/darkyen/ud/DatabaseKey.kt:48-53 | `Int.MIN_VALUE` is written as FF FF FF FF and sorts after every other value |
| LegacyKeyCodec.LongMinSortsLast | src/commonMain/kotlin/com/darkyen/ud/DatabaseKey.kt:49-62 | `Long.MIN_VALUE` sorts after every other value |
| LegacyKeyCodec.FloatSerializeIsCurrent | src/commonMain/kotlin/com/darkyen/ud/DatabaseKey.kt:72-83 | the older float serializer writes byte for byte the current key |
| LegacyKeyCodec.DoubleSerializeIsCurrent | src/commonMain/kotlin/com/darkyen/ud/DatabaseKey.kt:100-111 | the older double serializer writes byte for byte the current key |
| LegacyKeyCodec.FloatTotalOrder | src/commonMain/kotlin/com/darkyen/ud/DatabaseKey.kt:70-83 | older float key byte order is IEEE 754 totalOrder |
| LegacyKeyCodec.DoubleTotalOrder | src/commonMain/kotlin/com/darkyen/ud/DatabaseKey.kt:99-111 | older double key byte order is IEEE 754 totalOrder |
| LegacyKeyCodec.FloatUnbiasedOf | src/commonMain/kotlin/com/darkyen/ud/DatabaseKey.kt:86-94 | the reader maps an unsigned key value v to 2^31 - 1 - v when the top bit is set, and to v - 2^31 otherwise |
| LegacyKeyCodec.DoubleUnbiasedOf | src/commonMain/kotlin/com/darkyen/ud/DatabaseKey.kt:114-122 | the same for 64 bits |
| LegacyKeyCodec.DeserializeFloatOf | src/commonMain/kotlin/com/darkyen/ud/DatabaseKey.kt:85-96 | reading a 4-byte key gives that mapping of its value |
| LegacyKeyCodec.DeserializeDoubleOf | src/commonMain/kotlin/com/darkyen/ud/DatabaseKey.kt:113-124 | reading an 8-byte key gives that mapping of its value |
| LegacyKeyCodec.FloatKeyReadsFlipped | src/commonMain/kotlin/com/darkyen/ud/DatabaseKey.kt:85-96 | a key holding a float's shifted rank reads back as -1 - magnitude |
| LegacyKeyCodec.DoubleKeyReadsFlipped | src/commonMain/kotlin/com/darkyen/ud/DatabaseKey.kt:113-124 | the same for doubles |
| LegacyKeyCodec.FloatRoundTripFails | src/commonMain/kotlin/com/darkyen/ud/DatabaseKey.kt:88 | as written, every float key reads back as -1 - magnitude, never as the bits that were written |
| LegacyKeyCodec.DoubleRoundTripFails | src/commonMain/kotlin/com/darkyen/ud/DatabaseKey.kt:116 | as written, no double key reads back as the bits that were written |
| TableSets.MaxWord | src/androidMain/kotlin/com/darkyen/database/TableSet.kt:6 | `maxOf(index shr 5)` bounds every table's word and is reached by one of them |
| TableSets.Build | src/androidMain/kotlin/com/darkyen/database/TableSet.kt:5-20 | the constructors fail exactly on an empty list; otherwise the words number max(index shr 5) + 1 and contain exactly the given tables |
| TableSets.SetBits | src/androidMain/kotlin/com/darkyen/database/TableSet.kt:7-11 | the loop sets, in a zeroed array, exactly the bits of the given tables |
| TableSets.AddTable | src/androidMain/kotlin/com/darkyen/database/TableSet.kt:8-10 | `it[word] = it[word] or (1 shl bit)` adds that table and changes no other table's membership |
| TableSets.SetBitKeeps | src/androidMain/kotlin/com/darkyen/database/TableSet.kt:10 | OR-ing a table's bit into its word adds exactly that table |
| TableSets.BuiltWords | src/androidMain/kotlin/com/darkyen/database/TableSet.kt:6 | words sized for the highest id that hold exactly the ids represent them |
| TableSets.RepresentationUnique | src/androidMain/kotlin/com/darkyen/database/TableSet.kt:6-20 | two lists with the same tables, repetitions and order aside, build the same words |
| TableSets.ContainsAt | src/androidMain/kotlin/com/darkyen/database/TableSet.kt:54-59 | `contains` is true exactly for the table whose word and bit are set, and false for any word past the end of the array |
| TableSets.Intersects | src/androidMain/kotlin/com/darkyen/database/TableSet.kt:22-27 | `intersects` is true exactly when some table is in both sets, whatever the two word counts |
| TableSets.SharesIffCommonWord | src/androidMain/kotlin/com/darkyen/database/TableSet.kt:22-27 | sharing a table is equivalent to a common-prefix word with a bit set in both, so surplus words never matter |
| TableSets.SharedAt | src/androidMain/kotlin/com/darkyen/database/TableSet.kt:24 | a bit set in both words j is a table that both sets contain |
| TableSets.DisjointWordByWord | src/androidMain/kotlin/com/darkyen/database/TableSet.kt:23-26 | common words with no bit in common mean no table is shared |
| TableSets.IsSubsetOf | src/androidMain/kotlin/com/darkyen/database/TableSet.kt:29-52 | `isSubsetOf` is true exactly when every table of this set is in the superset |
| TableSets.SurplusWordMissing | src/androidMain/kotlin/com/darkyen/database/TableSet.kt:34-39 | a non-zero word past the superset's end holds a table the superset lacks |
| TableSets.CommonWordMissing | src/androidMain/kotlin/com/darkyen/database/TableSet.kt:41-45 | a word not absorbed by the superset's word holds a table the superset lacks |
| TableSets.IncludedWordByWord | src/androidMain/kotlin/com/darkyen/database/TableSet.kt:34-46 | zero surplus words and absorbed common words mean inclusion |
| TableSets.OrAbsorbed | src/androidMain/kotlin/com/darkyen/database/TableSet.kt:44 | `sub or sup == sup` says exactly that sub has no bit outside sup |
| TableSets.BuildJs | src/jsMain/kotlin/com/darkyen/database/TableSet.kt:10-27 | the JS constructors fail on an empty list; otherwise `bits` contains exactly the given tables and `tableNames` lists their names in argument order |
| TableSets.Indices | src/jsMain/kotlin/com/darkyen/database/TableSet.kt:10-16 | the ids read from the tables, in argument order |
| Names.AnyBadChar | src/commonMain/kotlin/com/darkyen/database/Validation.kt:5 | true exactly when some character is not an ASCII letter or digit |
| Names.ValidateName | src/commonMain/kotlin/com/darkyen/database/Validation.kt:3-6 | a name passes exactly when it has 1 to 100 characters, all ASCII letters or digits; the length error exactly when its length in UTF-16 units (Kotlin's `String.length`) is out of range |
| Names.Utf16Length | src/commonMain/kotlin/com/darkyen/database/Validation.kt:4 | the UTF-16 length lies between the number of characters and twice it, and equals it exactly when no character is outside the Basic Multilingual Plane |
| Names.SupplementaryCountsTwice | src/commonMain/kotlin/com/darkyen/database/Validation.kt:4 | 99 letters followed by U+10000 are 100 characters but 101 UTF-16 units, so the name fails with the length error |
| Validation.FindByName | src/commonMain/kotlin/com/darkyen/database/Validation.kt:28 | `find` returns the first table of that name, or nothing exactly when no table has it |
| Validation.FindDuplicateName | src/commonMain/kotlin/com/darkyen/database/Validation.kt:12-17 | the `HashSet` scan finds nothing exactly when the names are distinct, and otherwise reports a name held by two tables |
| Validation.FindChangedIdentity | src/commonMain/kotlin/com/darkyen/database/Validation.kt:27-30 | the identity scan passes exactly when every name shared with the previous version is the same object, and otherwise reports a replaced table |
| Validation.ValidateSchemaSequence | src/commonMain/kotlin/com/darkyen/database/Validation.kt:8-33 | accepts exactly the non-empty sequences with distinct names per version, a first version of at least 1, consecutive versions, and unchanged identity of shared names between neighbours; a rejection names a real defect |
| Validation.SharedNameSameTable | src/commonMain/kotlin/com/darkyen/database/Validation.kt:27-30 | in an accepted sequence, a name shared by neighbouring versions is the same table object |
| Schemas.DecimalString | src/commonMain/kotlin/com/darkyen/database/Database.kt:191 | Kotlin's `"$i"` of a non-negative number is a non-empty string of decimal digits |
| Schemas.DecimalRoundTrip | src/commonMain/kotlin/com/darkyen/database/Database.kt:191 | the decimal digits read back as the number |
| Schemas.FieldNamesDistinct | src/commonMain/kotlin/com/darkyen/database/Database.kt:191 | different index positions get different field names `"i$i"` |
| Schemas.Index.constructor | src/commonMain/kotlin/com/darkyen/database/Database.kt:200-212 | a new index carries its name and uniqueness and is attached to no table, its `lateinit` names unset; the older generation's `Index` (ud/Database.kt:99-111) is the same class, owned by its own table type |
| Schemas.NewIndex | src/commonMain/kotlin/com/darkyen/database/Database.kt:206-214 | an index is created exactly when its name is valid; a new index's `table` fails until it is attached; the same for either generation's table type |
| Schemas.TableIds.constructor | src/commonMain/kotlin/com/darkyen/database/Database.kt:168 | the table counter starts at 0 |
| Schemas.Table.constructor | src/commonMain/kotlin/com/darkyen/database/Database.kt:176-183 | a table holds its name, its id and its list of indices |
| Schemas.NewTable | src/commonMain/kotlin/com/darkyen/database/Database.kt:176-193 | every construction takes `nextTableIndex` as its id and increments the counter; an invalid name fails before any index is touched; with a valid name the table is made exactly when no index is already attached, and then the i-th index belongs to it with canonical name `name_indexName` and field name `"i$i"` |
| Schemas.AttachAll | src/commonMain/kotlin/com/darkyen/database/Database.kt:187-192 | the loop of both generations' table constructors (also ud/Database.kt:86-91) attaches every index when none is already attached; otherwise it stops at the first attached one, after naming all the indices before it |
| Schemas.TableIdsOf | src/commonMain/kotlin/com/darkyen/database/Database.kt:237 | the ids of the schema's tables, in order |
| Schemas.NewSchema | src/commonMain/kotlin/com/darkyen/database/Database.kt:229-238 | a schema keeps its version, tables and callbacks, and its `tableSet` contains exactly its tables' ids; no tables makes `maxOf` fail |
| Configs.NewConfig | src/commonMain/kotlin/com/darkyen/database/Database.kt:104-115 | a configuration is made exactly when its name is valid and its schema sequence is accepted; the name is checked first |
| LegacySchemas.LegacyTable.constructor | src/commonMain/kotlin/com/darkyen/ud/Database.kt:78-83 | a table holds its name and its list of indices |
| LegacySchemas.NewLegacyTable | src/commonMain/kotlin/com/darkyen/ud/Database.kt:78-92 | an invalid name fails before any index is touched; with a valid name the table is made exactly when no index is already attached, and then the i-th index belongs to it, named `name_indexName` with field `"i$i"` |
| Observers.Interested | src/commonMain/kotlin/com/darkyen/database/TableObservers.kt:64-68 | the chosen observers come from the registered pairs, at most one per pair |
| Observers.SwapRemove | src/commonMain/kotlin/com/darkyen/database/TableObservers.kt:40-47 | removing slot k leaves one pair fewer |
| Observers.SwapRemoveMultiset | src/commonMain/kotlin/com/darkyen/database/TableObservers.kt:40-47 | swapping in the last pair removes exactly one copy of the removed pair, and keeps the multiset of all the others |
| Observers.IndexOf | src/commonMain/kotlin/com/darkyen/database/TableObservers.kt:29-39 | the identity search finds the first slot holding that very observer, or reports it absent from every slot |
| Observers.CopyOf | src/commonMain/kotlin/com/darkyen/database/TableObservers.kt:16-17 | `copyOf(n)` keeps the elements and pads with nulls up to n |
| Observers.SlotsAppend | src/commonMain/kotlin/com/darkyen/database/TableObservers.kt:19-20 | filling slot `count` appends the pair, and the slots stay full below `count` and empty above |
| Observers.SlotsGrow | src/commonMain/kotlin/com/darkyen/database/TableObservers.kt:15-18 | copying into longer null-padded arrays keeps every pair |
| Observers.SlotsRemove | src/commonMain/kotlin/com/darkyen/database/TableObservers.kt:40-47 | moving the last pair into slot k and nulling the last slot is `SwapRemove`, and slots stay full below `count` and empty above |
| Observers.TableObservers.constructor | src/commonMain/kotlin/com/darkyen/database/TableObservers.kt:3-10 | a new registry has no pairs, arrays of 8 slots and no scratch array |
| Observers.TableObservers.AddObserver | src/commonMain/kotlin/com/darkyen/database/TableObservers.kt:12-22 | the pair is appended after every existing one; the arrays are replaced by copies of twice the size exactly when they were full |
| Observers.TableObservers.RemoveObserver | src/commonMain/kotlin/com/darkyen/database/TableObservers.kt:24-49 | an absent observer changes nothing; otherwise exactly the first identical pair is removed by swapping in the last |
| Observers.TableObservers.FindObserver | src/commonMain/kotlin/com/darkyen/database/TableObservers.kt:29-39 | the scan stops at the first slot holding that very object, or at `count` exactly when there is none |
| Observers.TableObservers.RemoveAt | src/commonMain/kotlin/com/darkyen/database/TableObservers.kt:40-47 | after the slot is found, the pairs become `SwapRemove` of the old pairs, in the same arrays |
| Observers.TableObservers.ObtainObservers | src/commonMain/kotlin/com/darkyen/database/TableObservers.kt:52-71 | returns the cached array or a new one of at least `count` slots, whose prefix lists in slot order exactly the observers whose set intersects the tables, followed by nulls; the cache is emptied |
| Observers.TableObservers.ReturnObservers | src/commonMain/kotlin/com/darkyen/database/TableObservers.kt:74-81 | the returned array replaces the cache exactly when there is none or the cached one is shorter |
| Observers.TableObservers.ForEachObserver | src/commonMain/kotlin/com/darkyen/database/TableObservers.kt:83-109 | the handler is called once per intersecting observer, in slot order, and keeps going after failures; the first failure is rethrown with the later ones suppressed, and the cleared array goes back to the cache |
| Observers.InterestedStep | src/commonMain/kotlin/com/darkyen/database/TableObservers.kt:64-68 | one more slot appends its observer exactly when its set intersects the tables |
| Observers.Collect | src/commonMain/kotlin/com/darkyen/database/TableObservers.kt:63-68 | the filling loop writes exactly the intersecting observers, in order, then nulls |
| Observers.Notify | src/commonMain/kotlin/com/darkyen/database/TableObservers.kt:86-103 | the calling loop calls the listed observers in order, nulls every slot, and collects the first failure with the later ones suppressed |
| Throwables.Grouped | src/commonMain/kotlin/com/darkyen/database/TableObservers.kt:97-101 | nothing is rethrown exactly when nothing failed |
| Throwables.GroupedStep | src/commonMain/kotlin/com/darkyen/database/TableObservers.kt:97-101 | `if (error == null) error = e else error.addSuppressed(e)`, applied to one more outcome, groups the longer list of failures: the first failure is kept and the later ones are suppressed in order |
| ResourcePools.LazyResourcePool.Bounds | src/androidMain/kotlin/com/darkyen/database/LazyResourcePool.kt:18-28 | in every reachable state at most 1 + lazyBudget resources exist, and the permits never exceed 1 + lazyBudget + 1; while open, idle plus lent resources are all that exist; once closed, a permit stays available |
| ResourcePools.LazyResourcePool.constructor | src/androidMain/kotlin/com/darkyen/database/LazyResourcePool.kt:7-30 | a new pool has the stable resource idle, one permit, the whole budget and no failures |
| ResourcePools.LazyResourcePool.CreateNewResourceIfBudgetAllows | src/androidMain/kotlin/com/darkyen/database/LazyResourcePool.kt:32-55 | with more than 10 failures or no budget, nothing is created and nothing changes; otherwise a creation takes one budget unit and resets the failures, and a failed creation gives the unit back and counts one more failure |
| ResourcePools.LazyResourcePool.ObtainResource | src/androidMain/kotlin/com/darkyen/database/LazyResourcePool.kt:57-84 | with a permit, a closed pool gives the permit back and throws "closed", and an open one pops the last idle resource; without one, a creation the failure count and budget allow hands out the new resource, takes a budget unit and clears the failures; a refused creation leaves budget and failures alone, and a failed one counts one more failure; in both the caller must wait |
| ResourcePools.LazyResourcePool.ReleaseResource | src/androidMain/kotlin/com/darkyen/database/LazyResourcePool.kt:86-98 | an open pool appends the resource to the idle list and a closed one closes it; one permit is released either way |
| ResourcePools.LazyResourcePool.WithResource | src/androidMain/kotlin/com/darkyen/database/LazyResourcePool.kt:100-107 | a closed pool fails before the block runs; otherwise the result is the block's value or its failure on the last idle resource, or on a newly created one when no permit is free and the creation succeeds, and that resource is handed back afterwards, whether the block fails or not (the idle list is as before, or gains the new resource); when no resource can be had the caller must wait, with the failure count updated as for `ObtainResource` |
| ResourcePools.LazyResourcePool.Close | src/androidMain/kotlin/com/darkyen/database/LazyResourcePool.kt:109-129 | a second close does nothing; the first sets `closed`, closes every idle resource from the last to the first, empties the list, releases one extra permit, and rethrows the first close error with the later ones suppressed |
| ResourcePools.LazyResourcePool.CloseIdle | src/androidMain/kotlin/com/darkyen/database/LazyResourcePool.kt:114-124 | the draining loop closes the idle resources in reverse order and groups their failures |
| SqlClauses.WhereSelectsRange | src/androidMain/kotlin/com/darkyen/database/SQLiteDatabase.kt:399-455 | read as SQLite reads it, the WHERE clause of the current backend, with the parameters `bindWhereParams` numbers from 1, selects exactly the rows whose key or index field lies between the query's bounds, each bound open or closed as asked |
| SqlClauses.LegacyWhereSelectsRange | src/androidMain/kotlin/com/darkyen/ud/SQLiteUniversalDatabase.kt:224-272 | the same for the older backend's `?1`/`?2` markers and parameters 1 and 2 |
| SqlClauses.WhereClauseParts | src/androidMain/kotlin/com/darkyen/database/SQLiteDatabase.kt:399-429 | no bounds give no clause; otherwise the clause is " WHERE " followed by `field >`/`>=` for the min, `field <`/`<=` for the max, joined by " AND " when both are present |
| SqlClauses.BindWhereParams | src/androidMain/kotlin/com/darkyen/database/SQLiteDatabase.kt:446-455 | at most two parameters are bound; what they mean is the content of `WhereSelectsRange` |
| SqlClauses.LegacyBindWhereParams | src/androidMain/kotlin/com/darkyen/ud/SQLiteUniversalDatabase.kt:265-272 | at most two parameters are bound; what they mean is the content of `LegacyWhereSelectsRange` |
| SqlClauses.Order | src/androidMain/kotlin/com/darkyen/database/SQLiteDatabase.kt:431-438 | the clause orders by the WHERE field, and ends in " ASC" exactly when the query is increasing |
| SqlClauses.Limit | src/androidMain/kotlin/com/darkyen/database/SQLiteDatabase.kt:440-444 | a limit of 0 or less adds nothing; a positive limit adds " LIMIT " followed by its decimal digits, which read back as the limit |
| SqlClauses.QueryAll | src/androidMain/kotlin/com/darkyen/database/SQLiteDatabase.kt:457-459 | `queryAll` has every key in range, no WHERE clause in either backend and no parameters, and keeps the direction |
| SqlClauses.QueryOne | src/androidMain/kotlin/com/darkyen/database/SQLiteDatabase.kt:460-463 | `queryOne` selects exactly the rows whose key is the serialized key, in increasing order |
| SqlClauses.RangeQuery | src/androidMain/kotlin/com/darkyen/database/SQLiteDatabase.kt:464-473 | `Table.query`/`Index.query`: each given bound is the serialization of that bound, including when `min` and `max` are the same object and the min encoding is reused; openness, direction, table and index are kept |
| WriteObservers.WriteObserver.constructor | src/androidMain/kotlin/com/darkyen/database/SQLiteDatabase.kt:77-79 | a new observer has stamp 0 and no pending write |
| WriteObservers.WriteObserver.Trigger | src/androidMain/kotlin/com/darkyen/database/SQLiteDatabase.kt:90-92 | `trySend` on the one-slot channel that drops the oldest leaves exactly one pending write, and the stamp is kept |
| WriteObservers.WriteObserver.CheckWrite | src/androidMain/kotlin/com/darkyen/database/SQLiteDatabase.kt:81-83 | `checkWrite` reports a write exactly when one was pending, and takes it |
| WriteObservers.TriggersCoalesce | src/androidMain/kotlin/com/darkyen/database/SQLiteDatabase.kt:79-92 | any number of triggers before a check are reported as one write: the first check sees a write exactly when there was a trigger, the second sees none |
| WriteObservers.RemoveFirst | src/androidMain/kotlin/com/darkyen/database/SQLiteDatabase.kt:112 | `ArrayList.remove` leaves a list without the observer unchanged, and otherwise removes one element and adds none |
| WriteObservers.RemoveAllFromRun | src/androidMain/kotlin/com/darkyen/database/SQLiteDatabase.kt:129-131 | removing the observer once per occurrence of a table takes away exactly the copies that registration appended |
| WriteObservers.AllInAppend | src/androidMain/kotlin/com/darkyen/database/SQLiteDatabase.kt:103-106 | appending an observer to one table's list adds exactly that observer to the registered ones |
| WriteObservers.AllInRemove | src/androidMain/kotlin/com/darkyen/database/SQLiteDatabase.kt:111-113 | removing an observer from one table's list registers no new observer |
| WriteObservers.ObserverRegistry.constructor | src/androidMain/kotlin/com/darkyen/database/SQLiteDatabase.kt:95-96 | the registry starts with stamp 0 and no lists |
| WriteObservers.ObserverRegistry.Register | src/androidMain/kotlin/com/darkyen/database/SQLiteDatabase.kt:103-106 | `getOrPut(table, ::ArrayList).add(observer)` for each table: each table's list gains one copy of the observer per time the table is named, a table first seen gets a list, nothing else changes |
| WriteObservers.ObserverRegistry.AddTo | src/androidMain/kotlin/com/darkyen/database/SQLiteDatabase.kt:104-105 | one table's list gains the observer at its end (a table without a list gets one), every registered observer still has a trigger no later than the registry's |
| WriteObservers.ObserverRegistry.Unregister | src/androidMain/kotlin/com/darkyen/database/SQLiteDatabase.kt:129-131 | `tableObservers[table]?.remove(observer)` for each table: each list loses one copy per time its table is named, and no list is added or dropped |
| WriteObservers.ObserverRegistry.ObserveDatabaseWrites | src/androidMain/kotlin/com/darkyen/database/SQLiteDatabase.kt:119-133 | the block form: a new observer is registered on every table, the block's steps run, and `finally` unregisters it; each `checkWrite` of the block answers true exactly when a write on an observed table committed since the previous check; the stamp rises by the number of writes; afterwards the observer is in no list and every list is what the block's own registrations made of it |
| WriteObservers.ObserverRegistry.NotifyWrite | src/androidMain/kotlin/com/darkyen/database/SQLiteDatabase.kt:63-74 | the stamp goes up by one; each observer registered on a used table is triggered exactly once, however many used tables list it; observers on no used table are not triggered; the lists are unchanged |
| WriteObservers.FireList | src/androidMain/kotlin/com/darkyen/database/SQLiteDatabase.kt:67-72 | one table's list: each observer not yet stamped is stamped and triggered, and one already stamped is skipped |
| WriteObservers.PendingIffUncheckedWrite | src/androidMain/kotlin/com/darkyen/database/SQLiteDatabase.kt:79-92 | the observer holds a signal after the steps exactly when some write on an observed table has no `checkWrite` after it |
| WriteObservers.AnswersAt | src/androidMain/kotlin/com/darkyen/database/SQLiteDatabase.kt:81-83 | the i-th answer of the block is true exactly when the i-th step is a check and a signal is pending before it |
| WriteObservers.ObserverRegistry.RunBlock | src/androidMain/kotlin/com/darkyen/database/SQLiteDatabase.kt:125-127 | the block's steps in order with the observer registered throughout: the answers are `Answers` of the steps, the stamp rises by one per write, and the lists stay those the steps' own registrations make |
| WriteObservers.ObserverRegistry.RunStep | src/androidMain/kotlin/com/darkyen/database/SQLiteDatabase.kt:63-133 | one step: a write signals the observer exactly when it uses an observed table and raises the stamp by one; a check answers the pending signal and takes it; a nested registration or removal changes only the other observer's copies |
| WriteObservers.ObserverRegistry.OwnSignal | src/androidMain/kotlin/com/darkyen/database/SQLiteDatabase.kt:63-74 | while registered on its tables, the observer is on a used table's list exactly when a used table is one of them |
| WriteObservers.FinallyTracks | src/androidMain/kotlin/com/darkyen/database/SQLiteDatabase.kt:128-132 | the `finally` removal leaves each list exactly as the block's own registrations made it, and the observer in no list |
| SqliteDatabase.Database.constructor | src/androidMain/kotlin/com/darkyen/database/SQLiteDatabase.kt:16-24 | a new database is open and has no observers |
| SqliteDatabase.Database.AllInSchema | src/androidMain/kotlin/com/darkyen/database/SQLiteDatabase.kt:38 | the scan answers true exactly when every used table is in the schema |
| SqliteDatabase.Database.RunInTransaction | src/androidMain/kotlin/com/darkyen/database/SQLiteDatabase.kt:26-47 | the pool, then begin, the block, `setTransactionSuccessful` only when the block returned, and `endTransaction` in `finally`: the result is `TransactionOutcome`, which succeeds exactly when nothing throws, with the block's value |
| SqliteDatabase.Database.Transaction | src/androidMain/kotlin/com/darkyen/database/SQLiteDatabase.kt:36-49 | a closed database fails with "Database is closed" before touching the engine; a table outside the schema throws `IllegalArgumentException`; otherwise a deferred transaction, which succeeds with the block's value exactly when neither the pool, begin, the block, set-successful nor end throws, and then commits |
| SqliteDatabase.Database.WriteTransaction | src/androidMain/kotlin/com/darkyen/database/SQLiteDatabase.kt:51-75 | as `transaction`, with an immediate transaction; a successful one raises the stamp by one and triggers each observer on a used table once, and a failed one triggers nothing and changes no observer |
| SqliteDatabase.Database.ObserveDatabaseWrites | src/androidMain/kotlin/com/darkyen/database/SQLiteDatabase.kt:98-117 | a new observer with no pending write; a closed database registers it nowhere; an open one registers it on every table |
| SqliteDatabase.Database.Close | src/androidMain/kotlin/com/darkyen/database/SQLiteDatabase.kt:135-138 | `close` sets `closed`, so every later transaction fails |
| SqliteDatabase.TransactionOutcome | src/androidMain/kotlin/com/darkyen/database/SQLiteDatabase.kt:26-47 | success exactly when no fault occurs and the block returns, and exactly when the log commits; a pool failure makes no request; otherwise the log begins with the begin request and ends with `endTransaction`; a failing end replaces any earlier exception |
| LegacySqliteDatabase.ReadOutcome | src/androidMain/kotlin/com/darkyen/ud/SQLiteUniversalDatabase.kt:19-30 | the older read transaction succeeds exactly when `readableDatabase` and the block do not throw, with the block's value; otherwise it fails with the first exception |
| LegacySqliteDatabase.SqlTransactionOutcome | src/androidMain/kotlin/com/darkyen/ud/SQLiteUniversalDatabase.kt:423-433 | `sqlTransaction`: success exactly when nothing throws, and exactly when the log commits; a begin that throws is outside the `try`, so its log is the begin alone; past the begin the log ends with `endTransaction` |
| LegacySqliteDatabase.BeginFailureEnded | src/androidMain/kotlin/com/darkyen/ud/SQLiteUniversalDatabase.kt:424-425 | when begin throws, the older backend never ends the transaction while the current one does |
| LegacySqliteDatabase.LegacyDatabase.constructor | src/androidMain/kotlin/com/darkyen/ud/SQLiteUniversalDatabase.kt:15-18 | a new database is open and has no observers |
| LegacySqliteDatabase.LegacyDatabase.Transaction | src/androidMain/kotlin/com/darkyen/ud/SQLiteUniversalDatabase.kt:20-31 | a closed database fails; otherwise the block runs with no SQL transaction and no request, and succeeds exactly when neither `readableDatabase` nor the block throws |
| LegacySqliteDatabase.LegacyDatabase.SqlTransaction | src/androidMain/kotlin/com/darkyen/ud/SQLiteUniversalDatabase.kt:423-433 | the begin, the `try` and the `finally` of `sqlTransaction` give exactly `SqlTransactionOutcome` |
| LegacySqliteDatabase.LegacyDatabase.WriteTransaction | src/androidMain/kotlin/com/darkyen/ud/SQLiteUniversalDatabase.kt:33-56 | a closed database fails with no request; otherwise `sqlTransaction`; success raises the stamp by one and triggers each observer on a used table once; a failure triggers nothing and changes no observer |
| LegacySqliteDatabase.LegacyDatabase.Close | src/androidMain/kotlin/com/darkyen/ud/SQLiteUniversalDatabase.kt:115-116 | `close` sets `closed`, so every later transaction fails |
| Migrations.ApplyConcat | src/androidMain/kotlin/com/darkyen/database/SQLiteDatabase.kt:514-575 | running two logs one after the other is running the first and then the second on its result; a refused request stops everything |
| Migrations.ApplyNeutral | src/androidMain/kotlin/com/darkyen/database/SQLiteDatabase.kt:536-538 | requests that are not creates or drops, such as schema code and callbacks, leave the stored tables alone |
| Migrations.Creates | src/androidMain/kotlin/com/darkyen/database/SQLiteDatabase.kt:533-535 | one create per table, in the tables' order |
| Migrations.Drops | src/androidMain/kotlin/com/darkyen/database/SQLiteDatabase.kt:558-562 | one drop per table, in the tables' order |
| Migrations.Created | src/androidMain/kotlin/com/darkyen/database/SQLiteDatabase.kt:547-551 | the tables chosen by `table !in currentSchema.tables` are exactly the tables of the next version that the previous one does not hold |
| Migrations.CreatedDistinct | src/androidMain/kotlin/com/darkyen/database/SQLiteDatabase.kt:547-551 | choosing some of a list of distinctly named tables keeps the names distinct |
| Migrations.CreatesApply | src/androidMain/kotlin/com/darkyen/database/SQLiteDatabase.kt:501-512 | creating distinctly named tables, none of them already stored, adds exactly their names |
| Migrations.DropsApply | src/androidMain/kotlin/com/darkyen/database/SQLiteDatabase.kt:558-562 | dropping distinctly named stored tables removes exactly their names |
| Migrations.MigrateStep | src/androidMain/kotlin/com/darkyen/database/SQLiteDatabase.kt:552-554 | `migrateFromPrevious` changes no table structure |
| Migrations.ValidSequenceLinked | src/commonMain/kotlin/com/darkyen/database/Validation.kt:27-30 | in an accepted schema sequence, tables of two consecutive versions that share a name are the same table |
| Migrations.StepReaches | src/androidMain/kotlin/com/darkyen/database/SQLiteDatabase.kt:543-563 | one step of the loop (create the new tables, run `migrateFromPrevious`, drop the dropped tables) turns the previous version's stored tables into the next version's, with no create refused and no drop of a missing table |
| Migrations.ConcatReaches | src/androidMain/kotlin/com/darkyen/database/SQLiteDatabase.kt:543-563 | steps that each lead from one version's tables to the next lead, together, from the first version's to the last one's |
| Migrations.StepwiseSnoc | src/androidMain/kotlin/com/darkyen/database/SQLiteDatabase.kt:543-563 | the loop up to a version is the loop up to the version before it followed by one more step |
| Migrations.ValidSequenceChain | src/commonMain/kotlin/com/darkyen/database/Validation.kt:27-30 | an accepted schema sequence links every consecutive pair of versions between two indices |
| Migrations.StepwiseReaches | src/androidMain/kotlin/com/darkyen/database/SQLiteDatabase.kt:543-563 | the whole step-wise loop turns the stored version's tables into the target's |
| Migrations.StepwiseCallbacks | src/androidMain/kotlin/com/darkyen/database/SQLiteDatabase.kt:555-557 | the step-wise loop queues the version of every later version that has `afterSuccessfulCreationOrMigration`, only those, in chain order |
| Migrations.ValidNameNotEngine | src/androidMain/kotlin/com/darkyen/database/SQLiteDatabase.kt:526 | a name `validateName` accepts never starts with "sqlite_", so the wipe never spares a table of the model and the model never takes an engine name |
| Migrations.StoredDrops | src/androidMain/kotlin/com/darkyen/database/SQLiteDatabase.kt:523-530 | the scan drops only listed tables whose name does not start with "sqlite_", skipping null names |
| Migrations.StoredDropsApply | src/androidMain/kotlin/com/darkyen/database/SQLiteDatabase.kt:523-530 | over rows that list each stored name once, the scan removes exactly the stored tables that are not the engine's |
| Migrations.FreshCallbacks | src/androidMain/kotlin/com/darkyen/database/SQLiteDatabase.kt:539-541 | the fresh creation queues the target's own callback exactly when it has one |
| Migrations.FreshReplaces | src/androidMain/kotlin/com/darkyen/database/SQLiteDatabase.kt:519-541 | over a stored version the chain does not know, the fresh creation leaves exactly the engine's tables and the target's |
| Migrations.FreshCreates | src/androidMain/kotlin/com/darkyen/database/SQLiteDatabase.kt:521-535 | on a new database (`user_version` 0) nothing is dropped and the target's tables are added |
| Migrations.IndexOfFirst | src/androidMain/kotlin/com/darkyen/database/SQLiteDatabase.kt:517 | `indexOfFirst`: -1 exactly when no version matches, otherwise the first matching index |
| SqliteOpen.Open | src/androidMain/kotlin/com/darkyen/database/SQLiteDatabase.kt:484-589 | a newer stored version gives `NewerVersionExists`; only an open with no failing request succeeds; the migration commits only when the open succeeds; a failing request in the migration still ends the transaction, then the connection is closed and a full database gives `OutOfMemory`, anything else `Failure` |
| SqliteOpen.CallbackRuns | src/androidMain/kotlin/com/darkyen/database/SQLiteDatabase.kt:567-569 | the queued callbacks run once each, in queue order |
| SqliteOpen.NoMigrationUnlessOlder | src/androidMain/kotlin/com/darkyen/database/SQLiteDatabase.kt:496-514 | a stored version at or above the target begins no transaction, creates and drops nothing, and commits nothing; a newer one closes the connection |
| SqliteOpen.MigrationFromChainReachesTarget | src/androidMain/kotlin/com/darkyen/database/SQLiteDatabase.kt:542-564 | from a stored version in the chain, the migration leaves exactly the engine's tables and the target's, with every request accepted |
| SqliteOpen.MigrationFromElsewhereRecreates | src/androidMain/kotlin/com/darkyen/database/SQLiteDatabase.kt:519-541 | from a stored version not in the chain, the migration wipes every non-engine table and creates the target's; `user_version` 0 drops nothing |
| SqliteOpen.StepwiseRunsMigrationsInOrder | src/androidMain/kotlin/com/darkyen/database/SQLiteDatabase.kt:543-563 | the step-wise migration runs the `migrateFromPrevious` of each later version once, in chain order, and no other |
| SqliteOpen.MigrationsRunConcat | src/androidMain/kotlin/com/darkyen/database/SQLiteDatabase.kt:543-563 | the schema code two logs run together is that of the first followed by that of the second |
| SqliteOpen.CreatesRunNoMigration | src/androidMain/kotlin/com/darkyen/database/SQLiteDatabase.kt:501-512 | creating tables runs no schema code |
| SqliteOpen.DropsRunNoMigration | src/androidMain/kotlin/com/darkyen/database/SQLiteDatabase.kt:558-562 | dropping tables runs no schema code |
| SqliteOpen.CreateMissing | src/androidMain/kotlin/com/darkyen/database/SQLiteDatabase.kt:547-551 | the loop creates exactly the tables of the next version missing from the previous one, in order |
| SqliteOpen.DropMissing | src/androidMain/kotlin/com/darkyen/database/SQLiteDatabase.kt:558-562 | the loop drops exactly the tables of the previous version missing from the next one, in order |
| SqliteOpen.DropStored | src/androidMain/kotlin/com/darkyen/database/SQLiteDatabase.kt:523-530 | the scan loop makes exactly the drops `StoredDrops` describes |
| SqliteOpen.CreateAll | src/androidMain/kotlin/com/darkyen/database/SQLiteDatabase.kt:533-535 | one create request per table of the target version, in the schema's order (the IndexedDB upgrade's store-creation loop, IndexedDBUniversalDatabase.kt:401-406, is the same); `Migrations.CreatesApply` shows that these add exactly the tables' names |
| SqliteOpen.MigrateOneStep | src/androidMain/kotlin/com/darkyen/database/SQLiteDatabase.kt:544-562 | one pass of the step loop: creates of the tables new in the next version, then its `migrateFromPrevious` when present, then drops of the tables it no longer has; it queues the next version's own callback when it has one |
| SqliteOpen.MigrateStepwise | src/androidMain/kotlin/com/darkyen/database/SQLiteDatabase.kt:543-563 | the step loop makes the steps of every later version in order and queues their callbacks in order; `Migrations.StepwiseReaches` shows that these leave exactly the target's tables |
| SqliteOpen.CreateFresh | src/androidMain/kotlin/com/darkyen/database/SQLiteDatabase.kt:519-541 | from a version not in the chain: scan and drop every non-engine table (unless nothing is stored), create the target's tables, run `createdNew` when present, and queue the target's callback |
| SqliteOpen.Migrate | src/androidMain/kotlin/com/darkyen/database/SQLiteDatabase.kt:514-575 | the migration transaction: begin exclusive, the structural requests, `user_version` set to the target's, the queued callbacks, then success and the end of the transaction |
| SqliteOpen.RunCallbacks | src/androidMain/kotlin/com/darkyen/database/SQLiteDatabase.kt:567-569 | each queued callback runs once, in queue order |
| SqliteOpen.MigrationPlanBrackets | src/androidMain/kotlin/com/darkyen/database/SQLiteDatabase.kt:514-574 | when the stored version is older, the requests after the two pragmas start with `beginTransactionExclusive` and end with `endTransaction` |
| SqliteOpen.OpenFailure | src/androidMain/kotlin/com/darkyen/database/SQLiteDatabase.kt:491-587 | a throwing request of the plan: the requests up to it are made, then `endTransaction` exactly when it lies strictly between `beginTransactionExclusive` and `endTransaction` of a migration, then `close`; a full database gives `OutOfMemory`, any other throw `Failure`; nothing commits |
| SqliteOpen.OpenWithoutFault | src/androidMain/kotlin/com/darkyen/database/SQLiteDatabase.kt:491-589 | no throwing request: the whole plan is made, the migration commits exactly when the stored version is older, the result is `Success` exactly when the stored version is not newer and `NewerVersionExists` exactly when it is |
| SqliteOpen.OpenUniversalDatabase | src/androidMain/kotlin/com/darkyen/database/SQLiteDatabase.kt:484-514 | WAL mode and `user_version` are read first; a newer stored version closes the connection and asks nothing more; an older one runs the migration; the same version asks nothing more |
| LegacySqliteOpen.AsRows | src/androidMain/kotlin/com/darkyen/ud/SQLiteUniversalDatabase.kt:336-345 | the cursor rows are the stored names, in order, none of them null |
| LegacySqliteOpen.LegacyStepCallbacks | src/androidMain/kotlin/com/darkyen/ud/SQLiteUniversalDatabase.kt:374-376 | as written, every step queues the target's callback when the target has one, so the queue holds as many entries as steps, each the target's version |
| LegacySqliteOpen.OnUpgrade | src/androidMain/kotlin/com/darkyen/ud/SQLiteUniversalDatabase.kt:328-384 | `onUpgrade` makes the same structural requests as the current backend, and queues the callbacks as written |
| LegacySqliteOpen.MigrateStepwise | src/androidMain/kotlin/com/darkyen/ud/SQLiteUniversalDatabase.kt:360-382 | the step loop makes the current backend's step-wise requests and queues the target's callback once per step |
| LegacySqliteOpen.OnCreate | src/androidMain/kotlin/com/darkyen/ud/SQLiteUniversalDatabase.kt:304-306 | `onCreate` is `onUpgrade` from version 0 |
| LegacySqliteOpen.OnOpen | src/androidMain/kotlin/com/darkyen/ud/SQLiteUniversalDatabase.kt:391-405 | `onOpen` runs every queued callback once, in order; the first failure is kept and later ones are suppressed onto it |
| LegacySqliteOpen.OpenResultOf | src/androidMain/kotlin/com/darkyen/ud/SQLiteUniversalDatabase.kt:408-420 | no failure opens the database; a recorded downgrade gives `NewerVersionExists`; the "Can't upgrade read-only database" message gives `OutOfMemory`; any other `SQLiteException` gives `Failure`; other throwables escape |
| LegacySqliteOpen.OpenHelper | src/androidMain/kotlin/com/darkyen/ud/SQLiteUniversalDatabase.kt:299-420 | the dispatch of the open helper equals `LegacyOpen`: a newer stored version ends in `NewerVersionExists`, the target version runs nothing, and an older one runs `onCreate`/`onUpgrade` until the first `CREATE TABLE`, which fails the open; a plan without one commits and runs the queue |
| LegacySqliteOpen.TargetCallbackQueuedPerStep | src/androidMain/kotlin/com/darkyen/ud/SQLiteUniversalDatabase.kt:374-376 | over three versions where only the last has a callback, a migration from the first queues that callback twice, where the current backend queues it once |
| LegacySqliteOpen.LegacyCallbacksRepeatTarget | src/androidMain/kotlin/com/darkyen/ud/SQLiteUniversalDatabase.kt:360-382 | as written, a migration of k steps to a target with a callback runs it k times, and never the callback of a version in between |
| LegacySqliteOpen.StepCallbacksAreOwn | src/androidMain/kotlin/com/darkyen/database/SQLiteDatabase.kt:555-557 | as intended and as the current backend does: one queue entry per step whose version has a callback, in step order, and that entry is the step's own version |
| LegacySqliteOpen.CallbackSteps | src/androidMain/kotlin/com/darkyen/ud/SQLiteUniversalDatabase.kt:360-382 | the indices of the steps whose version has a callback, strictly increasing and each in range |
| LegacySqliteOpen.LegacyCreateRefused | src/androidMain/kotlin/com/darkyen/ud/SQLiteUniversalDatabase.kt:309-325 | the `CREATE TABLE` text binds the table name as a `?` parameter, whatever the number of indices |
| LegacySqliteOpen.SplicedCreateAccepted | src/androidMain/kotlin/com/darkyen/database/SQLiteDatabase.kt:501-512 | the current backend writes a valid table name into the statement text, so no name is bound |
| LegacySqliteOpen.FirstCreate | src/androidMain/kotlin/com/darkyen/ud/SQLiteUniversalDatabase.kt:309-325 | the position of the first `CreateTable` request of a plan, or none exactly when the plan has none |
| LegacySqliteOpen.LegacyOpen | src/androidMain/kotlin/com/darkyen/ud/SQLiteUniversalDatabase.kt:299-420 | a newer stored version gives `NewerVersionExists` with no request; the target version opens with no request; an older one fails exactly when its plan has a create, after the requests up to that create, and otherwise commits the plan and runs the queued callbacks |
| LegacySqliteOpen.FreshOpenFails | src/androidMain/kotlin/com/darkyen/ud/SQLiteUniversalDatabase.kt:328-358 | over a version the chain does not know (a new database included) with a target that has a table, the open fails at the target's first `CREATE TABLE`, after the scan and drops of the stored tables, and commits nothing |
| LegacySqliteOpen.NewDatabaseNeverOpens | src/androidMain/kotlin/com/darkyen/ud/SQLiteUniversalDatabase.kt:304-325 | one version with one table on a new database: the older open fails on that table's create, while the current open of the same schema succeeds and commits |
| IndexedDb.TransactionResult | src/jsMain/kotlin/com/darkyen/ud/IndexedDBUniversalDatabase.kt:22-58 | a transaction succeeds exactly when the block returns and the transaction completes, with the block's value; an abort or error event fails with the transaction's error; a throw of the block escapes |
| IndexedDb.OpenErrorResult | src/jsMain/kotlin/com/darkyen/ud/IndexedDBUniversalDatabase.kt:318-346 | "QuotaExceededError" gives `OutOfMemory`, "VersionError" `NewerVersionExists`, "UnknownError" `UnknownError`, "AbortError" a cancellation, and any other error, DOM or not, a runtime exception (`catchDOMException` does not apply to the request's error) |
| IndexedDb.OpenResultOf | src/jsMain/kotlin/com/darkyen/ud/IndexedDBUniversalDatabase.kt:300-347 | no factory, or a "SecurityError" from `open`, means storage is not supported; another `DOMException` from `open` becomes a `RuntimeException` and a throw that is not a `DOMException` escapes as itself; otherwise a request error maps as `OpenErrorResult` says; the database opens exactly when there is a factory, `open` does not throw and the request has no error |
| IndexedDb.BuildValue | src/jsMain/kotlin/com/darkyen/ud/IndexedDBUniversalDatabase.kt:285-297 | a table without indices stores the serialized value itself; one with indices stores an object with the value under "c" |
| IndexedDb.BuildValueIndexKeys | src/jsMain/kotlin/com/darkyen/ud/IndexedDBUniversalDatabase.kt:292-294 | the stored object holds each index key under that index's field name |
| IndexedDb.WithIndicesKeeps | src/jsMain/kotlin/com/darkyen/ud/IndexedDBUniversalDatabase.kt:292-294 | writing the index fields leaves any field no index is named after as it was |
| IndexedDb.WithIndicesSets | src/jsMain/kotlin/com/darkyen/ud/IndexedDBUniversalDatabase.kt:292-294 | with distinct field names, each index's field ends up holding its own key |
| IndexedDb.DeserializeValue | src/jsMain/kotlin/com/darkyen/ud/IndexedDBUniversalDatabase.kt:218-231 | null reads as null; bytes read back are the stored value for a table without indices, and its "c" field for a table with indices |
| IndexedDb.ValueRoundTrip | src/jsMain/kotlin/com/darkyen/ud/IndexedDBUniversalDatabase.kt:218-231 | what `buildValue` stores, `deserializeValue` reads back, with or without indices |
| IndexedDb.FieldNameIsNotValueField | src/jsMain/kotlin/com/darkyen/ud/IndexedDBUniversalDatabase.kt:79 | an index field name is never "c", so the value field is never overwritten |
| IndexedDb.GetAll | src/jsMain/kotlin/com/darkyen/ud/IndexedDBUniversalDatabase.kt:129-142 | every stored value is read back, in store order for an increasing query and in reverse order for a decreasing one; a failure comes from a value that does not read back as bytes |
| IndexedDb.RequestedAsWritten | src/jsMain/kotlin/com/darkyen/ud/IndexedDBUniversalDatabase.kt:129-131 | `getAll` on the store, as written, asks for every stored value in store order, whatever the query's range |
| IndexedDb.GetAllBelowMinimum | src/jsMain/kotlin/com/darkyen/ud/IndexedDBUniversalDatabase.kt:129-131 | a record below the query's minimum is returned by the request as written and excluded by a request over the range |
| IndexedDb.RequestedInRangeSelects | src/jsMain/kotlin/com/darkyen/ud/IndexedDBUniversalDatabase.kt:129-131 | a request over the range returns exactly the values of the records whose keys lie in the range, in store order |
| IndexedDb.Reverse | src/jsMain/kotlin/com/darkyen/ud/IndexedDBUniversalDatabase.kt:138-140 | `reverse` puts the elements in reverse order, in place |
| IndexedDb.DeleteAll | src/jsMain/kotlin/com/darkyen/ud/IndexedDBUniversalDatabase.kt:396-398 | one deletion per existing store, in order |
| IndexedDb.OnUpgradeNeeded | src/jsMain/kotlin/com/darkyen/ud/IndexedDBUniversalDatabase.kt:390-432 | `onupgradeneeded` makes exactly the requests of a fresh creation (deleting all stores unless the database is new) over a version not in the chain, and the step-wise migration from a version in the chain |
| IndexedDb.DeleteStores | src/jsMain/kotlin/com/darkyen/ud/IndexedDBUniversalDatabase.kt:396-398 | the deletion loop deletes every listed store once, in order |
| IndexedDb.UpgradeStepwise | src/jsMain/kotlin/com/darkyen/ud/IndexedDBUniversalDatabase.kt:411-431 | the step loop makes the same step-wise requests as the SQLite backends |
| IndexedDb.UpgradeStep | src/jsMain/kotlin/com/darkyen/ud/IndexedDBUniversalDatabase.kt:412-430 | one step creates the stores the next version adds, runs its migration, and deletes the stores it drops |
| IndexedDb.UpgradeFromChainReachesTarget | src/jsMain/kotlin/com/darkyen/ud/IndexedDBUniversalDatabase.kt:410-432 | from a version in the chain, the upgrade leaves exactly the target's stores, with every request accepted |
| IndexedDb.DeleteAllApply | src/jsMain/kotlin/com/darkyen/ud/IndexedDBUniversalDatabase.kt:396-398 | deleting stores of distinct names removes exactly those names |
| IndexedDb.UpgradeFreshReplaces | src/jsMain/kotlin/com/darkyen/ud/IndexedDBUniversalDatabase.kt:392-409 | over a version the chain does not know, the upgrade deletes every existing store and leaves exactly the target's stores |
| IndexedDb.IndexOf | src/jsMain/kotlin/com/darkyen/ud/IndexedDBUniversalDatabase.kt:213 | `IDBObjectStore.index(name)` finds an index exactly when the store has one of that name |
| IndexedDb.QueryByIndexNameFails | src/jsMain/kotlin/com/darkyen/ud/IndexedDBUniversalDatabase.kt:210-215 | as written, `queryable` asks for `index.name`, but the store created the index as `canonicalName` (line 404), so the lookup fails for every valid index name |
| IndexedDb.QueryByCanonicalNameFinds | src/jsMain/kotlin/com/darkyen/ud/IndexedDBUniversalDatabase.kt:403-405 | looking an index up by the `canonicalName` it was created under finds it |

## Left out

- StringCodec.OrderWithoutSurrogates: the serializer's doc comment (DatabaseKey.kt:158) promises that key order follows string order for every string. The promise is proved only for strings without surrogates, and without U+0000 in the terminated variant. The two counterexample lemmas show that it fails otherwise. UTF-8 byte order is code-point order, not UTF-16 order, so these are limits of the design rather than slips.
- The `ud` unsigned and enum key serializers (src/commonMain/kotlin/com/darkyen/ud/DatabaseKey.kt:23-42 and 127-138) are the same code as the current ones, so they are modelled once, in `KeyCodec`.
- Code that is the same in both generations or in both platforms is modelled once, and its row cites the current or Android file:
  - the JS `TableSet` `intersects`, `isSubsetOf` and `contains` (src/jsMain/kotlin/com/darkyen/database/TableSet.kt:29-60) are `TableSets.Intersects`, `TableSets.IsSubsetOf` and `TableSets.ContainsAt`;
  - the `ud` configuration (src/commonMain/kotlin/com/darkyen/ud/Database.kt:12-23) is `Configs.NewConfig`;
  - the `ud` query constructors and write observers (src/androidMain/kotlin/com/darkyen/ud/SQLiteUniversalDatabase.kt:43-113 and 275-291) are the `SqlClauses` constructors and `WriteObservers.ObserverRegistry`.
- The `ud` `Index` is `Schemas.Index` owned by a `LegacySchemas.LegacyTable`, and its table constructor shares `Schemas.AttachAll`. The `ud` `Table` draws no id and the `ud` `Schema` builds no `tableSet`. The `ud` migrations reuse `Schemas.Schema` and `Schemas.Table`, whose `id` and `tableSet` no migration code reads.
- `writeRawBE`/`readRawBE` and the CBOR value serializers come from the ucbor library, which is not part of this model. Raw big-endian I/O is modelled by what it writes. CBOR values are opaque byte strings.
- `doubleToFloat` in the float serializer is treated as the identity on the float's raw bits. Floating-point arithmetic is not modelled; floats are their raw bits.
- Concurrency is modelled sequentially: the semaphore, compare-and-set and `synchronized` of `LazyResourcePool`, the coroutines, dispatchers and `Channel` of the backends, and the `ud` read-write mutex. The pool's "must wait" outcome stands for a suspension.
- The storage engines are a log of requests plus a function of that log on the set of stored table names. Rows, statements, cursors, `count`, `getFirst`, `iterate` and `add`/`set`/`delete` of table rows are not modelled. Of the SQL text of `CREATE TABLE`/`CREATE INDEX`, only the older backend's `CREATE TABLE` is modelled, as far as its refusal needs (`LegacySqliteOpen.LegacyCreateTableSql`).
- The SQLite open's engine failures are an input: the position of the first failing request and its kind. `close` and the `journal_mode` pragma are recorded, not performed.
- `SQLiteConnection.open` (SQLiteDatabase.kt:490) is not modelled: the plan starts at the `journal_mode` pragma. The open call sits outside the `try`, so its throw escapes `openUniversalDatabase` rather than becoming `Failure`.
- The dispatch of Android's `SQLiteOpenHelper` (`onCreate`, `onUpgrade`, `onDowngrade`, `onOpen`) is framework behaviour. `LegacySqliteOpen.OpenHelper` writes that dispatch out. Its only engine failure is the refused `CREATE TABLE`; a full disk or another engine error is not modelled there.
- LegacySqliteOpen.OnOpen: `callbackError` is collected as the source does. The source never reports it, and neither does the model.
- The IndexedDB backend never queues `afterSuccessfulCreationOrMigration`. The model follows the code.
- The IndexedDB open's event handlers after `onupgradeneeded` are not modelled: `onsuccess`, `onblocked`, `versionchange`, `close`, and the upgrade transaction's `onabort`/`onerror`.
- The connections the pool opens are not tied to the database's `close`. `SqliteDatabase.Database.Close` sets `closed`, and the pool's own `close` is modelled in `ResourcePools`.
- Observers.TableObservers.AddObserver: observers are non-null objects. `TableObservers<V>` leaves `V` unbounded (TableObservers.kt:3), so a nullable `V` can register a null observer. The source's `forEachObserver` then stops at the first null slot (line 89) and skips the intersecting observers after it. It also hands back an array whose later slots were never cleared (line 105), and a later `internalObtainObservers` overwrites only a prefix of it (lines 56-67), so a stale observer can be called again. None of this is modelled: the model's cache is always empty of observers.
- `LegacySqliteDatabase.LegacyDatabase.Close` sets `closed` only: the older backend's `close` also closes the open helper (`dbHelper.close()`, SQLiteUniversalDatabase.kt:117) and its dispatcher (line 118), which release the engine's connection and a thread and are not modelled.
- IndexedDb.ValueRoundTrip: Dafny proves it from the contracts of `BuildValue` and `DeserializeValue` alone, so it adds no proof of its own.
- SqlClauses.BindWhereParams: its own contract only bounds the number of parameters. What the parameters mean is stated with the clause in `WhereSelectsRange`.
- The current SQLite open runs the post-migration callbacks inside the migration transaction, after `user_version` is set and before the transaction is marked successful. A description of the library that says they run after the commit disagrees with the code. The model follows the code.
- Kotlin `Int` wrap-around of `lastObserverTrigger`, `lastTrigger` and `nextTableIndex` is not modelled: they are unbounded here. After 2^32 writes a stamp could repeat and skip a trigger; that case is lost.
- The `println` calls of the Android `TableSet.isSubsetOf`, the `Log.e` of `LazyResourcePool` and `scope.ensureActive()` of `observeDatabaseWrites` are diagnostics or cancellation checks, and are left out.
- IndexedDb.GetAll: how `getAll(limit)` passes its limit depends on the external IndexedDB declarations, which are not part of this model, so the limit is not modelled.
- The older backend's transactions hold a read-write mutex and run on a dedicated dispatcher; both are scheduling and are not modelled. `LegacySqliteDatabase` models their results, requests and observer triggers.
- `deleteUniversalDatabase` (file deletion) and `ThreadStableDispatcher` are I/O and scheduling, and are not modelled.

## Findings

| source | as written | input that shows it | evidently intended | confidence | as-written member | corrected member |
|---|---|---|---|---|---|---|
| src/commonMain/kotlin/com/darkyen/ud/DatabaseKey.kt:85-124 | the branches of `deserialize` are swapped: a key with the top bit set, which `serialize` writes for a non-negative value, is unflipped as if it were negative, and the other way round; every key reads back as the bits -1 - magnitude | 0.0f is written as 80 00 00 00 and reads back as the NaN with bits FF FF FF FF | `deserialize` undoes `serialize` for every value | not executed | LegacyKeyCodec.FloatRoundTripFails, LegacyKeyCodec.DoubleRoundTripFails | KeyCodec.FloatRoundTrip, KeyCodec.DoubleRoundTrip |
| src/commonMain/kotlin/com/darkyen/ud/DatabaseKey.kt:48-66 | the bias `0x7FFF_FFFF` wraps `MIN_VALUE` to -1, which is written as FF FF FF FF, the largest key | `Int.MIN_VALUE` sorts after 0 | key order is signed order for every value, as the bias comment says (lines 44-47) | not executed | LegacyKeyCodec.IntMinSortsLast, LegacyKeyCodec.LongMinSortsLast | KeyCodec.IntOrder, KeyCodec.LongOrder |
| src/androidMain/kotlin/com/darkyen/ud/SQLiteUniversalDatabase.kt:374-376 | each step queues `schema.afterSuccessfulCreationOrMigration`, the target's callback, instead of the step's own | three versions, only the last with a callback, migrating from the first: the callback is queued twice | each version's own callback, once, when a step reaches it | not executed | LegacySqliteOpen.TargetCallbackQueuedPerStep, LegacySqliteOpen.LegacyCallbacksRepeatTarget | Migrations.StepwiseCallbacks, LegacySqliteOpen.StepCallbacksAreOwn |
| src/jsMain/kotlin/com/darkyen/ud/IndexedDBUniversalDatabase.kt:213 | `queryable` looks the index up by `index.name`, but line 404 created it as `canonicalName` | any query through an index | the index is found under the name it was created with | not executed | IndexedDb.QueryByIndexNameFails | IndexedDb.QueryByCanonicalNameFinds |
| src/androidMain/kotlin/com/darkyen/ud/SQLiteUniversalDatabase.kt:309-325 | `createTableAndIndices` binds the table, column and index names as `?` parameters; SQLite accepts parameters only where values go, so the statement is refused and the open reports `Failure` | one version with one table, opened on a new database | the names written into the statement text, as the current backend does | not executed | LegacySqliteOpen.LegacyCreateRefused, LegacySqliteOpen.NewDatabaseNeverOpens | LegacySqliteOpen.SplicedCreateAccepted, SqliteOpen.MigrationFromElsewhereRecreates |
| src/jsMain/kotlin/com/darkyen/ud/IndexedDBUniversalDatabase.kt:129-131 | `getAll` calls `store.getAll()` or `store.getAll(limit)` without the query's `range`, so every record comes back | a record with key [0] and a query whose closed minimum is [1] | only the records in the query's range | not executed | IndexedDb.GetAllBelowMinimum, IndexedDb.RequestedAsWritten | IndexedDb.RequestedInRangeSelects |
