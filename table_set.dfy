/**
 * `TableSet`: an immutable bit set of tables, one bit per table id, packed
 * into 32-bit words (`IntArray`). The Android and the JS implementation
 * build and query the words with the same code; the JS one also keeps the
 * names of the tables it was built from.
 */
module TableSets {
  import opened Wrappers

  // ------------------------------------------------------------ word bits

  /** A bit position inside one 32-bit word. */
  type Pos = k: bv32 | k < 32

  /**
   * Bit k of a word is set, read off one position at a time; it is the
   * source's `(word and (1 shl k)) != 0` (`BitIsMask`).
   */
  predicate Bit(w: bv32, k: Pos)
    decreases k
  {
    if k == 0 then w & 1 != 0 else Bit(w >> 1, k - 1)
  }

  lemma {:induction false} BitIsMask(w: bv32, k: Pos)
    ensures Bit(w, k) <==> w & (1 << k) != 0
    decreases k
  {
    if k > 0 {
      BitIsMask(w >> 1, k - 1);
      ShiftedMask(w, k);
    }
  }

  lemma ShiftedMask(w: bv32, k: Pos)
    requires k > 0
    ensures (w >> 1) & (1 << (k - 1)) != 0 <==> w & (1 << k) != 0
  {
  }

  /** The bits below position n. */
  function LowMask(n: Pos): bv32
  {
    (1 << n) - 1
  }

  lemma MaskStep(x: bv32, k: Pos)
    requires k < 31
    ensures x & (1 << k) == 0 ==> x & LowMask(k + 1) == x & LowMask(k)
  {
  }

  lemma TopBit(x: bv32)
    ensures x != 0 && x & LowMask(31) == 0 ==> x & (1 << 31) != 0
  {
  }

  /** A non-zero word has a set bit, at or above any position it is clear below. */
  lemma FindBit(x: bv32, k: Pos) returns (j: Pos)
    requires x != 0 && x & LowMask(k) == 0
    ensures Bit(x, j)
    decreases 32 - k as int
  {
    if k == 31 {
      TopBit(x);
      j := 31;
      BitIsMask(x, j);
    } else if x & (1 << k) != 0 {
      j := k;
      BitIsMask(x, j);
    } else {
      MaskStep(x, k);
      j := FindBit(x, k + 1);
    }
  }

  lemma OrBit(x: bv32, j: Pos, k: Pos)
    ensures Bit(x | (1 << j), k) <==> Bit(x, k) || j == k
  {
    BitIsMask(x | (1 << j), k);
    BitIsMask(x, k);
    OrMask(x, j, k);
  }

  lemma OrMask(x: bv32, j: Pos, k: Pos)
    ensures (x | (1 << j)) & (1 << k) != 0 <==> x & (1 << k) != 0 || j == k
  {
  }

  lemma AndBit(x: bv32, y: bv32, k: Pos)
    ensures Bit(x & y, k) <==> Bit(x, k) && Bit(y, k)
  {
    BitIsMask(x & y, k);
    BitIsMask(x, k);
    BitIsMask(y, k);
    AndMask(x, y, k);
  }

  lemma AndMask(x: bv32, y: bv32, k: Pos)
    ensures (x & y) & (1 << k) != 0 <==> x & (1 << k) != 0 && y & (1 << k) != 0
  {
  }

  lemma AndNotBit(x: bv32, y: bv32, k: Pos)
    ensures Bit(x & !y, k) <==> Bit(x, k) && !Bit(y, k)
  {
    BitIsMask(x & !y, k);
    BitIsMask(x, k);
    BitIsMask(y, k);
    AndNotMask(x, y, k);
  }

  lemma AndNotMask(x: bv32, y: bv32, k: Pos)
    ensures (x & !y) & (1 << k) != 0 <==> x & (1 << k) != 0 && y & (1 << k) == 0
  {
  }

  lemma XorBit(x: bv32, y: bv32, k: Pos)
    ensures Bit(x ^ y, k) <==> Bit(x, k) != Bit(y, k)
  {
    BitIsMask(x ^ y, k);
    BitIsMask(x, k);
    BitIsMask(y, k);
    XorMask(x, y, k);
  }

  lemma XorMask(x: bv32, y: bv32, k: Pos)
    ensures (x ^ y) & (1 << k) != 0 <==> (x & (1 << k) != 0) != (y & (1 << k) != 0)
  {
  }

  /** `sub or sup == sup` says that sub has no bit outside sup. */
  lemma OrAbsorbed(x: bv32, y: bv32)
    ensures x | y == y <==> x & !y == 0
  {
  }

  lemma AbsorbedBit(x: bv32, y: bv32, k: Pos)
    requires x | y == y
    ensures Bit(x, k) ==> Bit(y, k)
  {
    OrAbsorbed(x, y);
    AndNotBit(x, y, k);
    BitIsMask(0, k);
  }

  /** A word is determined by its bits. */
  lemma WordExtensional(x: bv32, y: bv32)
    requires forall k: Pos :: Bit(x, k) <==> Bit(y, k)
    ensures x == y
  {
    if x != y {
      var k := FindBit(x ^ y, 0);
      XorBit(x, y, k);
    }
  }

  lemma ZeroWord(k: Pos)
    ensures !Bit(0, k)
  {
    BitIsMask(0, k);
  }

  // ----------------------------------------------------------- table ids

  /** `Table.index`: ids are handed out from 0 upwards. */
  type TableId = nat

  /** `index shr 5`: the word that holds the table's bit. */
  function WordIndex(t: TableId): nat
  {
    t / 32
  }

  /** `index and 0x1F`: the table's bit inside its word. */
  function BitIndex(t: TableId): Pos
  {
    (t % 32) as bv32
  }

  /** Word j, bit k is the id 32 j + k. */
  lemma Position(j: nat, k: Pos)
    ensures WordIndex(32 * j + k as int) == j && BitIndex(32 * j + k as int) == k
  {
  }

  lemma SamePosition(t: TableId, u: TableId)
    requires WordIndex(t) == WordIndex(u) && BitIndex(t) == BitIndex(u)
    ensures t == u
  {
    PosRoundTrip(t % 32);
    PosRoundTrip(u % 32);
  }

  lemma PosRoundTrip(x: int)
    requires 0 <= x < 32
    ensures (x as bv32) as int == x
  {
  }

  // ------------------------------------------------------------ the set

  /** An Android `TableSet`: its words. */
  datatype TableSet = TableSet(words: seq<bv32>)

  /**
   * `contains(table)`: the table's bit is set in its word; a word past the
   * end of the array holds no table.
   */
  predicate Contains(words: seq<bv32>, t: TableId)
  {
    WordIndex(t) < |words| && Bit(words[WordIndex(t)], BitIndex(t))
  }

  /** The sets share a table. */
  ghost predicate Shares(a: seq<bv32>, b: seq<bv32>)
  {
    exists t: TableId :: Contains(a, t) && Contains(b, t)
  }

  /** Every table of `sub` is in `sup`. */
  ghost predicate Includes(sub: seq<bv32>, sup: seq<bv32>)
  {
    forall t: TableId :: Contains(sub, t) ==> Contains(sup, t)
  }

  /** `tables.maxOf { it.index shr 5 }`: the highest word any table needs. */
  function MaxWord(ids: seq<TableId>): (m: nat)
    requires |ids| > 0
    ensures forall i :: 0 <= i < |ids| ==> WordIndex(ids[i]) <= m
    ensures exists i :: 0 <= i < |ids| && WordIndex(ids[i]) == m
  {
    if |ids| == 1 then WordIndex(ids[0])
    else
      var rest := MaxWord(ids[1..]);
      assert forall i :: 1 <= i < |ids| ==> ids[i] == ids[1..][i - 1];
      if WordIndex(ids[0]) >= rest then WordIndex(ids[0]) else rest
  }

  /** The words built from a non-empty list of ids: one word past the highest, holding exactly those ids. */
  ghost predicate Represents(words: seq<bv32>, ids: seq<TableId>)
  {
    |ids| > 0 && |words| == MaxWord(ids) + 1 && forall t: TableId :: Contains(words, t) <==> t in ids
  }

  /**
   * The `TableSet(vararg tables)` and `TableSet(tables: Collection)`
   * constructors: a fresh zeroed array of `maxOf(index shr 5) + 1` words,
   * and for each table `it[word] = it[word] or (1 shl bit)`. An empty list
   * fails in `maxOf`.
   */
  method Build(ids: seq<TableId>) returns (r: Option<TableSet>)
    ensures r.None? <==> |ids| == 0
    ensures r.Some? ==> Represents(r.value.words, ids)
  {
    if |ids| == 0 {
      return None;
    }
    var words := new bv32[MaxWord(ids) + 1](_ => 0);
    NoBitsInZeros(words[..]);
    SetBits(words, ids);
    BuiltWords(words[..], ids);
    r := Some(TableSet(words[..]));
  }

  /** The constructors' loop: `it[word] = it[word] or (1 shl bit)` for each table. */
  method SetBits(words: array<bv32>, ids: seq<TableId>)
    requires forall i :: 0 <= i < |ids| ==> WordIndex(ids[i]) < words.Length
    requires HoldsExactly(words[..], [])
    modifies words
    ensures HoldsExactly(words[..], ids)
  {
    for i := 0 to |ids|
      invariant HoldsExactly(words[..], ids[..i])
    {
      AddTable(words, ids[..i], ids[i]);
      assert ids[..i + 1] == ids[..i] + [ids[i]];
    }
    assert ids[..|ids|] == ids;
  }

  /** One step of the loop: set the bit of table `id` in its word. */
  method AddTable(words: array<bv32>, ghost ids: seq<TableId>, id: TableId)
    requires WordIndex(id) < words.Length
    requires HoldsExactly(words[..], ids)
    modifies words
    ensures HoldsExactly(words[..], ids + [id])
  {
    var word, bit := WordIndex(id), BitIndex(id);
    ghost var before := words[..];
    words[word] := words[word] | (1 << bit);
    SetBitKeeps(before, words[..], ids, id);
  }

  /** Within its words, `words` holds exactly the tables `ids`. */
  ghost predicate HoldsExactly(words: seq<bv32>, ids: seq<TableId>)
  {
    forall t: TableId :: WordIndex(t) < |words| ==> (Bit(words[WordIndex(t)], BitIndex(t)) <==> t in ids)
  }

  lemma NoBitsInZeros(words: seq<bv32>)
    requires forall j :: 0 <= j < |words| ==> words[j] == 0
    ensures HoldsExactly(words, [])
  {
    forall t: TableId | WordIndex(t) < |words|
      ensures !Bit(words[WordIndex(t)], BitIndex(t))
    {
      ZeroWord(BitIndex(t));
    }
  }

  /** `it[word] = it[word] or (1 shl bit)` adds the table `id` to the words. */
  lemma SetBitKeeps(before: seq<bv32>, after: seq<bv32>, ids: seq<TableId>, id: TableId)
    requires HoldsExactly(before, ids)
    requires WordIndex(id) < |before| == |after|
    requires after[WordIndex(id)] == before[WordIndex(id)] | (1 << BitIndex(id))
    requires forall j :: 0 <= j < |before| && j != WordIndex(id) ==> after[j] == before[j]
    ensures HoldsExactly(after, ids + [id])
  {
    forall t: TableId | WordIndex(t) < |after|
      ensures Bit(after[WordIndex(t)], BitIndex(t)) <==> t in ids + [id]
    {
      if WordIndex(t) == WordIndex(id) {
        SetBitStep(before[WordIndex(id)], after[WordIndex(id)], id, t);
      }
    }
  }

  /** Words sized for the highest id, whose bits are exactly the ids, represent them. */
  lemma BuiltWords(words: seq<bv32>, ids: seq<TableId>)
    requires |ids| > 0 && |words| == MaxWord(ids) + 1
    requires HoldsExactly(words, ids)
    ensures Represents(words, ids)
  {
  }

  /** Setting one table's bit in its word adds that table and no other of the word. */
  lemma SetBitStep(before: bv32, after: bv32, id: TableId, t: TableId)
    requires WordIndex(t) == WordIndex(id) && after == before | (1 << BitIndex(id))
    ensures Bit(after, BitIndex(t)) <==> Bit(before, BitIndex(t)) || t == id
  {
    OrBit(before, BitIndex(id), BitIndex(t));
    if BitIndex(t) == BitIndex(id) {
      SamePosition(t, id);
    }
  }

  /**
   * The words depend only on which tables were given: repeating a table or
   * reordering the list builds the same set.
   */
  lemma RepresentationUnique(a: seq<bv32>, b: seq<bv32>, ids1: seq<TableId>, ids2: seq<TableId>)
    requires Represents(a, ids1) && Represents(b, ids2)
    requires forall t :: t in ids1 <==> t in ids2
    ensures a == b
  {
    assert MaxWord(ids1) == MaxWord(ids2) by {
      var i1 :| 0 <= i1 < |ids1| && WordIndex(ids1[i1]) == MaxWord(ids1);
      var i2 :| 0 <= i2 < |ids2| && WordIndex(ids2[i2]) == MaxWord(ids2);
      assert ids1[i1] in ids2;
      assert ids2[i2] in ids1;
    }
    forall j | 0 <= j < |a|
      ensures a[j] == b[j]
    {
      forall k: Pos
        ensures Bit(a[j], k) <==> Bit(b[j], k)
      {
        ContainsAt(a, j, k);
        ContainsAt(b, j, k);
      }
      WordExtensional(a[j], b[j]);
    }
  }

  /**
   * `intersects(other)`: some word of the common prefix has a bit set in
   * both. Holds exactly when the sets share a table, so it is symmetric.
   */
  method Intersects(a: seq<bv32>, b: seq<bv32>) returns (r: bool)
    ensures r <==> Shares(a, b)
  {
    SharesIffCommonWord(a, b);
    var n := if |a| < |b| then |a| else |b|;
    for i := 0 to n
      invariant forall j :: 0 <= j < i ==> a[j] & b[j] == 0
    {
      if a[i] & b[i] != 0 {
        return true;
      }
    }
    return false;
  }

  /** Some word of the common prefix has a bit set in both. */
  predicate CommonWord(a: seq<bv32>, b: seq<bv32>)
  {
    exists j :: 0 <= j < |a| && j < |b| && a[j] & b[j] != 0
  }

  lemma SharesIffCommonWord(a: seq<bv32>, b: seq<bv32>)
    ensures Shares(a, b) <==> CommonWord(a, b)
  {
    if CommonWord(a, b) {
      var j :| 0 <= j < |a| && j < |b| && a[j] & b[j] != 0;
      var k := FindBit(a[j] & b[j], 0);
      SharedAt(a, b, j, k);
    } else {
      DisjointWordByWord(a, b);
    }
  }

  /** Word j, bit k of the words is the table 32 j + k. */
  lemma ContainsAt(words: seq<bv32>, j: nat, k: Pos)
    ensures Contains(words, 32 * j + k as int) <==> j < |words| && Bit(words[j], k)
  {
    Position(j, k);
  }

  /** A bit set in both words j shares the table it stands for. */
  lemma SharedAt(a: seq<bv32>, b: seq<bv32>, j: nat, k: Pos)
    requires j < |a| && j < |b| && Bit(a[j] & b[j], k)
    ensures Shares(a, b)
  {
    AndBit(a[j], b[j], k);
    var t := 32 * j + k as int;
    Position(j, k);
    InWord(a, t, j, k);
    InWord(b, t, j, k);
  }

  /** A table whose bit is set in its word is in the set. */
  lemma InWord(words: seq<bv32>, t: TableId, j: nat, k: Pos)
    requires WordIndex(t) == j && BitIndex(t) == k
    requires j < |words| && Bit(words[j], k)
    ensures Contains(words, t)
  {
  }

  /** Common words with no bit in common: no table is shared. */
  lemma DisjointWordByWord(a: seq<bv32>, b: seq<bv32>)
    requires forall j :: 0 <= j < |a| && j < |b| ==> a[j] & b[j] == 0
    ensures !Shares(a, b)
  {
    forall t: TableId | Contains(a, t)
      ensures !Contains(b, t)
    {
      var j, k := WordIndex(t), BitIndex(t);
      if j < |b| {
        AndBit(a[j], b[j], k);
        ZeroWord(k);
      }
    }
  }

  /**
   * `isSubsetOf(superset)`: the words of a longer subset past the end of
   * the superset must be zero, and on the common prefix `sub or sup == sup`.
   * Holds exactly when every table of this set is in the superset.
   */
  method IsSubsetOf(sub: seq<bv32>, sup: seq<bv32>) returns (r: bool)
    ensures r <==> Includes(sub, sup)
  {
    if |sub| > |sup| {
      for i := |sup| to |sub|
        invariant forall j :: |sup| <= j < i ==> sub[j] == 0
      {
        if sub[i] != 0 {
          SurplusWordMissing(sub, sup, i);
          return false;
        }
      }
    }
    var n := if |sub| < |sup| then |sub| else |sup|;
    for i := 0 to n
      invariant forall j :: 0 <= j < i ==> sub[j] | sup[j] == sup[j]
    {
      if sub[i] | sup[i] != sup[i] {
        CommonWordMissing(sub, sup, i);
        return false;
      }
    }
    IncludedWordByWord(sub, sup);
    return true;
  }

  /** A non-zero word past the end of `sup` holds a table `sup` lacks. */
  lemma SurplusWordMissing(sub: seq<bv32>, sup: seq<bv32>, i: nat)
    requires |sup| <= i < |sub| && sub[i] != 0
    ensures !Includes(sub, sup)
  {
    var k := FindBit(sub[i], 0);
    ContainsAt(sub, i, k);
    ContainsAt(sup, i, k);
  }

  /** A word of `sub` with a bit outside the matching word of `sup` holds a table `sup` lacks. */
  lemma CommonWordMissing(sub: seq<bv32>, sup: seq<bv32>, i: nat)
    requires i < |sub| && i < |sup| && sub[i] | sup[i] != sup[i]
    ensures !Includes(sub, sup)
  {
    var k := MissingBit(sub[i], sup[i]);
    ContainsAt(sub, i, k);
    ContainsAt(sup, i, k);
  }

  /** A word not absorbed by another has a bit the other lacks. */
  lemma MissingBit(x: bv32, y: bv32) returns (k: Pos)
    requires x | y != y
    ensures Bit(x, k) && !Bit(y, k)
  {
    OrAbsorbed(x, y);
    k := FindBit(x & !y, 0);
    AndNotBit(x, y, k);
  }

  /** Surplus words zero and every common word absorbed: every table of `sub` is in `sup`. */
  lemma IncludedWordByWord(sub: seq<bv32>, sup: seq<bv32>)
    requires forall j :: |sup| <= j < |sub| ==> sub[j] == 0
    requires forall j :: 0 <= j < |sub| && j < |sup| ==> sub[j] | sup[j] == sup[j]
    ensures Includes(sub, sup)
  {
    forall j: nat, k: Pos | j < |sub| && Bit(sub[j], k)
      ensures j < |sup| && Bit(sup[j], k)
    {
      if j < |sup| {
        AbsorbedBit(sub[j], sup[j], k);
      } else {
        ZeroWord(k);
      }
    }
  }

  // ------------------------------------------------------------------ JS

  /** What the JS constructors read from a `Table`. */
  datatype TableInfo = TableInfo(index: TableId, name: string)

  /** A JS `TableSet`: the same words (`bits`) and the tables' names. */
  datatype JsTableSet = JsTableSet(bits: seq<bv32>, tableNames: seq<string>)

  function Indices(tables: seq<TableInfo>): (r: seq<TableId>)
    ensures |r| == |tables| && forall i :: 0 <= i < |tables| ==> r[i] == tables[i].index
  {
    seq(|tables|, i requires 0 <= i < |tables| => tables[i].index)
  }

  /**
   * The JS constructors: the words as on Android, and
   * `Array(tables.size) { tables[it].name }` (or the collection's iteration
   * order) for the names.
   */
  method BuildJs(tables: seq<TableInfo>) returns (r: Option<JsTableSet>)
    ensures r.None? <==> |tables| == 0
    ensures r.Some? ==> Represents(r.value.bits, Indices(tables))
    ensures r.Some? ==> |r.value.tableNames| == |tables|
    ensures r.Some? ==> forall i :: 0 <= i < |tables| ==> r.value.tableNames[i] == tables[i].name
  {
    var built := Build(Indices(tables));
    match built
    case None =>
      return None;
    case Some(s) =>
      var names := seq(|tables|, i requires 0 <= i < |tables| => tables[i].name);
      return Some(JsTableSet(s.words, names));
  }
}
