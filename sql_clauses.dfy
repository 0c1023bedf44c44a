/**
 * The clauses both SQLite backends add to a statement for a `Query`: the key
 * range becomes a WHERE clause over bound BLOB parameters, the direction an
 * ORDER BY clause, a positive limit a LIMIT clause.
 *
 * The meaning of a WHERE clause is given by `EvalWhere`, a reading of the
 * clause text as SQLite reads it: comparisons of one column against
 * parameter markers joined by AND, where a bare `?` takes the number after
 * the largest one used so far and `?N` takes the number N. A BLOB compares
 * byte by byte, a proper prefix first, which is `LexLess`.
 */
module SqlClauses {
  import opened Wrappers
  import opened Bytes
  import Schemas

  type Blob = seq<uint8>

  const KEY_COLUMN_NAME := "k"
  const VALUE_COLUMN_NAME := "v"

  /**
   * A query: the table, the column of the index it goes through (`None`
   * for the primary key), the serialized bounds with their openness, and
   * the direction.
   */
  datatype Query = Query(
    tableName: string,
    indexField: Option<string>,
    minBound: Option<Blob>,
    minBoundOpen: bool,
    maxBound: Option<Blob>,
    maxBoundOpen: bool,
    increasing: bool)

  predicate HasPrefix(s: string, p: string)
  {
    |p| <= |s| && s[..|p|] == p
  }

  /** `whereField`: the index column, or the key column. */
  function WhereField(q: Query): string
  {
    if q.indexField.Some? then q.indexField.value else KEY_COLUMN_NAME
  }

  /** The keys (or index keys) the query's bounds admit. */
  predicate InRange(q: Query, v: Blob)
  {
    && (q.minBound.Some? ==>
          if q.minBoundOpen then LexLess(q.minBound.value, v) else !LexLess(v, q.minBound.value))
    && (q.maxBound.Some? ==>
          if q.maxBoundOpen then LexLess(v, q.maxBound.value) else !LexLess(q.maxBound.value, v))
  }

  // ---------------------------------------------------------------------
  // Building the clauses

  /**
   * `appendWhere`, with the parameter markers of the min and max bounds as
   * arguments: the current backend writes `?` for both, the older one
   * `?1` and `?2`.
   */
  function WhereClause(q: Query, minMark: string, maxMark: string): string
  {
    if q.minBound.None? && q.maxBound.None? then ""
    else
      var field := WhereField(q);
      var lower := if q.minBound.Some? then field + (if q.minBoundOpen then " > " else " >= ") + minMark else "";
      var joint := if q.minBound.Some? && q.maxBound.Some? then " AND " else "";
      var upper := if q.maxBound.Some? then field + (if q.maxBoundOpen then " < " else " <= ") + maxMark else "";
      " WHERE " + lower + joint + upper
  }

  /** `Query.appendWhere` of the current backend. */
  function Where(q: Query): string
  {
    WhereClause(q, "?", "?")
  }

  /** `Query.appendWhere` of the older backend. */
  function LegacyWhere(q: Query): string
  {
    WhereClause(q, "?1", "?2")
  }

  /** `bindWhereParams` of the current backend: the numbers count up from 1, min first. */
  function BindWhereParams(q: Query): (r: map<nat, Blob>)
    ensures |r.Keys| <= 2
  {
    var afterMin: map<nat, Blob> := if q.minBound.Some? then map[1 := q.minBound.value] else map[];
    var next := if q.minBound.Some? then 2 else 1;
    if q.maxBound.Some? then afterMin[next := q.maxBound.value] else afterMin
  }

  /** `bindWhereParams` of the older backend: min is parameter 1, max parameter 2. */
  function LegacyBindWhereParams(q: Query): (r: map<nat, Blob>)
    ensures |r.Keys| <= 2
  {
    var afterMin: map<nat, Blob> := if q.minBound.Some? then map[1 := q.minBound.value] else map[];
    if q.maxBound.Some? then afterMin[2 := q.maxBound.value] else afterMin
  }

  /**
   * `appendOrder`: the clause sorts by the WHERE field, ascending exactly
   * when the query is increasing.
   */
  function Order(q: Query): (r: string)
    ensures HasPrefix(r, " ORDER BY " + WhereField(q))
    ensures q.increasing <==> r[|r| - 4..] == " ASC"
  {
    var head := " ORDER BY " + WhereField(q);
    var tail := if q.increasing then " ASC" else " DESC";
    var r := head + tail;
    assert r[..|head|] == head;
    assert r[|r| - 4..] == tail[|tail| - 4..];
    r
  }

  /** `appendLimit`: a positive limit is written in decimal; any other adds nothing. */
  function Limit(limit: int): (r: string)
    ensures limit <= 0 <==> r == ""
    ensures limit > 0 ==>
      && HasPrefix(r, " LIMIT ")
      && (forall i :: 7 <= i < |r| ==> '0' <= r[i] <= '9')
      && Schemas.ParseDecimal(r[7..]) == limit
  {
    if limit > 0 then
      var digits := Schemas.DecimalString(limit);
      Schemas.DecimalRoundTrip(limit);
      var r := " LIMIT " + digits;
      assert r[..7] == " LIMIT " && r[7..] == digits;
      r
    else ""
  }

  // ---------------------------------------------------------------------
  // The query constructors

  /** `queryAll`: no bounds, so every key is in range and there is no WHERE clause. */
  function QueryAll(tableName: string, increasing: bool): (q: Query)
    ensures forall v :: InRange(q, v)
    ensures Where(q) == "" && LegacyWhere(q) == "" && BindWhereParams(q) == map[]
    ensures q.increasing == increasing && q.tableName == tableName && WhereField(q) == KEY_COLUMN_NAME
  {
    Query(tableName, None, None, false, None, false, increasing)
  }

  /** `queryOne`: the serialized key is both closed bounds, so exactly that key is in range. */
  function QueryOne(tableName: string, key: Blob): (q: Query)
    ensures forall v :: InRange(q, v) <==> v == key
    ensures q.increasing && q.tableName == tableName && WhereField(q) == KEY_COLUMN_NAME
  {
    var q := Query(tableName, None, Some(key), false, Some(key), false, true);
    forall v
      ensures InRange(q, v) <==> v == key
    {
      LexIrreflexive(v);
      if v != key {
        LexTotal(v, key);
      }
    }
    q
  }

  /**
   * `Table.query` (`indexField == None`) and `Index.query`: each bound that
   * is given is serialized. When `min` and `max` are the same object the
   * min encoding is reused, which is the encoding of `max` as well.
   */
  function RangeQuery<K(==)>(tableName: string, indexField: Option<string>, min: Option<K>, max: Option<K>,
                             openMin: bool, openMax: bool, increasing: bool, serialize: K -> Blob): (q: Query)
    ensures q.minBound == (if min.Some? then Some(serialize(min.value)) else None)
    ensures q.maxBound == (if max.Some? then Some(serialize(max.value)) else None)
    ensures q.minBoundOpen == openMin && q.maxBoundOpen == openMax && q.increasing == increasing
    ensures q.tableName == tableName && q.indexField == indexField
  {
    var serializedMin := if min.Some? then Some(serialize(min.value)) else None;
    var serializedMax := if min == max then serializedMin else if max.Some? then Some(serialize(max.value)) else None;
    Query(tableName, indexField, serializedMin, openMin, serializedMax, openMax, increasing)
  }

  lemma {:induction false} LexIrreflexive(a: Blob)
    ensures !LexLess(a, a)
  {
    if a != [] {
      LexIrreflexive(a[1..]);
    }
  }

  lemma {:induction false} LexTotal(a: Blob, b: Blob)
    requires a != b
    ensures LexLess(a, b) || LexLess(b, a)
  {
    if a != [] && b != [] && a[0] == b[0] {
      LexTotal(a[1..], b[1..]);
    }
  }

  // ---------------------------------------------------------------------
  // Reading a WHERE clause

  datatype Cmp = Gt | Ge | Lt | Le

  /** `column <op> param` on BLOBs. */
  predicate Holds(c: Cmp, column: Blob, param: Blob)
  {
    match c
    case Gt => LexLess(param, column)
    case Ge => !LexLess(column, param)
    case Lt => LexLess(column, param)
    case Le => !LexLess(param, column)
  }

  function CmpText(c: Cmp): string
  {
    match c
    case Gt => " > "
    case Ge => " >= "
    case Lt => " < "
    case Le => " <= "
  }

  /** The comparison operator at the front of `t`, and its length. */
  function ParseCmp(t: string): (r: Option<(Cmp, nat)>)
    ensures r.Some? ==> 0 < r.value.1 <= |t|
  {
    if HasPrefix(t, " >= ") then Some((Ge, 4))
    else if HasPrefix(t, " > ") then Some((Gt, 3))
    else if HasPrefix(t, " <= ") then Some((Le, 4))
    else if HasPrefix(t, " < ") then Some((Lt, 3))
    else None
  }

  /** How many decimal digits `t` starts with. */
  function DigitRun(t: string): (n: nat)
    ensures n <= |t|
    ensures forall i :: 0 <= i < n ==> '0' <= t[i] <= '9'
    ensures n < |t| ==> !('0' <= t[n] <= '9')
  {
    if t != [] && '0' <= t[0] <= '9' then
      var n := 1 + DigitRun(t[1..]);
      assert forall i :: 1 <= i < n ==> t[i] == t[1..][i - 1];
      n
    else 0
  }

  /**
   * One condition `field <op> <marker>` at the front of `s`: its operator,
   * the number of its parameter (`largest` is the largest used so far) and
   * the text after it.
   */
  function ReadCond(s: string, field: string, largest: nat): (r: Option<(Cmp, nat, string)>)
    ensures r.Some? ==> |r.value.2| < |s|
  {
    if !HasPrefix(s, field) then None
    else
      var t := s[|field|..];
      match ParseCmp(t)
      case None => None
      case Some((c, n)) =>
        var u := t[n..];
        if u == [] || u[0] != '?' then None
        else
          var d := DigitRun(u[1..]);
          var number: nat := if d == 0 then largest + 1 else Schemas.ParseDecimal(u[1..1 + d]);
          Some((c, number, u[1 + d..]))
  }

  /**
   * The conditions after " WHERE ": one condition, then either the end or
   * " AND " and more conditions. `used` holds the parameter numbers used
   * so far. The result is `None` when the text does not parse, a marker
   * has no bound value, or a bound value has no marker.
   */
  function EvalConds(s: string, field: string, params: map<nat, Blob>, v: Blob, largest: nat, used: set<nat>): Option<bool>
    decreases |s|
  {
    match ReadCond(s, field, largest)
    case None => None
    case Some((c, number, rest)) =>
      if number !in params then None
      else
        var here := Holds(c, v, params[number]);
        var largest' := if number > largest then number else largest;
        if rest == [] then
          if params.Keys == used + {number} then Some(here) else None
        else if HasPrefix(rest, " AND ") then
          match EvalConds(rest[5..], field, params, v, largest', used + {number})
          case None => None
          case Some(more) => Some(here && more)
        else None
  }

  /** A WHERE clause (or none) with its bound parameters, evaluated for a row whose `field` holds `v`. */
  function EvalWhere(s: string, field: string, params: map<nat, Blob>, v: Blob): Option<bool>
  {
    if s == "" then (if params == map[] then Some(true) else None)
    else if HasPrefix(s, " WHERE ") then EvalConds(s[7..], field, params, v, 0, {})
    else None
  }

  // ---------------------------------------------------------------------
  // What the clauses mean

  lemma ParseCmpText(c: Cmp, rest: string)
    requires rest != [] && rest[0] == '?'
    ensures ParseCmp(CmpText(c) + rest) == Some((c, |CmpText(c)|))
  {
    var t := CmpText(c) + rest;
    assert t[..|CmpText(c)|] == CmpText(c);
    assert t[|CmpText(c)|] == '?';
  }

  /** `mark` is a marker: `?` and perhaps digits. */
  predicate IsMark(mark: string, number: nat, largest: nat)
  {
    || (mark == "?" && number == largest + 1)
    || (mark == "?1" && number == 1)
    || (mark == "?2" && number == 2)
  }

  /** A marker followed by the end of the text or by " AND " is read as parameter `number`. */
  lemma ReadMark(mark: string, tail: string, largest: nat, number: nat)
    requires IsMark(mark, number, largest)
    requires tail == [] || HasPrefix(tail, " AND ")
    ensures var u := mark + tail;
      var d := DigitRun(u[1..]);
      && u[0] == '?' && 1 + d <= |u|
      && (if d == 0 then largest + 1 else Schemas.ParseDecimal(u[1..1 + d])) == number
      && u[1 + d..] == tail
  {
    var u := mark + tail;
    assert tail != [] ==> tail[0] == ' ';
    if mark == "?" {
      assert u[1..] == tail;
    } else {
      ReadDigitMark(mark[1], tail);
      assert u[1..] == [mark[1]] + tail;
      assert u[1 + 1..] == tail;
    }
  }

  /** A single digit before the end of the text or a space is a run of one digit. */
  lemma ReadDigitMark(digit: char, tail: string)
    requires '0' <= digit <= '9'
    requires tail != [] ==> tail[0] == ' '
    ensures DigitRun([digit] + tail) == 1
    ensures Schemas.ParseDecimal([digit]) == (digit - '0') as nat
  {
    var t := [digit] + tail;
    assert t[1..] == tail;
    assert [digit][..0] == [];
  }

  /** The field and operator at the front of a condition are read back. */
  lemma ReadCondHead(field: string, c: Cmp, rest: string)
    requires rest != [] && rest[0] == '?'
    ensures var s := field + CmpText(c) + rest;
      && HasPrefix(s, field)
      && ParseCmp(s[|field|..]) == Some((c, |CmpText(c)|))
      && s[|field|..][|CmpText(c)|..] == rest
  {
    var s := field + CmpText(c) + rest;
    assert s[..|field|] == field;
    assert s[|field|..] == CmpText(c) + rest;
    ParseCmpText(c, rest);
  }

  /** A condition built from a field, an operator and a marker reads back as that operator and parameter. */
  lemma ReadCondOf(field: string, c: Cmp, mark: string, tail: string, largest: nat, number: nat)
    requires IsMark(mark, number, largest)
    requires tail == [] || HasPrefix(tail, " AND ")
    ensures ReadCond(field + CmpText(c) + (mark + tail), field, largest) == Some((c, number, tail))
  {
    ReadMark(mark, tail, largest, number);
    ReadCondHead(field, c, mark + tail);
  }

  /** The last condition: the text ends after its marker. */
  lemma EvalLastCond(field: string, c: Cmp, mark: string, params: map<nat, Blob>, v: Blob,
                     largest: nat, used: set<nat>, number: nat)
    requires IsMark(mark, number, largest) && number in params
    ensures EvalConds(field + CmpText(c) + mark, field, params, v, largest, used) ==
      if params.Keys == used + {number} then Some(Holds(c, v, params[number])) else None
  {
    ReadCondOf(field, c, mark, [], largest, number);
    assert mark + [] == mark;
  }

  /** A condition followed by " AND " and more conditions. */
  lemma EvalAndCond(field: string, c: Cmp, mark: string, more: string, params: map<nat, Blob>, v: Blob,
                    largest: nat, used: set<nat>, number: nat)
    requires IsMark(mark, number, largest) && number in params
    ensures EvalConds(field + CmpText(c) + (mark + (" AND " + more)), field, params, v, largest, used) ==
      match EvalConds(more, field, params, v, if number > largest then number else largest, used + {number})
      case None => None
      case Some(rest) => Some(Holds(c, v, params[number]) && rest)
  {
    var tail := " AND " + more;
    assert tail[..5] == " AND " && tail[5..] == more;
    ReadCondOf(field, c, mark, tail, largest, number);
  }

  function MinCmp(q: Query): Cmp
  {
    if q.minBoundOpen then Gt else Ge
  }

  function MaxCmp(q: Query): Cmp
  {
    if q.maxBoundOpen then Lt else Le
  }

  /** `s` is " WHERE " followed by `conds`. */
  lemma WherePrefix(s: string, conds: string)
    requires s == " WHERE " + conds
    ensures HasPrefix(s, " WHERE ") && s[7..] == conds
  {
    assert s[..7] == " WHERE ";
  }

  /** With both bounds the clause holds two conditions joined by " AND ". */
  lemma WhereTextBoth(q: Query, minMark: string, maxMark: string)
    requires q.minBound.Some? && q.maxBound.Some?
    ensures var field := WhereField(q);
      var s := WhereClause(q, minMark, maxMark);
      HasPrefix(s, " WHERE ") &&
      s[7..] == field + CmpText(MinCmp(q)) + (minMark + (" AND " + (field + CmpText(MaxCmp(q)) + maxMark)))
  {
    var field := WhereField(q);
    var lower := field + CmpText(MinCmp(q)) + minMark;
    var upper := field + CmpText(MaxCmp(q)) + maxMark;
    assert WhereClause(q, minMark, maxMark) == " WHERE " + lower + " AND " + upper;
    assert " WHERE " + lower + " AND " + upper == " WHERE " + (field + CmpText(MinCmp(q)) + (minMark + (" AND " + upper)));
    WherePrefix(WhereClause(q, minMark, maxMark), field + CmpText(MinCmp(q)) + (minMark + (" AND " + upper)));
  }

  /** With a lower bound only the clause holds one condition. */
  lemma WhereTextMin(q: Query, minMark: string, maxMark: string)
    requires q.minBound.Some? && q.maxBound.None?
    ensures var s := WhereClause(q, minMark, maxMark);
      HasPrefix(s, " WHERE ") && s[7..] == WhereField(q) + CmpText(MinCmp(q)) + minMark
  {
    var lower := WhereField(q) + CmpText(MinCmp(q)) + minMark;
    assert WhereClause(q, minMark, maxMark) == " WHERE " + lower + "" + "";
    assert " WHERE " + lower + "" + "" == " WHERE " + lower;
    WherePrefix(WhereClause(q, minMark, maxMark), lower);
  }

  /** With an upper bound only the clause holds one condition. */
  lemma WhereTextMax(q: Query, minMark: string, maxMark: string)
    requires q.minBound.None? && q.maxBound.Some?
    ensures var s := WhereClause(q, minMark, maxMark);
      HasPrefix(s, " WHERE ") && s[7..] == WhereField(q) + CmpText(MaxCmp(q)) + maxMark
  {
    var upper := WhereField(q) + CmpText(MaxCmp(q)) + maxMark;
    assert WhereClause(q, minMark, maxMark) == " WHERE " + "" + "" + upper;
    assert " WHERE " + "" + "" + upper == " WHERE " + upper;
    WherePrefix(WhereClause(q, minMark, maxMark), upper);
  }

  /** The text of a WHERE clause, condition by condition. */
  lemma WhereClauseParts(q: Query, minMark: string, maxMark: string)
    ensures var field := WhereField(q);
      var s := WhereClause(q, minMark, maxMark);
      && (q.minBound.None? && q.maxBound.None? ==> s == "")
      && (q.minBound.Some? && q.maxBound.Some? ==>
            HasPrefix(s, " WHERE ") &&
            s[7..] == field + CmpText(MinCmp(q)) + (minMark + (" AND " + (field + CmpText(MaxCmp(q)) + maxMark))))
      && (q.minBound.Some? && q.maxBound.None? ==>
            HasPrefix(s, " WHERE ") && s[7..] == field + CmpText(MinCmp(q)) + minMark)
      && (q.minBound.None? && q.maxBound.Some? ==>
            HasPrefix(s, " WHERE ") && s[7..] == field + CmpText(MaxCmp(q)) + maxMark)
  {
    if q.minBound.Some? && q.maxBound.Some? {
      WhereTextBoth(q, minMark, maxMark);
    } else if q.minBound.Some? {
      WhereTextMin(q, minMark, maxMark);
    } else if q.maxBound.Some? {
      WhereTextMax(q, minMark, maxMark);
    }
  }

  /** Both bounds: two conditions joined by " AND ". */
  lemma WhereBothMeaning(q: Query, minMark: string, maxMark: string, params: map<nat, Blob>, v: Blob,
                         minNumber: nat, maxNumber: nat)
    requires q.minBound.Some? && q.maxBound.Some?
    requires IsMark(minMark, minNumber, 0) && minNumber in params && params[minNumber] == q.minBound.value
    requires IsMark(maxMark, maxNumber, minNumber) && maxNumber in params && params[maxNumber] == q.maxBound.value
    requires params.Keys == {minNumber, maxNumber}
    ensures EvalWhere(WhereClause(q, minMark, maxMark), WhereField(q), params, v) == Some(InRange(q, v))
  {
    var field := WhereField(q);
    var s := WhereClause(q, minMark, maxMark);
    WhereTextBoth(q, minMark, maxMark);
    var upper := field + CmpText(MaxCmp(q)) + maxMark;
    var conds := field + CmpText(MinCmp(q)) + (minMark + (" AND " + upper));
    assert s[7..] == conds;
    assert EvalWhere(s, field, params, v) == EvalConds(conds, field, params, v, 0, {});
    var lower := Holds(MinCmp(q), v, q.minBound.value);
    var higher := Holds(MaxCmp(q), v, q.maxBound.value);
    assert params.Keys == {minNumber} + {maxNumber};
    EvalLastCond(field, MaxCmp(q), maxMark, params, v, minNumber, {minNumber}, maxNumber);
    assert EvalConds(upper, field, params, v, minNumber, {minNumber}) == Some(higher);
    assert {} + {minNumber} == {minNumber};
    assert (if minNumber > 0 then minNumber else 0) == minNumber;
    EvalAndCond(field, MinCmp(q), minMark, upper, params, v, 0, {}, minNumber);
    assert EvalConds(conds, field, params, v, 0, {}) == Some(lower && higher);
  }

  /** One bound: a single condition. */
  lemma WhereOneMeaning(q: Query, minMark: string, maxMark: string, params: map<nat, Blob>, v: Blob, number: nat)
    requires q.minBound.Some? != q.maxBound.Some?
    requires q.minBound.Some? ==> IsMark(minMark, number, 0) && params == map[number := q.minBound.value]
    requires q.maxBound.Some? ==> IsMark(maxMark, number, 0) && params == map[number := q.maxBound.value]
    ensures EvalWhere(WhereClause(q, minMark, maxMark), WhereField(q), params, v) == Some(InRange(q, v))
  {
    var field := WhereField(q);
    if q.minBound.Some? {
      WhereTextMin(q, minMark, maxMark);
      EvalLastCond(field, MinCmp(q), minMark, params, v, 0, {}, number);
    } else {
      WhereTextMax(q, minMark, maxMark);
      EvalLastCond(field, MaxCmp(q), maxMark, params, v, 0, {}, number);
    }
  }

  /**
   * The current backend: the WHERE clause with the parameters
   * `bindWhereParams` binds selects exactly the rows whose field is in the
   * query's range, and every marker has a value and every value a marker.
   */
  lemma WhereSelectsRange(q: Query, v: Blob)
    ensures EvalWhere(Where(q), WhereField(q), BindWhereParams(q), v) == Some(InRange(q, v))
  {
    if q.minBound.Some? && q.maxBound.Some? {
      WhereBothMeaning(q, "?", "?", BindWhereParams(q), v, 1, 2);
    } else if q.minBound.Some? || q.maxBound.Some? {
      WhereOneMeaning(q, "?", "?", BindWhereParams(q), v, 1);
    }
  }

  /** The older backend: the same, with the markers `?1` and `?2`. */
  lemma LegacyWhereSelectsRange(q: Query, v: Blob)
    ensures EvalWhere(LegacyWhere(q), WhereField(q), LegacyBindWhereParams(q), v) == Some(InRange(q, v))
  {
    if q.minBound.Some? && q.maxBound.Some? {
      WhereBothMeaning(q, "?1", "?2", LegacyBindWhereParams(q), v, 1, 2);
    } else if q.minBound.Some? {
      WhereOneMeaning(q, "?1", "?2", LegacyBindWhereParams(q), v, 1);
    } else if q.maxBound.Some? {
      WhereOneMeaning(q, "?1", "?2", LegacyBindWhereParams(q), v, 2);
    }
  }
}
