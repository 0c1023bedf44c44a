/**
 * Names of databases, tables and indices: `validateName` accepts exactly the
 * names of 1 to 100 ASCII letters and digits.
 */
module Names {
  import opened Wrappers

  datatype NameError = UnreasonableLength | UnreasonableCharacters

  /** An ASCII letter or digit (`a..z`, `A..Z`, `0..9`). */
  predicate IsNameChar(c: char)
  {
    'a' <= c <= 'z' || 'A' <= c <= 'Z' || '0' <= c <= '9'
  }

  /** What `validateName` lets through. */
  predicate ValidName(name: string)
  {
    1 <= |name| <= 100 && forall i :: 0 <= i < |name| ==> IsNameChar(name[i])
  }

  /** `name.any { it is not a letter or digit }`, scanning from the front. */
  function AnyBadChar(name: string): (r: bool)
    ensures r <==> exists i :: 0 <= i < |name| && !IsNameChar(name[i])
  {
    if name == [] then false
    else if !IsNameChar(name[0]) then true
    else
      var rest := AnyBadChar(name[1..]);
      assert forall i :: 0 < i < |name| ==> name[i] == name[1..][i - 1];
      rest
  }

  /**
   * Kotlin's `name.length`: the number of UTF-16 code units, two for a
   * character outside the Basic Multilingual Plane.
   */
  function Utf16Length(s: string): (r: nat)
    ensures |s| <= r <= 2 * |s|
    ensures r == |s| <==> forall i :: 0 <= i < |s| ==> s[i] as int <= 0xFFFF
  {
    if s == [] then 0
    else
      var n := |s| - 1;
      assert forall i :: 0 <= i < n ==> s[..n][i] == s[i];
      Utf16Length(s[..n]) + (if s[n] as int > 0xFFFF then 2 else 1)
  }

  /** `validateName`: the length test, in UTF-16 units, comes first, then the characters. */
  function ValidateName(name: string): (r: Outcome<NameError>)
    ensures r.Pass? <==> ValidName(name)
    ensures r == Fail(UnreasonableLength) <==> !(1 <= Utf16Length(name) <= 100)
  {
    if !(1 <= Utf16Length(name) <= 100) then Fail(UnreasonableLength)
    else if AnyBadChar(name) then Fail(UnreasonableCharacters)
    else Pass
  }

  /** 99 letters and one character outside the BMP: 100 characters, but 101 UTF-16 units, too long. */
  lemma SupplementaryCountsTwice()
    ensures var name := seq(99, _ => 'a') + ['\U{10000}'];
      |name| == 100 && ValidateName(name) == Fail(UnreasonableLength)
  {
    var name := seq(99, _ => 'a') + ['\U{10000}'];
    assert name[..99] == seq(99, _ => 'a');
    assert Utf16Length(name) == Utf16Length(name[..99]) + 2;
  }
}

/**
 * `validateSchemaSequence`: the schema versions a configuration lists must
 * start at 1 or above, go up by one, never name a table twice in one
 * version, and keep the very same table object under a name that a version
 * shares with the version before it.
 */
module Validation {
  import opened Wrappers
  import opened KotlinInts
  import opened Schemas

  datatype SequenceError =
    | NoDefaultSchema
    | DuplicatedTable(name: string)
    | FirstVersionBelowOne
    | VersionGap(expected: Int32)
    | IdentityChanged(name: string, version: Int32)

  /** No two tables of one version share a name. */
  predicate DistinctNames(tables: seq<Table>)
  {
    forall i, j :: 0 <= i < j < |tables| ==> tables[i].name != tables[j].name
  }

  /** `tables.find { it.name == name }`: the first table of that name. */
  function FindByName(tables: seq<Table>, name: string): (r: Option<Table>)
    ensures r.None? <==> forall i :: 0 <= i < |tables| ==> tables[i].name != name
    ensures r.Some? ==> exists i :: 0 <= i < |tables| && tables[i] == r.value && r.value.name == name &&
                                    forall j :: 0 <= j < i ==> tables[j].name != name
  {
    if tables == [] then None
    else if tables[0].name == name then Some(tables[0])
    else
      var r := FindByName(tables[1..], name);
      assert forall i :: 0 < i < |tables| ==> tables[i] == tables[1..][i - 1];
      r
  }

  /** Every table of `prev` whose name `next` also uses is the same object there. */
  predicate KeepsIdentity(prev: seq<Table>, next: seq<Table>)
  {
    forall i :: 0 <= i < |prev| ==>
      var found := FindByName(next, prev[i].name);
      found.None? || found.value == prev[i]
  }

  /** Version `next` may follow version `prev` (Kotlin `Int` addition wraps). */
  predicate Follows(prev: Schema, next: Schema)
  {
    next.version == Wrap32(prev.version as int + 1) && KeepsIdentity(prev.tables, next.tables)
  }

  /** What `validateSchemaSequence` accepts. */
  predicate ValidSequence(schemas: seq<Schema>)
  {
    && |schemas| > 0
    && schemas[0].version >= 1
    && (forall i :: 0 <= i < |schemas| ==> DistinctNames(schemas[i].tables))
    && (forall i :: 0 < i < |schemas| ==> Follows(schemas[i - 1], schemas[i]))
  }

  /** The rejection `e` names a real defect of `schemas`. */
  ghost predicate Explains(schemas: seq<Schema>, e: SequenceError)
  {
    match e
    case NoDefaultSchema => |schemas| == 0
    case DuplicatedTable(name) =>
      exists i, j, k :: 0 <= i < |schemas| && 0 <= j < k < |schemas[i].tables| &&
        schemas[i].tables[j].name == name && schemas[i].tables[k].name == name
    case FirstVersionBelowOne => |schemas| > 0 && schemas[0].version < 1
    case VersionGap(expected) =>
      exists i :: 0 < i < |schemas| && expected == Wrap32(schemas[i - 1].version as int + 1) &&
        schemas[i].version != expected
    case IdentityChanged(name, version) =>
      exists i :: 0 < i < |schemas| && schemas[i].version == version &&
        ReplacesTable(schemas[i - 1].tables, schemas[i].tables, name)
  }

  /** `next` holds, under a name of a table of `prev`, a different object. */
  predicate ReplacesTable(prev: seq<Table>, next: seq<Table>, name: string)
  {
    exists j :: 0 <= j < |prev| && prev[j].name == name &&
      var found := FindByName(next, name);
      found.Some? && found.value != prev[j]
  }

  /**
   * The duplicate test: each name is added to a `HashSet`, and a name
   * already there is reported.
   */
  method FindDuplicateName(tables: seq<Table>) returns (r: Option<string>)
    ensures r.None? <==> DistinctNames(tables)
    ensures r.Some? ==> exists j, k :: 0 <= j < k < |tables| && tables[j].name == r.value && tables[k].name == r.value
  {
    var names: set<string> := {};
    for i := 0 to |tables|
      invariant names == set j | 0 <= j < i :: tables[j].name
      invariant DistinctNames(tables[..i])
    {
      var name := tables[i].name;
      if name in names {
        var j :| 0 <= j < i && tables[j].name == name;
        return Some(name);
      }
      names := names + {name};
      assert tables[..i + 1] == tables[..i] + [tables[i]];
    }
    assert tables[..|tables|] == tables;
    return None;
  }

  /** The identity test against the previous version, table by table. */
  method FindChangedIdentity(prev: seq<Table>, next: seq<Table>) returns (r: Option<string>)
    ensures r.None? <==> KeepsIdentity(prev, next)
    ensures r.Some? ==> ReplacesTable(prev, next, r.value)
  {
    for i := 0 to |prev|
      invariant forall j :: 0 <= j < i ==>
        var found := FindByName(next, prev[j].name);
        found.None? || found.value == prev[j]
    {
      var found := FindByName(next, prev[i].name);
      if found.Some? && found.value != prev[i] {
        return Some(prev[i].name);
      }
    }
    return None;
  }

  /**
   * `validateSchemaSequence`, with each thrown `IllegalArgumentException`
   * as a failure that says which rule was broken.
   */
  method ValidateSchemaSequence(schemas: seq<Schema>) returns (r: Outcome<SequenceError>)
    ensures r.Pass? <==> ValidSequence(schemas)
    ensures r.Fail? ==> Explains(schemas, r.error)
  {
    if |schemas| == 0 {
      return Fail(NoDefaultSchema);
    }
    for i := 0 to |schemas|
      invariant forall j :: 0 <= j < i ==> DistinctNames(schemas[j].tables)
      invariant i > 0 ==> schemas[0].version >= 1
      invariant forall j :: 0 < j < i ==> Follows(schemas[j - 1], schemas[j])
    {
      var schema := schemas[i];
      var duplicate := FindDuplicateName(schema.tables);
      if duplicate.Some? {
        return Fail(DuplicatedTable(duplicate.value));
      }
      if i == 0 {
        if schema.version < 1 {
          return Fail(FirstVersionBelowOne);
        }
        continue;
      }
      var last := schemas[i - 1];
      var expected := Wrap32(last.version as int + 1);
      if schema.version != expected {
        return Fail(VersionGap(expected));
      }
      var changed := FindChangedIdentity(last.tables, schema.tables);
      if changed.Some? {
        return Fail(IdentityChanged(changed.value, schema.version));
      }
    }
    return Pass;
  }

  /**
   * In an accepted sequence, a table of one version and a table of the next
   * that share a name are the same object.
   */
  lemma SharedNameSameTable(schemas: seq<Schema>, i: nat, j: nat, k: nat)
    requires ValidSequence(schemas)
    requires 0 < i < |schemas| && j < |schemas[i - 1].tables| && k < |schemas[i].tables|
    requires schemas[i - 1].tables[j].name == schemas[i].tables[k].name
    ensures schemas[i - 1].tables[j] == schemas[i].tables[k]
  {
    var prev, next := schemas[i - 1].tables, schemas[i].tables;
    assert Follows(schemas[i - 1], schemas[i]);
    assert DistinctNames(next);
    var found := FindByName(next, prev[j].name);
    var m :| 0 <= m < |next| && next[m] == found.value && found.value.name == prev[j].name &&
             forall l :: 0 <= l < m ==> next[l].name != prev[j].name;
    assert m == k by {
      if m < k {
      } else if k < m {
      }
    }
  }
}
