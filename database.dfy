/**
 * Tables, indices and schemas of the current generation. A `Table` takes
 * its id from a global counter (`nextTableIndex`) and, while it is
 * constructed, attaches each of its indices to itself and names them. An
 * index may belong to one table only.
 */
module Schemas {
  import opened Wrappers
  import opened KotlinInts
  import opened Names
  import TableSets

  datatype TableError =
    | InvalidName(error: NameError)
    | IndexAlreadyAttached
    | IndexNotAttached
    | NoTables

  /**
   * `Index`, over the class of the table that owns it (the current `Table`
   * here, the older generation's in `LegacySchemas`): both generations
   * declare the same index and link it the same way.
   */
  class Index<Owner(==)> {
    const name: string
    const unique: bool
    /** `lateinit` fields: `None` until the owning table sets them. */
    var canonicalName: Option<string>
    var fieldName: Option<string>
    var internalTable: Option<Owner>

    constructor (name: string, unique: bool)
      ensures this.name == name && this.unique == unique
      ensures canonicalName == None && fieldName == None && internalTable == None
    {
      this.name := name;
      this.unique := unique;
      canonicalName := None;
      fieldName := None;
      internalTable := None;
    }

    /** `Index.table`: the owning table, or `IllegalStateException` before attachment. */
    function Owner(): Result<Owner, TableError>
      reads this
    {
      match internalTable
      case None => Err(IndexNotAttached)
      case Some(table) => Ok(table)
    }
  }

  /** The global `nextTableIndex` counter. */
  class TableIds {
    var next: nat

    constructor ()
      ensures next == 0
    {
      next := 0;
    }
  }

  class Table {
    const name: string
    const id: TableSets.TableId
    const indices: seq<Index<Table>>

    constructor (name: string, id: TableSets.TableId, indices: seq<Index<Table>>)
      ensures this.name == name && this.id == id && this.indices == indices
    {
      this.name := name;
      this.id := id;
      this.indices := indices;
    }
  }

  /** The decimal digits of `n`, as Kotlin's string template `"$n"` writes them. */
  function DecimalString(n: nat): (r: string)
    ensures |r| >= 1
    ensures forall i :: 0 <= i < |r| ==> '0' <= r[i] <= '9'
  {
    var digit := ['0' + (n % 10) as char];
    if n < 10 then digit else DecimalString(n / 10) + digit
  }

  /** Reads decimal digits back. */
  function ParseDecimal(s: string): nat
    requires forall i :: 0 <= i < |s| ==> '0' <= s[i] <= '9'
  {
    if s == [] then 0 else ParseDecimal(s[..|s| - 1]) * 10 + (s[|s| - 1] - '0') as nat
  }

  lemma {:induction false} DecimalRoundTrip(n: nat)
    ensures ParseDecimal(DecimalString(n)) == n
  {
    var s := DecimalString(n);
    if n >= 10 {
      DecimalRoundTrip(n / 10);
      assert s[..|s| - 1] == DecimalString(n / 10);
    }
  }

  /** `"i$i"`: the column or object field holding the i-th index's key. */
  function FieldName(i: nat): string
  {
    "i" + DecimalString(i)
  }

  /** Different positions give different field names. */
  lemma FieldNamesDistinct(i: nat, j: nat)
    ensures FieldName(i) == FieldName(j) ==> i == j
  {
    if FieldName(i) == FieldName(j) {
      assert DecimalString(i) == FieldName(i)[1..];
      assert DecimalString(j) == FieldName(j)[1..];
      DecimalRoundTrip(i);
      DecimalRoundTrip(j);
    }
  }

  /** `name + "_" + index.name`. */
  function CanonicalName(tableName: string, indexName: string): string
  {
    tableName + "_" + indexName
  }

  /** The first k indices have been attached to `t`, whose name is `tableName`, and named. */
  ghost predicate AttachedPrefix<Owner>(t: Owner, tableName: string, indices: seq<Index<Owner>>, k: nat)
    requires k <= |indices|
    reads indices
  {
    forall i :: 0 <= i < k ==>
      && indices[i].internalTable == Some(t)
      && indices[i].canonicalName == Some(CanonicalName(tableName, indices[i].name))
      && indices[i].fieldName == Some(FieldName(i))
  }

  /** None of the first k indices is attached and none of them is listed twice. */
  ghost predicate AttachableUpTo<Owner>(indices: seq<Index<Owner>>, k: nat)
    requires k <= |indices|
    reads indices
  {
    && (forall i :: 0 <= i < k ==> indices[i].internalTable.None?)
    && (forall i, j :: 0 <= i < j < k ==> indices[i] != indices[j])
  }

  ghost predicate Attachable<Owner>(indices: seq<Index<Owner>>)
    reads indices
  {
    AttachableUpTo(indices, |indices|)
  }

  /** The k-th index is the first that cannot be attached. */
  ghost predicate BlockedAt<Owner>(indices: seq<Index<Owner>>, k: nat)
    requires k < |indices|
    reads indices
  {
    AttachableUpTo(indices, k) && !AttachableUpTo(indices, k + 1)
  }

  /**
   * `Index(...)`: the name is validated once the object exists, so an
   * invalid name leaves nothing behind.
   */
  method NewIndex<Owner(==)>(name: string, unique: bool) returns (r: Result<Index<Owner>, TableError>)
    ensures r.Err? <==> !ValidName(name)
    ensures r.Err? ==> r.error == InvalidName(ValidateName(name).error)
    ensures r.Ok? ==> fresh(r.value) && r.value.name == name && r.value.unique == unique
    ensures r.Ok? ==> r.value.Owner() == Err(IndexNotAttached)
    ensures r.Ok? ==> r.value.canonicalName == None && r.value.fieldName == None
  {
    var index := new Index<Owner>(name, unique);
    var valid := ValidateName(name);
    if valid.Fail? {
      return Err(InvalidName(valid.error));
    }
    return Ok(index);
  }

  /**
   * `Table(...)`: the id is drawn from the counter first (even when the
   * construction then throws), the name is validated, and the indices are
   * attached in order. An index that is already attached, or listed a
   * second time, throws `IllegalStateException`; the indices before it stay
   * attached to the table that was never handed out.
   */
  method NewTable(name: string, indices: seq<Index<Table>>, ids: TableIds) returns (r: Result<Table, TableError>)
    modifies ids, indices
    ensures ids.next == old(ids.next) + 1
    ensures !ValidName(name) ==> r == Err(InvalidName(ValidateName(name).error))
    ensures !ValidName(name) ==> forall x :: x in indices ==> unchanged(x)
    ensures ValidName(name) ==> (r.Ok? <==> old(Attachable(indices)))
    ensures r.Ok? ==> fresh(r.value) && r.value.name == name && r.value.id == old(ids.next)
    ensures r.Ok? ==> r.value.indices == indices && AttachedPrefix(r.value, name, indices, |indices|)
    ensures r.Ok? ==> forall i :: 0 <= i < |indices| ==> indices[i].Owner() == Ok(r.value)
    ensures ValidName(name) && r.Err? ==>
      r.error == IndexAlreadyAttached &&
      exists k :: 0 <= k < |indices| && old(BlockedAt(indices, k)) &&
        forall i :: 0 <= i < k ==> indices[i].internalTable.Some? && fresh(indices[i].internalTable.value)
  {
    var id := ids.next;
    ids.next := ids.next + 1;
    var table := new Table(name, id, indices);
    var valid := ValidateName(name);
    if valid.Fail? {
      return Err(InvalidName(valid.error));
    }
    var attached := AttachAll(table, name, indices);
    if !attached {
      return Err(IndexAlreadyAttached);
    }
    return Ok(table);
  }

  /**
   * The attaching loop of the table constructor, the same in both
   * generations: each index in turn gets the table, its canonical name and
   * its field name, until one is found already attached.
   */
  method AttachAll<Owner(==)>(table: Owner, tableName: string, indices: seq<Index<Owner>>) returns (attached: bool)
    modifies indices
    ensures attached <==> old(Attachable(indices))
    ensures attached ==> AttachedPrefix(table, tableName, indices, |indices|)
    ensures !attached ==> exists k :: 0 <= k < |indices| && old(BlockedAt(indices, k)) && AttachedPrefix(table, tableName, indices, k)
  {
    for i := 0 to |indices|
      invariant AttachedPrefix(table, tableName, indices, i)
      invariant old(AttachableUpTo(indices, i))
      invariant forall j :: 0 <= j < |indices| && indices[j] !in indices[..i] ==>
        indices[j].internalTable == old(indices[j].internalTable)
    {
      var index := indices[i];
      if index.internalTable.Some? {
        assert old(BlockedAt(indices, i)) by {
          if index !in indices[..i] {
            assert old(index.internalTable).Some?;
          } else {
            var k :| 0 <= k < i && indices[..i][k] == index;
            assert indices[k] == indices[i];
          }
        }
        assert AttachedPrefix(table, tableName, indices, i);
        return false;
      }
      assert index !in indices[..i];
      assert old(AttachableUpTo(indices, i + 1)) by {
        assert forall k :: 0 <= k < i ==> indices[..i][k] == indices[k];
      }
      assert indices[..i + 1] == indices[..i] + [index];
      ghost var earlier := indices[..i];
      index.internalTable := Some(table);
      index.canonicalName := Some(CanonicalName(tableName, index.name));
      index.fieldName := Some(FieldName(i));
      assert forall k :: 0 <= k < i ==> indices[k] in earlier;
    }
    return true;
  }

  /**
   * One schema version. The callbacks are opaque code; the model keeps only
   * whether each is present.
   */
  datatype Schema = Schema(
    version: Int32,
    tables: seq<Table>,
    migrateFromPrevious: bool,
    createdNew: bool,
    afterSuccessfulCreationOrMigration: bool,
    tableSet: TableSets.TableSet)

  /** The ids of a list of tables, in order. */
  function TableIdsOf(tables: seq<Table>): (r: seq<TableSets.TableId>)
    ensures |r| == |tables| && forall i :: 0 <= i < |tables| ==> r[i] == tables[i].id
  {
    seq(|tables|, i requires 0 <= i < |tables| => tables[i].id)
  }

  /**
   * `Schema(...)`: `tableSet = TableSet(tables)` is built at construction,
   * which fails in `maxOf` for a schema without tables.
   */
  method NewSchema(version: Int32, tables: seq<Table>, migrateFromPrevious: bool, createdNew: bool,
                   afterSuccessfulCreationOrMigration: bool)
    returns (r: Result<Schema, TableError>)
    ensures r.Err? <==> |tables| == 0
    ensures r.Err? ==> r.error == NoTables
    ensures r.Ok? ==> r.value.version == version && r.value.tables == tables
    ensures r.Ok? ==> r.value.migrateFromPrevious == migrateFromPrevious && r.value.createdNew == createdNew
    ensures r.Ok? ==> r.value.afterSuccessfulCreationOrMigration == afterSuccessfulCreationOrMigration
    ensures r.Ok? ==> forall t: TableSets.TableId ::
      TableSets.Contains(r.value.tableSet.words, t) <==> exists i :: 0 <= i < |tables| && tables[i].id == t
  {
    var ids := TableIdsOf(tables);
    var built := TableSets.Build(ids);
    if built.None? {
      return Err(NoTables);
    }
    r := Ok(Schema(version, tables, migrateFromPrevious, createdNew, afterSuccessfulCreationOrMigration, built.value));
    forall t: TableSets.TableId
      ensures TableSets.Contains(built.value.words, t) <==> exists i :: 0 <= i < |tables| && tables[i].id == t
    {
      if t in ids {
        var i :| 0 <= i < |ids| && ids[i] == t;
      }
    }
  }
}

/** `BaseDatabaseConfig`: a database name and its schema versions, both validated at construction. */
module Configs {
  import opened Wrappers
  import opened Names
  import opened Schemas
  import opened Validation

  datatype Config = Config(name: string, schema: seq<Schema>)

  datatype ConfigError = NameRejected(nameError: NameError) | SequenceRejected(sequenceError: SequenceError)

  /** The name is checked before the schema sequence. */
  method NewConfig(name: string, schema: seq<Schema>) returns (r: Result<Config, ConfigError>)
    ensures r.Ok? <==> ValidName(name) && ValidSequence(schema)
    ensures r.Ok? ==> r.value == Config(name, schema)
    ensures !ValidName(name) ==> r == Err(NameRejected(ValidateName(name).error))
    ensures ValidName(name) && r.Err? ==> r.error.SequenceRejected? && Explains(schema, r.error.sequenceError)
  {
    var named := ValidateName(name);
    if named.Fail? {
      return Err(NameRejected(named.error));
    }
    var sequence := ValidateSchemaSequence(schema);
    if sequence.Fail? {
      return Err(SequenceRejected(sequence.error));
    }
    return Ok(Config(name, schema));
  }
}
