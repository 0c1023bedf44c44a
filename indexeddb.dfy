/**
 * The engine-independent logic of the older `ud` IndexedDB backend
 * (src/jsMain/.../ud/IndexedDBUniversalDatabase.kt): what a transaction
 * returns for the event that ends it, how a failed open is reported, the
 * layout of stored values, the order `getAll` returns, and the object
 * stores `onupgradeneeded` creates and deletes. IndexedDB requests and
 * events are inputs; a store with its indices is `Migrations.CreateTable`.
 */
module IndexedDb {
  import opened Wrappers
  import opened Names
  import opened Schemas
  import opened Validation
  import opened Migrations
  import opened Lists
  import Bytes
  import SqliteOpen
  import SqlClauses

  // ------------------------------------------------------------ transactions

  /** The event `nextEvent("complete", "abort", "error")` waits for. */
  datatype TransactionEvent = Complete | Abort | Error

  /**
   * What `transaction`/`writeTransaction` produce: `Result.success`,
   * `Result.failure(wrapException(trans.error))`, or the block's own throw,
   * which no `runCatching` catches here.
   */
  datatype Returned<R, E> = Success(value: R) | Failure(error: E) | Throws(error: E)

  /**
   * The end of a transaction: the block runs first; only if it returns is
   * the next event awaited, and only "complete" gives its result back.
   */
  function TransactionResult<R, E>(block: Result<R, E>, event: TransactionEvent, transactionError: E): (r: Returned<R, E>)
    ensures r.Success? <==> block.Ok? && event == Complete
    ensures r.Success? ==> r.value == block.value
    ensures r.Throws? <==> block.Err?
    ensures r.Throws? ==> r.error == block.error
    ensures r.Failure? ==> r.error == transactionError && event != Complete
  {
    if block.Err? then Throws(block.error)
    else match event
      case Complete => Success(block.value)
      case Abort => Failure(transactionError)
      case Error => Failure(transactionError)
  }

  // ------------------------------------------------------------ opening

  /** What `request.error` is: a `DOMException` with its name, or something else. */
  datatype RequestError = DomException(name: string) | NotDomException

  /** `OpenDBResult` as this backend produces it, and the exceptions it resumes with. */
  datatype OpenResult =
    | Opened
    | StorageNotSupported
    | OutOfMemory
    | NewerVersionExists
    | UnknownError
    | ThrowsCancellation
    /** A new `RuntimeException` is thrown. */
    | ThrowsRuntime
    /** A throw of `factory.open` that is not a `DOMException` escapes as itself (`catchDOMException`). */
    | Rethrows

  /** `request.onerror`: the `DOMException` names the backend knows, and anything else. */
  function OpenErrorResult(error: RequestError): (r: OpenResult)
    ensures r == OutOfMemory <==> error == DomException("QuotaExceededError")
    ensures r == NewerVersionExists <==> error == DomException("VersionError")
    ensures r == UnknownError <==> error == DomException("UnknownError")
    ensures r == ThrowsCancellation <==> error == DomException("AbortError")
    ensures r == ThrowsRuntime <==>
      error !in {DomException("QuotaExceededError"), DomException("VersionError"),
                 DomException("UnknownError"), DomException("AbortError")}
  {
    match error
    case NotDomException => ThrowsRuntime
    case DomException(name) =>
      if name == "QuotaExceededError" then OutOfMemory
      else if name == "VersionError" then NewerVersionExists
      else if name == "UnknownError" then UnknownError
      else if name == "AbortError" then ThrowsCancellation
      else ThrowsRuntime
  }

  /**
   * `factory.open` before any event: no `window.indexedDB`, or a
   * `SecurityError` from `open`, means storage is not supported; another
   * `DOMException` becomes a `RuntimeException`, and any other throw
   * escapes as itself; otherwise the request's error, if any, decides.
   */
  function OpenResultOf(hasFactory: bool, openThrows: Option<RequestError>, requestError: Option<RequestError>): (r: OpenResult)
    ensures !hasFactory ==> r == StorageNotSupported
    ensures hasFactory && openThrows.Some? ==>
      r == (if openThrows.value == DomException("SecurityError") then StorageNotSupported
            else if openThrows.value.DomException? then ThrowsRuntime
            else Rethrows)
    ensures hasFactory && openThrows.None? && requestError.Some? ==> r == OpenErrorResult(requestError.value)
    ensures r == Opened <==> hasFactory && openThrows.None? && requestError.None?
  {
    if !hasFactory then StorageNotSupported
    else if openThrows.Some? then
      match openThrows.value
      case NotDomException => Rethrows
      case DomException(name) => if name == "SecurityError" then StorageNotSupported else ThrowsRuntime
    else if requestError.Some? then OpenErrorResult(requestError.value)
    else Opened
  }

  // ------------------------------------------------------------ stored values

  /** The JavaScript values the backend stores and reads back. */
  datatype JsValue =
    | Null
    | Bytes(data: seq<Bytes.uint8>)
    | Object(fields: map<string, JsValue>)
    | Primitive(typeName: string)

  /** `jsTypeOf`: a byte array is an object too. */
  function TypeOf(v: JsValue): string
  {
    match v
    case Null => "object"
    case Bytes(_) => "object"
    case Object(_) => "object"
    case Primitive(t) => t
  }

  /** `valueObject[name]`: a missing field reads as `undefined`, which equals null. */
  function Field(v: JsValue, name: string): JsValue
  {
    if v.Object? && name in v.fields then v.fields[name] else Null
  }

  const ValueField: string := "c"

  /**
   * `buildValue`: the serialized value itself for a table without indices;
   * otherwise an object with the value under "c" and each index key under
   * the index's field name.
   */
  function BuildValue(serialized: seq<Bytes.uint8>, fieldNames: seq<string>, indexKeys: seq<seq<Bytes.uint8>>): (r: JsValue)
    requires |indexKeys| == |fieldNames|
    requires forall i :: 0 <= i < |fieldNames| ==> fieldNames[i] != ValueField
    ensures fieldNames == [] ==> r == Bytes(serialized)
    ensures fieldNames != [] ==> r.Object? && Field(r, ValueField) == Bytes(serialized)
  {
    if fieldNames == [] then Bytes(serialized)
    else
      WithIndicesKeeps(map[ValueField := Bytes(serialized)], fieldNames, indexKeys, ValueField);
      Object(WithIndices(map[ValueField := Bytes(serialized)], fieldNames, indexKeys))
  }

  /** `for (index in indices) withIndices[index.fieldName] = index.buildIndex(key, value)`. */
  function WithIndices(fields: map<string, JsValue>, fieldNames: seq<string>, indexKeys: seq<seq<Bytes.uint8>>): map<string, JsValue>
    requires |indexKeys| == |fieldNames|
  {
    if fieldNames == [] then fields
    else
      var n := |fieldNames| - 1;
      WithIndices(fields, fieldNames[..n], indexKeys[..n])[fieldNames[n] := Bytes(indexKeys[n])]
  }

  /** A field no index is named after keeps its value. */
  lemma {:induction false} WithIndicesKeeps(fields: map<string, JsValue>, fieldNames: seq<string>, indexKeys: seq<seq<Bytes.uint8>>, name: string)
    requires |indexKeys| == |fieldNames| && name in fields
    requires forall i :: 0 <= i < |fieldNames| ==> fieldNames[i] != name
    ensures name in WithIndices(fields, fieldNames, indexKeys)
    ensures WithIndices(fields, fieldNames, indexKeys)[name] == fields[name]
  {
    if fieldNames != [] {
      var n := |fieldNames| - 1;
      WithIndicesKeeps(fields, fieldNames[..n], indexKeys[..n], name);
    }
  }

  /** With distinct field names, each index's field holds its own key. */
  lemma {:induction false} WithIndicesSets(fields: map<string, JsValue>, fieldNames: seq<string>, indexKeys: seq<seq<Bytes.uint8>>, k: nat)
    requires |indexKeys| == |fieldNames| && k < |fieldNames|
    requires forall i, j :: 0 <= i < j < |fieldNames| ==> fieldNames[i] != fieldNames[j]
    ensures fieldNames[k] in WithIndices(fields, fieldNames, indexKeys)
    ensures WithIndices(fields, fieldNames, indexKeys)[fieldNames[k]] == Bytes(indexKeys[k])
  {
    var n := |fieldNames| - 1;
    if k < n {
      WithIndicesSets(fields, fieldNames[..n], indexKeys[..n], k);
    }
  }

  /** The stored object carries every index key under the index's field name. */
  lemma BuildValueIndexKeys(serialized: seq<Bytes.uint8>, fieldNames: seq<string>, indexKeys: seq<seq<Bytes.uint8>>, k: nat)
    requires |indexKeys| == |fieldNames| && k < |fieldNames|
    requires forall i :: 0 <= i < |fieldNames| ==> fieldNames[i] != ValueField
    requires forall i, j :: 0 <= i < j < |fieldNames| ==> fieldNames[i] != fieldNames[j]
    ensures Field(BuildValue(serialized, fieldNames, indexKeys), fieldNames[k]) == Bytes(indexKeys[k])
  {
    WithIndicesSets(map[ValueField := Bytes(serialized)], fieldNames, indexKeys, k);
  }

  /** Why a stored value cannot be read back. */
  datatype ValueError = NotAnObject(typeName: string) | NotBytes

  /**
   * `deserializeValue`: null is null; without indices the stored value is
   * the bytes; with indices it must be an object, and the bytes are its "c".
   */
  function DeserializeValue(hasIndices: bool, stored: JsValue): (r: Result<Option<seq<Bytes.uint8>>, ValueError>)
    ensures stored == Null ==> r == Ok(None)
    ensures r.Ok? && r.value.Some? ==> (if hasIndices then Field(stored, ValueField) else stored) == Bytes(r.value.value)
  {
    if stored == Null then Ok(None)
    else
      var serialized := if hasIndices then
          if TypeOf(stored) != "object" then Err(NotAnObject(TypeOf(stored))) else Ok(Field(stored, ValueField))
        else Ok(stored);
      if serialized.Err? then Err(serialized.error)
      else if serialized.value.Bytes? then Ok(Some(serialized.value.data))
      else Err(NotBytes)
  }

  /** What `buildValue` stores, `deserializeValue` reads back, with or without indices. */
  lemma ValueRoundTrip(serialized: seq<Bytes.uint8>, fieldNames: seq<string>, indexKeys: seq<seq<Bytes.uint8>>)
    requires |indexKeys| == |fieldNames|
    requires forall i :: 0 <= i < |fieldNames| ==> fieldNames[i] != ValueField
    ensures DeserializeValue(fieldNames != [], BuildValue(serialized, fieldNames, indexKeys)) == Ok(Some(serialized))
  {
  }

  /** An index field name is "i" and digits, so never the value's field "c". */
  lemma FieldNameIsNotValueField(i: nat)
    ensures FieldName(i) != ValueField
  {
    assert FieldName(i)[0] == 'i';
  }

  // ------------------------------------------------------------ getAll

  /** A stored value that reads back as bytes, neither null nor malformed. */
  predicate ReadsBytes(r: Result<Option<seq<Bytes.uint8>>, ValueError>)
  {
    r.Ok? && r.value.Some?
  }

  /**
   * `getAll`: every stored value read back (`!!` throws on null), in the
   * store's order, then reversed in place for a decreasing query.
   */
  method GetAll(hasIndices: bool, stored: seq<JsValue>, increasing: bool) returns (r: Result<seq<seq<Bytes.uint8>>, ValueError>)
    ensures r.Ok? ==> |r.value| == |stored|
    ensures r.Ok? ==> forall i :: 0 <= i < |stored| ==>
      DeserializeValue(hasIndices, stored[i]) == Ok(Some(r.value[if increasing then i else |stored| - 1 - i]))
    ensures r.Err? ==> exists i :: 0 <= i < |stored| && !ReadsBytes(DeserializeValue(hasIndices, stored[i]))
  {
    if stored == [] {
      return Ok([]);
    }
    var deserializedResult := new seq<Bytes.uint8>[|stored|];
    for i := 0 to |stored|
      invariant forall k :: 0 <= k < i ==> DeserializeValue(hasIndices, stored[k]) == Ok(Some(deserializedResult[k]))
    {
      var value := DeserializeValue(hasIndices, stored[i]);
      if value.Err? {
        return Err(value.error);
      }
      if value.value.None? {
        return Err(NotBytes);
      }
      deserializedResult[i] := value.value.value;
    }
    if !increasing {
      ghost var before := deserializedResult[..];
      Reverse(deserializedResult);
      assert forall i :: 0 <= i < |stored| ==> deserializedResult[|stored| - 1 - i] == before[i];
    }
    return Ok(deserializedResult[..]);
  }

  /** `MutableList.reverse`, in place. */
  method Reverse<V>(a: array<V>)
    modifies a
    ensures a[..] == Reversed(old(a[..]))
  {
    ghost var original := a[..];
    var i, j := 0, a.Length - 1;
    while i < j
      invariant 0 <= i <= a.Length && j == a.Length - 1 - i
      invariant forall k :: 0 <= k < i ==> a[k] == original[a.Length - 1 - k] && a[a.Length - 1 - k] == original[k]
      invariant forall k :: i <= k <= j ==> a[k] == original[k]
    {
      a[i], a[j] := a[j], a[i];
      i, j := i + 1, j - 1;
    }
    assert a[..] == Reversed(original);
  }

  // ------------------------------------------------------------ the records `getAll` asks for

  /** A record of an object store (or of an index): its key bytes and the value stored with it. */
  datatype Record = Record(key: seq<Bytes.uint8>, value: JsValue)

  /**
   * AS WRITTEN, `store.getAll()` (no limit): the query's `range` is never
   * passed, so the request answers with every record's value, in key order.
   */
  function RequestedAsWritten(records: seq<Record>): (r: seq<JsValue>)
    ensures |r| == |records| && forall i :: 0 <= i < |records| ==> r[i] == records[i].value
  {
    seq(|records|, i requires 0 <= i < |records| => records[i].value)
  }

  /**
   * As intended, `store.getAll(range)`: the values of the records whose key
   * the query's bounds admit, in key order.
   */
  function RequestedInRange(records: seq<Record>, q: SqlClauses.Query): (r: seq<JsValue>)
    ensures |r| <= |records|
  {
    if records == [] then []
    else
      var last := records[|records| - 1];
      RequestedInRange(records[..|records| - 1], q) + (if SqlClauses.InRange(q, last.key) then [last.value] else [])
  }

  /** The smallest case: one record below a closed lower bound is returned by the request as written, and not by the intended one. */
  lemma GetAllBelowMinimum(q: SqlClauses.Query, v: JsValue)
    requires q.minBound == Some([1]) && !q.minBoundOpen && q.maxBound.None?
    ensures RequestedAsWritten([Record([0], v)]) == [v]
    ensures RequestedInRange([Record([0], v)], q) == []
  {
    assert Bytes.LexLess([0], [1]);
  }

  /**
   * As intended: the range request holds exactly the values of the records
   * in range, one per record and in key order (a record's position among
   * the selected ones is the number of selected records before it).
   */
  lemma {:induction false} RequestedInRangeSelects(records: seq<Record>, q: SqlClauses.Query)
    ensures |RequestedInRange(records, q)| == |InRangeIndices(records, q)|
    ensures forall k :: 0 <= k < |InRangeIndices(records, q)| ==>
      RequestedInRange(records, q)[k] == records[InRangeIndices(records, q)[k]].value
  {
    if records != [] {
      var n := |records| - 1;
      var init := records[..n];
      RequestedInRangeSelects(init, q);
      InRangeIndicesPrefix(records, q);
      var selected, indices := RequestedInRange(init, q), InRangeIndices(init, q);
      assert forall k :: 0 <= k < |indices| ==> init[indices[k]] == records[indices[k]];
      SelectsOneMore(records, selected, indices, SqlClauses.InRange(q, records[n].key));
    }
  }

  /** One more record: selecting it or not keeps values and positions in step. */
  lemma SelectsOneMore(records: seq<Record>, selected: seq<JsValue>, indices: seq<nat>, keep: bool)
    requires records != [] && |selected| == |indices|
    requires forall k :: 0 <= k < |indices| ==> indices[k] < |records| && selected[k] == records[indices[k]].value
    ensures var n := |records| - 1;
      var more, moreIndices := selected + (if keep then [records[n].value] else []), indices + (if keep then [n] else []);
      |more| == |moreIndices| && forall k :: 0 <= k < |moreIndices| ==> more[k] == records[moreIndices[k]].value
  {
  }

  /** The positions of the records in range, increasing. */
  function InRangeIndices(records: seq<Record>, q: SqlClauses.Query): (r: seq<nat>)
    ensures forall k :: 0 <= k < |r| ==> r[k] < |records| && SqlClauses.InRange(q, records[r[k]].key)
    ensures forall k, l :: 0 <= k < l < |r| ==> r[k] < r[l]
    ensures forall i :: 0 <= i < |records| && SqlClauses.InRange(q, records[i].key) ==> i in r
  {
    if records == [] then []
    else
      var n := |records| - 1;
      var init := InRangeIndices(records[..n], q);
      assert forall i :: 0 <= i < n ==> records[..n][i] == records[i];
      init + (if SqlClauses.InRange(q, records[n].key) then [n] else [])
  }

  lemma InRangeIndicesPrefix(records: seq<Record>, q: SqlClauses.Query)
    requires records != []
    ensures var n := |records| - 1;
      InRangeIndices(records, q) == InRangeIndices(records[..n], q) + (if SqlClauses.InRange(q, records[n].key) then [n] else [])
  {
  }

  // ------------------------------------------------------------ onupgradeneeded

  /** `for (oldStore in database.objectStoreNames) database.deleteObjectStore(oldStore)`. */
  function DeleteAll(storeNames: seq<string>): (r: seq<Action>)
    ensures |r| == |storeNames| && forall i :: 0 <= i < |r| ==> r[i] == DropStoredTable(storeNames[i])
  {
    seq(|storeNames|, i requires 0 <= i < |storeNames| => DropStoredTable(storeNames[i]))
  }

  /**
   * The object store requests of `onupgradeneeded`: over a version not in
   * the chain, delete every store (unless the database is new) and create
   * the target's, then `createdNew`; from a version in the chain, the same
   * steps as the SQLite backends. No callback is queued.
   */
  function UpgradeActions(schemas: seq<Schema>, oldVersion: int, storeNames: seq<string>): seq<Action>
    requires schemas != []
  {
    var target := schemas[|schemas| - 1];
    var from := IndexOfFirst(schemas, oldVersion);
    if from < 0 then
      (if oldVersion != 0 then DeleteAll(storeNames) else []) + Creates(target.tables) +
      (if target.createdNew then [RunCreatedNew(target.version)] else [])
    else Stepwise(schemas, from, |schemas| - 1)
  }

  /** `onupgradeneeded`, as the loops run. */
  method OnUpgradeNeeded(schemas: seq<Schema>, oldVersion: int, storeNames: seq<string>) returns (log: seq<Action>)
    requires schemas != []
    ensures log == UpgradeActions(schemas, oldVersion, storeNames)
  {
    var schema := schemas[|schemas| - 1];
    var migrateFromIndex := IndexOfFirst(schemas, oldVersion);
    if migrateFromIndex < 0 {
      log := [];
      if oldVersion != 0 {
        log := DeleteStores(storeNames);
      }
      var created := SqliteOpen.CreateAll(schema.tables);
      log := log + created;
      if schema.createdNew {
        log := log + [RunCreatedNew(schema.version)];
      }
    } else {
      log := UpgradeStepwise(schemas, migrateFromIndex);
    }
  }

  method DeleteStores(storeNames: seq<string>) returns (log: seq<Action>)
    ensures log == DeleteAll(storeNames)
  {
    log := [];
    for i := 0 to |storeNames|
      invariant log == DeleteAll(storeNames[..i])
    {
      log := log + [DropStoredTable(storeNames[i])];
    }
    assert storeNames[..|storeNames|] == storeNames;
  }

  /** The step-wise loop: create the new stores, migrate, delete the dropped stores. */
  method UpgradeStepwise(schemas: seq<Schema>, from: nat) returns (log: seq<Action>)
    requires from < |schemas|
    ensures log == Stepwise(schemas, from, |schemas| - 1)
  {
    log := [];
    StepwiseEmpty(schemas, from);
    for nextSchemaIndex := from + 1 to |schemas|
      invariant log == Stepwise(schemas, from, nextSchemaIndex - 1)
    {
      var currentSchema, nextSchema := schemas[nextSchemaIndex - 1], schemas[nextSchemaIndex];
      var step := UpgradeStep(currentSchema, nextSchema);
      StepwiseSnoc(schemas, from, nextSchemaIndex);
      log := log + step;
    }
  }

  /** One step: create the stores the next version adds, migrate, delete the stores it drops. */
  method UpgradeStep(currentSchema: Schema, nextSchema: Schema) returns (log: seq<Action>)
    ensures log == StepActions(currentSchema, nextSchema)
  {
    var created := SqliteOpen.CreateMissing(currentSchema.tables, nextSchema.tables);
    var migration: seq<Action> := [];
    if nextSchema.migrateFromPrevious {
      migration := [RunMigrateFromPrevious(nextSchema.version)];
    }
    var deleted := SqliteOpen.DropMissing(currentSchema.tables, nextSchema.tables);
    log := created + migration + deleted;
  }


  /** From a version in the chain, the upgrade leaves exactly the target's stores. */
  lemma UpgradeFromChainReachesTarget(schemas: seq<Schema>, oldVersion: int, storeNames: seq<string>)
    requires ValidSequence(schemas) && IndexOfFirst(schemas, oldVersion) >= 0
    ensures Apply(UpgradeActions(schemas, oldVersion, storeNames),
                  NamesOf(schemas[IndexOfFirst(schemas, oldVersion)].tables)) ==
            Some(NamesOf(schemas[|schemas| - 1].tables))
  {
    var from, top := IndexOfFirst(schemas, oldVersion), |schemas| - 1;
    assert Foreign(schemas, from, top, {});
    ValidSequenceChain(schemas, from, top, {});
    StepwiseReaches(schemas, from, top, {});
    assert {} + NamesOf(schemas[from].tables) == NamesOf(schemas[from].tables);
    assert {} + NamesOf(schemas[top].tables) == NamesOf(schemas[top].tables);
  }

  /** The names `objectStoreNames` lists. */
  function NameSet(names: seq<string>): set<string>
  {
    set n | n in names
  }

  /** Deleting stores of distinct names removes exactly those names. */
  lemma {:induction false} DeleteAllApply(storeNames: seq<string>, stored: set<string>)
    requires forall i, j :: 0 <= i < j < |storeNames| ==> storeNames[i] != storeNames[j]
    requires NameSet(storeNames) <= stored
    ensures Apply(DeleteAll(storeNames), stored) == Some(stored - NameSet(storeNames))
  {
    if storeNames == [] {
      assert DeleteAll(storeNames) == [];
      assert stored - NameSet(storeNames) == stored;
    } else {
      var n := |storeNames| - 1;
      var init, last := storeNames[..n], storeNames[n];
      assert storeNames == init + [last];
      assert NameSet(storeNames) == NameSet(init) + {last};
      DeleteAllApply(init, stored);
      assert DeleteAll(storeNames)[..n] == DeleteAll(init);
      assert last !in NameSet(init);
      assert (stored - NameSet(init)) - {last} == stored - NameSet(storeNames);
    }
  }

  /**
   * Over a version the chain does not know, the upgrade leaves exactly the
   * target's stores: every existing store is deleted first (on a new
   * database there is none).
   */
  lemma UpgradeFreshReplaces(schemas: seq<Schema>, oldVersion: int, storeNames: seq<string>, stored: set<string>)
    requires ValidSequence(schemas) && IndexOfFirst(schemas, oldVersion) < 0
    requires forall i, j :: 0 <= i < j < |storeNames| ==> storeNames[i] != storeNames[j]
    requires oldVersion != 0 ==> stored == NameSet(storeNames)
    requires oldVersion == 0 ==> stored == {}
    ensures Apply(UpgradeActions(schemas, oldVersion, storeNames), stored) == Some(NamesOf(schemas[|schemas| - 1].tables))
  {
    var target := schemas[|schemas| - 1];
    assert DistinctNames(target.tables);
    var deletes := if oldVersion != 0 then DeleteAll(storeNames) else [];
    var created := if target.createdNew then [RunCreatedNew(target.version)] else [];
    if oldVersion != 0 {
      DeleteAllApply(storeNames, stored);
      assert stored - NameSet(storeNames) == {};
    } else {
      assert Apply([], stored) == Some({});
    }
    CreatesApply(target.tables, {});
    assert {} + NamesOf(target.tables) == NamesOf(target.tables);
    ApplyConcat(deletes, Creates(target.tables), stored);
    ApplyNeutral(created, NamesOf(target.tables));
    ApplyConcat(deletes + Creates(target.tables), created, stored);
  }

  // ------------------------------------------------------------ index lookup

  /** The names `createIndex` gives the indices of a store: `canonicalName`. */
  function StoreIndexNames(tableName: string, indexNames: seq<string>): set<string>
  {
    set i | 0 <= i < |indexNames| :: CanonicalName(tableName, indexNames[i])
  }

  datatype LookupError = NotFoundError

  /** `IDBObjectStore.index(name)`: the index of that name, or `NotFoundError`. */
  function IndexOf(storeIndices: set<string>, name: string): (r: Result<string, LookupError>)
    ensures r.Ok? <==> name in storeIndices
  {
    if name in storeIndices then Ok(name) else Err(NotFoundError)
  }

  /**
   * AS WRITTEN: `queryable()` looks the index up by `index.name`, but the
   * store created it under `canonicalName`; a valid name has no "_", every
   * canonical name has one, so the lookup always fails.
   */
  lemma QueryByIndexNameFails(tableName: string, indexNames: seq<string>, k: nat)
    requires k < |indexNames| && ValidName(indexNames[k])
    ensures IndexOf(StoreIndexNames(tableName, indexNames), indexNames[k]) == Err(NotFoundError)
  {
    forall i | 0 <= i < |indexNames|
      ensures CanonicalName(tableName, indexNames[i]) != indexNames[k]
    {
      CanonicalNameNotValid(tableName, indexNames[i]);
    }
  }

  /** A canonical name holds "_", which no valid name does. */
  lemma CanonicalNameNotValid(tableName: string, indexName: string)
    ensures !ValidName(CanonicalName(tableName, indexName))
  {
    assert CanonicalName(tableName, indexName)[|tableName|] == '_';
  }

  /** As intended: looking the index up by `canonicalName` finds it. */
  lemma QueryByCanonicalNameFinds(tableName: string, indexNames: seq<string>, k: nat)
    requires k < |indexNames|
    ensures IndexOf(StoreIndexNames(tableName, indexNames), CanonicalName(tableName, indexNames[k])) ==
            Ok(CanonicalName(tableName, indexNames[k]))
  {
    assert CanonicalName(tableName, indexNames[k]) in StoreIndexNames(tableName, indexNames);
  }
}
