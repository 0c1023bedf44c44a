/**
 * Tables of the older `ud` generation. Its `Index` is the current one
 * (`Schemas.Index`, owned here by a `LegacyTable`) and its tables link
 * their indices with the same loop, but a table draws no id: the older
 * backends find tables by name.
 */
module LegacySchemas {
  import opened Wrappers
  import opened Names
  import Schemas

  class LegacyTable {
    const name: string
    const indices: seq<Schemas.Index<LegacyTable>>

    constructor (name: string, indices: seq<Schemas.Index<LegacyTable>>)
      ensures this.name == name && this.indices == indices
    {
      this.name := name;
      this.indices := indices;
    }
  }

  /**
   * `Table(...)` of the older generation: validate the name, then attach
   * and name the indices in order with the loop both generations share;
   * an index already attached (or listed twice) throws
   * `IllegalStateException` and leaves the earlier ones attached. Unlike
   * the current `Table`, no id is drawn.
   */
  method NewLegacyTable(name: string, indices: seq<Schemas.Index<LegacyTable>>) returns (r: Result<LegacyTable, Schemas.TableError>)
    modifies indices
    ensures !ValidName(name) ==> r == Err(Schemas.InvalidName(ValidateName(name).error))
    ensures !ValidName(name) ==> forall x :: x in indices ==> unchanged(x)
    ensures ValidName(name) ==> (r.Ok? <==> old(Schemas.Attachable(indices)))
    ensures r.Ok? ==> fresh(r.value) && r.value.name == name && r.value.indices == indices
    ensures r.Ok? ==> Schemas.AttachedPrefix(r.value, name, indices, |indices|)
    ensures r.Ok? ==> forall i :: 0 <= i < |indices| ==> indices[i].Owner() == Ok(r.value)
    ensures ValidName(name) && r.Err? ==>
      r.error == Schemas.IndexAlreadyAttached &&
      exists k :: 0 <= k < |indices| && old(Schemas.BlockedAt(indices, k)) &&
        forall i :: 0 <= i < k ==> indices[i].internalTable.Some? && fresh(indices[i].internalTable.value)
  {
    var table := new LegacyTable(name, indices);
    var valid := ValidateName(name);
    if valid.Fail? {
      return Err(Schemas.InvalidName(valid.error));
    }
    var attached := Schemas.AttachAll(table, name, indices);
    if !attached {
      return Err(Schemas.IndexAlreadyAttached);
    }
    return Ok(table);
  }
}
