/** MongoCRUDController (older crud module): the same index checks with
    plain field names, the _id field with its identity constraint, and the
    predefined _id of a new document. */
module CrudController {
  import opened Values
  import opened Paths
  import opened ObjectIds
  import opened DocVerUtil
  import opened MongoController

  /** compareSortKeys(sortKey, fieldName, dir): the field's own name; the
      direction, read only when the names agree, must be a number. */
  function CrudCompareSortKeys(k: SortKey, name: string, dir: Value): (r: Result<bool>)
    ensures r.Fail? <==> PathText(k.field) == name && Direction(dir).Fail?
    ensures r == Ok(true) <==> PathText(k.field) == name && Direction(dir).Ok? && (k.desc <==> Direction(dir).value < 0)
  {
    if PathText(k.field) != name then Ok(false)
    else
      match Direction(dir)
      case Fail(f) => Fail(f)
      case Ok(d) => Ok(k.desc <==> d < 0)
  }

  /** For a case-sensitive key both versions compare alike. */
  lemma CompareVersionsAgree(k: SortKey, name: string, dir: Value)
    requires !k.caseInsensitive
    ensures CrudCompareSortKeys(k, name, dir) == CompareSortKeys(k, name, dir)
  {
  }

  /** The walk over equally long key lists with the older comparison: the
      first pair that raises, or that does not match, decides. */
  function CrudScanKeys(fields: seq<SortKey>, keys: seq<(string, Value)>): (r: Result<bool>)
    requires |fields| == |keys|
    ensures r == Ok(true) <==> forall i :: 0 <= i < |keys| ==> CrudCompareSortKeys(fields[i], keys[i].0, keys[i].1) == Ok(true)
  {
    if keys == [] then Ok(true)
    else
      match CrudCompareSortKeys(fields[0], keys[0].0, keys[0].1)
      case Fail(f) => Fail(f)
      case Ok(b) =>
        if !b then Ok(false)
        else
          assert forall i :: 0 < i < |keys| ==> fields[1..][i - 1] == fields[i] && keys[1..][i - 1] == keys[i];
          CrudScanKeys(fields[1..], keys[1..])
  }

  /** indexFieldsMatch(index, existingIndex) as written: a missing key
      document, or one with a different number of keys, counts as a
      match. */
  function CrudFieldsMatch(index: Index, existing: DbIndex): Result<bool> {
    if existing.key.None? || |existing.key.value| != |index.fields| then Ok(true)
    else CrudScanKeys(index.fields, existing.key.value)
  }

  /** indexFieldsMatch(index, existingIndex). */
  method CrudIndexFieldsMatch(index: Index, existing: DbIndex) returns (r: Result<bool>)
    ensures r == CrudFieldsMatch(index, existing)
  {
    if existing.key.None? {
      return Ok(true);
    }
    var keys := existing.key.value;
    var fields := index.fields;
    if |keys| != |fields| {
      return Ok(true);
    }
    var i := 0;
    while i < |keys|
      invariant 0 <= i <= |keys|
      invariant CrudScanKeys(fields[i..], keys[i..]) == CrudScanKeys(fields, keys)
    {
      var c := CrudCompareSortKeys(fields[i], keys[i].0, keys[i].1);
      assert fields[i..][1..] == fields[i + 1..] && keys[i..][1..] == keys[i + 1..];
      if c.Fail? {
        return Fail(c.fault);
      }
      if !c.value {
        return Ok(false);
      }
      i := i + 1;
    }
    assert fields[i..] == [] && keys[i..] == [];
    r := Ok(true);
  }

  /** Finding: an index on (a, b) matches a database index on c alone, and
      any index matches one whose key document is missing. */
  lemma CrudMatchIgnoresKeyCount()
    ensures var ix := Index.Index([SortKey([Field("a")], false, false), SortKey([Field("b")], false, false)], false);
      CrudFieldsMatch(ix, DbIndex(Some([("c", Num(1))]), None)) == Ok(true) &&
      CrudFieldsMatch(ix, DbIndex(None, None)) == Ok(true)
  {
  }

  /** Whenever the corrected comparison matches, so does the older one,
      for case-sensitive keys. */
  lemma CorrectedMatchIsStricter(index: Index, existing: DbIndex)
    requires forall i :: 0 <= i < |index.fields| ==> !index.fields[i].caseInsensitive
    requires existing.key.Some? && KeysMatch(index.fields, existing.key.value)
    ensures CrudFieldsMatch(index, existing) == Ok(true)
  {
  }

  // ---------------------------------------------------------------------------
  // ensureIdField with the identity constraint
  // ---------------------------------------------------------------------------

  /** The schema after the older ensureIdField: as in the newer one, and
      the _id field also gets an identity constraint when it has none. */
  function WithIdentityIdField(fs: seq<FieldNode>): (r: Result<seq<FieldNode>>)
    ensures WithIdField(fs).Fail? ==> r == WithIdField(fs)
    ensures r.Ok? ==> WithIdField(fs).Ok? && |r.value| == |WithIdField(fs).value|
    ensures r.Ok? ==> var i := FindField(r.value, "_id");
      i.Some? && r.value[i.value].SimpleField? && Identity in r.value[i.value].constraints
  {
    match WithIdField(fs)
    case Fail(f) => Fail(f)
    case Ok(gs) =>
      var i := FindField(gs, "_id").value;
      var f := gs[i];
      if Identity in f.constraints then Ok(gs)
      else
        var hs := gs[i := f.(constraints := f.constraints + [Identity])];
        FindFieldSameNames(gs, hs, "_id");
        Ok(hs)
  }

  /** Lists with the same names find a name at the same place. */
  lemma {:induction false} FindFieldSameNames(fs: seq<FieldNode>, gs: seq<FieldNode>, name: string)
    requires |fs| == |gs| && forall i :: 0 <= i < |fs| ==> fs[i].name == gs[i].name
    ensures FindField(fs, name) == FindField(gs, name)
    decreases |fs|
  {
    if fs != [] {
      FindFieldSameNames(fs[1..], gs[1..], name);
    }
  }

  /** ensureIdField(schema), the older version. */
  method EnsureIdFieldWithIdentity(schema: EntitySchema) returns (fault: Option<Fault>)
    modifies schema
    ensures WithIdentityIdField(old(schema.fields)).Ok? ==>
      fault.None? && schema.fields == WithIdentityIdField(old(schema.fields)).value
    ensures WithIdentityIdField(old(schema.fields)).Fail? ==>
      fault == Some(WithIdentityIdField(old(schema.fields)).fault) && schema.fields == old(schema.fields)
  {
    var f := FindField(schema.fields, "_id");
    if f.None? {
      schema.fields := schema.fields + [SimpleField("_id", "string", [])];
      FindFieldAppended(old(schema.fields), SimpleField("_id", "string", []));
    } else if !schema.fields[f.value].SimpleField? {
      return Some(Error(ERR_INVALID_ID));
    }
    var i := FindField(schema.fields, "_id").value;
    var idField := schema.fields[i];
    var found := false;
    var j := 0;
    while j < |idField.constraints|
      invariant 0 <= j <= |idField.constraints|
      invariant found <==> Identity in idField.constraints[..j]
    {
      if idField.constraints[j] == Identity {
        found := true;
        break;
      }
      j := j + 1;
    }
    assert found <==> Identity in idField.constraints by {
      if !found {
        assert idField.constraints[..j] == idField.constraints;
      }
    }
    if !found {
      schema.fields := schema.fields[i := idField.(constraints := idField.constraints + [Identity])];
    }
    fault := None;
  }

  /** An _id field without the constraint gets exactly one, at the end of
      its constraints; one that has it is left alone; a second application
      changes nothing. */
  lemma IdentityAddedOnce(fs: seq<FieldNode>)
    requires WithIdField(fs).Ok?
    ensures var gs := WithIdField(fs).value;
      var i := FindField(gs, "_id").value;
      var hs := WithIdentityIdField(fs).value;
      (Identity in gs[i].constraints ==> hs == gs) &&
      (Identity !in gs[i].constraints ==> hs == gs[i := gs[i].(constraints := gs[i].constraints + [Identity])])
    ensures WithIdentityIdField(WithIdentityIdField(fs).value) == WithIdentityIdField(fs)
  {
    var gs := WithIdField(fs).value;
    var hs := WithIdentityIdField(fs).value;
    var i := FindField(gs, "_id").value;
    assert FindField(hs, "_id") == Some(i) by {
      FindFieldSameNames(gs, hs, "_id");
    }
    assert WithIdField(hs) == Ok(hs);
  }

  // ---------------------------------------------------------------------------
  // updatePredefinedFields
  // ---------------------------------------------------------------------------

  /** updatePredefinedFields(ctx, doc): a document whose _id is missing or
      null gets the text of a new ObjectId (the generator's output is the
      parameter newId). */
  method UpdatePredefinedFields(doc: Document, newId: ObjectId)
    modifies doc
    ensures Lookup(old(doc.fields), "_id").Null? ==> doc.fields == Put(old(doc.fields), "_id", Str(ToHex(newId)))
    ensures !Lookup(old(doc.fields), "_id").Null? ==> doc.fields == old(doc.fields)
  {
    var idNode := Lookup(doc.fields, "_id");
    if idNode.Null? {
      doc.fields := Put(doc.fields, "_id", Str(ToHex(newId)));
    }
  }

  /** Afterwards the document has a non-null _id; an _id that was there is
      kept, and every other key is unchanged. */
  lemma PredefinedIdSet(fields: seq<Entry>, newId: ObjectId, k: string)
    requires k != "_id"
    ensures var r := if Lookup(fields, "_id").Null? then Put(fields, "_id", Str(ToHex(newId))) else fields;
      !Lookup(r, "_id").Null? &&
      (!Lookup(fields, "_id").Null? ==> Lookup(r, "_id") == Lookup(fields, "_id")) &&
      Lookup(r, k) == Lookup(fields, k)
  {
    if Lookup(fields, "_id").Null? {
      PutOther(fields, "_id", Str(ToHex(newId)), k);
    }
  }
}
