/** Pieces of ExpressionTranslator: the objectType restriction of a query,
    sort keys, the projection and value lists. Field paths are rendered by
    Translator.TranslatePath, which ExpressionTranslator.translatePath
    duplicates line for line. */
module ExpressionTranslator {
  import opened Text
  import opened Values
  import opened Paths
  import opened ObjectIds
  import opened DocTranslator
  import opened Translator

  const OBJECT_TYPE: string := "objectType"

  datatype LogicalOp = And | Or

  /** Query expressions: a field compared with a value, an n-ary logical
      expression, or any other kind, which this model does not look into. */
  datatype Query =
    | ValueComparison(field: string, value: Value)
    | NaryLogical(op: LogicalOp, queries: seq<Query>)
    | OtherQuery(id: nat)

  /** The truth of a query, given the truth of its comparisons and other
      leaves on some document. */
  predicate Holds(q: Query, leaf: Query -> bool)
    decreases q
  {
    match q
    case NaryLogical(op, qs) =>
      if op == And then forall i :: 0 <= i < |qs| ==> Holds(qs[i], leaf)
      else exists i :: 0 <= i < |qs| && Holds(qs[i], leaf)
    case _ => leaf(q)
  }

  function ObjectTypeIs(entity: string): Query {
    ValueComparison(OBJECT_TYPE, Str(entity))
  }

  /** appendObjectType(q, entity); None stands for a null query. */
  function AppendObjectType(q: Option<Query>, entity: string): (r: Query)
    ensures q.None? ==> r == ObjectTypeIs(entity)
    ensures q.Some? ==> (r.NaryLogical? && r.op == And && |r.queries| >= 1 &&
      r.queries[|r.queries| - 1] == ObjectTypeIs(entity))
  {
    match q
    case None => ObjectTypeIs(entity)
    case Some(x) =>
      if x.NaryLogical? && x.op == And then NaryLogical(And, x.queries + [ObjectTypeIs(entity)])
      else NaryLogical(And, [x, ObjectTypeIs(entity)])
  }

  /** The conjuncts of a query: the operands of a top-level AND, or the
      query itself. */
  function Conjuncts(q: Query): seq<Query> {
    if q.NaryLogical? && q.op == And then q.queries else [q]
  }

  /** The objectType test is appended after the existing conjuncts, which
      keep their order. */
  lemma AppendKeepsConjuncts(q: Query, entity: string)
    ensures Conjuncts(AppendObjectType(Some(q), entity)) == Conjuncts(q) + [ObjectTypeIs(entity)]
  {
  }

  /** The appended query holds exactly when the original query holds and
      the document has the entity's objectType. */
  lemma AppendObjectTypeHolds(q: Query, entity: string, leaf: Query -> bool)
    ensures Holds(AppendObjectType(Some(q), entity), leaf) <==> Holds(q, leaf) && leaf(ObjectTypeIs(entity))
  {
    var r := AppendObjectType(Some(q), entity);
    var ot := ObjectTypeIs(entity);
    if q.NaryLogical? && q.op == And {
      var qs := q.queries;
      assert r.queries == qs + [ot];
      if Holds(r, leaf) {
        forall i | 0 <= i < |qs| ensures Holds(qs[i], leaf) {
          assert r.queries[i] == qs[i];
        }
        assert r.queries[|qs|] == ot;
      }
      if Holds(q, leaf) && leaf(ot) {
        forall i | 0 <= i < |qs| + 1 ensures Holds(r.queries[i], leaf) {
          if i < |qs| {
            assert r.queries[i] == qs[i];
          }
        }
      }
    } else {
      assert r.queries == [q, ot];
      assert Holds(ot, leaf) == leaf(ot);
      assert Holds(r, leaf) <==> Holds(r.queries[0], leaf) && Holds(r.queries[1], leaf);
    }
  }

  // ---------------------------------------------------------------------------
  // Sort keys and projections: documents built by successive puts
  // ---------------------------------------------------------------------------

  /** Successive put of every pair into a document. */
  function PutAll(es: seq<Entry>, ps: seq<Entry>): seq<Entry>
    decreases |ps|
  {
    if ps == [] then es else PutAll(Put(es, ps[0].key, ps[0].value), ps[1..])
  }

  predicate DistinctKeys(es: seq<Entry>) {
    forall i, j :: 0 <= i < j < |es| ==> es[i].key != es[j].key
  }

  /** With distinct keys, successive puts keep every pair in order. */
  lemma {:induction false} PutAllDistinct(es: seq<Entry>, ps: seq<Entry>)
    requires DistinctKeys(es + ps)
    ensures PutAll(es, ps) == es + ps
    decreases |ps|
  {
    if ps != [] {
      var e := ps[0];
      var es2, rest := es + [e], ps[1..];
      assert Put(es, e.key, e.value) == es2 by {
        FirstKeyIsNew(es, ps);
        PutNew(es, e.key, e.value);
      }
      assert DistinctKeys(es2 + rest) by {
        assert es2 + rest == es + ps;
      }
      PutAllDistinct(es2, rest);
      assert es2 + rest == es + ps;
    }
  }

  lemma FirstKeyIsNew(es: seq<Entry>, ps: seq<Entry>)
    requires DistinctKeys(es + ps) && ps != []
    ensures !Has(es, ps[0].key)
  {
    forall i | 0 <= i < |es| ensures Keys(es)[i] != ps[0].key {
      assert (es + ps)[i] == es[i] && (es + ps)[|es|] == ps[0];
    }
  }

  /** A key no pair names keeps its value. */
  lemma {:induction false} PutAllOther(es: seq<Entry>, ps: seq<Entry>, k: string)
    requires forall i :: 0 <= i < |ps| ==> ps[i].key != k
    ensures Lookup(PutAll(es, ps), k) == Lookup(es, k)
    ensures Has(PutAll(es, ps), k) <==> Has(es, k)
    decreases |ps|
  {
    if ps != [] {
      PutOther(es, ps[0].key, ps[0].value, k);
      PutAllOther(Put(es, ps[0].key, ps[0].value), ps[1..], k);
    }
  }

  /** When every pair carries the same value, every key put holds it. */
  lemma PutAllSame(es: seq<Entry>, ps: seq<Entry>, v: Value, i: nat)
    requires forall j :: 0 <= j < |ps| ==> ps[j].value == v
    requires i < |ps|
    ensures Has(PutAll(es, ps), ps[i].key) && Lookup(PutAll(es, ps), ps[i].key) == v
  {
    PutAllKeeps(es, ps, v, ps[i].key, i);
  }

  /** Key k holds v after the puts when the i-th pair puts it (i >= 0), or
      when the document already holds it (i = -1): the pairs after it put
      either v again or another key. */
  lemma {:induction false} PutAllKeeps(es: seq<Entry>, ps: seq<Entry>, v: Value, k: string, i: int)
    requires forall j :: 0 <= j < |ps| ==> ps[j].value == v
    requires -1 <= i < |ps|
    requires i >= 0 ==> ps[i].key == k
    requires i < 0 ==> Has(es, k) && Lookup(es, k) == v
    ensures Has(PutAll(es, ps), k) && Lookup(PutAll(es, ps), k) == v
    decreases |ps|
  {
    if ps != [] {
      var es' := Put(es, ps[0].key, ps[0].value);
      var rest := ps[1..];
      assert PutAll(es, ps) == PutAll(es', rest);
      assert forall j :: 0 <= j < |rest| ==> rest[j] == ps[j + 1];
      if i > 0 {
        PutAllKeeps(es', rest, v, k, i - 1);
      } else {
        if ps[0].key != k {
          PutOther(es, ps[0].key, ps[0].value, k);
        }
        PutAllKeeps(es', rest, v, k, -1);
      }
    }
  }

  /** The direction a sort key is stored with. */
  function Direction(desc: bool): (v: Value)
    ensures v.Num? && (v.n < 0 <==> desc) && (v.n == 1 || v.n == -1)
  {
    Num(if desc then -1 else 1)
  }

  datatype SortKey = SortKey(field: Path, desc: bool)

  /** translateSortKey: a one-field document. */
  function TranslateSortKey(k: SortKey): (r: Entry)
    ensures r.key == MongoPath(k.field)
    ensures r.value.Num? && (r.value.n == -1 <==> k.desc) && (r.value.n == 1 <==> !k.desc)
  {
    Entry(MongoPath(k.field), Direction(k.desc))
  }

  function SortEntries(keys: seq<SortKey>): (ps: seq<Entry>)
    ensures |ps| == |keys|
    ensures forall i :: 0 <= i < |keys| ==> ps[i] == TranslateSortKey(keys[i])
  {
    if keys == [] then [] else [TranslateSortKey(keys[0])] + SortEntries(keys[1..])
  }

  /** translateCompositeSortKey: the document of all keys, put one after
      the other; no key at all gives null (None). */
  method TranslateCompositeSortKey(keys: seq<SortKey>) returns (r: Option<seq<Entry>>)
    ensures keys == [] <==> r.None?
    ensures r.Some? ==> r.value == PutAll([], SortEntries(keys))
  {
    r := None;
    var i := 0;
    while i < |keys|
      invariant 0 <= i <= |keys|
      invariant i == 0 <==> r.None?
      invariant r.Some? ==> PutAll(r.value, SortEntries(keys)[i..]) == PutAll([], SortEntries(keys))
    {
      var k := TranslateSortKey(keys[i]);
      assert SortEntries(keys)[i..][0] == k;
      assert SortEntries(keys)[i..][1..] == SortEntries(keys)[i + 1..];
      if r.None? {
        assert SortEntries(keys)[0..] == SortEntries(keys);
        r := Some(Put([], k.key, k.value));
      } else {
        r := Some(Put(r.value, k.key, k.value));
      }
      i := i + 1;
    }
  }

  /** With distinct translated fields the sort document lists the keys in
      the given order, each descending exactly when the key is. */
  lemma CompositeSortKeyOrder(keys: seq<SortKey>)
    requires forall i, j :: 0 <= i < j < |keys| ==> MongoPath(keys[i].field) != MongoPath(keys[j].field)
    ensures var d := PutAll([], SortEntries(keys));
      |d| == |keys| &&
      forall i :: 0 <= i < |keys| ==> d[i].key == MongoPath(keys[i].field) && d[i].value.Num? && (d[i].value.n < 0 <==> keys[i].desc)
  {
    assert [] + SortEntries(keys) == SortEntries(keys);
    PutAllDistinct([], SortEntries(keys));
  }

  /** translateProjection: 1 for every required field, then for the hidden
      sub-document. */
  method TranslateProjection(fields: seq<Path>) returns (r: seq<Entry>)
    ensures r == PutAll([], ProjectionEntries(fields))
  {
    ghost var ps := ProjectionEntries(fields);
    r := [];
    var i := 0;
    while i < |fields|
      invariant 0 <= i <= |fields|
      invariant PutAll(r, ps[i..]) == PutAll([], ps)
    {
      var f := TranslatePath(fields[i]);
      PutAllStep(r, ps, i);
      r := Put(r, f, Num(1));
      i := i + 1;
    }
    var h := TranslatePath([Field(HIDDEN)]);
    PutAllStep(r, ps, i);
    r := Put(r, h, Num(1));
  }

  /** The puts from pair i on: pair i first, then the rest. */
  lemma PutAllStep(es: seq<Entry>, ps: seq<Entry>, i: nat)
    requires i < |ps|
    ensures PutAll(es, ps[i..]) == PutAll(Put(es, ps[i].key, ps[i].value), ps[i + 1..])
    ensures i + 1 == |ps| ==> PutAll(es, ps[i..]) == Put(es, ps[i].key, ps[i].value)
  {
    assert ps[i..][1..] == ps[i + 1..];
  }

  function ProjectionEntries(fields: seq<Path>): (ps: seq<Entry>)
    ensures |ps| == |fields| + 1
    ensures forall i :: 0 <= i < |fields| ==> ps[i] == Entry(MongoPath(fields[i]), Num(1))
    ensures ps[|fields|] == Entry(MongoPath([Field(HIDDEN)]), Num(1))
    ensures forall i :: 0 <= i < |ps| ==> ps[i].value == Num(1)
  {
    if fields == [] then [Entry(MongoPath([Field(HIDDEN)]), Num(1))]
    else [Entry(MongoPath(fields[0]), Num(1))] + ProjectionEntries(fields[1..])
  }

  /** The projection includes every required field and the hidden
      sub-document, all with 1. */
  lemma ProjectionIncludesHidden(fields: seq<Path>)
    ensures var d := PutAll([], ProjectionEntries(fields));
      Has(d, HIDDEN) && Lookup(d, HIDDEN) == Num(1) &&
      forall i :: 0 <= i < |fields| ==> Has(d, MongoPath(fields[i])) && Lookup(d, MongoPath(fields[i])) == Num(1)
  {
    var ps := ProjectionEntries(fields);
    HiddenPathText();
    PutAllSame([], ps, Num(1), |fields|);
    forall i | 0 <= i < |fields|
      ensures Has(PutAll([], ps), MongoPath(fields[i])) && Lookup(PutAll([], ps), MongoPath(fields[i])) == Num(1)
    {
      PutAllSame([], ps, Num(1), i);
    }
  }

  /** The hidden sub-document's path renders as its bare name. */
  lemma HiddenPathText()
    ensures MongoPath([Field(HIDDEN)]) == HIDDEN
  {
    assert [Field(HIDDEN)][..0] == [];
    assert SegText(Field(HIDDEN)) == HIDDEN;
  }

  // ---------------------------------------------------------------------------
  // Value lists
  // ---------------------------------------------------------------------------

  /** One entry of translateValueList: a null Value object or a null value
      stays null; any other value is cast to the field type (a cast that
      cannot convert the value raises its fault), big numbers become
      strings and, in an _id list, ObjectId text becomes an ObjectId. */
  function TranslateValue(cast: Value -> Result<Value>, v: Option<Value>, idList: bool): (r: Result<Value>)
    ensures v.None? || v.value.Null? ==> r == Ok(Null)
    ensures r.Fail? <==> v.Some? && !v.value.Null? && cast(v.value).Fail?
    ensures r.Fail? ==> r.fault == cast(v.value).fault
    ensures r.Ok? ==> !r.value.BigNum?
    ensures !idList && v.Some? && !v.value.Null? && cast(v.value).Ok? ==> r == Ok(FilterBigNumbers(cast(v.value).value))
  {
    if v.None? || v.value.Null? then Ok(Null)
    else
      match cast(v.value)
      case Fail(f) => Fail(f)
      case Ok(c) =>
        var x := FilterBigNumbers(c);
        Ok(if idList then CreateIdFrom(x) else x)
  }

  /** Entry k is the first entry of vs whose translation fails, with fault f. */
  predicate FirstCastFault(cast: Value -> Result<Value>, vs: seq<Option<Value>>, idList: bool, k: int, f: Fault) {
    && 0 <= k < |vs|
    && TranslateValue(cast, vs[k], idList) == Fail(f)
    && forall j :: 0 <= j < k ==> TranslateValue(cast, vs[j], idList).Ok?
  }

  /** translateValueList(t, values, idList); None stands for a null list,
      which gives an empty one. The first entry whose cast fails stops the
      translation with that fault. */
  method TranslateValueList(cast: Value -> Result<Value>, values: Option<seq<Option<Value>>>, idList: bool)
    returns (r: Result<seq<Value>>)
    ensures values.None? ==> r == Ok([])
    ensures values.Some? && r.Ok? ==>
      && |r.value| == |values.value|
      && forall i :: 0 <= i < |r.value| ==> TranslateValue(cast, values.value[i], idList) == Ok(r.value[i])
    ensures values.Some? && r.Fail? ==>
      exists k :: FirstCastFault(cast, values.value, idList, k, r.fault)
  {
    var out: seq<Value> := [];
    if values.Some? {
      var vs := values.value;
      var i := 0;
      while i < |vs|
        invariant 0 <= i <= |vs| && |out| == i
        invariant forall j :: 0 <= j < i ==> TranslateValue(cast, vs[j], idList) == Ok(out[j])
      {
        var x: Value := Null;
        if vs[i].Some? && !vs[i].value.Null? {
          var c := cast(vs[i].value);
          if c.Fail? {
            assert FirstCastFault(cast, vs, idList, i, c.fault);
            return Fail(c.fault);
          }
          x := FilterBigNumbers(c.value);
          if idList {
            x := CreateIdFrom(x);
          }
        }
        out := out + [x];
        i := i + 1;
      }
    }
    r := Ok(out);
  }

  /** In an _id list, valid ObjectId text becomes the ObjectId it spells. */
  lemma IdListConverts(cast: Value -> Result<Value>, v: Value)
    requires !v.Null? && cast(v).Ok? && cast(v).value.Str? && IsValid(cast(v).value.s)
    ensures TranslateValue(cast, Some(v), true) == Ok(Oid(FromHex(cast(v).value.s)))
  {
    assert ToText(cast(v).value) == cast(v).value.s;
  }
}
