/** MongoCRUDController (mongo module): checking index definitions before
    they are stored, and matching them against the indexes the database
    already has. */
module MongoController {
  import opened Text
  import opened Values
  import opened Paths
  import opened Translator
  import opened DocTranslator

  const ERR_INVALID_INDEX_FIELD := "mongo-crud:InvalidIndexField"
  const ERR_DUPLICATE_INDEX := "mongo-crud:DuplicateIndex"
  const ERR_RESERVED_FIELD := "mongo-crud:ReservedFieldInMetadata"
  /** Stands for MongoMetadataConstants.ERR_INVALID_ID, a class that is not
      part of this model, so its text is not known here. */
  const ERR_INVALID_ID := "ERR_INVALID_ID"

  /** An index key of the metadata. The older API has no case-insensitive
      keys; there the flag is false. */
  datatype SortKey = SortKey(field: Path, desc: bool, caseInsensitive: bool)

  datatype Index = Index(fields: seq<SortKey>, unique: bool)

  /** An index as the database lists it: the key document (field name and
      numeric direction, in order) and the unique flag, either of which may
      be missing. */
  datatype DbIndex = DbIndex(key: Option<seq<(string, Value)>>, unique: Option<bool>)

  const ID_PATH: Path := [Field("_id")]

  /** The index list of an entity, replaced as a whole by setIndexes. */
  class EntityIndexes {
    var indexes: seq<Index>

    constructor (xs: seq<Index>)
      ensures indexes == xs
    {
      indexes := xs;
    }
  }

  // ---------------------------------------------------------------------------
  // translateIndexPath
  // ---------------------------------------------------------------------------

  predicate NoIndexSegment(p: Path) {
    forall i :: 0 <= i < |p| ==> !p[i].Index?
  }

  /** The path an index key is stored under: the wildcards are dropped, and
      an array index is refused. */
  function IndexPath(p: Path): Result<Path> {
    if NoIndexSegment(p) then Ok(RemoveAny(p)) else Fail(Error(ERR_INVALID_INDEX_FIELD))
  }

  /** translateIndexPath(p). */
  method TranslateIndexPath(p: Path) returns (r: Result<Path>)
    ensures r == IndexPath(p)
    ensures r.Ok? ==> NoIndexSegment(p) && r.value == RemoveAny(p)
    ensures r.Fail? ==> exists i :: 0 <= i < |p| && p[i].Index?
  {
    var q: Path := [];
    var i := 0;
    while i < |p|
      invariant 0 <= i <= |p|
      invariant NoIndexSegment(p[..i]) && q == RemoveAny(p[..i])
    {
      assert p[..i + 1][..i] == p[..i];
      if !p[i].Any? {
        if p[i].Index? {
          return Fail(Error(ERR_INVALID_INDEX_FIELD));
        }
        q := q + [p[i]];
      }
      i := i + 1;
    }
    assert p[..|p|] == p;
    r := Ok(q);
  }

  /** Every segment RemoveAny keeps comes from the path. */
  lemma {:induction false} RemoveAnyFrom(p: Path)
    ensures forall s :: s in RemoveAny(p) ==> s in p
    decreases |p|
  {
    if p != [] {
      var q := p[..|p| - 1];
      RemoveAnyFrom(q);
      assert forall s :: s in q ==> s in p;
    }
  }

  /** A path without wildcards is its own RemoveAny. */
  lemma {:induction false} RemoveAnyNoAny(p: Path)
    requires forall i :: 0 <= i < |p| ==> !p[i].Any?
    ensures RemoveAny(p) == p
    decreases |p|
  {
    if p != [] {
      var q := p[..|p| - 1];
      RemoveAnyNoAny(q);
      assert q + [p[|p| - 1]] == p;
    }
  }

  /** The stored path has neither wildcards nor indexes, so translating it
      again changes nothing. */
  lemma IndexPathIdempotent(p: Path)
    requires IndexPath(p).Ok?
    ensures var q := IndexPath(p).value;
      NoIndexSegment(q) && (forall i :: 0 <= i < |q| ==> !q[i].Any?) && IndexPath(q) == Ok(q)
  {
    var q := RemoveAny(p);
    RemoveAnyFrom(p);
    forall i | 0 <= i < |q|
      ensures !q[i].Index?
    {
      assert q[i] in p;
    }
    RemoveAnyNoAny(q);
  }

  // ---------------------------------------------------------------------------
  // validateNoHiddenInMetaData
  // ---------------------------------------------------------------------------

  /** The last segment of p is the field "@mongoHidden". */
  predicate EndsInHidden(p: Path) {
    p != [] && p[|p| - 1] == Field(HIDDEN)
  }

  /** The check compares the text of the last segment with "@mongoHidden";
      no index and no wildcard has that text, so it is the same test. */
  lemma EndsInHiddenText(p: Path)
    ensures EndsInHidden(p) <==> p != [] && SegText(p[|p| - 1]) == HIDDEN
  {
    if p != [] {
      var x := p[|p| - 1];
      if x.Index? {
        var t := NatToString(x.i);
        assert IsDigit(t[0]);
        assert HIDDEN[0] == '@';
      } else if x.Any? {
        assert |HIDDEN| != 1;
      }
    }
  }

  /** validateNoHiddenInMetaData: the field paths of the metadata, in cursor
      order; a field named "@mongoHidden" anywhere is refused. */
  method ValidateNoHiddenInMetaData(fields: seq<Path>) returns (r: Option<Fault>)
    ensures r.None? <==> forall i :: 0 <= i < |fields| ==> !EndsInHidden(fields[i])
    ensures r.Some? ==> r.value == Error(ERR_RESERVED_FIELD)
  {
    var i := 0;
    while i < |fields|
      invariant 0 <= i <= |fields|
      invariant forall j :: 0 <= j < i ==> !EndsInHidden(fields[j])
    {
      if EndsInHidden(fields[i]) {
        return Some(Error(ERR_RESERVED_FIELD));
      }
      i := i + 1;
    }
    r := None;
  }

  // ---------------------------------------------------------------------------
  // validateSaneIndexSet and sameSortKeys
  // ---------------------------------------------------------------------------

  /** Two key lists with the same signature: same length, and pairwise the
      same field and direction (the case-insensitive flag plays no part). */
  predicate SameSignature(k1: seq<SortKey>, k2: seq<SortKey>) {
    |k1| == |k2| && forall i :: 0 <= i < |k1| ==> k1[i].field == k2[i].field && k1[i].desc == k2[i].desc
  }

  /** sameSortKeys(keys1, keys2). */
  method SameSortKeys(k1: seq<SortKey>, k2: seq<SortKey>) returns (r: bool)
    ensures r <==> SameSignature(k1, k2)
  {
    if |k1| != |k2| {
      return false;
    }
    var i := 0;
    while i < |k1|
      invariant 0 <= i <= |k1|
      invariant forall j :: 0 <= j < i ==> k1[j].field == k2[j].field && k1[j].desc == k2[j].desc
    {
      if k1[i].field != k2[i].field || k1[i].desc != k2[i].desc {
        return false;
      }
      i := i + 1;
    }
    r := true;
  }

  /** validateSaneIndexSet: no two indexes may have the same signature,
      whatever their options. */
  method ValidateSaneIndexSet(indexes: seq<Index>) returns (r: Option<Fault>)
    ensures r.None? <==> forall i, j :: 0 <= i < j < |indexes| ==> !SameSignature(indexes[i].fields, indexes[j].fields)
    ensures r.Some? ==> r.value == Error(ERR_DUPLICATE_INDEX)
  {
    var n := |indexes|;
    var i := 0;
    while i < n
      invariant 0 <= i <= n
      invariant forall a, b :: 0 <= a < i && a < b < n ==> !SameSignature(indexes[a].fields, indexes[b].fields)
    {
      var j := i + 1;
      while j < n
        invariant i + 1 <= j <= n
        invariant forall a, b :: 0 <= a < i && a < b < n ==> !SameSignature(indexes[a].fields, indexes[b].fields)
        invariant forall b :: i < b < j ==> !SameSignature(indexes[i].fields, indexes[b].fields)
      {
        var same := SameSortKeys(indexes[i].fields, indexes[j].fields);
        if same {
          return Some(Error(ERR_DUPLICATE_INDEX));
        }
        j := j + 1;
      }
      i := i + 1;
    }
    r := None;
  }

  // ---------------------------------------------------------------------------
  // validateIndexFields
  // ---------------------------------------------------------------------------

  /** The inner loop of validateIndexFields from key k on, acc being the key
      list built so far. A key whose stored path differs from its own is
      replaced by a case-sensitive key on the stored path (IndexSortKey is
      not part of this model; its two-argument constructor is taken to make
      a case-sensitive key). The code as written puts the replacement at
      slot 0, the position counter never moving; fixed = true puts it at
      slot k. */
  function RewriteKeys(fields: seq<SortKey>, k: nat, acc: seq<SortKey>, fixed: bool): (r: Result<seq<SortKey>>)
    requires k <= |fields| && |acc| == |fields|
    ensures r.Ok? ==> |r.value| == |fields|
    decreases |fields| - k
  {
    if k == |fields| then Ok(acc)
    else
      var key := fields[k];
      match IndexPath(key.field)
      case Fail(f) => Fail(f)
      case Ok(np) =>
        var acc' := if np == key.field then acc else acc[(if fixed then k else 0) := SortKey(np, key.desc, false)];
        RewriteKeys(fields, k + 1, acc', fixed)
  }

  /** One index as validateIndexFields leaves it. */
  function RewriteIndex(ix: Index): Result<Index> {
    match RewriteKeys(ix.fields, 0, ix.fields, false)
    case Fail(f) => Fail(f)
    case Ok(fs) => Ok(ix.(fields := fs))
  }

  /** The index list after validateIndexFields from index k on, and the
      error it stops at; the indexes before a failing one stay rewritten. */
  function ValidateFrom(xs: seq<Index>, k: nat): (r: (seq<Index>, Option<Fault>))
    requires k <= |xs|
    ensures |r.0| == |xs|
    decreases |xs| - k
  {
    if k == |xs| then (xs, None)
    else
      match RewriteIndex(xs[k])
      case Fail(f) => (xs, Some(f))
      case Ok(ix) => ValidateFrom(xs[k := ix], k + 1)
  }

  /** The inner loop of validateIndexFields, over the keys of one index. */
  method RewriteIndexKeys(fields: seq<SortKey>) returns (r: Result<seq<SortKey>>)
    ensures r == RewriteKeys(fields, 0, fields, false)
  {
    var newFields := fields;
    var k := 0;
    while k < |fields|
      invariant 0 <= k <= |fields| && |newFields| == |fields|
      invariant RewriteKeys(fields, k, newFields, false) == RewriteKeys(fields, 0, fields, false)
    {
      var p := fields[k].field;
      var newPath := TranslateIndexPath(p);
      if newPath.Fail? {
        return Fail(newPath.fault);
      }
      if p != newPath.value {
        newFields := newFields[0 := SortKey(newPath.value, fields[k].desc, false)];
      }
      k := k + 1;
    }
    r := Ok(newFields);
  }

  /** validateIndexFields(ei). */
  method ValidateIndexFields(ei: EntityIndexes) returns (fault: Option<Fault>)
    modifies ei
    ensures (ei.indexes, fault) == ValidateFrom(old(ei.indexes), 0)
  {
    var k := 0;
    while k < |ei.indexes|
      invariant 0 <= k <= |ei.indexes|
      invariant ValidateFrom(ei.indexes, k) == ValidateFrom(old(ei.indexes), 0)
    {
      var ix := ei.indexes[k];
      var r := RewriteIndexKeys(ix.fields);
      if r.Fail? {
        return Some(r.fault);
      }
      ei.indexes := ei.indexes[k := ix.(fields := r.value)];
      k := k + 1;
    }
    fault := None;
  }

  /** A key list whose paths have neither wildcards nor indexes is left
      exactly as it is. */
  lemma {:induction false} NothingToRewrite(fields: seq<SortKey>, k: nat, acc: seq<SortKey>, fixed: bool)
    requires k <= |fields| && |acc| == |fields|
    requires forall j :: 0 <= j < |fields| ==> (NoIndexSegment(fields[j].field) &&
      forall i :: 0 <= i < |fields[j].field| ==> !fields[j].field[i].Any?)
    ensures RewriteKeys(fields, k, acc, fixed) == Ok(acc)
    decreases |fields| - k
  {
    if k < |fields| {
      RemoveAnyNoAny(fields[k].field);
      NothingToRewrite(fields, k + 1, acc, fixed);
    }
  }

  /** Finding: a wildcard in the second key of an index (keys "a" and
      "x.*.y", say) overwrites the first key, and the second key keeps its
      wildcard. */
  lemma RewriteLandsAtSlotZero(n: string, x: string, y: string)
    ensures var a := SortKey([Field(n)], false, false);
      var b := SortKey([Field(x), Any, Field(y)], false, false);
      RewriteKeys([a, b], 0, [a, b], false) == Ok([SortKey([Field(x), Field(y)], false, false), b])
  {
    var a := SortKey([Field(n)], false, false);
    var b := SortKey([Field(x), Any, Field(y)], false, false);
    var np := [Field(x), Field(y)];
    var acc := [a, b];
    var acc' := acc[0 := SortKey(np, false, false)];
    assert RewriteKeys([a, b], 0, acc, false) == RewriteKeys([a, b], 1, acc, false) by {
      assert IndexPath(a.field) == Ok(a.field) by {
        RemoveAnyNoAny(a.field);
      }
    }
    assert RewriteKeys([a, b], 1, acc, false) == RewriteKeys([a, b], 2, acc', false) by {
      assert IndexPath(b.field) == Ok(np) by {
        RemoveAnyInner(Field(x), Field(y));
      }
      assert np != b.field;
    }
    assert acc' == [SortKey(np, false, false), b];
  }

  lemma RemoveAnyInner(x: Segment, y: Segment)
    requires !x.Any? && !y.Any?
    ensures RemoveAny([x, Any, y]) == [x, y]
  {
    var p := [x, Any, y];
    assert [x][..0] == [] && RemoveAny([x]) == [x];
    assert [x, Any][..1] == [x] && RemoveAny([x, Any]) == [x];
    assert p[..2] == [x, Any] && RemoveAny(p) == [x] + [y];
  }

  /** The key a rewritten index holds in place of k. */
  function Rewritten(k: SortKey): SortKey
    requires NoIndexSegment(k.field)
  {
    var np := RemoveAny(k.field);
    if np == k.field then k else SortKey(np, k.desc, false)
  }

  /** With the counter advanced, every key is replaced by its own rewrite,
      in place: the stored path of each key, its direction kept. The
      rewrite fails exactly when some key has an index segment. */
  lemma {:induction false} RewriteFixedInPlace(fields: seq<SortKey>, k: nat, acc: seq<SortKey>)
    requires k <= |fields| && |acc| == |fields|
    requires forall j :: 0 <= j < k ==> NoIndexSegment(fields[j].field) && acc[j] == Rewritten(fields[j])
    requires forall j :: k <= j < |fields| ==> acc[j] == fields[j]
    ensures var r := RewriteKeys(fields, k, acc, true);
      (r.Fail? <==> exists j :: k <= j < |fields| && !NoIndexSegment(fields[j].field)) &&
      (r.Ok? ==> forall j :: 0 <= j < |fields| ==> (NoIndexSegment(fields[j].field) && r.value[j] == Rewritten(fields[j]) &&
        r.value[j].field == RemoveAny(fields[j].field) && r.value[j].desc == fields[j].desc))
    decreases |fields| - k
  {
    if k < |fields| {
      var key := fields[k];
      if NoIndexSegment(key.field) {
        var np := RemoveAny(key.field);
        var acc' := if np == key.field then acc else acc[k := SortKey(np, key.desc, false)];
        assert acc'[k] == Rewritten(key);
        RewriteFixedInPlace(fields, k + 1, acc');
      }
    }
  }

  // ---------------------------------------------------------------------------
  // ensureIdIndex and isIdIndex
  // ---------------------------------------------------------------------------

  predicate IsUniqueIdIndex(ix: Index) {
    |ix.fields| == 1 && ix.fields[0].field == ID_PATH && ix.unique
  }

  predicate HasIdIndex(xs: seq<Index>) {
    exists i :: 0 <= i < |xs| && IsUniqueIdIndex(xs[i])
  }

  /** The index ensureIdIndex adds: unique, on _id ascending. */
  function IdIndex(): (ix: Index)
    ensures IsUniqueIdIndex(ix)
  {
    Index.Index([SortKey(ID_PATH, false, false)], true)
  }

  /** The index list after ensureIdIndex. */
  function WithIdIndex(xs: seq<Index>): seq<Index> {
    if HasIdIndex(xs) then xs else xs + [IdIndex()]
  }

  /** ensureIdIndex(ei). */
  method EnsureIdIndex(ei: EntityIndexes)
    modifies ei
    ensures ei.indexes == WithIdIndex(old(ei.indexes))
  {
    var found := false;
    var i := 0;
    while i < |ei.indexes|
      invariant 0 <= i <= |ei.indexes|
      invariant !found ==> forall j :: 0 <= j < i ==> !IsUniqueIdIndex(ei.indexes[j])
      invariant found ==> HasIdIndex(ei.indexes)
    {
      var ix := ei.indexes[i];
      if |ix.fields| == 1 && ix.fields[0].field == ID_PATH && ix.unique {
        found := true;
        break;
      }
      i := i + 1;
    }
    if !found {
      ei.indexes := ei.indexes + [IdIndex()];
    }
  }

  /** Afterwards there is a unique _id index; the existing indexes keep
      their places; at most one index is added, only when none was there,
      so a second application changes nothing. */
  lemma WithIdIndexAddsAtMostOne(xs: seq<Index>)
    ensures HasIdIndex(WithIdIndex(xs))
    ensures xs <= WithIdIndex(xs) && |WithIdIndex(xs)| <= |xs| + 1
    ensures |WithIdIndex(xs)| == |xs| <==> HasIdIndex(xs)
    ensures WithIdIndex(WithIdIndex(xs)) == WithIdIndex(xs)
  {
    if !HasIdIndex(xs) {
      var ys := xs + [IdIndex()];
      assert IsUniqueIdIndex(ys[|xs|]);
    }
  }

  /** isIdIndex(Index): a single key on _id, unique or not. */
  predicate IsIdIndex(ix: Index) {
    |ix.fields| == 1 && ix.fields[0].field == ID_PATH
  }

  /** isIdIndex(DBObject): a key document with the one key _id. */
  predicate IsIdDbIndex(d: DbIndex) {
    d.key.Some? && |d.key.value| == 1 && d.key.value[0].0 == "_id"
  }

  // ---------------------------------------------------------------------------
  // compareSortKeys, indexFieldsMatch, indexOptionsMatch
  // ---------------------------------------------------------------------------

  /** A key whose hidden twin can be formed. */
  predicate WellFormedKey(k: SortKey) {
    k.caseInsensitive ==> |k.field| >= 1 && (k.field[|k.field| - 1].Any? ==> |k.field| >= 2)
  }

  /** The name the database stores the key under: the hidden twin for a
      case-insensitive key. */
  function StoredName(k: SortKey): string
    requires WellFormedKey(k)
  {
    if k.caseInsensitive then MongoPath(HiddenForField(k.field)) else PathText(k.field)
  }

  /** ((Number) dir).intValue(): a number gives its value; a null raises
      NullPointerException and any other value ClassCastException. */
  function Direction(dir: Value): (r: Result<int>)
    ensures r.Ok? <==> dir.Num? || dir.BigNum?
    ensures r.Ok? ==> r.value == dir.n
    ensures r.Fail? ==> r == Fail(if dir.Null? then NullPointer else ClassCast)
  {
    match dir
    case Num(n) => Ok(n)
    case BigNum(n) => Ok(n)
    case Null => Fail(NullPointer)
    case _ => Fail(ClassCast)
  }

  /** compareSortKeys(sortKey, fieldName, dir): the direction is only read
      when the names agree, and then it must be a number. */
  function CompareSortKeys(k: SortKey, name: string, dir: Value): (r: Result<bool>)
    requires WellFormedKey(k)
    ensures r.Fail? <==> StoredName(k) == name && Direction(dir).Fail?
    ensures r.Fail? ==> r == Fail(Direction(dir).fault)
    ensures r == Ok(true) <==> StoredName(k) == name && Direction(dir).Ok? && (k.desc <==> Direction(dir).value < 0)
  {
    if StoredName(k) != name then Ok(false)
    else
      match Direction(dir)
      case Fail(f) => Fail(f)
      case Ok(d) => Ok(k.desc <==> d < 0)
  }

  /** A case-insensitive key matches the database key named by its hidden
      twin, in the right direction, and never the key named by its own
      path. */
  lemma CaseInsensitiveKeyName(k: SortKey, dir: int)
    requires k.caseInsensitive && k.field != [] && ValidPath(k.field)
    requires forall i :: 0 <= i < |k.field| ==> !k.field[i].Any?
    ensures CompareSortKeys(k, PathText(HiddenForField(k.field)), Num(dir)) == Ok(k.desc <==> dir < 0)
    ensures CompareSortKeys(k, PathText(k.field), Num(dir)) == Ok(false)
  {
    var p := k.field;
    var h := HiddenForField(p);
    assert ValidName(HIDDEN) by {
      assert !IsDigit(HIDDEN[0]);
    }
    assert ValidPath(h) by {
      forall i | 0 <= i < |h|
        ensures ValidSegment(h[i])
      {
        if i < |p| - 1 {
          assert h[i] == p[i];
        } else if i == |p| - 1 {
          assert h[i] == Field(HIDDEN);
        } else {
          assert h[i] == p[|p| - 1];
        }
      }
    }
    assert forall i :: 0 <= i < |h| ==> !h[i].Any?;
    assert !h[0].Any?;
    MongoPathDropsAny(h);
    RemoveAnyNoAny(h);
    ParsePathText(h);
    ParsePathText(p);
    assert PathText(h) != PathText(p) by {
      assert |h| != |p|;
    }
  }

  /** The key lists match pairwise, in order. */
  predicate KeysMatch(fields: seq<SortKey>, keys: seq<(string, Value)>)
    requires forall i :: 0 <= i < |fields| ==> WellFormedKey(fields[i])
  {
    |keys| == |fields| && forall i :: 0 <= i < |keys| ==> CompareSortKeys(fields[i], keys[i].0, keys[i].1) == Ok(true)
  }

  /** The walk over equally long key lists: the first pair that raises, or
      that does not match, decides. */
  function ScanKeys(fields: seq<SortKey>, keys: seq<(string, Value)>): (r: Result<bool>)
    requires |fields| == |keys|
    requires forall i :: 0 <= i < |fields| ==> WellFormedKey(fields[i])
    ensures r == Ok(true) <==> KeysMatch(fields, keys)
    ensures r.Fail? ==> exists i :: FirstKeyFault(fields, keys, i, r.fault)
  {
    if keys == [] then Ok(true)
    else
      match CompareSortKeys(fields[0], keys[0].0, keys[0].1)
      case Fail(f) => (assert FirstKeyFault(fields, keys, 0, f); Fail(f))
      case Ok(b) =>
        if !b then Ok(false)
        else
          var r := ScanKeys(fields[1..], keys[1..]);
          assert forall i :: 0 < i < |keys| ==> fields[1..][i - 1] == fields[i] && keys[1..][i - 1] == keys[i];
          if r.Fail? then
            var i :| FirstKeyFault(fields[1..], keys[1..], i, r.fault);
            assert FirstKeyFault(fields, keys, i + 1, r.fault);
            r
          else r
  }

  /** Pair i is the first whose comparison raises, with fault f; every
      earlier pair matches. */
  predicate FirstKeyFault(fields: seq<SortKey>, keys: seq<(string, Value)>, i: int, f: Fault)
    requires |fields| == |keys|
    requires forall i :: 0 <= i < |fields| ==> WellFormedKey(fields[i])
  {
    && 0 <= i < |keys|
    && CompareSortKeys(fields[i], keys[i].0, keys[i].1) == Fail(f)
    && forall j :: 0 <= j < i ==> CompareSortKeys(fields[j], keys[j].0, keys[j].1) == Ok(true)
  }

  /** indexFieldsMatch(index, existingIndex): a missing key document or a
      different number of keys never matches; otherwise the pairs are
      compared in order, and a direction that is not a number raises. */
  method IndexFieldsMatch(index: Index, existing: DbIndex) returns (r: Result<bool>)
    requires forall i :: 0 <= i < |index.fields| ==> WellFormedKey(index.fields[i])
    ensures existing.key.None? || |existing.key.value| != |index.fields| ==> r == Ok(false)
    ensures existing.key.Some? && |existing.key.value| == |index.fields| ==> r == ScanKeys(index.fields, existing.key.value)
    ensures r == Ok(true) <==> existing.key.Some? && KeysMatch(index.fields, existing.key.value)
  {
    if existing.key.None? {
      return Ok(false);
    }
    var keys := existing.key.value;
    var fields := index.fields;
    if |keys| != |fields| {
      return Ok(false);
    }
    var i := 0;
    while i < |keys|
      invariant 0 <= i <= |keys|
      invariant ScanKeys(fields[i..], keys[i..]) == ScanKeys(fields, keys)
    {
      var c := CompareSortKeys(fields[i], keys[i].0, keys[i].1);
      assert fields[i..][1..] == fields[i + 1..] && keys[i..][1..] == keys[i + 1..];
      if c.Fail? {
        return Fail(c.fault);
      }
      if !c.value {
        return Ok(false);
      }
      i := i + 1;
    }
    assert fields[i..] == [] && keys[i..] == [];
    r := Ok(true);
  }

  /** A text or hashed index, whose stored direction is a string, makes
      the comparison raise ClassCastException once the names agree. */
  lemma TextKeyRaises(f: string)
    ensures var k := SortKey([Field(f)], false, false);
      ScanKeys([k], [(f, Str("text"))]) == Fail(ClassCast)
  {
    var k := SortKey([Field(f)], false, false);
    assert SegTexts(k.field) == [f];
    assert PathText(k.field) == f;
  }

  /** The order of the keys matters: an index on (x, y) matches the
      database key {x: 1, y: 1} and an index on (y, x) does not. */
  lemma KeyOrderMatters()
    ensures var x := SortKey([Field("x")], false, false);
      var y := SortKey([Field("y")], false, false);
      KeysMatch([x, y], [("x", Num(1)), ("y", Num(1))]) && !KeysMatch([y, x], [("x", Num(1)), ("y", Num(1))])
  {
    var x := SortKey([Field("x")], false, false);
    var y := SortKey([Field("y")], false, false);
    assert SegTexts(x.field) == ["x"];
    assert PathText(x.field) == "x";
    assert SegTexts(y.field) == ["y"];
    assert PathText(y.field) == "y";
    assert CompareSortKeys(x, "x", Num(1)) == Ok(true) && CompareSortKeys(y, "y", Num(1)) == Ok(true);
    assert CompareSortKeys(y, "x", Num(1)) == Ok(false);
    var keys := [("x", Num(1)), ("y", Num(1))];
    assert KeysMatch([x, y], keys);
    assert !KeysMatch([y, x], keys) by {
      assert CompareSortKeys([y, x][0], keys[0].0, keys[0].1) == Ok(false);
    }
  }

  /** An _id key matches only a key document whose one key is _id. */
  lemma IdIndexMatchesIdKey(ix: Index, keys: seq<(string, Value)>)
    requires IsIdIndex(ix) && !ix.fields[0].caseInsensitive
    requires KeysMatch(ix.fields, keys)
    ensures IsIdDbIndex(DbIndex(Some(keys), None))
  {
    assert SegTexts(ID_PATH) == ["_id"];
  }

  /** indexOptionsMatch(index, existingIndex). */
  function IndexOptionsMatch(index: Index, existing: DbIndex): (r: bool)
    ensures r <==> index.unique == (existing.unique.Some? && existing.unique.value)
  {
    if existing.unique.Some? then
      (existing.unique.value && index.unique) || (!existing.unique.value && !index.unique)
    else !index.unique
  }

  // ---------------------------------------------------------------------------
  // ensureIdField
  // ---------------------------------------------------------------------------

  datatype Constraint = Identity | OtherConstraint(name: string)

  /** A top-level field of the entity schema: a simple field with its type
      and constraints, or an object or array field. */
  datatype FieldNode =
    | SimpleField(name: string, typeName: string, constraints: seq<Constraint>)
    | ComplexField(name: string)

  class EntitySchema {
    var fields: seq<FieldNode>

    constructor (fs: seq<FieldNode>)
      ensures fields == fs
    {
      fields := fs;
    }
  }

  /** schema.resolve(_id): the position of the first field with the name,
      None when there is none. */
  function FindField(fs: seq<FieldNode>, name: string): (r: Option<nat>)
    ensures r.Some? ==> r.value < |fs| && fs[r.value].name == name
    ensures r.None? <==> forall i :: 0 <= i < |fs| ==> fs[i].name != name
    ensures r.Some? ==> forall i :: 0 <= i < r.value ==> fs[i].name != name
  {
    if fs == [] then None
    else if fs[0].name == name then Some(0)
    else match FindField(fs[1..], name)
      case None => None
      case Some(i) => Some(i + 1)
  }

  /** A name missing from the list is found at the end once appended. */
  lemma {:induction false} FindFieldAppended(fs: seq<FieldNode>, f: FieldNode)
    requires FindField(fs, f.name).None?
    ensures FindField(fs + [f], f.name) == Some(|fs|)
    decreases |fs|
  {
    if fs != [] {
      assert (fs + [f])[1..] == fs[1..] + [f];
      FindFieldAppended(fs[1..], f);
    } else {
      assert [f][0].name == f.name;
    }
  }

  /** The schema after ensureIdField: a missing _id is added as a string
      field; an _id that is not a simple field is refused. */
  function WithIdField(fs: seq<FieldNode>): (r: Result<seq<FieldNode>>)
    ensures r.Ok? ==> FindField(r.value, "_id").Some? && r.value[FindField(r.value, "_id").value].SimpleField?
    ensures r.Ok? ==> fs <= r.value
  {
    match FindField(fs, "_id")
    case None =>
      FindFieldAppended(fs, SimpleField("_id", "string", []));
      Ok(fs + [SimpleField("_id", "string", [])])
    case Some(i) => if fs[i].SimpleField? then Ok(fs) else Fail(Error(ERR_INVALID_ID))
  }

  /** ensureIdField(schema). */
  method EnsureIdField(schema: EntitySchema) returns (fault: Option<Fault>)
    modifies schema
    ensures WithIdField(old(schema.fields)).Ok? ==> fault.None? && schema.fields == WithIdField(old(schema.fields)).value
    ensures WithIdField(old(schema.fields)).Fail? ==>
      fault == Some(WithIdField(old(schema.fields)).fault) && schema.fields == old(schema.fields)
  {
    var f := FindField(schema.fields, "_id");
    if f.None? {
      schema.fields := schema.fields + [SimpleField("_id", "string", [])];
    } else if !schema.fields[f.value].SimpleField? {
      return Some(Error(ERR_INVALID_ID));
    }
    fault := None;
  }

  /** A second ensureIdField changes nothing. */
  lemma WithIdFieldIdempotent(fs: seq<FieldNode>)
    requires WithIdField(fs).Ok?
    ensures WithIdField(WithIdField(fs).value) == WithIdField(fs)
  {
  }
}
