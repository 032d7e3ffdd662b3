/** DocVerUtil: the list of document versions ("docver") kept in the
    @mongoHidden sub-document, newest first. */
module DocVerUtil {
  import opened Values
  import opened ObjectIds
  import opened DocTranslator

  const DOCVER: string := "docver"

  /** Versions at least this many milliseconds older than the current one
      are dropped. */
  const TOO_OLD_MS: int := 60000

  /** A DBObject whose top-level pairs the operations below update in place. */
  class Document {
    var fields: seq<Entry>

    constructor(fs: seq<Entry>)
      ensures fields == fs
    {
      fields := fs;
    }
  }

  /** (DBObject) doc.get("@mongoHidden"): Null when there is none. */
  function Hidden(fields: seq<Entry>): (r: Result<Value>)
    ensures !Has(fields, HIDDEN) ==> r == Ok(Null)
    ensures r.Ok? ==> r.value.Null? || IsContainer(r.value)
    ensures r.Fail? <==> !(Lookup(fields, HIDDEN).Null? || IsContainer(Lookup(fields, HIDDEN)))
  {
    AsDbObject(Lookup(fields, HIDDEN))
  }

  /** getHidden(doc, addIfNotFound). */
  method GetHidden(doc: Document, addIfNotFound: bool) returns (r: Result<Value>)
    modifies doc
    ensures r.Fail? ==> r == Hidden(old(doc.fields)) && doc.fields == old(doc.fields)
    ensures !addIfNotFound ==> r == Hidden(old(doc.fields)) && doc.fields == old(doc.fields)
    ensures addIfNotFound && r.Ok? ==> IsContainer(r.value) && Lookup(doc.fields, HIDDEN) == r.value
    ensures addIfNotFound && Hidden(old(doc.fields)) == Ok(Null) ==>
      r == Ok(Obj([])) && doc.fields == Put(old(doc.fields), HIDDEN, Obj([]))
    ensures Hidden(old(doc.fields)) != Ok(Null) ==> r == Hidden(old(doc.fields)) && doc.fields == old(doc.fields)
  {
    r := Hidden(doc.fields);
    if r == Ok(Null) && addIfNotFound {
      r := Ok(Obj([]));
      doc.fields := Put(doc.fields, HIDDEN, Obj([]));
    }
  }

  /** (List) hidden.get("docver") of a present hidden object: Null when
      there is none. */
  function ListIn(hidden: Value): (r: Result<Value>)
    requires IsContainer(hidden)
    ensures r.Ok? ==> r.value.Null? || r.value.Arr?
    ensures hidden.Obj? && !Has(hidden.fields, DOCVER) ==> r == Ok(Null)
    ensures hidden.Arr? ==> r.Fail?
  {
    match DbGet(hidden, DOCVER)
    case Fail(f) => Fail(f)
    case Ok(l) => if l.Null? || l.Arr? then Ok(l) else Fail(ClassCast)
  }

  /** getVersionList(doc): None when there is no hidden object or no list. */
  function VersionList(fields: seq<Entry>): (r: Result<Option<seq<Value>>>)
    ensures !Has(fields, HIDDEN) ==> r == Ok(None)
  {
    match Hidden(fields)
    case Fail(f) => Fail(f)
    case Ok(h) =>
      if h.Null? then Ok(None)
      else
        match ListIn(h)
        case Fail(f) => Fail(f)
        case Ok(l) => if l.Null? then Ok(None) else Ok(Some(l.elems))
  }

  /** The document after setDocVer(doc, v). */
  function SetDocVerFields(fields: seq<Entry>, v: ObjectId): Result<seq<Entry>> {
    match Hidden(fields)
    case Fail(f) => Fail(f)
    case Ok(h0) =>
      var h := if h0.Null? then Obj([]) else h0;
      match ListIn(h)
      case Fail(f) => Fail(f)
      case Ok(l) =>
        var list := if l.Null? then [] else l.elems;
        Ok(Put(fields, HIDDEN, Obj(Put(h.fields, DOCVER, Arr([Oid(v)] + list)))))
  }

  /** setDocVer(doc, docver): adds the version at the head of the list,
      creating the hidden object and the list when missing. */
  method SetDocVer(doc: Document, docver: ObjectId) returns (fault: Option<Fault>)
    modifies doc
    ensures SetDocVerFields(old(doc.fields), docver) ==
      (if fault.None? then Ok(doc.fields) else Fail(fault.value))
    ensures fault.Some? ==> doc.fields == old(doc.fields)
  {
    var h := GetHidden(doc, true);
    if h.Fail? {
      return Some(h.fault);
    }
    var hidden := h.value;
    var l := ListIn(hidden);
    if l.Fail? {
      // hidden is a list: getHidden only ever added an object
      return Some(l.fault);
    }
    var list := if l.value.Null? then [] else l.value.elems;
    list := [Oid(docver)] + list;
    PutPut(old(doc.fields), HIDDEN, Obj([]), Obj(Put(hidden.fields, DOCVER, Arr(list))));
    doc.fields := Put(doc.fields, HIDDEN, Obj(Put(hidden.fields, DOCVER, Arr(list))));
    return None;
  }

  /** The version list an existing hidden object holds, empty when none. */
  function ListOrEmpty(fields: seq<Entry>): seq<Value>
    requires VersionList(fields).Ok?
  {
    var l := VersionList(fields).value;
    if l.None? then [] else l.value
  }

  /** setDocVer prepends: the new list is the version followed by the old
      list. It fails exactly when the hidden object or the list has the
      wrong type. */
  lemma SetDocVerPrepends(fields: seq<Entry>, v: ObjectId)
    ensures SetDocVerFields(fields, v).Ok? <==> VersionList(fields).Ok? && !Hidden(fields).value.Arr?
    ensures SetDocVerFields(fields, v).Ok? ==>
      VersionList(SetDocVerFields(fields, v).value) == Ok(Some([Oid(v)] + ListOrEmpty(fields)))
  {
    var hid := Lookup(fields, HIDDEN);
    if hid.Null? || IsContainer(hid) {
      var h := if hid.Null? then Obj([]) else hid;
      assert Hidden(fields) == Ok(hid);
      if ListIn(h).Ok? {
        var l := ListIn(h).value;
        var nl := Arr([Oid(v)] + (if l.Null? then [] else l.elems));
        var nh := Obj(Put(h.fields, DOCVER, nl));
        var r := Put(fields, HIDDEN, nh);
        assert SetDocVerFields(fields, v) == Ok(r);
        assert Hidden(r) == Ok(nh);
        assert ListIn(nh) == Ok(nl);
      }
    }
  }

  /** setDocVer changes nothing but the list: every other top-level key and
      every other hidden key keeps its value. */
  lemma SetDocVerFrame(fields: seq<Entry>, v: ObjectId)
    requires SetDocVerFields(fields, v).Ok?
    ensures var r := SetDocVerFields(fields, v).value;
      (forall k :: k != HIDDEN ==> Lookup(r, k) == Lookup(fields, k)) &&
      (forall k :: k != DOCVER && Lookup(fields, HIDDEN).Obj? ==>
         Lookup(Lookup(r, HIDDEN).fields, k) == Lookup(Lookup(fields, HIDDEN).fields, k))
  {
    var r := SetDocVerFields(fields, v).value;
    var h0 := Hidden(fields).value;
    var h := if h0.Null? then Obj([]) else h0;
    var l := ListIn(h).value;
    var nl := Arr([Oid(v)] + (if l.Null? then [] else l.elems));
    var nh := Obj(Put(h.fields, DOCVER, nl));
    assert r == Put(fields, HIDDEN, nh);
    forall k | k != HIDDEN ensures Lookup(r, k) == Lookup(fields, k) {
      PutOther(fields, HIDDEN, nh, k);
    }
    forall k | k != DOCVER && Lookup(fields, HIDDEN).Obj?
      ensures Lookup(Lookup(r, HIDDEN).fields, k) == Lookup(Lookup(fields, HIDDEN).fields, k)
    {
      PutOther(h.fields, DOCVER, nl, k);
    }
  }

  /** The document after overwriteDocVer(doc, v). */
  function OverwriteDocVerFields(fields: seq<Entry>, v: ObjectId): Result<seq<Entry>> {
    match Hidden(fields)
    case Fail(f) => Fail(f)
    case Ok(h0) =>
      var h := if h0.Null? then Obj([]) else h0;
      SetDocVerFields(Put(fields, HIDDEN, DbRemove(h, DOCVER)), v)
  }

  /** overwriteDocVer(doc, docver): drops the list and starts a new one. */
  method OverwriteDocVer(doc: Document, docver: ObjectId) returns (fault: Option<Fault>)
    modifies doc
    ensures OverwriteDocVerFields(old(doc.fields), docver) ==
      (if fault.None? then Ok(doc.fields) else Fail(fault.value))
  {
    var h := GetHidden(doc, true);
    if h.Fail? {
      return Some(h.fault);
    }
    PutPut(old(doc.fields), HIDDEN, Obj([]), DbRemove(h.value, DOCVER));
    doc.fields := Put(doc.fields, HIDDEN, DbRemove(h.value, DOCVER));
    fault := SetDocVer(doc, docver);
  }

  /** After overwriteDocVer the list is exactly the one version. */
  lemma OverwriteLeavesOne(fields: seq<Entry>, v: ObjectId)
    requires OverwriteDocVerFields(fields, v).Ok?
    ensures VersionList(OverwriteDocVerFields(fields, v).value) == Ok(Some([Oid(v)]))
  {
    var h0 := Hidden(fields).value;
    var h := if h0.Null? then Obj([]) else h0;
    var h2 := DbRemove(h, DOCVER);
    var f2 := Put(fields, HIDDEN, h2);
    assert OverwriteDocVerFields(fields, v) == SetDocVerFields(f2, v);
    assert Hidden(f2) == Ok(h2);
    SetDocVerPrepends(f2, v);
    assert h2.Obj?;
    assert !Has(h2.fields, DOCVER);
    assert ListIn(h2) == Ok(Null);
    assert ListOrEmpty(f2) == [];
    assert [Oid(v)] + ListOrEmpty(f2) == [Oid(v)];
  }

  /** The destination document after copyDocVer(dest, source). */
  function CopyDocVerFields(dest: seq<Entry>, source: seq<Entry>): (r: Result<seq<Entry>>)
    ensures Hidden(source) == Ok(Null) ==> r == Ok(dest)
  {
    match Hidden(source)
    case Fail(f) => Fail(f)
    case Ok(h) => if h.Null? then Ok(dest) else Ok(Put(dest, HIDDEN, h))
  }

  /** copyDocVer(dest, source): dest takes the hidden object of source. */
  method CopyDocVer(dest: Document, source: Document) returns (fault: Option<Fault>)
    requires dest != source
    modifies dest
    ensures CopyDocVerFields(old(dest.fields), source.fields) ==
      (if fault.None? then Ok(dest.fields) else Fail(fault.value))
  {
    var h := Hidden(source.fields);
    if h.Fail? {
      return Some(h.fault);
    }
    if !h.value.Null? {
      dest.fields := Put(dest.fields, HIDDEN, h.value);
    }
    return None;
  }

  /** After copyDocVer the destination reads the source's version list;
      its other keys are unchanged. */
  lemma CopyDocVerShares(dest: seq<Entry>, source: seq<Entry>)
    requires Hidden(source).Ok? && !Hidden(source).value.Null?
    ensures CopyDocVerFields(dest, source).Ok?
    ensures VersionList(CopyDocVerFields(dest, source).value) == VersionList(source)
    ensures forall k :: k != HIDDEN ==> Lookup(CopyDocVerFields(dest, source).value, k) == Lookup(dest, k)
  {
    var h := Hidden(source).value;
    forall k | k != HIDDEN ensures Lookup(Put(dest, HIDDEN, h), k) == Lookup(dest, k) {
      PutOther(dest, HIDDEN, h, k);
    }
  }

  // ---------------------------------------------------------------------------
  // Pruning old versions
  // ---------------------------------------------------------------------------

  /** Every identifier in the list is a real 12-byte ObjectId. */
  predicate WellFormedIds(xs: seq<Value>) {
    forall i :: 0 <= i < |xs| && xs[i].Oid? ==> xs[i].id.WellFormed()
  }

  lemma WellFormedTail(xs: seq<Value>)
    requires xs != [] && WellFormedIds(xs)
    ensures WellFormedIds(xs[1..])
  {
    assert forall i :: 0 <= i < |xs| - 1 ==> xs[1..][i] == xs[i + 1];
  }

  /** A version survives when it is the current one or younger than the
      limit, measured from the current one's creation time. */
  predicate Keep(id: ObjectId, docVer: ObjectId)
    requires id.WellFormed() && docVer.WellFormed()
  {
    id == docVer || DateMillis(docVer) - DateMillis(id) < TOO_OLD_MS
  }

  /** The kept versions, in order; a null entry raises NullPointerException
      and any other non-ObjectId ClassCastException. */
  function Recent(xs: seq<Value>, docVer: ObjectId): (r: Result<seq<Value>>)
    requires WellFormedIds(xs) && docVer.WellFormed()
    ensures r.Ok? ==> |r.value| <= |xs| && WellFormedIds(r.value)
    ensures r.Ok? <==> forall i :: 0 <= i < |xs| ==> xs[i].Oid?
    ensures r.Ok? ==> forall i :: 0 <= i < |r.value| ==> r.value[i].Oid? && Keep(r.value[i].id, docVer)
  {
    if xs == [] then Ok([])
    else
      WellFormedTail(xs);
      var x := xs[0];
      if x.Null? then Fail(NullPointer)
      else if !x.Oid? then Fail(ClassCast)
      else
        match Recent(xs[1..], docVer)
        case Fail(f) => Fail(f)
        case Ok(rest) =>
          assert forall i :: 1 <= i < |xs| ==> xs[i] == xs[1..][i - 1];
          if Keep(x.id, docVer) then Ok([x] + rest) else Ok(rest)
  }

  /** a is b with some elements left out, the rest in the same order. */
  predicate Subsequence(a: seq<Value>, b: seq<Value>)
    decreases |b|
  {
    if a == [] then true
    else if b == [] then false
    else (a[0] == b[0] && Subsequence(a[1..], b[1..])) || Subsequence(a, b[1..])
  }

  /** Pruning keeps order, keeps every version it should and no other. */
  lemma {:induction false} RecentFilters(xs: seq<Value>, docVer: ObjectId)
    requires WellFormedIds(xs) && docVer.WellFormed()
    requires Recent(xs, docVer).Ok?
    ensures Subsequence(Recent(xs, docVer).value, xs)
    ensures forall i :: 0 <= i < |xs| && Keep(xs[i].id, docVer) ==> xs[i] in Recent(xs, docVer).value
    ensures Oid(docVer) in xs ==> Oid(docVer) in Recent(xs, docVer).value
  {
    if xs != [] {
      WellFormedTail(xs);
      assert forall i :: 1 <= i < |xs| ==> xs[i] == xs[1..][i - 1];
      RecentFilters(xs[1..], docVer);
      var r := Recent(xs, docVer).value;
      var rest := Recent(xs[1..], docVer).value;
      if Keep(xs[0].id, docVer) {
        assert r == [xs[0]] + rest && r[1..] == rest;
      } else {
        assert r == rest;
        SubsequenceSkip(rest, xs);
      }
      if Oid(docVer) in xs {
        var j :| 0 <= j < |xs| && xs[j] == Oid(docVer);
        assert Keep(xs[j].id, docVer);
      }
    }
  }

  lemma SubsequenceSkip(a: seq<Value>, b: seq<Value>)
    requires b != [] && Subsequence(a, b[1..])
    ensures Subsequence(a, b)
  {
  }

  /** Pruning a pruned list changes nothing. */
  lemma {:induction false} RecentIdempotent(xs: seq<Value>, docVer: ObjectId)
    requires WellFormedIds(xs) && docVer.WellFormed()
    requires Recent(xs, docVer).Ok?
    ensures Recent(Recent(xs, docVer).value, docVer) == Recent(xs, docVer)
  {
    RecentAllKept(Recent(xs, docVer).value, docVer);
  }

  /** A list whose every version is kept is its own pruning. */
  lemma {:induction false} RecentAllKept(xs: seq<Value>, docVer: ObjectId)
    requires WellFormedIds(xs) && docVer.WellFormed()
    requires forall i :: 0 <= i < |xs| ==> xs[i].Oid? && Keep(xs[i].id, docVer)
    ensures Recent(xs, docVer) == Ok(xs)
  {
    if xs != [] {
      WellFormedTail(xs);
      assert forall i :: 0 <= i < |xs| - 1 ==> xs[1..][i] == xs[i + 1];
      RecentAllKept(xs[1..], docVer);
      assert [xs[0]] + xs[1..] == xs;
    }
  }

  /** Pruning that removes nothing returns the list itself, so comparing
      sizes is the same as comparing lists. */
  lemma {:induction false} RecentSameSize(xs: seq<Value>, docVer: ObjectId)
    requires WellFormedIds(xs) && docVer.WellFormed()
    requires Recent(xs, docVer).Ok? && |Recent(xs, docVer).value| == |xs|
    ensures Recent(xs, docVer).value == xs
  {
    if xs != [] {
      WellFormedTail(xs);
      RecentSameSize(xs[1..], docVer);
      assert [xs[0]] + xs[1..] == xs;
    }
  }

  /** The version list of a document, when present, holds real ObjectIds. */
  predicate VersionsWellFormed(fields: seq<Entry>) {
    VersionList(fields).Ok? && VersionList(fields).value.Some? ==> WellFormedIds(VersionList(fields).value.value)
  }

  /** The document after cleanupOldDocVer(doc, docVer). */
  function CleanupFields(fields: seq<Entry>, docVer: ObjectId): Result<seq<Entry>>
    requires VersionsWellFormed(fields) && docVer.WellFormed()
  {
    match VersionList(fields)
    case Fail(f) => Fail(f)
    case Ok(l) =>
      if l.None? then Ok(fields)
      else
        match Recent(l.value, docVer)
        case Fail(f) => Fail(f)
        case Ok(copy) =>
          if |copy| == |l.value| then Ok(fields)
          else Ok(Put(fields, HIDDEN, Obj(Put(Lookup(fields, HIDDEN).fields, DOCVER, Arr(copy)))))
  }

  /** cleanupOldDocVer(doc, docVer): the list is replaced by its pruning
      only when the pruning removed something. */
  method CleanupOldDocVer(doc: Document, docVer: ObjectId) returns (fault: Option<Fault>)
    requires VersionsWellFormed(doc.fields) && docVer.WellFormed()
    modifies doc
    ensures CleanupFields(old(doc.fields), docVer) ==
      (if fault.None? then Ok(doc.fields) else Fail(fault.value))
    ensures fault.Some? ==> doc.fields == old(doc.fields)
  {
    var h := GetHidden(doc, false);
    if h.Fail? {
      return Some(h.fault);
    }
    if h.value.Null? {
      return None;
    }
    var hidden := h.value;
    var l := ListIn(hidden);
    if l.Fail? {
      return Some(l.fault);
    }
    if l.value.Null? {
      return None;
    }
    var list := l.value.elems;
    assert hidden == Lookup(doc.fields, HIDDEN);
    assert VersionList(doc.fields) == Ok(Some(list));
    var copy := Prune(list, docVer);
    if copy.Fail? {
      return Some(copy.fault);
    }
    if |copy.value| != |list| {
      doc.fields := Put(doc.fields, HIDDEN, Obj(Put(hidden.fields, DOCVER, Arr(copy.value))));
    }
    return None;
  }

  /** The loop of cleanupOldDocVer. */
  method Prune(list: seq<Value>, docVer: ObjectId) returns (r: Result<seq<Value>>)
    requires WellFormedIds(list) && docVer.WellFormed()
    ensures r == Recent(list, docVer)
  {
    var copy: seq<Value> := [];
    var i := 0;
    assert list[0..] == list;
    assert Recent(list, docVer).Ok? ==> [] + Recent(list, docVer).value == Recent(list, docVer).value;
    while i < |list|
      invariant 0 <= i <= |list|
      invariant WellFormedIds(list[i..])
      invariant Recent(list[i..], docVer).Fail? ==> Recent(list, docVer) == Recent(list[i..], docVer)
      invariant Recent(list[i..], docVer).Ok? ==>
        Recent(list, docVer).Ok? && Recent(list, docVer).value == copy + Recent(list[i..], docVer).value
    {
      var id := list[i];
      assert list[i..][0] == id && list[i..][1..] == list[i + 1..];
      WellFormedTail(list[i..]);
      if id.Null? {
        return Fail(NullPointer);
      }
      if !id.Oid? {
        return Fail(ClassCast);
      }
      ghost var t := Recent(list[i + 1..], docVer);
      if id.id != docVer {
        if DateMillis(docVer) - DateMillis(id.id) < TOO_OLD_MS {
          assert t.Ok? ==> copy + ([id] + t.value) == (copy + [id]) + t.value;
          copy := copy + [id];
        }
      } else {
        assert t.Ok? ==> copy + ([id] + t.value) == (copy + [id]) + t.value;
        copy := copy + [id];
      }
      i := i + 1;
    }
    assert list[i..] == [];
    assert copy + [] == copy;
    return Ok(copy);
  }

  /** Cleaning up twice is the same as cleaning up once. */
  lemma CleanupIdempotent(fields: seq<Entry>, docVer: ObjectId)
    requires VersionsWellFormed(fields) && docVer.WellFormed()
    requires CleanupFields(fields, docVer).Ok?
    ensures VersionsWellFormed(CleanupFields(fields, docVer).value)
    ensures CleanupFields(CleanupFields(fields, docVer).value, docVer) == CleanupFields(fields, docVer)
  {
    var l := VersionList(fields).value;
    if l.Some? {
      var copy := Recent(l.value, docVer).value;
      RecentIdempotent(l.value, docVer);
      if |copy| != |l.value| {
        var h := Lookup(fields, HIDDEN);
        var r := Put(fields, HIDDEN, Obj(Put(h.fields, DOCVER, Arr(copy))));
        assert h.Obj?;
        assert VersionList(r) == Ok(Some(copy));
      }
    }
  }
}
