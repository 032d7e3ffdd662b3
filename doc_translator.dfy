/** DocTranslator's hidden-field machinery: walking a document along a path,
    the hidden twin of a field path, and the recursive population of
    upper-cased copies for case-insensitive index keys. */
module DocTranslator {
  import opened Text
  import opened ObjectIds
  import opened Values
  import opened Paths

  // ---------------------------------------------------------------------------
  // Driver operations the population uses
  // ---------------------------------------------------------------------------

  /** ((DBObject) v).put(k, x): a document puts the key; a list accepts only
      numeric keys and pads itself with nulls up to the index. */
  function DbPut(v: Value, k: string, x: Value): (r: Result<Value>)
    ensures v.Obj? ==> r == Ok(Obj(Put(v.fields, k, x)))
    ensures r.Ok? ==> IsContainer(v) && IsContainer(r.value)
  {
    match v
    case Obj(es) => Ok(Obj(Put(es, k, x)))
    case Arr(xs) =>
      if !IsIndexKey(k) then Fail(IllegalArgument)
      else
        var i := ParseNat(k);
        if i < |xs| then Ok(Arr(xs[i := x]))
        else Ok(Arr(xs + seq(i - |xs|, _ => Null) + [x]))
    case Null => Fail(NullPointer)
    case _ => Fail(ClassCast)
  }

  /** ((DBObject) v).removeField(k) on a container. */
  function DbRemove(v: Value, k: string): (r: Value)
    requires IsContainer(v)
    ensures v.Obj? ==> r == Obj(Remove(v.fields, k))
    ensures r.Obj? == v.Obj?
  {
    match v
    case Obj(es) => Obj(Remove(es, k))
    case Arr(xs) =>
      if IsIndexKey(k) && ParseNat(k) < |xs| then Arr(xs[..ParseNat(k)] + xs[ParseNat(k) + 1..])
      else v
  }

  /** (DBObject) v for a value that may be null. */
  function AsDbObject(v: Value): Result<Value> {
    if v.Null? || IsContainer(v) then Ok(v) else Fail(ClassCast)
  }

  /** The upper-cased copy of a list of strings; a null element raises
      NullPointerException and a non-string element ClassCastException. */
  function UpperList(xs: seq<Value>): (r: Result<seq<Value>>)
    ensures r.Ok? <==> forall i :: 0 <= i < |xs| ==> xs[i].Str?
    ensures r.Ok? ==> |r.value| == |xs|
    ensures r.Ok? ==> forall i :: 0 <= i < |xs| ==> r.value[i] == Str(Upper(xs[i].s))
  {
    if xs == [] then Ok([])
    else if xs[0].Null? then Fail(NullPointer)
    else if !xs[0].Str? then Fail(ClassCast)
    else
      match UpperList(xs[1..])
      case Fail(f) => Fail(f)
      case Ok(rest) => Ok([Str(Upper(xs[0].s))] + rest)
  }

  // ---------------------------------------------------------------------------
  // getDBObject
  // ---------------------------------------------------------------------------

  /** One step of getDBObject: the wildcard is a translation error, an index
      segment reads a list element, a name segment reads a document key, and
      a null value stays null. */
  function Step(trc: Value, s: Segment, whole: Path): (r: Result<Value>)
    ensures s.Any? ==> r == Fail(TranslationError(PathText(whole)))
    ensures !s.Any? && trc.Null? ==> r == Ok(Null)
  {
    match s
    case Any => Fail(TranslationError(PathText(whole)))
    case Index(i) =>
      if trc.Null? then Ok(Null)
      else if !trc.Arr? then Fail(ClassCast)
      else if i < |trc.elems| then Ok(trc.elems[i])
      else Fail(IndexOutOfBounds)
    case Field(_) =>
      if trc.Null? then Ok(Null) else DbGet(trc, SegText(s))
  }

  /** The value getDBObject reaches from trc along rest: a missing value
      before the last segment ends the walk with null. */
  function GetFrom(trc: Value, rest: Path, whole: Path): (r: Result<Value>)
    decreases |rest|
  {
    if rest == [] then Ok(trc)
    else
      match Step(trc, rest[0], whole)
      case Fail(f) => Fail(f)
      case Ok(next) =>
        if next.Null? && |rest| > 1 then Ok(Null) else GetFrom(next, rest[1..], whole)
  }

  /** getDBObject(start, p). */
  method GetDBObject(start: Value, p: Path) returns (r: Result<Value>)
    ensures r == GetFrom(start, p, p)
  {
    var trc := start;
    var seg := 0;
    while seg < |p|
      invariant 0 <= seg <= |p|
      invariant GetFrom(start, p, p) == GetFrom(trc, p[seg..], p)
    {
      var next := Step(trc, p[seg], p);
      if next.Fail? {
        return next;
      }
      trc := next.value;
      if trc.Null? && seg + 1 < |p| {
        return Ok(Null);
      }
      assert p[seg..][1..] == p[seg + 1..];
      seg := seg + 1;
    }
    return Ok(trc);
  }

  /** Walking a document along field names gives what nested lookups give,
      and a missing intermediate field gives null. */
  lemma {:induction false} GetFromFields(es: seq<Entry>, f: string, rest: Path, whole: Path)
    requires ValidName(f)
    ensures GetFrom(Obj(es), [Field(f)] + rest, whole) ==
      (if Lookup(es, f).Null? && rest != [] then Ok(Null) else GetFrom(Lookup(es, f), rest, whole))
  {
    assert ([Field(f)] + rest)[1..] == rest;
  }

  /** A wildcard reached on the walk is a translation error. */
  lemma GetFromAny(trc: Value, rest: Path, whole: Path)
    ensures GetFrom(trc, [Any] + rest, whole) == Fail(TranslationError(PathText(whole)))
  {
  }

  /** Starting from null, the walk yields null as long as no wildcard leads
      the path. */
  lemma {:induction false} GetFromNull(rest: Path, whole: Path)
    requires rest != [] ==> !rest[0].Any?
    ensures GetFrom(Null, rest, whole) == Ok(Null)
  {
    if rest != [] && |rest| == 1 {
      assert rest[1..] == [];
    }
  }

  // ---------------------------------------------------------------------------
  // Hidden twins of field paths
  // ---------------------------------------------------------------------------

  /** getHiddenForField: @mongoHidden goes before the last segment, or before
      the last two when the path ends with the wildcard. */
  function HiddenForField(p: Path): (h: Path)
    requires |p| >= 1
    requires p[|p| - 1].Any? ==> |p| >= 2
    ensures |h| == |p| + 1
    ensures !p[|p| - 1].Any? ==> h == p[..|p| - 1] + [Field(HIDDEN), p[|p| - 1]]
    ensures p[|p| - 1].Any? ==> h == p[..|p| - 2] + [Field(HIDDEN)] + p[|p| - 2..]
  {
    if p[|p| - 1].Any? then p[..|p| - 2] + [Field(HIDDEN)] + p[|p| - 2..]
    else p[..|p| - 1] + [Field(HIDDEN), p[|p| - 1]]
  }

  /** getFieldForHidden: drops the last two segments and puts the last one
      back, undoing HiddenForField for a path that does not end in "*". */
  function FieldForHidden(h: Path): (p: Path)
    requires |h| >= 2
    ensures |p| == |h| - 1
    ensures p[|p| - 1] == h[|h| - 1]
  {
    h[..|h| - 2] + [h[|h| - 1]]
  }

  lemma FieldForHiddenForField(p: Path)
    requires |p| >= 1 && !p[|p| - 1].Any?
    ensures FieldForHidden(HiddenForField(p)) == p
  {
    var h := HiddenForField(p);
    assert h[..|h| - 2] == p[..|p| - 1];
  }

  /** For a path ending in "*", the round trip loses the array name: the
      wildcard takes its place. */
  lemma FieldForHiddenOfArray(p: Path)
    requires |p| >= 2 && p[|p| - 1].Any?
    ensures FieldForHidden(HiddenForField(p)) == p[..|p| - 2] + [Field(HIDDEN), Any]
  {
  }

  // ---------------------------------------------------------------------------
  // populateCaseInsensitiveField
  // ---------------------------------------------------------------------------

  /** The hidden value for a present, non-null source value: a list of
      strings becomes the list of their upper-cased forms, anything else the
      upper-cased text of the value. */
  function HiddenValue(v: Value): (r: Result<Value>)
    requires !v.Null?
    ensures v.Arr? && r.Ok? ==> r.value.Arr? && |r.value.elems| == |v.elems|
    ensures !v.Arr? ==> r == Ok(Str(Upper(ToText(v))))
    ensures v.Str? ==> r == Ok(Str(Upper(v.s)))
  {
    if v.Arr? then
      match UpperList(v.elems)
      case Fail(f) => Fail(f)
      case Ok(hl) => Ok(Arr(hl))
    else Ok(Str(Upper(ToText(v))))
  }

  /** The one-segment case: copy the value of key k, upper-cased, into
      doc.@mongoHidden.k, or drop a stale copy when the value is missing. */
  function PopulateLeaf(doc: Value, k: string): (r: Result<Value>)
    requires !doc.Null?
    ensures r.Ok? ==> doc.Obj? && r.value.Obj?
  {
    if !IsContainer(doc) then Fail(ClassCast)
    else
      match DbGet(doc, k)
      case Fail(f) => Fail(f)
      case Ok(v) =>
        if v.Null? then
          match DbGet(doc, HIDDEN)
          case Fail(f) => Fail(f)
          case Ok(h) =>
            if h.Null? then Ok(doc)
            else if !IsContainer(h) then Fail(ClassCast)
            else
              match DbGet(h, k)
              case Fail(f) => Fail(f)
              case Ok(prev) =>
                if prev.Null? then Ok(doc) else Ok(SetChild(doc, HIDDEN, DbRemove(h, k)))
        else
          match HiddenValue(v)
          case Fail(f) => Fail(f)
          case Ok(hv) =>
            match DbGet(doc, HIDDEN)
            case Fail(f) => Fail(f)
            case Ok(h) =>
              if h.Null? then Ok(SetChild(doc, HIDDEN, Obj([Entry(k, hv)])))
              else
                match DbPut(h, k, hv)
                case Fail(f) => Fail(f)
                case Ok(h') => Ok(SetChild(doc, HIDDEN, h'))
  }

  /** populateCaseInsensitiveField(doc, field), with the document as a value:
      the result is the document after the in-place updates. */
  function PopulateCaseInsensitiveField(doc: Value, field: Path): (r: Result<Value>)
    decreases |field|, 0
  {
    if doc.Null? then Ok(doc)
    else if |field| == 1 then PopulateLeaf(doc, SegText(field[0]))
    else if |field| == 0 then Fail(IndexOutOfBounds)
    else if field[0].Any? then
      if !doc.Arr? then Fail(ClassCast)
      else
        match PopulateEach(doc.elems, field[1..])
        case Fail(f) => Fail(f)
        case Ok(xs) => Ok(Arr(xs))
    else if !IsContainer(doc) then Fail(ClassCast)
    else
      match DbGet(doc, SegText(field[0]))
      case Fail(f) => Fail(f)
      case Ok(child) =>
        if child.Null? then Ok(doc)
        else
          match PopulateCaseInsensitiveField(child, field[1..])
          case Fail(f) => Fail(f)
          case Ok(c) => Ok(SetChild(doc, SegText(field[0]), c))
  }

  /** The rest of the path applied to every list element, in order. */
  function PopulateEach(xs: seq<Value>, rest: Path): (r: Result<seq<Value>>)
    requires |rest| >= 1
    ensures r.Ok? ==> |r.value| == |xs|
    ensures xs == [] ==> r == Ok([])
    decreases |rest|, 1, |xs|
  {
    if xs == [] then Ok([])
    else
      match PopulateCaseInsensitiveField(xs[0], rest)
      case Fail(f) => Fail(f)
      case Ok(x) =>
        match PopulateEach(xs[1..], rest)
        case Fail(f) => Fail(f)
        case Ok(ys) => Ok([x] + ys)
  }

  /** populateDocHiddenFields(doc, fields): every field in list order. */
  method PopulateDocHiddenFields(doc: Value, fields: seq<Path>) returns (r: Result<Value>)
    ensures r == PopulateAll(doc, fields)
  {
    var cur := doc;
    var i := 0;
    while i < |fields|
      invariant 0 <= i <= |fields|
      invariant PopulateAll(doc, fields) == PopulateAll(cur, fields[i..])
    {
      assert fields[i..][1..] == fields[i + 1..];
      var step := PopulateCaseInsensitiveField(cur, fields[i]);
      if step.Fail? {
        return step;
      }
      cur := step.value;
      i := i + 1;
    }
    return Ok(cur);
  }

  function PopulateAll(doc: Value, fields: seq<Path>): Result<Value>
    decreases |fields|
  {
    if fields == [] then Ok(doc)
    else
      match PopulateCaseInsensitiveField(doc, fields[0])
      case Fail(f) => Fail(f)
      case Ok(d) => PopulateAll(d, fields[1..])
  }

  // ---------------------------------------------------------------------------
  // What populateCaseInsensitiveField promises
  // ---------------------------------------------------------------------------

  /** The entries of a document's @mongoHidden sub-document, or none. */
  function HiddenOf(es: seq<Entry>): seq<Entry> {
    if Lookup(es, HIDDEN).Obj? then Lookup(es, HIDDEN).fields else []
  }

  /** A null document is left alone. */
  lemma PopulateNull(field: Path)
    ensures PopulateCaseInsensitiveField(Null, field) == Ok(Null)
  {
  }

  /** A present value that is not a list: its upper-cased text is stored under
      the same key in @mongoHidden, which is created when missing; the other
      hidden keys and every other key of the document keep their values. */
  lemma LeafScalar(es: seq<Entry>, s: Segment)
    requires !Lookup(es, SegText(s)).Null? && !Lookup(es, SegText(s)).Arr?
    requires Lookup(es, HIDDEN).Null? || Lookup(es, HIDDEN).Obj?
    ensures PopulateCaseInsensitiveField(Obj(es), [s]).Ok?
    ensures var r := PopulateCaseInsensitiveField(Obj(es), [s]).value;
      r.Obj? && Lookup(r.fields, HIDDEN).Obj? &&
      Lookup(HiddenOf(r.fields), SegText(s)) == Str(Upper(ToText(Lookup(es, SegText(s))))) &&
      (forall k' :: k' != SegText(s) ==> Lookup(HiddenOf(r.fields), k') == Lookup(HiddenOf(es), k')) &&
      (forall k' :: k' != HIDDEN ==> Lookup(r.fields, k') == Lookup(es, k'))
  {
    var k := SegText(s);
    var hv := Str(Upper(ToText(Lookup(es, k))));
    var h := Lookup(es, HIDDEN);
    var h' := if h.Null? then [Entry(k, hv)] else Put(h.fields, k, hv);
    var r := Put(es, HIDDEN, Obj(h'));
    assert PopulateLeaf(Obj(es), k) == Ok(Obj(r)) by {
      assert DbGet(Obj(es), k) == Ok(Lookup(es, k));
      assert HiddenValue(Lookup(es, k)) == Ok(hv);
      assert DbGet(Obj(es), HIDDEN) == Ok(h);
    }
    assert PopulateCaseInsensitiveField(Obj(es), [s]) == PopulateLeaf(Obj(es), k);
    assert HiddenOf(r) == h';
    assert Lookup(h', k) == hv;
    forall k' | k' != HIDDEN ensures Lookup(r, k') == Lookup(es, k') {
      PutOther(es, HIDDEN, Obj(h'), k');
    }
    if h.Obj? {
      forall k' | k' != k ensures Lookup(h', k') == Lookup(h.fields, k') {
        PutOther(h.fields, k, hv, k');
      }
    }
  }

  /** A present list of strings: @mongoHidden gets a list of the same length
      holding the upper-cased elements in order; nothing else changes. */
  lemma LeafList(es: seq<Entry>, s: Segment)
    requires Lookup(es, SegText(s)).Arr?
    requires forall i :: 0 <= i < |Lookup(es, SegText(s)).elems| ==> Lookup(es, SegText(s)).elems[i].Str?
    requires Lookup(es, HIDDEN).Null? || Lookup(es, HIDDEN).Obj?
    ensures PopulateCaseInsensitiveField(Obj(es), [s]).Ok?
    ensures var r := PopulateCaseInsensitiveField(Obj(es), [s]).value;
      var xs := Lookup(es, SegText(s)).elems;
      var ys := Lookup(HiddenOf(r.fields), SegText(s));
      r.Obj? && ys.Arr? && |ys.elems| == |xs| &&
      (forall i :: 0 <= i < |xs| ==> ys.elems[i] == Str(Upper(xs[i].s))) &&
      (forall k' :: k' != SegText(s) ==> Lookup(HiddenOf(r.fields), k') == Lookup(HiddenOf(es), k')) &&
      (forall k' :: k' != HIDDEN ==> Lookup(r.fields, k') == Lookup(es, k'))
  {
    var k := SegText(s);
    var hv := HiddenValue(Lookup(es, k)).value;
    var h := Lookup(es, HIDDEN);
    var h' := if h.Null? then [Entry(k, hv)] else Put(h.fields, k, hv);
    assert PopulateCaseInsensitiveField(Obj(es), [s]) == Ok(Obj(Put(es, HIDDEN, Obj(h'))));
    forall k' | k' != HIDDEN ensures Lookup(Put(es, HIDDEN, Obj(h')), k') == Lookup(es, k') {
      PutOther(es, HIDDEN, Obj(h'), k');
    }
    if h.Obj? {
      forall k' | k' != k ensures Lookup(h', k') == Lookup(h.fields, k') {
        PutOther(h.fields, k, hv, k');
      }
    }
  }

  /** A list holding a non-string element cannot be copied. */
  lemma LeafListFails(es: seq<Entry>, s: Segment, i: nat)
    requires Lookup(es, SegText(s)).Arr?
    requires i < |Lookup(es, SegText(s)).elems| && !Lookup(es, SegText(s)).elems[i].Str?
    ensures PopulateCaseInsensitiveField(Obj(es), [s]).Fail?
  {
  }

  /** A missing or null value: a stale hidden copy under that key is removed,
      no @mongoHidden is created, and nothing else changes. */
  lemma LeafAbsent(es: seq<Entry>, s: Segment)
    requires Lookup(es, SegText(s)).Null?
    requires Lookup(es, HIDDEN).Null? || Lookup(es, HIDDEN).Obj?
    ensures PopulateCaseInsensitiveField(Obj(es), [s]).Ok?
    ensures var r := PopulateCaseInsensitiveField(Obj(es), [s]).value;
      r.Obj? &&
      (Has(r.fields, HIDDEN) <==> Has(es, HIDDEN)) &&
      Lookup(HiddenOf(r.fields), SegText(s)) == Null &&
      (forall k' :: k' != SegText(s) ==> Lookup(HiddenOf(r.fields), k') == Lookup(HiddenOf(es), k')) &&
      (forall k' :: k' != HIDDEN ==> Lookup(r.fields, k') == Lookup(es, k'))
  {
    var k := SegText(s);
    var h := Lookup(es, HIDDEN);
    if h.Obj? && !Lookup(h.fields, k).Null? {
      var h' := Remove(h.fields, k);
      assert PopulateCaseInsensitiveField(Obj(es), [s]) == Ok(Obj(Put(es, HIDDEN, Obj(h'))));
      forall k' | k' != HIDDEN ensures Lookup(Put(es, HIDDEN, Obj(h')), k') == Lookup(es, k') {
        PutOther(es, HIDDEN, Obj(h'), k');
      }
    } else {
      assert PopulateCaseInsensitiveField(Obj(es), [s]) == Ok(Obj(es));
    }
  }

  /** A leading wildcard applies the rest of the path to every element of the
      list, in order, and fails if any element fails. */
  lemma {:induction false} PopulateEachAt(xs: seq<Value>, rest: Path)
    requires |rest| >= 1
    ensures PopulateEach(xs, rest).Ok? <==>
      forall i :: 0 <= i < |xs| ==> PopulateCaseInsensitiveField(xs[i], rest).Ok?
    ensures PopulateEach(xs, rest).Ok? ==>
      forall i :: 0 <= i < |xs| ==> PopulateEach(xs, rest).value[i] == PopulateCaseInsensitiveField(xs[i], rest).value
    decreases |xs|
  {
    if xs != [] {
      PopulateEachAt(xs[1..], rest);
      assert forall i :: 1 <= i < |xs| ==> xs[1..][i - 1] == xs[i];
    }
  }

  lemma PopulateAnyList(xs: seq<Value>, rest: Path)
    requires |rest| >= 1
    ensures var r := PopulateCaseInsensitiveField(Arr(xs), [Any] + rest);
      r.Ok? <==> forall i :: 0 <= i < |xs| ==> PopulateCaseInsensitiveField(xs[i], rest).Ok?
    ensures var r := PopulateCaseInsensitiveField(Arr(xs), [Any] + rest);
      r.Ok? ==> r.value.Arr? && |r.value.elems| == |xs|
    ensures var r := PopulateCaseInsensitiveField(Arr(xs), [Any] + rest);
      r.Ok? ==> forall i :: 0 <= i < |xs| ==> r.value.elems[i] == PopulateCaseInsensitiveField(xs[i], rest).value
    ensures xs == [] ==> PopulateCaseInsensitiveField(Arr(xs), [Any] + rest) == Ok(Arr([]))
  {
    assert ([Any] + rest)[1..] == rest;
    PopulateEachAt(xs, rest);
  }

  /** Population never changes source data: with every @mongoHidden
      sub-document removed, the document is what it was. */
  lemma {:induction false} PopulatePreservesSource(doc: Value, field: Path)
    ensures PopulateCaseInsensitiveField(doc, field).Ok? ==>
      Strip(PopulateCaseInsensitiveField(doc, field).value) == Strip(doc)
    decreases |field|, 0
  {
    var r := PopulateCaseInsensitiveField(doc, field);
    if r.Ok? && !doc.Null? && |field| >= 1 {
      if |field| == 1 {
        LeafPreservesSource(doc, SegText(field[0]));
      } else if field[0].Any? {
        EachPreservesSource(doc.elems, field[1..]);
      } else {
        var k := SegText(field[0]);
        var child := DbGet(doc, k).value;
        if !child.Null? {
          PopulatePreservesSource(child, field[1..]);
          StripSetChild(doc, k, PopulateCaseInsensitiveField(child, field[1..]).value, child);
        }
      }
    }
  }

  lemma {:induction false} EachPreservesSource(xs: seq<Value>, rest: Path)
    requires |rest| >= 1
    ensures PopulateEach(xs, rest).Ok? ==>
      |PopulateEach(xs, rest).value| == |xs| &&
      forall i :: 0 <= i < |xs| ==> Strip(PopulateEach(xs, rest).value[i]) == Strip(xs[i])
    decreases |rest|, 1, |xs|
  {
    if xs != [] && PopulateEach(xs, rest).Ok? {
      PopulatePreservesSource(xs[0], rest);
      EachPreservesSource(xs[1..], rest);
      assert forall i :: 1 <= i < |xs| ==> xs[1..][i - 1] == xs[i];
    }
  }

  lemma LeafPreservesSource(doc: Value, k: string)
    requires !doc.Null?
    ensures PopulateLeaf(doc, k).Ok? ==> Strip(PopulateLeaf(doc, k).value) == Strip(doc)
  {
    if PopulateLeaf(doc, k).Ok? {
      var es := doc.fields;
      forall x: Value ensures StripEntries(Put(es, HIDDEN, x)) == StripEntries(es) {
        StripPutHidden(es, x);
      }
    }
  }

  // ---------------------------------------------------------------------------
  // Identifiers, big numbers, document versions and sizes
  // ---------------------------------------------------------------------------

  /** createIdFrom: null stays null, a value whose text is a valid object id
      becomes that object id, anything else is returned as it is. */
  function CreateIdFrom(v: Value): (r: Value)
    ensures v.Null? ==> r.Null?
    ensures !v.Null? && IsValid(ToText(v)) ==> r.Oid? && r.id.WellFormed() && ToHex(r.id) == ToHex(FromHex(ToText(v)))
    ensures !v.Null? && !IsValid(ToText(v)) ==> r == v
  {
    if v.Null? then Null
    else if IsValid(ToText(v)) then Oid(FromHex(ToText(v)))
    else v
  }

  /** An object id, or its text, converts to that same object id. */
  lemma CreateIdFromOid(o: ObjectId)
    requires o.WellFormed()
    ensures CreateIdFrom(Oid(o)) == Oid(o)
    ensures CreateIdFrom(Str(ToHex(o))) == Oid(o)
  {
    FromHexToHex(o);
  }

  /** Converting twice is converting once. */
  lemma CreateIdFromIdempotent(v: Value)
    ensures CreateIdFrom(CreateIdFrom(v)) == CreateIdFrom(v)
  {
    if !v.Null? && IsValid(ToText(v)) {
      CreateIdFromOid(CreateIdFrom(v).id);
    }
  }

  /** filterBigNumbers: big numbers are stored as their decimal text. */
  function FilterBigNumbers(v: Value): (r: Value)
    ensures !r.BigNum?
    ensures !v.BigNum? ==> r == v
    ensures v.BigNum? ==> r.Str? && ToText(r) == ToText(v)
  {
    if v.BigNum? then Str(IntToString(v.n)) else v
  }

  /** getDocVer: the document's _id and the version, joined by ':'. */
  function GetDocVer(doc: Value, ver: ObjectId): (s: string)
    requires doc.Obj?
    ensures s == ToText(Lookup(doc.fields, "_id")) + ":" + ToHex(ver)
    ensures |s| == |ToText(Lookup(doc.fields, "_id"))| + 1 + 2 * |ver.bytes|
  {
    ToText(Lookup(doc.fields, "_id")) + [':'] + ToHex(ver)
  }

  /** size(node): the approximate size of a JSON document, counting four for
      every number, the text length of every other scalar, and the length of
      every field name. */
  function JsonSize(v: Value): nat {
    match v
    case Arr(xs) => ListSize(xs)
    case Obj(es) => EntriesSize(es)
    case Num(_) => 4
    case BigNum(_) => 4
    case _ => |ToText(v)|
  }

  function ListSize(xs: seq<Value>): nat {
    if xs == [] then 0 else ListSize(xs[..|xs| - 1]) + JsonSize(xs[|xs| - 1])
  }

  function EntriesSize(es: seq<Entry>): nat {
    if es == [] then 0
    else EntriesSize(es[..|es| - 1]) + |es[|es| - 1].key| + JsonSize(es[|es| - 1].value)
  }

  /** The size of a list is the sum of the sizes of its parts. */
  lemma {:induction false} ListSizeAppend(xs: seq<Value>, ys: seq<Value>)
    ensures ListSize(xs + ys) == ListSize(xs) + ListSize(ys)
    decreases |ys|
  {
    if ys == [] {
      assert xs + ys == xs;
    } else {
      assert (xs + ys)[..|xs + ys| - 1] == xs + ys[..|ys| - 1];
      ListSizeAppend(xs, ys[..|ys| - 1]);
    }
  }

  /** The same for the fields of a document. */
  lemma {:induction false} EntriesSizeAppend(es: seq<Entry>, fs: seq<Entry>)
    ensures EntriesSize(es + fs) == EntriesSize(es) + EntriesSize(fs)
    decreases |fs|
  {
    if fs == [] {
      assert es + fs == es;
    } else {
      assert (es + fs)[..|es + fs| - 1] == es + fs[..|fs| - 1];
      EntriesSizeAppend(es, fs[..|fs| - 1]);
    }
  }

  /** size(node), walking lists and documents element by element. */
  method Size(v: Value) returns (n: nat)
    ensures n == JsonSize(v)
  {
    match v
    case Arr(xs) =>
      n := 0;
      var i := 0;
      while i < |xs|
        invariant 0 <= i <= |xs|
        invariant n == ListSize(xs[..i])
      {
        var m := Size(xs[i]);
        assert xs[..i + 1][..i] == xs[..i];
        n := n + m;
        i := i + 1;
      }
      assert xs[..|xs|] == xs;
    case Obj(es) =>
      n := 0;
      var i := 0;
      while i < |es|
        invariant 0 <= i <= |es|
        invariant n == EntriesSize(es[..i])
      {
        var m := Size(es[i].value);
        assert es[..i + 1][..i] == es[..i];
        n := n + |es[i].key| + m;
        i := i + 1;
      }
      assert es[..|es|] == es;
    case Num(_) => n := 4;
    case BigNum(_) => n := 4;
    case _ => n := |ToText(v)|;
  }
}
