/** Documents as the Mongo driver presents them: a tree of null, booleans,
    numbers, strings, object identifiers, lists and insertion-ordered maps
    from field names to values. */
module Values {
  import opened Text
  import opened ObjectIds

  /** Floating point is not modelled: a number is an integer. */
  datatype Value =
    | Null
    | Bool(b: bool)
    | Num(n: int)        // Integer, Long and integral Double values
    | BigNum(n: int)     // BigInteger and integral BigDecimal values
    | Str(s: string)
    | Oid(id: ObjectId)
    | Arr(elems: seq<Value>)
    | Obj(fields: seq<Entry>)

  /** One key/value pair of a document; a document keeps its pairs in
      insertion order, as BasicDBObject (a LinkedHashMap) does. */
  datatype Entry = Entry(key: string, value: Value)

  /** The Java exceptions the modelled code can raise. */
  datatype Fault =
    | ClassCast
    | NullPointer
    | IllegalArgument
    | IndexOutOfBounds
    | StringIndexOutOfBounds
    | TranslationError(path: string)
    | TypeError                       // JavaScript TypeError
    | Error(code: string)             // a lightblue Error with its code
    | InvalidReadPreference(text: string)
    | InvalidReadPreferenceArgs(text: string)

  datatype Result<T> = Ok(value: T) | Fail(fault: Fault)

  datatype Option<T> = None | Some(value: T)

  // ---------------------------------------------------------------------------
  // Insertion-ordered maps
  // ---------------------------------------------------------------------------

  function Keys(es: seq<Entry>): (ks: seq<string>)
    ensures |ks| == |es|
    ensures forall i :: 0 <= i < |es| ==> ks[i] == es[i].key
  {
    if es == [] then [] else [es[0].key] + Keys(es[1..])
  }

  predicate Has(es: seq<Entry>, k: string) {
    k in Keys(es)
  }

  /** Map.get: the value of the first pair with key k, or null. */
  function Lookup(es: seq<Entry>, k: string): (v: Value)
    ensures !Has(es, k) ==> v == Null
  {
    if es == [] then Null
    else if es[0].key == k then es[0].value
    else Lookup(es[1..], k)
  }

  /** Map.put: replaces the value of key k in place, or appends the pair. */
  function Put(es: seq<Entry>, k: string, v: Value): (r: seq<Entry>)
    ensures Has(r, k) && Lookup(r, k) == v
    ensures Has(es, k) ==> Keys(r) == Keys(es)
  {
    if es == [] then [Entry(k, v)]
    else if es[0].key == k then
      var r := [Entry(k, v)] + es[1..];
      assert Keys(r) == Keys(es);
      r
    else
      var r := [es[0]] + Put(es[1..], k, v);
      assert Keys(r) == [es[0].key] + Keys(Put(es[1..], k, v));
      r
  }

  /** A new key goes to the end. */
  lemma {:induction false} PutNew(es: seq<Entry>, k: string, v: Value)
    requires !Has(es, k)
    ensures Put(es, k, v) == es + [Entry(k, v)]
  {
    if es != [] {
      var rest := es[1..];
      assert es[0].key != k by {
        assert Keys(es)[0] == es[0].key;
      }
      assert !Has(rest, k) by {
        KeysCons(es);
      }
      PutNew(rest, k, v);
      PutCons(es, k, v);
      SnocAfterCons(es, Entry(k, v));
    }
  }

  lemma KeysCons(es: seq<Entry>)
    requires es != []
    ensures Keys(es) == [es[0].key] + Keys(es[1..])
  {
  }

  /** A key is present after appending a pair exactly when it was present
      before or is the appended key. */
  lemma HasSnoc(init: seq<Entry>, e: Entry, k: string)
    ensures Has(init + [e], k) <==> Has(init, k) || e.key == k
  {
    var es := init + [e];
    if Has(es, k) {
      var i :| 0 <= i < |es| && Keys(es)[i] == k;
      if i < |init| {
        assert Keys(init)[i] == k;
      }
    }
    if Has(init, k) {
      var i :| 0 <= i < |init| && Keys(init)[i] == k;
      assert Keys(es)[i] == k;
    }
    if e.key == k {
      assert Keys(es)[|init|] == k;
    }
  }

  /** A key that no pair carries is absent. */
  lemma NoKey(es: seq<Entry>, k: string)
    requires forall i :: 0 <= i < |es| ==> es[i].key != k
    ensures !Has(es, k)
  {
  }

  lemma PutCons(es: seq<Entry>, k: string, v: Value)
    requires es != [] && es[0].key != k
    ensures Put(es, k, v) == [es[0]] + Put(es[1..], k, v)
  {
  }

  /** Putting one key leaves every other key as it was. */
  lemma {:induction false} PutOther(es: seq<Entry>, k: string, v: Value, k': string)
    requires k' != k
    ensures Lookup(Put(es, k, v), k') == Lookup(es, k')
    ensures Has(Put(es, k, v), k') <==> Has(es, k')
  {
    if es != [] && es[0].key != k {
      PutOther(es[1..], k, v, k');
    }
  }

  /** A second put of the same key overwrites the first. */
  lemma {:induction false} PutPut(es: seq<Entry>, k: string, a: Value, b: Value)
    ensures Put(Put(es, k, a), k, b) == Put(es, k, b)
  {
    if es != [] && es[0].key != k {
      PutPut(es[1..], k, a, b);
    }
  }

  /** Map.remove: drops every pair with key k and keeps the others in order. */
  function Remove(es: seq<Entry>, k: string): (r: seq<Entry>)
    ensures !Has(r, k)
    ensures Lookup(r, k) == Null
    ensures forall k' :: k' != k ==> Lookup(r, k') == Lookup(es, k') && (Has(r, k') <==> Has(es, k'))
    ensures !Has(es, k) ==> r == es
  {
    if es == [] then []
    else if es[0].key == k then
      KeysCons(es);
      Remove(es[1..], k)
    else
      var rest := Remove(es[1..], k);
      RemoveKeeps(es, k, rest);
      [es[0]] + rest
  }

  /** The step of Remove that keeps the first pair. */
  lemma RemoveKeeps(es: seq<Entry>, k: string, rest: seq<Entry>)
    requires es != [] && es[0].key != k
    requires !Has(rest, k)
    requires forall k' :: k' != k ==> Lookup(rest, k') == Lookup(es[1..], k') && (Has(rest, k') <==> Has(es[1..], k'))
    requires !Has(es[1..], k) ==> rest == es[1..]
    ensures var r := [es[0]] + rest;
      !Has(r, k) && Lookup(r, k) == Null &&
      (forall k' :: k' != k ==> Lookup(r, k') == Lookup(es, k') && (Has(r, k') <==> Has(es, k'))) &&
      (!Has(es, k) ==> r == es)
  {
    var r := [es[0]] + rest;
    forall k' ensures Lookup(r, k') == (if es[0].key == k' then es[0].value else Lookup(rest, k'))
      && (Has(r, k') <==> es[0].key == k' || Has(rest, k'))
    {
      LookupCons(es[0], rest, k');
    }
    KeysCons(es);
  }

  /** Looking a key up in a document with one pair in front. */
  lemma LookupCons(e: Entry, rest: seq<Entry>, k: string)
    ensures Lookup([e] + rest, k) == (if e.key == k then e.value else Lookup(rest, k))
    ensures Has([e] + rest, k) <==> e.key == k || Has(rest, k)
  {
    var r := [e] + rest;
    assert r[1..] == rest;
    KeysCons(r);
  }

  // ---------------------------------------------------------------------------
  // The driver's DBObject view of a value
  // ---------------------------------------------------------------------------

  /** A key a list accepts: a non-empty string of decimal digits. */
  predicate IsIndexKey(k: string) { k != [] && AllDigits(k) }

  /** ((DBObject) v).get(k): a document looks the key up; a list accepts
      only numeric keys and answers null past its end; null raises
      NullPointerException and any other value ClassCastException. */
  function DbGet(v: Value, k: string): (r: Result<Value>)
    ensures v.Obj? ==> r == Ok(Lookup(v.fields, k))
    ensures v.Null? ==> r == Fail(NullPointer)
    ensures !v.Obj? && !v.Arr? && !v.Null? ==> r == Fail(ClassCast)
    ensures v.Arr? ==> (r.Ok? <==> IsIndexKey(k))
  {
    match v
    case Obj(es) => Ok(Lookup(es, k))
    case Arr(xs) =>
      if !IsIndexKey(k) then Fail(IllegalArgument)
      else if ParseNat(k) < |xs| then Ok(xs[ParseNat(k)]) else Ok(Null)
    case Null => Fail(NullPointer)
    case _ => Fail(ClassCast)
  }

  /** Replaces, in place, the child that DbGet(v, k) returned; this is how the
      in-place update of a nested DBObject shows in the enclosing value. */
  function SetChild(v: Value, k: string, child: Value): (r: Value)
    requires v.Obj? || (v.Arr? && IsIndexKey(k))
    ensures v.Obj? ==> r == Obj(Put(v.fields, k, child))
    ensures v.Arr? ==> r.Arr? && |r.elems| == |v.elems|
  {
    match v
    case Obj(es) => Obj(Put(es, k, child))
    case Arr(xs) => if ParseNat(k) < |xs| then Arr(xs[ParseNat(k) := child]) else v
  }

  predicate IsContainer(v: Value) { v.Obj? || v.Arr? }

  /** Object.toString of a scalar value. The text of a nested document or list
      is not modelled and is a fixed marker. */
  function ToText(v: Value): (s: string)
    ensures v.Str? ==> s == v.s
  {
    match v
    case Null => "null"
    case Bool(b) => if b then "true" else "false"
    case Num(n) => IntToString(n)
    case BigNum(n) => IntToString(n)
    case Str(s) => s
    case Oid(o) => ToHex(o)
    case Arr(_) => "[...]"
    case Obj(_) => "{...}"
  }

  /** JsonNode.asText() of the same value read as JSON: the text of a
      value node, and "" for an object or an array. */
  function AsText(v: Value): (s: string)
    ensures v.Str? ==> s == v.s
    ensures IsContainer(v) ==> s == ""
    ensures !IsContainer(v) ==> s == ToText(v)
  {
    if IsContainer(v) then "" else ToText(v)
  }

  // ---------------------------------------------------------------------------
  // The source data of a document: everything but its @mongoHidden parts
  // ---------------------------------------------------------------------------

  /** The name of the sub-document that holds the upper-cased copies. */
  const HIDDEN: string := "@mongoHidden"

  /** A document with every @mongoHidden entry removed, at every depth. */
  function Strip(v: Value): Value {
    match v
    case Arr(xs) => Arr(seq(|xs|, i requires 0 <= i < |xs| => Strip(xs[i])))
    case Obj(es) => Obj(StripEntries(es))
    case _ => v
  }

  function StripEntries(es: seq<Entry>): seq<Entry> {
    if es == [] then []
    else if es[0].key == HIDDEN then StripEntries(es[1..])
    else [Entry(es[0].key, Strip(es[0].value))] + StripEntries(es[1..])
  }

  /** Writing the hidden entry leaves the source data alone. */
  lemma {:induction false} StripPutHidden(es: seq<Entry>, x: Value)
    ensures StripEntries(Put(es, HIDDEN, x)) == StripEntries(es)
  {
    if es != [] && es[0].key != HIDDEN {
      StripPutHidden(es[1..], x);
    }
  }

  /** Removing the hidden entry leaves the source data alone. */
  lemma {:induction false} StripRemoveHidden(es: seq<Entry>)
    ensures StripEntries(Remove(es, HIDDEN)) == StripEntries(es)
  {
    if es != [] {
      StripRemoveHidden(es[1..]);
    }
  }

  /** Replacing a present value by one with the same source data leaves the
      source data of the document alone. */
  lemma {:induction false} StripPutSame(es: seq<Entry>, k: string, c: Value)
    requires Has(es, k)
    requires Strip(c) == Strip(Lookup(es, k))
    ensures StripEntries(Put(es, k, c)) == StripEntries(es)
  {
    var e, rest := es[0], es[1..];
    assert es == [e] + rest;
    if e.key != k {
      assert Has(rest, k) && Lookup(rest, k) == Lookup(es, k) by {
        LookupCons(e, rest, k);
      }
      StripPutSame(rest, k, c);
      assert Put(es, k, c) == [e] + Put(rest, k, c) by {
        PutCons(es, k, c);
      }
      StripEntriesCons(e, Put(rest, k, c));
      StripEntriesCons(e, rest);
    } else {
      assert Put(es, k, c) == [Entry(k, c)] + rest;
      assert Lookup(es, k) == e.value;
      StripEntriesCons(Entry(k, c), rest);
      StripEntriesCons(e, rest);
    }
  }

  lemma StripEntriesCons(e: Entry, rest: seq<Entry>)
    ensures StripEntries([e] + rest) ==
      if e.key == HIDDEN then StripEntries(rest) else [Entry(e.key, Strip(e.value))] + StripEntries(rest)
  {
    assert ([e] + rest)[1..] == rest;
  }

  /** The same for an in-place update of a child through SetChild. */
  lemma StripSetChild(v: Value, k: string, c: Value, old_child: Value)
    requires v.Obj? || (v.Arr? && IsIndexKey(k))
    requires DbGet(v, k) == Ok(old_child) && !old_child.Null?
    requires Strip(c) == Strip(old_child)
    ensures Strip(SetChild(v, k, c)) == Strip(v)
  {
    if v.Obj? {
      StripPutSame(v.fields, k, c);
    } else {
      var xs := v.elems;
      var i := ParseNat(k);
      if i < |xs| {
        var ys := xs[i := c];
        assert forall j :: 0 <= j < |xs| ==> Strip(ys[j]) == Strip(xs[j]);
      }
    }
  }
}
