/** The server-side script populate-hidden-fields.js, as written, and a
    corrected wildcard expander over nested paths.

    JavaScript reads doc[k] as ONE property named k, dots included: the
    script never descends into sub-documents. A script document is therefore
    its list of top-level properties, and a missing property is undefined
    (None), which is not the same as null. */
module HiddenFieldsScript {
  import opened Text
  import opened Values
  import opened Paths
  import opened DocTranslator
  import opened Translator

  /** The top-level properties of a document, in insertion order. */
  type JsDoc = seq<Entry>

  /** doc[k]: the property named k, or undefined. */
  function Prop(doc: JsDoc, k: string): (x: Option<Value>)
    ensures x.Some? <==> Has(doc, k)
    ensures x.Some? ==> x.value == Lookup(doc, k)
  {
    if Has(doc, k) then Some(Lookup(doc, k)) else None
  }

  /** x.toUpperCase(): defined on strings only; undefined, null and every
      other value raise a TypeError. */
  function ToUpperCase(x: Option<Value>): (r: Result<string>)
    ensures r.Ok? <==> x.Some? && x.value.Str?
    ensures r.Ok? ==> r.value == Upper(x.value.s)
  {
    if x.Some? && x.value.Str? then Ok(Upper(x.value.s)) else Fail(TypeError)
  }

  /** x.length: the length of a list or a string; other values have none,
      which ends a loop comparing against it at once. Undefined and null
      raise a TypeError. */
  function JsLength(x: Option<Value>): (r: Result<nat>)
    ensures r.Fail? <==> x.None? || x.value.Null?
  {
    match x
    case None => Fail(TypeError)
    case Some(v) =>
      if v.Null? then Fail(TypeError)
      else if v.Arr? then Ok(|v.elems|)
      else if v.Str? then Ok(|v.s|)
      else Ok(0)
  }

  function Clamp(x: int, n: nat): (c: nat)
    ensures c <= n
    ensures 0 <= x <= n ==> c == x
  {
    if x < 0 then 0 else if x > n then n else x
  }

  /** String.prototype.substring(start, end): both bounds are clamped to the
      string and swapped when out of order. */
  function Substring(s: string, start: int, end: int): (r: string)
    ensures |r| <= |s|
    ensures 0 <= start <= end <= |s| ==> r == s[start..end]
  {
    var a := Clamp(start, |s|);
    var b := Clamp(end, |s|);
    if a <= b then s[a..b] else s[b..a]
  }

  // ---------------------------------------------------------------------------
  // The script as written
  // ---------------------------------------------------------------------------

  /** doArrayMap: the prefix is the text before arrayIndex - 1 and the suffix
      the text from arrayIndex + 2, cut at the same offsets in the key and in
      the hidden key. */
  function ArrayMap(doc: JsDoc, field: string, hidden: string, arrayIndex: int): (r: Result<JsDoc>)
    requires arrayIndex == LastIndexOf(field, '*') && arrayIndex >= 0
  {
    var pre := Substring(field, 0, arrayIndex - 1);
    var post := Substring(field, arrayIndex + 2, |field|);
    var hpre := Substring(hidden, 0, arrayIndex - 1);
    var hpost := Substring(hidden, arrayIndex + 2, |hidden|);
    var arr := Prop(doc, pre);
    if arr == Some(Null) then Ok(doc)
    else
      match JsLength(arr)
      case Fail(f) => Fail(f)
      case Ok(n) => ArrayLoop(doc, n, 0, pre, post, hpre, hpost)
  }

  /** The loop of doArrayMap from i on: the element key and the hidden key
      are the prefix, the number i and the suffix run together. */
  function ArrayLoop(doc: JsDoc, n: nat, i: nat, pre: string, post: string,
                     hpre: string, hpost: string): (r: Result<JsDoc>)
    decreases n - i
  {
    if i >= n then Ok(doc)
    else
      var x := Prop(doc, pre + NatToString(i) + post);
      if x == Some(Null) then ArrayLoop(doc, n, i + 1, pre, post, hpre, hpost)
      else
        match ToUpperCase(x)
        case Fail(f) => Fail(f)
        case Ok(u) => ArrayLoop(Put(doc, hpre + NatToString(i) + hpost, Str(u)), n, i + 1, pre, post, hpre, hpost)
  }

  /** The text after the last '*' and the character following it holds no
      '*': the descent of doArrayMap into a nested array is never taken. */
  lemma PostHasNoStar(field: string)
    requires '*' in field
    ensures '*' !in Substring(field, LastIndexOf(field, '*') + 2, |field|)
  {
    var a := LastIndexOf(field, '*');
    var c := Clamp(a + 2, |field|);
    assert Substring(field, a + 2, |field|) == field[c..];
    forall j | 0 <= j < |field| - c ensures field[c..][j] != '*' {
      assert field[c..][j] == field[a + 1..][c + j - a - 1];
    }
  }

  /** doArrayMap(doc, field, hidden, arrayIndex). */
  method DoArrayMap(doc: JsDoc, field: string, hidden: string, arrayIndex: int) returns (r: Result<JsDoc>)
    requires arrayIndex == LastIndexOf(field, '*') && arrayIndex >= 0
    ensures r == ArrayMap(doc, field, hidden, arrayIndex)
  {
    var pre := Substring(field, 0, arrayIndex - 1);
    var post := Substring(field, arrayIndex + 2, |field|);
    var hpre := Substring(hidden, 0, arrayIndex - 1);
    var hpost := Substring(hidden, arrayIndex + 2, |hidden|);
    var arr := Prop(doc, pre);
    if arr == Some(Null) {
      return Ok(doc);
    }
    var len := JsLength(arr);
    if len.Fail? {
      return Fail(len.fault);
    }
    var n := len.value;
    // the nested-array descent of the script is never taken
    PostHasNoStar(field);
    assert LastIndexOf(post, '*') == -1;
    assert ArrayMap(doc, field, hidden, arrayIndex) == ArrayLoop(doc, n, 0, pre, post, hpre, hpost);
    var cur := doc;
    var i := 0;
    while i < n
      invariant 0 <= i <= n
      invariant ArrayMap(doc, field, hidden, arrayIndex) == ArrayLoop(cur, n, i, pre, post, hpre, hpost)
    {
      var x := Prop(cur, pre + NatToString(i) + post);
      if x != Some(Null) {
        var u := ToUpperCase(x);
        if u.Fail? {
          return Fail(u.fault);
        }
        cur := Put(cur, hpre + NatToString(i) + hpost, Str(u.value));
      }
      i := i + 1;
    }
    return Ok(cur);
  }

  /** One key of the field map: a key with a '*' goes to doArrayMap at its
      last '*'; any other key is copied when doc[k] !== null. */
  function ProcessKey(doc: JsDoc, k: string, hidden: string): (r: Result<JsDoc>)
  {
    var arrayIndex := LastIndexOf(k, '*');
    if arrayIndex > -1 then ArrayMap(doc, k, hidden, arrayIndex)
    else
      var x := Prop(doc, k);
      if x == Some(Null) then Ok(doc)
      else
        match ToUpperCase(x)
        case Fail(f) => Fail(f)
        case Ok(u) => Ok(Put(doc, hidden, Str(u)))
  }

  /** All keys of the field map, in order, on one document. */
  function ProcessDoc(doc: JsDoc, fieldMap: seq<(string, string)>): Result<JsDoc>
    decreases |fieldMap|
  {
    if fieldMap == [] then Ok(doc)
    else
      match ProcessKey(doc, fieldMap[0].0, fieldMap[0].1)
      case Fail(f) => Fail(f)
      case Ok(d) => ProcessDoc(d, fieldMap[1..])
  }

  /** populateHiddenFields(fieldMap) over the documents of the collection in
      cursor order: each document is saved once, after all keys were
      processed on it; an error stops the cursor, and the documents before
      it stay saved. */
  method PopulateHiddenFields(docs: seq<JsDoc>, fieldMap: seq<(string, string)>)
    returns (saved: seq<JsDoc>, fault: Option<Fault>)
    ensures |saved| <= |docs|
    ensures forall i :: 0 <= i < |saved| ==> ProcessDoc(docs[i], fieldMap) == Ok(saved[i])
    ensures fault.None? ==> |saved| == |docs|
    ensures fault.Some? ==> |saved| < |docs| && ProcessDoc(docs[|saved|], fieldMap) == Fail(fault.value)
  {
    saved := [];
    var d := 0;
    while d < |docs|
      invariant 0 <= d <= |docs| && |saved| == d
      invariant forall i :: 0 <= i < d ==> ProcessDoc(docs[i], fieldMap) == Ok(saved[i])
    {
      var r := ProcessDocument(docs[d], fieldMap);
      if r.Fail? {
        return saved, Some(r.fault);
      }
      saved := saved + [r.value];
      d := d + 1;
    }
    return saved, None;
  }

  /** The body of the cursor loop: the keys of the field map, in order, on
      one document, stopping at the first error. */
  method ProcessDocument(doc0: JsDoc, fieldMap: seq<(string, string)>) returns (r: Result<JsDoc>)
    ensures r == ProcessDoc(doc0, fieldMap)
  {
    var doc := doc0;
    var j := 0;
    while j < |fieldMap|
      invariant 0 <= j <= |fieldMap|
      invariant ProcessDoc(doc0, fieldMap) == ProcessDoc(doc, fieldMap[j..])
    {
      ProcessDocStep(doc, fieldMap, j);
      var step := DoProcessKey(doc, fieldMap[j].0, fieldMap[j].1);
      if step.Fail? {
        return step;
      }
      doc := step.value;
      j := j + 1;
    }
    return Ok(doc);
  }

  /** One key of the field map on one document, as the loop body runs it. */
  method DoProcessKey(doc: JsDoc, k: string, hidden: string) returns (step: Result<JsDoc>)
    ensures step == ProcessKey(doc, k, hidden)
  {
    var arrayIndex := LastIndexOf(k, '*');
    if arrayIndex > -1 {
      step := DoArrayMap(doc, k, hidden, arrayIndex);
    } else {
      var x := Prop(doc, k);
      if x == Some(Null) {
        step := Ok(doc);
      } else {
        var u := ToUpperCase(x);
        if u.Fail? {
          step := Fail(u.fault);
        } else {
          step := Ok(Put(doc, hidden, Str(u.value)));
        }
      }
    }
  }

  lemma ProcessDocStep(doc: JsDoc, fieldMap: seq<(string, string)>, j: nat)
    requires j < |fieldMap|
    ensures ProcessDoc(doc, fieldMap[j..]) ==
      match ProcessKey(doc, fieldMap[j].0, fieldMap[j].1)
      case Fail(f) => Fail(f)
      case Ok(d) => ProcessDoc(d, fieldMap[j + 1..])
  {
    assert fieldMap[j..][1..] == fieldMap[j + 1..];
  }

  /** A string property is copied upper-cased to the property named by the
      hidden key; no other property changes. */
  lemma ProcessKeyString(doc: JsDoc, k: string, hidden: string)
    requires '*' !in k && Lookup(doc, k).Str?
    ensures ProcessKey(doc, k, hidden).Ok?
    ensures var r := ProcessKey(doc, k, hidden).value;
      Lookup(r, hidden) == Str(Upper(Lookup(doc, k).s)) &&
      forall k' :: k' != hidden ==> Lookup(r, k') == Lookup(doc, k')
  {
    forall k' | k' != hidden ensures Lookup(Put(doc, hidden, Str(Upper(Lookup(doc, k).s))), k') == Lookup(doc, k') {
      PutOther(doc, hidden, Str(Upper(Lookup(doc, k).s)), k');
    }
  }

  /** A null property writes nothing. */
  lemma ProcessKeyNull(doc: JsDoc, k: string, hidden: string)
    requires '*' !in k && Has(doc, k) && Lookup(doc, k).Null?
    ensures ProcessKey(doc, k, hidden) == Ok(doc)
  {
  }

  /** A null list before the wildcard writes nothing. */
  lemma ArrayMapNull(doc: JsDoc, field: string, hidden: string)
    requires '*' in field
    requires var a := LastIndexOf(field, '*');
      Has(doc, Substring(field, 0, a - 1)) && Lookup(doc, Substring(field, 0, a - 1)).Null?
    ensures ProcessKey(doc, field, hidden) == Ok(doc)
  {
  }

  /** Keys are processed one after the other, each on the document the
      previous ones left. */
  lemma {:induction false} ProcessDocAppend(doc: JsDoc, m1: seq<(string, string)>, m2: seq<(string, string)>)
    ensures ProcessDoc(doc, m1 + m2) ==
      match ProcessDoc(doc, m1)
      case Fail(f) => Fail(f)
      case Ok(d) => ProcessDoc(d, m2)
    decreases |m1|
  {
    if m1 != [] {
      assert (m1 + m2)[1..] == m1[1..] + m2;
      match ProcessKey(doc, m1[0].0, m1[0].1)
      case Fail(f) =>
      case Ok(d) => ProcessDocAppend(d, m1[1..], m2);
    } else {
      assert m1 + m2 == m2;
    }
  }

  // ---------------------------------------------------------------------------
  // What the script does with concrete inputs
  // ---------------------------------------------------------------------------

  /** A document without the key: undefined passes the `!== null` test and
      undefined.toUpperCase() raises a TypeError. */
  lemma MissingKeyFails()
    ensures ProcessKey([], "name", "@mongoHidden.name") == Fail(TypeError)
  {
    assert !Has([], "name");
    assert LastIndexOf("name", '*') == -1;
  }

  /** A present string is written as ONE top-level property whose name holds
      a dot, not inside the @mongoHidden sub-document. */
  lemma FlatHiddenWrite()
    ensures ProcessKey([Entry("name", Str("ab"))], "name", "@mongoHidden.name") ==
      Ok([Entry("name", Str("ab")), Entry("@mongoHidden.name", Str("AB"))])
  {
    var doc := [Entry("name", Str("ab"))];
    assert LastIndexOf("name", '*') == -1;
    assert Keys(doc) == ["name"];
    assert Prop(doc, "name") == Some(Str("ab"));
    assert Upper("ab") == "AB" by {
      assert UpperChar('a') == 'A' && UpperChar('b') == 'B';
    }
    assert "@mongoHidden.name" != "name";
    assert !Has(doc, "@mongoHidden.name");
    PutNew(doc, "@mongoHidden.name", Str("AB"));
    assert ToUpperCase(Prop(doc, "name")) == Ok("AB");
    assert ProcessKey(doc, "name", "@mongoHidden.name") == Ok(Put(doc, "@mongoHidden.name", Str("AB")));
    assert doc + [Entry("@mongoHidden.name", Str("AB"))] == [Entry("name", Str("ab")), Entry("@mongoHidden.name", Str("AB"))];
  }

  /** For "tags.*" the element keys are "tags0", "tags1", ...: the dot before
      the index is lost, so a document with a non-empty list under tags
      reads undefined and fails. */
  lemma ElementKeyLosesDot()
    ensures ProcessKey([Entry("tags", Arr([Str("a")]))], "tags.*", "@mongoHidden.tags.*") == Fail(TypeError)
  {
    var doc := [Entry("tags", Arr([Str("a")]))];
    var field := "tags.*";
    assert LastIndexOf(field, '*') == 5;
    assert Substring(field, 0, 4) == "tags";
    assert Substring(field, 7, |field|) == "";
    assert Keys(doc) == ["tags"];
    assert Prop(doc, "tags") == Some(Arr([Str("a")]));
    assert NatToString(0) == "0";
    assert "tags" + "0" + "" == "tags0";
    assert !Has(doc, "tags0");
  }

  /** The hidden key is cut at the offsets of the field key: for "tags.*"
      and its twin "@mongoHidden.tags.*" the hidden prefix is "@mon". */
  lemma HiddenCutAtFieldOffset()
    ensures Substring("@mongoHidden.tags.*", 0, LastIndexOf("tags.*", '*') - 1) == "@mon"
  {
    assert LastIndexOf("tags.*", '*') == 5;
  }

  // ---------------------------------------------------------------------------
  // The evidently intended expansion, over nested paths
  // ---------------------------------------------------------------------------

  /** The number of wildcards in a path; zero for a path TranslateJsPath
      accepts. */
  function CountAny(p: Path): nat
  {
    if p == [] then 0 else (if p[0].Any? then 1 else 0) + CountAny(p[1..])
  }

  lemma {:induction false} CountAnyAppend(a: Path, b: Path)
    ensures CountAny(a + b) == CountAny(a) + CountAny(b)
  {
    if a != [] {
      assert (a + b)[1..] == a[1..] + b;
      CountAnyAppend(a[1..], b);
    } else {
      assert a + b == b;
    }
  }

  /** The position of the first wildcard. */
  function FirstAny(p: Path): (k: nat)
    requires CountAny(p) > 0
    ensures k < |p| && p[k].Any?
    ensures CountAny(p[..k]) == 0
  {
    if p[0].Any? then 0
    else
      var k := 1 + FirstAny(p[1..]);
      assert p[..k][1..] == p[1..][..k - 1];
      k
  }

  /** The path with its first wildcard replaced by index i. */
  function FillFirstAny(p: Path, i: nat): (q: Path)
    ensures |q| == |p|
    ensures CountAny(p) == 0 ==> q == p
    ensures CountAny(p) > 0 ==> CountAny(q) == CountAny(p) - 1
    decreases |p|
  {
    if p == [] then []
    else if p[0].Any? then
      assert ([Index(i)] + p[1..])[1..] == p[1..];
      [Index(i)] + p[1..]
    else
      var q := [p[0]] + FillFirstAny(p[1..], i);
      assert q[1..] == FillFirstAny(p[1..], i);
      q
  }

  /** A prefix without wildcards is kept as it is. */
  lemma {:induction false} FillPrefix(a: Path, rest: Path, i: nat)
    requires CountAny(a) == 0
    ensures FillFirstAny(a + rest, i) == a + FillFirstAny(rest, i)
    decreases |a|
  {
    if a != [] {
      ConsConcat(a, rest);
      FillFirstAnyCons(a[0], a[1..] + rest, i);
      FillPrefix(a[1..], rest, i);
      ConsConcat(a, FillFirstAny(rest, i));
    } else {
      assert a + rest == rest;
    }
  }

  lemma FillFirstAnyCons(x: Segment, t: Path, i: nat)
    ensures FillFirstAny([x] + t, i) == if x.Any? then [Index(i)] + t else [x] + FillFirstAny(t, i)
  {
    assert ([x] + t)[1..] == t;
  }

  lemma ConsConcat<T>(a: seq<T>, b: seq<T>)
    requires a != []
    ensures a + b == [a[0]] + (a[1..] + b)
  {
  }

  /** The wildcard replaced is the first one. */
  lemma FillFirstAnyAt(p: Path, i: nat)
    requires CountAny(p) > 0
    ensures FillFirstAny(p, i) == p[..FirstAny(p)] + [Index(i)] + p[FirstAny(p) + 1..]
  {
    var k := FirstAny(p);
    var a, b := p[..k], p[k + 1..];
    SplitAt(p, k);
    FillPrefix(a, [Any] + b, i);
    FillFirstAnyCons(Any, b, i);
    AppendAssoc(a, [Index(i)], b);
  }

  lemma SplitAt<T>(p: seq<T>, k: nat)
    requires k < |p|
    ensures p == p[..k] + ([p[k]] + p[k + 1..])
  {
  }

  lemma TakeThrough<T>(a: seq<T>, x: T, b: seq<T>)
    ensures (a + [x] + b)[..|a| + 1] == a + [x]
  {
  }

  /** For a field and its hidden twin: every string the field reaches, with
      each wildcard expanded against the list actually present, is stored
      upper-cased at the twin with the same indexes; null and missing values
      are skipped. */
  function PopulateFixed(doc: Value, field: Path, hidden: Path): (r: Result<Value>)
    decreases CountAny(field), 1, 0
  {
    if CountAny(field) == 0 then
      match GetFrom(doc, field, field)
      case Fail(f) => Fail(f)
      case Ok(v) =>
        if v.Null? then Ok(doc)
        else if v.Str? then SetPath(doc, hidden, Str(Upper(v.s)))
        else Fail(TypeError)
    else
      var k := FirstAny(field);
      match GetFrom(doc, field[..k], field[..k])
      case Fail(f) => Fail(f)
      case Ok(a) =>
        if a.Null? then Ok(doc)
        else if !a.Arr? then Fail(TypeError)
        else PopulateFixedLoop(doc, |a.elems|, 0, field, hidden)
  }

  function PopulateFixedLoop(doc: Value, n: nat, i: nat, field: Path, hidden: Path): (r: Result<Value>)
    requires CountAny(field) > 0
    decreases CountAny(field), 0, n - i
  {
    if i >= n then Ok(doc)
    else
      match PopulateFixed(doc, FillFirstAny(field, i), FillFirstAny(hidden, i))
      case Fail(f) => Fail(f)
      case Ok(d) => PopulateFixedLoop(d, n, i + 1, field, hidden)
  }

  /** A document without the key is left alone (the script raises a
      TypeError). */
  lemma FixedMissing(es: seq<Entry>, f: string, hidden: Path)
    requires ValidName(f) && !Has(es, f)
    ensures PopulateFixed(Obj(es), [Field(f)], hidden) == Ok(Obj(es))
  {
    assert [Field(f)] + [] == [Field(f)];
    assert CountAny([Field(f)]) == 0;
    GetFromFields(es, f, [], [Field(f)]);
  }

  /** A string is stored at the nested hidden path, where reading the path
      finds it (the script writes a flat property instead). */
  lemma FixedStores(doc: Value, field: Path, hidden: Path)
    requires CountAny(field) == 0 && ValidPath(hidden)
    requires GetFrom(doc, field, field).Ok? && GetFrom(doc, field, field).value.Str?
    requires PopulateFixed(doc, field, hidden).Ok?
    ensures GetFrom(PopulateFixed(doc, field, hidden).value, hidden, hidden) ==
      Ok(Str(Upper(GetFrom(doc, field, field).value.s)))
  {
    GetAfterSet(doc, hidden, Str(Upper(GetFrom(doc, field, field).value.s)), hidden);
  }

  /** Expansion i of a wildcard reads element i of the list (the script's
      element key reads a property that does not exist). */
  lemma FixedElementPath(doc: Value, field: Path, i: nat, xs: seq<Value>)
    requires CountAny(field) > 0
    requires GetFrom(doc, field[..FirstAny(field)], field[..FirstAny(field)]) == Ok(Arr(xs))
    requires i < |xs|
    ensures FillFirstAny(field, i)[..FirstAny(field) + 1] == field[..FirstAny(field)] + [Index(i)]
    ensures var p := field[..FirstAny(field)] + [Index(i)]; GetFrom(doc, p, p) == Ok(xs[i])
  {
    var k := FirstAny(field);
    FillFirstAnyAt(field, i);
    TakeThrough(field[..k], Index(i), field[k + 1..]);
    GetFromWhole(doc, field[..k], field[..k], field[..k] + [Index(i)]);
    GetFromIndex(doc, field[..k], i, xs, field[..k] + [Index(i)]);
  }

  /** Reading one index further into a list that a path reaches. */
  lemma {:induction false} GetFromIndex(trc: Value, p: Path, i: nat, xs: seq<Value>, whole: Path)
    requires GetFrom(trc, p, whole) == Ok(Arr(xs)) && i < |xs|
    ensures GetFrom(trc, p + [Index(i)], whole) == Ok(xs[i])
    decreases |p|
  {
    if p == [] {
      assert [] + [Index(i)] == [Index(i)];
      assert [Index(i)][1..] == [];
    } else {
      assert (p + [Index(i)])[0] == p[0];
      assert (p + [Index(i)])[1..] == p[1..] + [Index(i)];
      var next := Step(trc, p[0], whole).value;
      GetFromIndex(next, p[1..], i, xs, whole);
    }
  }

  /** Which whole path an error would name does not change a successful walk. */
  lemma {:induction false} GetFromWhole(trc: Value, p: Path, w1: Path, w2: Path)
    ensures GetFrom(trc, p, w1).Ok? ==> GetFrom(trc, p, w2) == GetFrom(trc, p, w1)
    decreases |p|
  {
    if p != [] && Step(trc, p[0], w1).Ok? {
      GetFromWhole(Step(trc, p[0], w1).value, p[1..], w1, w2);
    }
  }

  /** For a field that does not end in "*", expanding the first wildcard of
      its hidden twin gives the hidden twin of the expanded field (the
      script cuts the twin at the field's own offsets). */
  lemma FixedHiddenAligned(field: Path, i: nat)
    requires CountAny(field) > 0 && !field[|field| - 1].Any?
    ensures FillFirstAny(HiddenForField(field), i) == HiddenForField(FillFirstAny(field, i))
  {
    var n := |field|;
    var k := FirstAny(field);
    var a, mid, last := field[..k], field[k + 1..n - 1], field[n - 1];
    assert field == a + ([Any] + (mid + [last])) by {
      PinchAt(field, k, Field(HIDDEN));
    }
    assert HiddenForField(field) == a + ([Any] + (mid + [Field(HIDDEN), last])) by {
      PinchAt(field, k, Field(HIDDEN));
    }
    AlignedShape(a, mid, last, i);
  }

  lemma PinchAt<T>(s: seq<T>, k: nat, h: T)
    requires k < |s| - 1
    ensures s == s[..k] + ([s[k]] + (s[k + 1..|s| - 1] + [s[|s| - 1]]))
    ensures s[..|s| - 1] + [h, s[|s| - 1]] == s[..k] + ([s[k]] + (s[k + 1..|s| - 1] + [h, s[|s| - 1]]))
  {
  }

  /** The two shapes line up: filling the wildcard after a plain prefix a
      and then inserting @mongoHidden before the last segment is the same as
      inserting it first and then filling. */
  lemma AlignedShape(a: Path, mid: Path, last: Segment, i: nat)
    requires CountAny(a) == 0 && !last.Any?
    ensures FillFirstAny(a + ([Any] + (mid + [Field(HIDDEN), last])), i) ==
      HiddenForField(FillFirstAny(a + ([Any] + (mid + [last])), i))
  {
    var t1 := mid + [last];
    var t2 := mid + [Field(HIDDEN), last];
    var f' := a + ([Index(i)] + t1);
    assert FillFirstAny(a + ([Any] + t2), i) == a + ([Index(i)] + t2) by {
      FillPrefix(a, [Any] + t2, i);
      FillFirstAnyCons(Any, t2, i);
    }
    assert FillFirstAny(a + ([Any] + t1), i) == f' by {
      FillPrefix(a, [Any] + t1, i);
      FillFirstAnyCons(Any, t1, i);
    }
    assert HiddenForField(f') == a + ([Index(i)] + t2) by {
      InsertBeforeLast(a, Index(i), mid, Field(HIDDEN), last);
    }
  }

  lemma InsertBeforeLast<T>(a: seq<T>, z: T, mid: seq<T>, h: T, last: T)
    ensures var f := a + ([z] + (mid + [last]));
      |f| > 0 && f[|f| - 1] == last && f[..|f| - 1] == a + [z] + mid &&
      a + ([z] + (mid + [h, last])) == f[..|f| - 1] + [h, last]
  {
  }
}
