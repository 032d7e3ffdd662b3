/** Translator: rendering field paths for Mongo and for JavaScript, and the
    string-splitting population of hidden fields for case-insensitive index
    keys. */
module Translator {
  import opened Text
  import opened Values
  import opened Paths
  import opened DocTranslator

  // ---------------------------------------------------------------------------
  // translatePath and translateJsPath
  // ---------------------------------------------------------------------------

  /** The Mongo path text of p: wildcard segments are skipped and a dot goes
      before every other segment except the first segment of the path. */
  function MongoPath(p: Path): string
    decreases |p|
  {
    if p == [] then ""
    else
      var last := p[|p| - 1];
      MongoPath(p[..|p| - 1]) +
        (if last.Any? then "" else (if |p| > 1 then "." else "") + SegText(last))
  }

  /** translatePath(p). */
  method TranslatePath(p: Path) returns (s: string)
    ensures s == MongoPath(p)
  {
    s := "";
    var i := 0;
    while i < |p|
      invariant 0 <= i <= |p|
      invariant s == MongoPath(p[..i])
    {
      assert p[..i + 1][..i] == p[..i];
      if !p[i].Any? {
        if i > 0 {
          s := s + ".";
        }
        s := s + SegText(p[i]);
      }
      i := i + 1;
    }
    assert p[..|p|] == p;
  }

  /** p without its wildcard segments. */
  function RemoveAny(p: Path): (q: Path)
    ensures forall i :: 0 <= i < |q| ==> !q[i].Any?
    ensures |q| <= |p|
  {
    if p == [] then []
    else if p[|p| - 1].Any? then RemoveAny(p[..|p| - 1])
    else RemoveAny(p[..|p| - 1]) + [p[|p| - 1]]
  }

  /** For a path that does not start with the wildcard, the Mongo path is
      the dot-joined text of the path without its wildcards: names and
      indexes keep their order. */
  lemma {:induction false} MongoPathDropsAny(p: Path)
    requires p != [] && !p[0].Any?
    ensures RemoveAny(p) != [] && RemoveAny(p)[0] == p[0]
    ensures MongoPath(p) == PathText(RemoveAny(p))
    decreases |p|
  {
    var q := p[..|p| - 1];
    var last := p[|p| - 1];
    InitLast(p);
    MongoPathSnoc(q, last);
    RemoveAnySnoc(q, last);
    if q == [] {
      assert SegTexts([last]) == [SegText(last)];
      assert "" + ("" + SegText(last)) == SegText(last);
    } else {
      assert q[0] == p[0];
      MongoPathDropsAny(q);
      var r := RemoveAny(q);
      if !last.Any? {
        SegTextsSnoc(r, last);
        JoinAppend(SegTexts(r), [SegText(last)], ".");
        AppendAssoc(MongoPath(q), ".", SegText(last));
      }
    }
  }

  lemma MongoPathSnoc(q: Path, x: Segment)
    ensures MongoPath(q + [x]) == MongoPath(q) + (if x.Any? then "" else (if |q| > 0 then "." else "") + SegText(x))
  {
    InitOfSnoc(q, x);
  }

  lemma RemoveAnySnoc(q: Path, x: Segment)
    ensures RemoveAny(q + [x]) == if x.Any? then RemoveAny(q) else RemoveAny(q) + [x]
  {
    InitOfSnoc(q, x);
  }

  /** A leading wildcard leaves a dot in front of the Mongo path: the dot
      test looks at the segment position, not at the text written so far. */
  lemma MongoPathLeadingAny(x: string)
    requires ValidName(x)
    ensures MongoPath([Any, Field(x)]) == "." + x
    ensures PathText(RemoveAny([Any, Field(x)])) == x
  {
    assert [Any, Field(x)][..1] == [Any];
    assert [Any][..0] == [];
    assert RemoveAny([Any, Field(x)]) == [Field(x)];
  }

  /** translatePath with the dot written only after non-empty output. */
  function MongoPathFixed(p: Path): string
    decreases |p|
  {
    if p == [] then ""
    else
      var s := MongoPathFixed(p[..|p| - 1]);
      var last := p[|p| - 1];
      if last.Any? then s else s + (if s != [] then "." else "") + SegText(last)
  }

  /** The corrected rendering drops exactly the wildcards, wherever they are. */
  lemma {:induction false} MongoPathFixedDropsAny(p: Path)
    requires ValidPath(p)
    ensures MongoPathFixed(p) == PathText(RemoveAny(p))
    ensures MongoPathFixed(p) == [] <==> RemoveAny(p) == []
    decreases |p|
  {
    if p != [] {
      var q := p[..|p| - 1];
      var last := p[|p| - 1];
      InitLast(p);
      assert ValidPath(q);
      MongoPathFixedDropsAny(q);
      RemoveAnySnoc(q, last);
      if !last.Any? {
        var r := RemoveAny(q);
        var s := MongoPathFixed(q);
        assert MongoPathFixed(p) == s + (if s != [] then "." else "") + SegText(last) by {
          InitOfSnoc(q, last);
        }
        assert SegText(last) != [];
        SegTextsSnoc(r, last);
        if r == [] {
          assert SegTexts([last]) == [SegText(last)];
          assert "" + "" + SegText(last) == SegText(last);
        } else {
          JoinAppend(SegTexts(r), [SegText(last)], ".");
        }
      }
    }
  }

  /** The JavaScript text of a path without wildcards: index segments are
      written "[n]" with no dot before them. */
  function JsText(p: Path): string
    decreases |p|
  {
    if p == [] then ""
    else
      var last := p[|p| - 1];
      JsText(p[..|p| - 1]) + JsPiece(last, |p| == 1)
  }

  /** What a segment adds to the JavaScript text: "[n]" for an index, else
      its name, after a dot unless it comes first. */
  function JsPiece(x: Segment, first: bool): string {
    if x.Index? then "[" + SegText(x) + "]"
    else (if first then "" else ".") + SegText(x)
  }

  predicate HasAny(p: Path) {
    exists i :: 0 <= i < |p| && p[i].Any?
  }

  /** The JavaScript path of p, or the translation error naming the whole
      path when it holds a wildcard. */
  function JsPath(p: Path): Result<string> {
    if HasAny(p) then Fail(TranslationError(PathText(p))) else Ok(JsText(p))
  }

  /** translateJsPath(p). */
  method TranslateJsPath(p: Path) returns (r: Result<string>)
    ensures r == JsPath(p)
  {
    var s := "";
    var i := 0;
    while i < |p|
      invariant 0 <= i <= |p|
      invariant i <= AnyFrom(p)
      invariant s == JsText(p[..i])
    {
      if p[i].Any? {
        AnyFromAt(p, i);
        AnyFromIff(p);
        return Fail(TranslationError(PathText(p)));
      }
      JsTextStep(p, i);
      s := s + JsPiece(p[i], i == 0);
      i := i + 1;
    }
    AnyFromIff(p);
    TakeAll(p);
    return Ok(s);
  }

  /** The position of the first wildcard of p, |p| when it has none. */
  function AnyFrom(p: Path): (k: nat)
    ensures k <= |p|
    ensures k < |p| ==> p[k].Any?
    decreases |p|
  {
    if p == [] || p[0].Any? then 0 else 1 + AnyFrom(p[1..])
  }

  /** No segment before AnyFrom(p) is a wildcard. */
  lemma {:induction false} AnyFromFirst(p: Path, j: nat)
    requires j < AnyFrom(p)
    ensures !p[j].Any?
    decreases |p|
  {
    if j > 0 {
      AnyFromFirst(p[1..], j - 1);
    }
  }

  lemma AnyFromAt(p: Path, i: nat)
    requires i <= AnyFrom(p) && i < |p| && p[i].Any?
    ensures AnyFrom(p) == i
  {
    if i < AnyFrom(p) {
      AnyFromFirst(p, i);
    }
  }

  lemma AnyFromIff(p: Path)
    ensures HasAny(p) <==> AnyFrom(p) < |p|
  {
    if HasAny(p) {
      var j :| 0 <= j < |p| && p[j].Any?;
      if AnyFrom(p) > j {
        AnyFromFirst(p, j);
      }
    }
  }

  lemma JsTextStep(p: Path, i: nat)
    requires i < |p|
    ensures JsText(p[..i + 1]) == JsText(p[..i]) + JsPiece(p[i], i == 0)
  {
    TakeStep(p, i);
    JsTextSnoc(p[..i], p[i]);
  }

  lemma JsTextSnoc(q: Path, x: Segment)
    ensures JsText(q + [x]) == JsText(q) + JsPiece(x, q == [])
  {
    InitOfSnoc(q, x);
  }

  /** Without indexes and wildcards, the JavaScript path is the dotted path. */
  lemma {:induction false} JsPathOfNames(p: Path)
    requires forall i :: 0 <= i < |p| ==> p[i].Field?
    ensures JsPath(p) == Ok(PathText(p))
    decreases |p|
  {
    assert !HasAny(p);
    if p != [] {
      var q := p[..|p| - 1];
      var last := p[|p| - 1];
      InitLast(p);
      JsPathOfNames(q);
      JsTextSnoc(q, last);
      SegTextsSnoc(q, last);
      if q == [] {
        assert "" + ("" + SegText(last)) == SegText(last);
        assert SegTexts([last]) == [SegText(last)];
      } else {
        assert JsText(q) == PathText(q);
        JoinAppend(SegTexts(q), [SegText(last)], ".");
        AppendAssoc(JsText(q), ".", SegText(last));
      }
    }
  }

  // ---------------------------------------------------------------------------
  // splitArrayPath
  // ---------------------------------------------------------------------------

  /** splitArrayPath(index): the text before the first '*' without its last
      character, and the pieces after that '*' rejoined (see RestorePost). */
  function SplitArrayPath(index: string): (r: Result<(string, string)>)
  {
    var parts := JavaSplit(index, '*');
    if parts == [] then Fail(IndexOutOfBounds)
    else if parts[0] == [] then Fail(StringIndexOutOfBounds)
    else Ok((parts[0][..|parts[0]| - 1], RestorePost(index, Join(parts[1..], "*"))))
  }

  /** The suffix of splitArrayPath: a '*' that String.split dropped at the
      end of the key is put back, and for a key ending in '.' the last
      character is dropped. */
  function RestorePost(index: string, joined: string): string {
    if joined == [] then joined
    else if LastIndexOf(index, '*') == |index| - 1 then joined + "*"
    else if LastIndexOf(index, '.') == |index| - 1 then joined[..|joined| - 1]
    else joined
  }

  /** The split succeeds exactly when the first '*' is not the first
      character; the prefix is then what precedes the character before it. */
  lemma SplitArrayPathShape(index: string)
    requires '*' in index
    ensures SplitArrayPath(index).Ok? <==> IndexOf(index, '*') >= 1
    ensures IndexOf(index, '*') >= 1 ==>
      SplitArrayPath(index) == Ok((index[..IndexOf(index, '*') - 1],
        RestorePost(index, Join(DropTrailingEmpty(Split(index[IndexOf(index, '*') + 1..], '*')), "*"))))
  {
    JavaSplitAtFirst(index, '*');
    if IndexOf(index, '*') >= 1 {
      var k := IndexOf(index, '*');
      SplitArrayPathAt(index, k, DropTrailingEmpty(Split(index[k + 1..], '*')));
    }
  }

  /** The split of a key whose Java split pieces are the text before the
      k-th character, then rest. */
  lemma SplitArrayPathAt(index: string, k: nat, rest: seq<string>)
    requires 1 <= k <= |index|
    requires JavaSplit(index, '*') == [index[..k]] + rest
    ensures SplitArrayPath(index) == Ok((index[..k - 1], RestorePost(index, Join(rest, "*"))))
  {
    var parts := JavaSplit(index, '*');
    assert parts[0] == index[..k] && parts[1..] == rest;
    assert index[..k][..k - 1] == index[..k - 1];
  }

  /** For a key with a wildcard: the prefix has none, and the suffix has fewer
      than the key, which is what ends the recursion over nested arrays. */
  lemma SplitArrayPathCount(index: string)
    requires '*' in index && SplitArrayPath(index).Ok?
    ensures '*' !in SplitArrayPath(index).value.0
    ensures Count(SplitArrayPath(index).value.1, '*') < Count(index, '*')
  {
    SplitArrayPathShape(index);
    var k := IndexOf(index, '*');
    var b := index[k + 1..];
    var joined := Join(DropTrailingEmpty(Split(b, '*')), "*");
    assert index[..k - 1] == index[..k][..k - 1];
    CountAtFirst(index, '*');
    JoinDropCount(b, '*');
    if joined != [] {
      if LastIndexOf(index, '*') == |index| - 1 {
        assert b[|b| - 1] == index[|index| - 1];
        CountAppend(joined, "*", '*');
      } else if LastIndexOf(index, '.') == |index| - 1 {
        CountDropLast(joined, '*');
      }
    }
  }

  lemma LastIsLast(s: string, c: char)
    requires s != []
    ensures LastIndexOf(s, c) == |s| - 1 <==> s[|s| - 1] == c
  {
  }

  /** For a key whose first '*' follows a dot, which does not end in '.' and
      does not end in two '*'s, the prefix, ".*" and the suffix give the key
      back. */
  lemma SplitArrayPathRejoins(index: string)
    requires '*' in index
    requires IndexOf(index, '*') >= 1 && index[IndexOf(index, '*') - 1] == '.'
    requires index[|index| - 1] != '.'
    requires !(|index| >= 2 && index[|index| - 2] == '*' && index[|index| - 1] == '*')
    ensures SplitArrayPath(index).Ok?
    ensures SplitArrayPath(index).value.0 + ".*" + SplitArrayPath(index).value.1 == index
  {
    SplitArrayPathShape(index);
    var k := IndexOf(index, '*');
    var b := index[k + 1..];
    var pre := index[..k - 1];
    Around(index, k);
    RestorePostRest(index, b);
  }

  /** A text around its k-th character. */
  lemma Around(s: string, k: nat)
    requires 1 <= k < |s|
    ensures s == s[..k - 1] + [s[k - 1], s[k]] + s[k + 1..]
    ensures s[|s| - |s[k + 1..]|..] == s[k + 1..]
  {
  }

  /** The suffix that RestorePost rebuilds from the pieces after a '*' of the
      key is the text after that '*'. */
  lemma RestorePostRest(index: string, b: string)
    requires |b| < |index| && index[|index| - |b|..] == b && index[|index| - |b| - 1] == '*'
    requires index[|index| - 1] != '.'
    requires !(|index| >= 2 && index[|index| - 2] == '*' && index[|index| - 1] == '*')
    ensures RestorePost(index, Join(DropTrailingEmpty(Split(b, '*')), "*")) == b
  {
    if b == [] {
      JoinDropSplit(b, '*');
    } else {
      assert b[|b| - 1] == index[|index| - 1];
      if b[|b| - 1] != '*' {
        RestorePostPlain(index, b);
      } else {
        assert |b| >= 2;
        assert b[|b| - 2] == index[|index| - 2];
        RestorePostStar(index, b);
      }
    }
  }

  lemma RestorePostPlain(index: string, b: string)
    requires b != [] && index != [] && b[|b| - 1] == index[|index| - 1]
    requires b[|b| - 1] != '*' && index[|index| - 1] != '.'
    ensures RestorePost(index, Join(DropTrailingEmpty(Split(b, '*')), "*")) == b
  {
    LastIsLast(index, '*');
    LastIsLast(index, '.');
    JoinDropSplit(b, '*');
  }

  lemma RestorePostStar(index: string, b: string)
    requires |b| >= 2 && index != [] && b[|b| - 1] == '*' && b[|b| - 2] != '*'
    requires index[|index| - 1] == '*'
    ensures RestorePost(index, Join(DropTrailingEmpty(Split(b, '*')), "*")) == b
  {
    LastIsLast(index, '*');
    JoinDropSplitSep(b, '*');
    InitLast(b);
    assert "*" == [b[|b| - 1]];
  }

  // ---------------------------------------------------------------------------
  // Setting a value at a path, creating what is missing
  // ---------------------------------------------------------------------------

  /** The slot a segment names in v: a field of a document or an element of
      a list, null when v is null or the slot is missing. */
  function Slot(v: Value, s: Segment): Value {
    if s.Field? && v.Obj? then Lookup(v.fields, s.name)
    else if s.Index? && v.Arr? && s.i < |v.elems| then v.elems[s.i]
    else Null
  }

  /** v with the slot s set to c; a null v becomes an empty document or list
      first, and a list is padded with nulls up to the index. */
  function Fill(v: Value, s: Segment, c: Value): (r: Value)
    requires s.Field? ==> v.Obj? || v.Null?
    requires s.Index? ==> v.Arr? || v.Null?
    requires !s.Any?
    ensures IsContainer(r) && Slot(r, s) == c
  {
    if s.Field? then
      Obj(Put(if v.Obj? then v.fields else [], s.name, c))
    else
      var xs := if v.Arr? then v.elems else [];
      Arr(if s.i < |xs| then xs[s.i := c] else xs + seq(s.i - |xs|, _ => Null) + [c])
  }

  /** The value with x stored at path p, creating the documents and lists
      missing along the way. */
  function SetPath(v: Value, p: Path, x: Value): (r: Result<Value>)
    ensures r.Ok? && p != [] ==> IsContainer(r.value)
    decreases |p|
  {
    if p == [] then Ok(x)
    else if p[0].Any? then Fail(TranslationError(PathText(p)))
    else if p[0].Field? && !v.Obj? && !v.Null? then Fail(ClassCast)
    else if p[0].Index? && !v.Arr? && !v.Null? then Fail(ClassCast)
    else
      match SetPath(Slot(v, p[0]), p[1..], x)
      case Fail(f) => Fail(f)
      case Ok(c) => Ok(Fill(v, p[0], c))
  }

  /** Reading a path right after setting it gives the value set. */
  lemma {:induction false} GetAfterSet(v: Value, p: Path, x: Value, whole: Path)
    requires ValidPath(p)
    requires SetPath(v, p, x).Ok?
    ensures GetFrom(SetPath(v, p, x).value, p, whole) == Ok(x)
    decreases |p|
  {
    if p != [] {
      GetAfterSet(Slot(v, p[0]), p[1..], x, whole);
    }
  }

  // ---------------------------------------------------------------------------
  // populateDocHiddenFields(doc, fieldMap)
  // ---------------------------------------------------------------------------

  /** The wildcard-free case at the parent of the key: a string value is
      stored upper-cased in the parent's @mongoHidden; a null or missing value
      removes the parent's whole @mongoHidden. */
  function SimpleLeaf(cur: Value, k: string): (r: Result<Value>)
    ensures r.Ok? ==> cur.Obj? && r.value.Obj?
  {
    match DbGet(cur, k)
    case Fail(f) => Fail(f)
    case Ok(v) =>
      if !v.Null? && !v.Str? then Fail(ClassCast)
      else
        match DbGet(cur, HIDDEN)
        case Fail(f) => Fail(f)
        case Ok(h) =>
          if !h.Null? && !IsContainer(h) then Fail(ClassCast)
          else if v.Str? then
            if h.Null? then Ok(SetChild(cur, HIDDEN, Obj([Entry(k, Str(Upper(v.s)))])))
            else
              match DbPut(h, k, Str(Upper(v.s)))
              case Fail(f) => Fail(f)
              case Ok(h') => Ok(SetChild(cur, HIDDEN, h'))
          else if !h.Null? then Ok(DbRemove(cur, HIDDEN))
          else Ok(cur)
  }

  /** Walking down to the parent of the key, then SimpleLeaf there; the
      in-place update of the parent shows in the enclosing documents. */
  function SimpleField(cur: Value, path: Path): (r: Result<Value>)
    requires |path| >= 1
    decreases |path|
  {
    if |path| == 1 then SimpleLeaf(cur, SegText(path[0]))
    else
      match DbGet(cur, SegText(path[0]))
      case Fail(f) => Fail(f)
      case Ok(child) =>
        if !child.Null? && !IsContainer(child) then Fail(ClassCast)
        else
          match SimpleField(child, path[1..])
          case Fail(f) => Fail(f)
          case Ok(c) => Ok(SetChild(cur, SegText(path[0]), c))
  }

  /** A string value: its upper-cased form is stored under the same key in
      the parent's @mongoHidden, which is created when missing; the other
      hidden keys and every other key of the parent keep their values. */
  lemma SimpleLeafString(es: seq<Entry>, k: string)
    requires Lookup(es, k).Str?
    requires Lookup(es, HIDDEN).Null? || Lookup(es, HIDDEN).Obj?
    ensures SimpleLeaf(Obj(es), k).Ok?
    ensures var r := SimpleLeaf(Obj(es), k).value;
      r.Obj? && Lookup(r.fields, HIDDEN).Obj? &&
      Lookup(HiddenOf(r.fields), k) == Str(Upper(Lookup(es, k).s)) &&
      (forall k' :: k' != k ==> Lookup(HiddenOf(r.fields), k') == Lookup(HiddenOf(es), k')) &&
      (forall k' :: k' != HIDDEN ==> Lookup(r.fields, k') == Lookup(es, k'))
  {
    var hv := Str(Upper(Lookup(es, k).s));
    var h := Lookup(es, HIDDEN);
    var h' := if h.Null? then [Entry(k, hv)] else Put(h.fields, k, hv);
    assert SimpleLeaf(Obj(es), k) == Ok(Obj(Put(es, HIDDEN, Obj(h'))));
    forall k' | k' != HIDDEN ensures Lookup(Put(es, HIDDEN, Obj(h')), k') == Lookup(es, k') {
      PutOther(es, HIDDEN, Obj(h'), k');
    }
    if h.Obj? {
      forall k' | k' != k ensures Lookup(h', k') == Lookup(h.fields, k') {
        PutOther(h.fields, k, hv, k');
      }
    }
  }

  /** A null or missing value with a @mongoHidden present: the whole
      @mongoHidden of the parent goes, whatever other copies it holds. */
  lemma SimpleLeafNull(es: seq<Entry>, k: string)
    requires Lookup(es, k).Null?
    requires Lookup(es, HIDDEN).Obj?
    ensures SimpleLeaf(Obj(es), k) == Ok(Obj(Remove(es, HIDDEN)))
    ensures !Has(SimpleLeaf(Obj(es), k).value.fields, HIDDEN)
  {
  }

  /** The copy of another key is lost with it: {b: "x", @mongoHidden: {b: "X"}}
      populated for the missing key a keeps no copy of b. */
  lemma SimpleLeafLosesOtherCopies()
    ensures var es := [Entry("b", Str("x")), Entry(HIDDEN, Obj([Entry("b", Str("X"))]))];
      SimpleLeaf(Obj(es), "a") == Ok(Obj([Entry("b", Str("x"))])) &&
      Lookup(HiddenOf(es), "b") == Str("X")
  {
    var es := [Entry("b", Str("x")), Entry(HIDDEN, Obj([Entry("b", Str("X"))]))];
    assert Keys(es) == ["b", HIDDEN];
    assert Lookup(es, "a") == Null;
    assert Lookup(es, HIDDEN) == Obj([Entry("b", Str("X"))]);
    assert Remove(es, HIDDEN) == [Entry("b", Str("x"))];
  }

  /** Neither case touches the source data of the document. */
  lemma SimpleLeafPreservesSource(cur: Value, k: string)
    ensures SimpleLeaf(cur, k).Ok? ==> Strip(SimpleLeaf(cur, k).value) == Strip(cur)
  {
    if SimpleLeaf(cur, k).Ok? {
      var es := cur.fields;
      forall x: Value ensures StripEntries(Put(es, HIDDEN, x)) == StripEntries(es) {
        StripPutHidden(es, x);
      }
      StripRemoveHidden(es);
    }
  }

  /** Populating a wildcard-free key changes only @mongoHidden sub-documents. */
  lemma {:induction false} SimpleFieldPreservesSource(cur: Value, path: Path)
    requires |path| >= 1
    ensures SimpleField(cur, path).Ok? ==> Strip(SimpleField(cur, path).value) == Strip(cur)
    decreases |path|
  {
    if SimpleField(cur, path).Ok? {
      if |path| == 1 {
        SimpleLeafPreservesSource(cur, SegText(path[0]));
      } else {
        var child := DbGet(cur, SegText(path[0])).value;
        SimpleFieldPreservesSource(child, path[1..]);
        StripSetChild(cur, SegText(path[0]), SimpleField(child, path[1..]).value, child);
      }
    }
  }

  /** The upper-cased text stored for one array element, if any: a document
      element contributes the value at the suffix path, any other element its
      own text; a null element raises NullPointerException. */
  function ElementNode(elem: Value, post: string): Result<Option<string>> {
    if elem.Obj? then
      if post == [] then Fail(StringIndexOutOfBounds)
      else
        match GetFrom(elem, ParsePath(post[1..]), ParsePath(post[1..]))
        case Fail(f) => Fail(f)
        case Ok(o) => if o.Null? then Ok(None) else Ok(Some(Upper(ToText(o))))
    else if elem.Null? then Fail(NullPointer)
    else Ok(Some(Upper(ToText(elem))))
  }

  lemma {:induction false} FullPathCount(pre: string, i: nat, post: string)
    requires '*' !in pre
    ensures Count(pre + "." + NatToString(i) + post, '*') == Count(post, '*')
  {
    var d := NatToString(i);
    assert '*' !in d;
    CountAppend(pre, ".", '*');
    CountAppend(pre + ".", d, '*');
    CountAppend(pre + "." + d, post, '*');
  }

  /** populateHiddenArrayField(doc, index, hidden). */
  function ArrayField(doc: Value, index: string, hidden: string): (r: Result<Value>)
    requires '*' in index
    decreases Count(index, '*'), 1, 0, 0
  {
    match SplitArrayPath(index)
    case Fail(f) => Fail(f)
    case Ok(ip) =>
      match SplitArrayPath(hidden)
      case Fail(f) => Fail(f)
      case Ok(hp) =>
        match GetFrom(doc, ParsePath(ip.0), ParsePath(ip.0))
        case Fail(f) => Fail(f)
        case Ok(arr) =>
          if arr.Null? then Ok(doc)
          else if !arr.Arr? then Fail(ClassCast)
          else ArrayLoop(doc, arr.elems, 0, index, ip.0, ip.1, hp.0, hp.1)
  }

  /** The loop of populateHiddenArrayField from element i on; the elements
      are those of the list found before the loop. */
  function ArrayLoop(doc: Value, elems: seq<Value>, i: nat, index: string,
                     pre: string, post: string, hpre: string, hpost: string): (r: Result<Value>)
    requires '*' in index && SplitArrayPath(index) == Ok((pre, post))
    requires i <= |elems|
    decreases Count(index, '*'), 0, |elems| - i, 1
  {
    if i == |elems| then Ok(doc)
    else
      match ArrayStep(doc, elems, i, index, pre, post, hpre, hpost)
      case Fail(f) => Fail(f)
      case Ok(d) => ArrayLoop(d, elems, i + 1, index, pre, post, hpre, hpost)
  }

  /** Iteration i of that loop: descend into the nested array while the
      suffix still holds a wildcard, otherwise store the upper-cased text of
      element i at the hidden path with index i. */
  function ArrayStep(doc: Value, elems: seq<Value>, i: nat, index: string,
                     pre: string, post: string, hpre: string, hpost: string): (r: Result<Value>)
    requires '*' in index && SplitArrayPath(index) == Ok((pre, post))
    requires i < |elems|
    decreases Count(index, '*'), 0, |elems| - i, 0
  {
    var fullIdx := pre + "." + NatToString(i) + post;
    var fullHidden := hpre + "." + NatToString(i) + hpost;
    if '*' in post then
      SplitArrayPathCount(index);
      FullPathCount(pre, i, post);
      ArrayField(doc, fullIdx, fullHidden)
    else
      match ElementNode(elems[i], post)
      case Fail(f) => Fail(f)
      case Ok(None) => Ok(doc)
      case Ok(Some(t)) => SetPath(doc, ParsePath(fullHidden), Str(t))
  }

  /** populateHiddenArrayField: finds the list before the first wildcard,
      then fills in the hidden copies of its elements. */
  method PopulateHiddenArrayField(doc: Value, index: string, hidden: string) returns (r: Result<Value>)
    requires '*' in index
    ensures r == ArrayField(doc, index, hidden)
    decreases Count(index, '*'), 2
  {
    var ip := SplitArrayPath(index);
    if ip.Fail? {
      return Fail(ip.fault);
    }
    var hp := SplitArrayPath(hidden);
    if hp.Fail? {
      return Fail(hp.fault);
    }
    var found := GetDBObject(doc, ParsePath(ip.value.0));
    if found.Fail? {
      return Fail(found.fault);
    }
    var arr := found.value;
    if arr.Null? {
      return Ok(doc);
    }
    if !arr.Arr? {
      return Fail(ClassCast);
    }
    r := PopulateElements(doc, arr.elems, index, ip.value.0, ip.value.1, hp.value.0, hp.value.1);
  }

  /** The loop of populateHiddenArrayField over the elements of the list,
      descending into nested arrays while the suffix still holds a
      wildcard. */
  method PopulateElements(doc: Value, elems: seq<Value>, index: string,
                          pre: string, post: string, hpre: string, hpost: string) returns (r: Result<Value>)
    requires '*' in index && SplitArrayPath(index) == Ok((pre, post))
    ensures r == ArrayLoop(doc, elems, 0, index, pre, post, hpre, hpost)
    decreases Count(index, '*'), 1
  {
    var cur := doc;
    var i := 0;
    while i < |elems|
      invariant 0 <= i <= |elems|
      invariant ArrayLoop(doc, elems, 0, index, pre, post, hpre, hpost) == ArrayLoop(cur, elems, i, index, pre, post, hpre, hpost)
      decreases |elems| - i
    {
      var step := PopulateElement(cur, elems, i, index, pre, post, hpre, hpost);
      if step.Fail? {
        return step;
      }
      cur := step.value;
      i := i + 1;
    }
    return Ok(cur);
  }

  /** One pass of that loop: element i, descending into a nested array
      while the suffix still holds a wildcard. */
  method PopulateElement(cur: Value, elems: seq<Value>, i: nat, index: string,
                         pre: string, post: string, hpre: string, hpost: string) returns (step: Result<Value>)
    requires '*' in index && SplitArrayPath(index) == Ok((pre, post)) && i < |elems|
    ensures step == ArrayStep(cur, elems, i, index, pre, post, hpre, hpost)
    decreases Count(index, '*'), 0
  {
    var fullIdx := pre + "." + NatToString(i) + post;
    var fullHidden := hpre + "." + NatToString(i) + hpost;
    if '*' in post {
      SplitArrayPathCount(index);
      FullPathCount(pre, i, post);
      step := PopulateHiddenArrayField(cur, fullIdx, fullHidden);
    } else {
      var node := ElementNode(elems[i], post);
      if node.Fail? {
        step := Fail(node.fault);
      } else if node.value.None? {
        step := Ok(cur);
      } else {
        step := SetPath(cur, ParsePath(fullHidden), Str(node.value.value));
      }
    }
  }

  /** A missing list before the first wildcard leaves the document alone. */
  lemma ArrayAbsent(doc: Value, index: string, hidden: string)
    requires '*' in index && '*' in hidden
    requires SplitArrayPath(index).Ok? && SplitArrayPath(hidden).Ok?
    requires var pre := ParsePath(SplitArrayPath(index).value.0); GetFrom(doc, pre, pre) == Ok(Null)
    ensures ArrayField(doc, index, hidden) == Ok(doc)
  {
  }

  /** A document without the first field of the prefix has no such list. */
  lemma ArrayAbsentField(es: seq<Entry>, f: string, rest: Path)
    requires ValidName(f) && !Has(es, f)
    requires rest != [] ==> !rest[0].Any?
    ensures GetFrom(Obj(es), [Field(f)] + rest, [Field(f)] + rest) == Ok(Null)
  {
    GetFromFields(es, f, rest, [Field(f)] + rest);
    if rest == [] {
      assert GetFrom(Null, [], [Field(f)] + rest) == Ok(Null);
    }
  }

  /** A scalar element i stores its upper-cased text at the hidden path with
      index i: reading that path afterwards gives it back. */
  lemma ArrayStepStores(doc: Value, elems: seq<Value>, i: nat, index: string,
                        pre: string, post: string, hpre: string, hpost: string)
    requires '*' in index && SplitArrayPath(index) == Ok((pre, post))
    requires i < |elems| && '*' !in post
    requires !elems[i].Obj? && !elems[i].Null?
    requires ValidPath(ParsePath(hpre + "." + NatToString(i) + hpost))
    requires ArrayStep(doc, elems, i, index, pre, post, hpre, hpost).Ok?
    ensures var hp := ParsePath(hpre + "." + NatToString(i) + hpost);
      GetFrom(ArrayStep(doc, elems, i, index, pre, post, hpre, hpost).value, hp, hp) ==
        Ok(Str(Upper(ToText(elems[i]))))
  {
    var hp := ParsePath(hpre + "." + NatToString(i) + hpost);
    GetAfterSet(doc, hp, Str(Upper(ToText(elems[i]))), hp);
  }

  /** A document element stores the upper-cased text of its value at the
      suffix path, and a document element without that value stores nothing. */
  lemma ArrayStepStoresField(doc: Value, elems: seq<Value>, i: nat, index: string,
                             pre: string, post: string, hpre: string, hpost: string)
    requires '*' in index && SplitArrayPath(index) == Ok((pre, post))
    requires i < |elems| && '*' !in post && post != []
    requires elems[i].Obj?
    requires GetFrom(elems[i], ParsePath(post[1..]), ParsePath(post[1..])).Ok?
    requires ValidPath(ParsePath(hpre + "." + NatToString(i) + hpost))
    requires ArrayStep(doc, elems, i, index, pre, post, hpre, hpost).Ok?
    ensures var o := GetFrom(elems[i], ParsePath(post[1..]), ParsePath(post[1..])).value;
      var hp := ParsePath(hpre + "." + NatToString(i) + hpost);
      var d := ArrayStep(doc, elems, i, index, pre, post, hpre, hpost).value;
      (o.Null? ==> d == doc) &&
      (!o.Null? ==> GetFrom(d, hp, hp) == Ok(Str(Upper(ToText(o)))))
  {
    var o := GetFrom(elems[i], ParsePath(post[1..]), ParsePath(post[1..])).value;
    var hp := ParsePath(hpre + "." + NatToString(i) + hpost);
    if !o.Null? {
      GetAfterSet(doc, hp, Str(Upper(ToText(o))), hp);
    }
  }

  /** A null element raises NullPointerException (object.toString()). */
  lemma ArrayStepNullElement(doc: Value, elems: seq<Value>, i: nat, index: string,
                             pre: string, post: string, hpre: string, hpost: string)
    requires '*' in index && SplitArrayPath(index) == Ok((pre, post))
    requires i < |elems| && '*' !in post && elems[i].Null?
    ensures ArrayStep(doc, elems, i, index, pre, post, hpre, hpost) == Fail(NullPointer)
  {
  }

  // ---------------------------------------------------------------------------
  // populateHiddenArrayField as written: the Jackson merge
  // ---------------------------------------------------------------------------

  /** b is a document holding every field of a, whenever a is one. */
  ghost predicate KeepsFields(a: Value, b: Value)
  {
    a.Obj? ==> b.Obj? && forall k :: Has(a.fields, k) ==> Has(b.fields, k)
  }

  /** A put keeps every key that was there. */
  lemma PutKeepsKeys(es: seq<Entry>, f: string)
    ensures forall v, k :: Has(es, k) ==> Has(Put(es, f, v), k)
  {
    forall v, k | Has(es, k)
      ensures Has(Put(es, f, v), k)
    {
      if k != f {
        PutOther(es, f, v, k);
      }
    }
  }

  /** merge(mainNode, updateNode): each field of the update, in order, is
      merged into the main tree. A present value meets an array element by
      element, a present document meets a document by recursion, and
      otherwise a document main tree takes the update's value. A tree that is
      not a document has no fields, so a scalar update changes nothing. */
  function MergeInto(main: Value, upd: Value): (r: Result<Value>)
    ensures !upd.Obj? ==> r == Ok(main)
    ensures r.Ok? ==> KeepsFields(main, r.value)
    ensures r.Ok? && main.Obj? && upd.Obj? ==> forall e :: e in upd.fields ==> Has(r.value.fields, e.key)
    decreases upd, 2, 0
  {
    if upd.Obj? then MergeFields(main, upd, 0) else Ok(main)
  }

  /** The fields of the update from position j on. */
  function MergeFields(main: Value, upd: Value, j: nat): (r: Result<Value>)
    requires upd.Obj? && j <= |upd.fields|
    ensures r.Ok? ==> KeepsFields(main, r.value)
    ensures r.Ok? && main.Obj? ==> forall k :: j <= k < |upd.fields| ==> Has(r.value.fields, upd.fields[k].key)
    decreases upd, 1, |upd.fields| - j
  {
    if j == |upd.fields| then Ok(main)
    else
      var f := upd.fields[j].key;
      var u := upd.fields[j].value;
      assert upd.fields[j] in upd.fields;
      PutKeepsKeys(if main.Obj? then main.fields else [], f);
      var present := main.Obj? && Has(main.fields, f);
      var next :=
        if present && u.Arr? then
          match MergeList(Lookup(main.fields, f), u, 0)
          case Fail(e) => Fail(e)
          case Ok(v) => Ok(Obj(Put(main.fields, f, v)))
        else if present && Lookup(main.fields, f).Obj? then
          match MergeInto(Lookup(main.fields, f), u)
          case Fail(e) => Fail(e)
          case Ok(v) => Ok(Obj(Put(main.fields, f, v)))
        else if main.Obj? then Ok(Obj(Put(main.fields, f, u)))
        else Ok(main);
      match next
      case Fail(e) => Fail(e)
      case Ok(m) => MergeFields(m, upd, j + 1)
  }

  /** The elements of an update array from position i on, merged into the
      present value v: a value with no element i gets the update's element
      appended (only a list can), and element i then meets the update's
      element i. An element Jackson cannot fetch (v a document) is null, and
      merging a document with fields into it raises NullPointerException. */
  function MergeList(v: Value, u: Value, i: nat): (r: Result<Value>)
    requires u.Arr? && i <= |u.elems|
    ensures v.Arr? && i <= |v.elems| && r.Ok? ==>
      r.value.Arr? && |r.value.elems| == (if |v.elems| < |u.elems| then |u.elems| else |v.elems|)
    ensures !v.Arr? && !v.Obj? && i < |u.elems| ==> r == Fail(ClassCast)
    decreases u, 1, |u.elems| - i
  {
    if i == |u.elems| then Ok(v)
    else
      var size := if v.Arr? then |v.elems| else if v.Obj? then |v.fields| else 0;
      if size <= i && !v.Arr? then Fail(ClassCast)
      else
        var w := if size <= i then Arr(v.elems + [u.elems[i]]) else v;
        if w.Arr? && i < |w.elems| then
          match MergeInto(w.elems[i], u.elems[i])
          case Fail(e) => Fail(e)
          case Ok(c) => MergeList(Arr(w.elems[i := c]), u, i + 1)
        else if u.elems[i].Obj? && u.elems[i].fields != [] then Fail(NullPointer)
        else MergeList(w, u, i + 1)
  }

  /** Merging never replaces a tree that is not a document: a scalar, or a
      list reached as the main tree, comes out as it went in. */
  lemma MergeKeepsNonDocument(main: Value, upd: Value)
    requires !main.Obj?
    ensures MergeInto(main, upd) == Ok(main)
  {
    if upd.Obj? {
      MergeFieldsKeepsNonDocument(main, upd, 0);
    }
  }

  lemma {:induction false} MergeFieldsKeepsNonDocument(main: Value, upd: Value, j: nat)
    requires !main.Obj? && upd.Obj? && j <= |upd.fields|
    ensures MergeFields(main, upd, j) == Ok(main)
    decreases |upd.fields| - j
  {
    if j < |upd.fields| {
      MergeFieldsKeepsNonDocument(main, upd, j + 1);
    }
  }

  /** A field the main document lacks is added with the update's value; the
      other fields keep theirs. */
  lemma MergeNewField(es: seq<Entry>, f: string, u: Value)
    requires !Has(es, f)
    ensures MergeInto(Obj(es), Obj([Entry(f, u)])) == Ok(Obj(Put(es, f, u)))
    ensures forall k :: k != f ==> Lookup(Put(es, f, u), k) == Lookup(es, k)
    ensures Lookup(Put(es, f, u), f) == u
  {
    var upd := Obj([Entry(f, u)]);
    assert MergeFields(Obj(Put(es, f, u)), upd, 1) == Ok(Obj(Put(es, f, u)));
    assert MergeFields(Obj(es), upd, 0) == MergeFields(Obj(Put(es, f, u)), upd, 1);
    forall k | k != f ensures Lookup(Put(es, f, u), k) == Lookup(es, k) {
      PutOther(es, f, u, k);
    }
  }

  /** populateHiddenArrayField(doc, index, hidden) as written: the hidden
      copies are collected in a fresh document, which is merged into the
      document after every element. */
  function ArrayFieldMerged(doc: Value, index: string, hidden: string): (r: Result<Value>)
    requires '*' in index
    ensures r.Ok? ==> KeepsFields(doc, r.value)
    decreases Count(index, '*'), 1, 0, 0
  {
    match SplitArrayPath(index)
    case Fail(f) => Fail(f)
    case Ok(ip) =>
      match SplitArrayPath(hidden)
      case Fail(f) => Fail(f)
      case Ok(hp) =>
        match GetFrom(doc, ParsePath(ip.0), ParsePath(ip.0))
        case Fail(f) => Fail(f)
        case Ok(arr) =>
          if arr.Null? then Ok(doc)
          else if !arr.Arr? then Fail(ClassCast)
          else ArrayLoopMerged(doc, Obj([]), arr.elems, 0, index, ip.0, ip.1, hp.0, hp.1)
  }

  /** The loop from element i on, with the collected copies acc. */
  function ArrayLoopMerged(doc: Value, acc: Value, elems: seq<Value>, i: nat, index: string,
                           pre: string, post: string, hpre: string, hpost: string): (r: Result<Value>)
    requires '*' in index && SplitArrayPath(index) == Ok((pre, post))
    requires i <= |elems|
    ensures r.Ok? ==> KeepsFields(doc, r.value)
    decreases Count(index, '*'), 0, |elems| - i, 1
  {
    if i == |elems| then Ok(doc)
    else
      match ArrayStepMerged(doc, acc, elems, i, index, pre, post, hpre, hpost)
      case Fail(f) => Fail(f)
      case Ok(p) => ArrayLoopMerged(p.0, p.1, elems, i + 1, index, pre, post, hpre, hpost)
  }

  /** Iteration i as written: descend into a nested array, or add the
      upper-cased text of element i to the collected copies; then merge the
      collected copies into the document. Gives the new document and the
      new collection. */
  function ArrayStepMerged(doc: Value, acc: Value, elems: seq<Value>, i: nat, index: string,
                           pre: string, post: string, hpre: string, hpost: string): (r: Result<(Value, Value)>)
    requires '*' in index && SplitArrayPath(index) == Ok((pre, post))
    requires i < |elems|
    ensures r.Ok? ==> KeepsFields(doc, r.value.0)
    decreases Count(index, '*'), 0, |elems| - i, 0
  {
    var fullIdx := pre + "." + NatToString(i) + post;
    var fullHidden := hpre + "." + NatToString(i) + hpost;
    var stepped: Result<(Value, Value)> :=
      if '*' in post then
        SplitArrayPathCount(index);
        FullPathCount(pre, i, post);
        match ArrayFieldMerged(doc, fullIdx, fullHidden)
        case Fail(f) => Fail(f)
        case Ok(d) => Ok((d, acc))
      else
        match ElementNode(elems[i], post)
        case Fail(f) => Fail(f)
        case Ok(None) => Ok((doc, acc))
        case Ok(Some(t)) =>
          match SetPath(acc, ParsePath(fullHidden), Str(t))
          case Fail(f) => Fail(f)
          case Ok(a) => Ok((doc, a));
    match stepped
    case Fail(f) => Fail(f)
    case Ok(p) =>
      match MergeInto(p.0, p.1)
      case Fail(f) => Fail(f)
      case Ok(m) => Ok((m, p.1))
  }

  /** The document of the finding below: the list holds "c" and its
      hidden copy still holds "B". */
  const STALE_DOC := Obj([Entry("arr", Arr([Str("c")])), Entry(HIDDEN, Obj([Entry("arr", Arr([Str("B")]))]))])
  /** The copies collected for element 0 of that list. */
  const STALE_COPIES := Obj([Entry(HIDDEN, Obj([Entry("arr", Arr([Str("C")]))]))])
  /** The same document with an up-to-date hidden copy. */
  const FRESH_DOC := Obj([Entry("arr", Arr([Str("c")])), Entry(HIDDEN, Obj([Entry("arr", Arr([Str("C")]))]))])

  /** Finding: on STALE_DOC with the key "arr.*", the merge as written keeps
      the stale hidden copy "B", since merging the text "C" into the text "B"
      changes nothing; the intended store puts "C" there. */
  lemma StaleHiddenCopyKept()
    ensures SplitArrayPath("arr.*") == Ok(("arr", ""))
    ensures ArrayStepMerged(STALE_DOC, Obj([]), [Str("c")], 0, "arr.*", "arr", "", "@mongoHidden.arr", "") ==
      Ok((STALE_DOC, STALE_COPIES))
    ensures ArrayStep(STALE_DOC, [Str("c")], 0, "arr.*", "arr", "", "@mongoHidden.arr", "") == Ok(FRESH_DOC)
  {
    ArrPathSplits();
    HiddenElementPath();
    StaleElementNode();
    StaleCopies();
    StaleMerge();
    FreshStore();
  }

  lemma StaleElementNode()
    ensures ElementNode(Str("c"), "") == Ok(Some("C"))
  {
    assert ToText(Str("c")) == "c";
    assert Upper("c") == "C";
  }

  lemma StaleCopies()
    ensures SetPath(Obj([]), [Field(HIDDEN), Field("arr"), Index(0)], Str("C")) == Ok(STALE_COPIES)
  {
    var p := [Field(HIDDEN), Field("arr"), Index(0)];
    assert p[1..] == [Field("arr"), Index(0)] && p[1..][1..] == [Index(0)] && p[1..][1..][1..] == [];
    assert Fill(Null, Index(0), Str("C")) == Arr([Str("C")]);
    assert SetPath(Null, [Index(0)], Str("C")) == Ok(Arr([Str("C")]));
    assert SetPath(Null, [Field("arr"), Index(0)], Str("C")) == Ok(Obj([Entry("arr", Arr([Str("C")]))]));
  }

  lemma FreshStore()
    ensures SetPath(STALE_DOC, [Field(HIDDEN), Field("arr"), Index(0)], Str("C")) == Ok(FRESH_DOC)
  {
    var p := [Field(HIDDEN), Field("arr"), Index(0)];
    var h := Obj([Entry("arr", Arr([Str("B")]))]);
    assert p[1..] == [Field("arr"), Index(0)] && p[1..][1..] == [Index(0)] && p[1..][1..][1..] == [];
    assert |"arr"| != |HIDDEN|;
    assert STALE_DOC.fields[1..] == [Entry(HIDDEN, h)];
    assert STALE_DOC.fields[0].key != HIDDEN;
    assert Lookup(STALE_DOC.fields, HIDDEN) == Lookup(STALE_DOC.fields[1..], HIDDEN);
    assert Lookup([Entry(HIDDEN, h)], HIDDEN) == h;
    assert Slot(STALE_DOC, Field(HIDDEN)) == h;
    assert Slot(h, Field("arr")) == Arr([Str("B")]);
    assert Slot(Arr([Str("B")]), Index(0)) == Str("B");
    assert Fill(Arr([Str("B")]), Index(0), Str("C")) == Arr([Str("C")]);
    assert SetPath(Arr([Str("B")]), [Index(0)], Str("C")) == Ok(Arr([Str("C")]));
    assert Put(h.fields, "arr", Arr([Str("C")])) == [Entry("arr", Arr([Str("C")]))];
    assert SetPath(h, [Field("arr"), Index(0)], Str("C")) == Ok(Obj([Entry("arr", Arr([Str("C")]))]));
    assert Put(STALE_DOC.fields, HIDDEN, Obj([Entry("arr", Arr([Str("C")]))])) == FRESH_DOC.fields;
  }

  lemma StaleMerge()
    ensures MergeInto(STALE_DOC, STALE_COPIES) == Ok(STALE_DOC)
  {
    var h := Obj([Entry("arr", Arr([Str("B")]))]);
    var hu := Obj([Entry("arr", Arr([Str("C")]))]);
    MergeKeepsNonDocument(Str("B"), Str("C"));
    assert MergeList(Arr([Str("B")]), Arr([Str("C")]), 0) == Ok(Arr([Str("B")])) by {
      assert [Str("B")][0 := Str("B")] == [Str("B")];
    }
    assert MergeInto(h, hu) == Ok(h) by {
      assert Put(h.fields, "arr", Arr([Str("B")])) == h.fields;
      assert MergeFields(h, hu, 0) == MergeFields(h, hu, 1);
    }
    assert Put(STALE_DOC.fields, HIDDEN, h) == STALE_DOC.fields;
    assert MergeFields(STALE_DOC, STALE_COPIES, 0) == MergeFields(STALE_DOC, STALE_COPIES, 1);
  }

  /** The key "arr.*" splits into the list "arr" and an empty suffix. */
  lemma ArrPathSplits()
    ensures SplitArrayPath("arr.*") == Ok(("arr", ""))
  {
    var index := "arr.*";
    assert IndexOf(index, '*') == 4;
    SplitArrayPathShape(index);
    assert index[..3] == "arr";
    assert index[5..] == "";
    assert Split("", '*') == [""];
    assert DropTrailingEmpty([""]) == [];
  }

  /** The hidden path of element 0 of "@mongoHidden.arr". */
  lemma HiddenElementPath()
    ensures ParsePath("@mongoHidden.arr" + "." + NatToString(0) + "") == [Field(HIDDEN), Field("arr"), Index(0)]
  {
    var hp := [Field(HIDDEN), Field("arr"), Index(0)];
    assert NatToString(0) == "0";
    assert ValidName(HIDDEN) by {
      assert !IsDigit(HIDDEN[0]);
    }
    assert ValidName("arr") by {
      assert !IsDigit("arr"[0]);
    }
    assert ValidPath(hp);
    assert SegTexts(hp) == [HIDDEN, "arr", "0"];
    assert Join([HIDDEN, "arr", "0"], ".") == HIDDEN + "." + Join(["arr", "0"], ".");
    assert Join(["arr", "0"], ".") == "arr" + "." + "0";
    assert PathText(hp) == "@mongoHidden.arr" + "." + NatToString(0) + "";
    ParsePathText(hp);
  }

  /** One entry of the field map: a key with a wildcard goes to the array
      population, any other key to the simple case. */
  function PopulateEntry(doc: Value, index: string, hidden: string): Result<Value> {
    if '*' in index then ArrayField(doc, index, hidden)
    else
      var path := ParsePath(index);
      if path == [] then Fail(IndexOutOfBounds) else SimpleField(doc, path)
  }

  function PopulateMap(doc: Value, fieldMap: seq<(string, string)>): Result<Value>
    decreases |fieldMap|
  {
    if fieldMap == [] then Ok(doc)
    else
      match PopulateEntry(doc, fieldMap[0].0, fieldMap[0].1)
      case Fail(f) => Fail(f)
      case Ok(d) => PopulateMap(d, fieldMap[1..])
  }

  /** populateDocHiddenFields(doc, fieldMap), visiting the keys in the
      map's iteration order. */
  method PopulateDocHiddenFields(doc: Value, fieldMap: seq<(string, string)>) returns (r: Result<Value>)
    ensures r == PopulateMap(doc, fieldMap)
  {
    var cur := doc;
    var i := 0;
    while i < |fieldMap|
      invariant 0 <= i <= |fieldMap|
      invariant PopulateMap(doc, fieldMap) == PopulateMap(cur, fieldMap[i..])
    {
      PopulateMapStep(cur, fieldMap, i);
      var index, hidden := fieldMap[i].0, fieldMap[i].1;
      var step: Result<Value>;
      if '*' in index {
        step := PopulateHiddenArrayField(cur, index, hidden);
      } else {
        var path := ParsePath(index);
        if path == [] {
          return Fail(IndexOutOfBounds);
        }
        step := SimpleField(cur, path);
      }
      if step.Fail? {
        return step;
      }
      cur := step.value;
      i := i + 1;
    }
    return Ok(cur);
  }

  lemma PopulateMapStep(doc: Value, fieldMap: seq<(string, string)>, i: nat)
    requires i < |fieldMap|
    ensures PopulateMap(doc, fieldMap[i..]) ==
      match PopulateEntry(doc, fieldMap[i].0, fieldMap[i].1)
      case Fail(f) => Fail(f)
      case Ok(d) => PopulateMap(d, fieldMap[i + 1..])
  {
    assert fieldMap[i..][1..] == fieldMap[i + 1..];
  }

  /** The keys are handled one after the other, each on the document the
      previous ones left. */
  lemma {:induction false} PopulateMapAppend(doc: Value, m1: seq<(string, string)>, m2: seq<(string, string)>)
    ensures PopulateMap(doc, m1 + m2) ==
      match PopulateMap(doc, m1)
      case Fail(f) => Fail(f)
      case Ok(d) => PopulateMap(d, m2)
    decreases |m1|
  {
    if m1 != [] {
      assert (m1 + m2)[1..] == m1[1..] + m2;
      match PopulateEntry(doc, m1[0].0, m1[0].1)
      case Fail(f) =>
      case Ok(d) => PopulateMapAppend(d, m1[1..], m2);
    } else {
      assert m1 + m2 == m2;
    }
  }

  /** populateDocHiddenFields(doc, md): the field map pairs the text of each
      case-insensitive index field with the text of its hidden twin. */
  function FieldMap(fields: seq<Path>): (m: seq<(string, string)>)
    requires forall i :: 0 <= i < |fields| ==> |fields[i]| >= 2 || (|fields[i]| == 1 && !fields[i][0].Any?)
    ensures |m| == |fields|
  {
    seq(|fields|, i requires 0 <= i < |fields| => (PathText(fields[i]), PathText(HiddenForField(fields[i]))))
  }

  /** The texts in the field map parse back to the field and to its hidden
      twin, and for a field not ending in "*" the twin maps back to the
      field. */
  lemma FieldMapParses(fields: seq<Path>, i: nat)
    requires forall j :: 0 <= j < |fields| ==> |fields[j]| >= 2 || (|fields[j]| == 1 && !fields[j][0].Any?)
    requires i < |fields| && ValidPath(fields[i])
    ensures ParsePath(FieldMap(fields)[i].0) == fields[i]
    ensures ParsePath(FieldMap(fields)[i].1) == HiddenForField(fields[i])
    ensures !fields[i][|fields[i]| - 1].Any? ==> FieldForHidden(ParsePath(FieldMap(fields)[i].1)) == fields[i]
  {
    var p := fields[i];
    var h := HiddenForField(p);
    assert ValidSegment(Field(HIDDEN)) by {
      assert HIDDEN[0] == '@';
      assert !IsDigit(HIDDEN[0]);
    }
    assert ValidPath(h) by {
      forall j | 0 <= j < |h| ensures ValidSegment(h[j]) {
        if p[|p| - 1].Any? {
          if j > |p| - 2 {
            assert h[j] == p[j - 1];
          }
        } else if j == |p| {
          assert h[j] == p[|p| - 1];
        }
      }
    }
    ParsePathText(p);
    ParsePathText(h);
    if !p[|p| - 1].Any? {
      FieldForHiddenForField(p);
    }
  }

  /** The hidden twin of "objField.strField" and back. */
  lemma HiddenMappingNested()
    ensures PathText(HiddenForField([Field("objField"), Field("strField")])) == "objField.@mongoHidden.strField"
    ensures FieldForHidden([Field("objField"), Field(HIDDEN), Field("strField")]) == [Field("objField"), Field("strField")]
  {
    var h := [Field("objField"), Field(HIDDEN), Field("strField")];
    assert HiddenForField([Field("objField"), Field("strField")]) == h;
    assert SegTexts(h) == ["objField", HIDDEN, "strField"];
    assert ["objField", HIDDEN, "strField"][1..] == [HIDDEN, "strField"];
    assert [HIDDEN, "strField"][1..] == ["strField"];
    assert Join([HIDDEN, "strField"], ".") == HIDDEN + "." + "strField";
    assert Join(["objField", HIDDEN, "strField"], ".") == "objField" + "." + Join([HIDDEN, "strField"], ".");
    NestedHiddenText();
  }

  lemma NestedHiddenText()
    ensures "objField" + "." + (HIDDEN + "." + "strField") == "objField.@mongoHidden.strField"
  {
  }

  /** The hidden twin of "strField" and back. */
  lemma HiddenMappingTop()
    ensures PathText(HiddenForField([Field("strField")])) == "@mongoHidden.strField"
    ensures FieldForHidden([Field(HIDDEN), Field("strField")]) == [Field("strField")]
  {
    var h := [Field(HIDDEN), Field("strField")];
    assert HiddenForField([Field("strField")]) == h;
    assert SegTexts(h) == [HIDDEN, "strField"];
    assert [HIDDEN, "strField"][1..] == ["strField"];
    assert Join([HIDDEN, "strField"], ".") == HIDDEN + "." + "strField";
    TopHiddenText();
  }

  lemma TopHiddenText()
    ensures HIDDEN + "." + "strField" == "@mongoHidden.strField"
  {
  }
}
