/** MongoReadPreference.parse: a read preference written as a mode name,
    optionally followed by a parenthesised JSON argument giving its tag
    sets, e.g. nearest({"x":1}) or secondary([{"dc":"a"},{"dc":"b"}]).
    The JSON parser is a parameter: it gives the parsed value, or None
    when the text is not JSON. */
module ReadPreferences {
  import opened Text
  import opened Values

  const NEAREST: string := "nearest"
  const PRIMARY: string := "primary"
  const PRIMARY_PREFERRED: string := "primaryPreferred"
  const SECONDARY: string := "secondary"
  const SECONDARY_PREFERRED: string := "secondaryPreferred"

  datatype Mode = Primary | PrimaryPreferred | Secondary | SecondaryPreferred | Nearest

  /** A tag set: tag names with their values, as a DBObject of strings. */
  type TagSet = seq<Entry>

  /** The driver's ReadPreference: a mode and the tag sets in order, none
      for an untagged preference. */
  datatype ReadPreference = ReadPreference(mode: Mode, tagSets: seq<TagSet>)

  function ModeName(m: Mode): (s: string)
    ensures s != [] && !IsBlank(s[0]) && !IsBlank(s[|s| - 1]) && '(' !in s
  {
    match m
    case Primary => PRIMARY
    case PrimaryPreferred => PRIMARY_PREFERRED
    case Secondary => SECONDARY
    case SecondaryPreferred => SECONDARY_PREFERRED
    case Nearest => NEAREST
  }

  /** The mode a name selects, if it is one of the five. */
  function ModeOf(name: string): (m: Option<Mode>)
    ensures m.Some? ==> ModeName(m.value) == name
    ensures m.None? ==> forall k: Mode :: ModeName(k) != name
  {
    if name == NEAREST then Some(Nearest)
    else if name == PRIMARY then Some(Primary)
    else if name == PRIMARY_PREFERRED then Some(PrimaryPreferred)
    else if name == SECONDARY then Some(Secondary)
    else if name == SECONDARY_PREFERRED then Some(SecondaryPreferred)
    else None
  }

  /** Every mode's name selects it. */
  lemma ModeOfName(k: Mode)
    ensures ModeOf(ModeName(k)) == Some(k)
  {
  }

  // ---------------------------------------------------------------------------
  // parseArg and parseArgs
  // ---------------------------------------------------------------------------

  /** parseArg(arg): each member of the object, in order, appended with the
      text of its value (an append of a name seen before replaces its
      value). */
  function TagSetOf(fields: seq<Entry>): TagSet
    decreases |fields|
  {
    if fields == [] then []
    else
      var last := fields[|fields| - 1];
      Put(TagSetOf(fields[..|fields| - 1]), last.key, Str(AsText(last.value)))
  }

  /** The tag set has exactly the member names of the object, each with a
      string value. */
  lemma {:induction false} TagSetOfKeys(fields: seq<Entry>, k: string)
    ensures Has(TagSetOf(fields), k) <==> Has(fields, k)
    ensures Has(fields, k) ==> Lookup(TagSetOf(fields), k).Str?
    decreases |fields|
  {
    if fields != [] {
      var init := fields[..|fields| - 1];
      var last := fields[|fields| - 1];
      assert fields == init + [last];
      HasSnoc(init, last, k);
      if k != last.key {
        TagSetOfKeys(init, k);
        PutOther(TagSetOf(init), last.key, Str(AsText(last.value)), k);
      }
    }
  }

  /** parseArg(arg). */
  method ParseArg(fields: seq<Entry>) returns (r: TagSet)
    ensures r == TagSetOf(fields)
  {
    r := [];
    var i := 0;
    while i < |fields|
      invariant 0 <= i <= |fields|
      invariant r == TagSetOf(fields[..i])
    {
      assert fields[..i + 1][..i] == fields[..i];
      r := Put(r, fields[i].key, Str(AsText(fields[i].value)));
      i := i + 1;
    }
    assert fields[..|fields|] == fields;
  }

  /** With no repeated member names, the tag set holds every member in
      order with the text of its value. */
  lemma {:induction false} TagSetOfDistinct(fields: seq<Entry>)
    requires forall i, j :: 0 <= i < j < |fields| ==> fields[i].key != fields[j].key
    ensures |TagSetOf(fields)| == |fields|
    ensures forall i :: 0 <= i < |fields| ==> TagSetOf(fields)[i] == Entry(fields[i].key, Str(AsText(fields[i].value)))
    decreases |fields|
  {
    if fields != [] {
      var init := fields[..|fields| - 1];
      var last := fields[|fields| - 1];
      assert fields == init + [last];
      TagSetOfDistinct(init);
      assert !Has(init, last.key) by {
        NoKey(init, last.key);
      }
      var t := TagSetOf(init);
      var r := TagSetOf(fields);
      assert r == t + [Entry(last.key, Str(AsText(last.value)))] by {
        TagSetOfSnoc(init, last);
      }
      forall i | 0 <= i < |fields|
        ensures r[i] == Entry(fields[i].key, Str(AsText(fields[i].value)))
      {
        if i < |init| {
          assert r[i] == t[i] && fields[i] == init[i];
        }
      }
    }
  }

  /** A member whose name is new is appended to the tag set. */
  lemma TagSetOfSnoc(init: seq<Entry>, e: Entry)
    requires !Has(init, e.key)
    ensures TagSetOf(init + [e]) == TagSetOf(init) + [Entry(e.key, Str(AsText(e.value)))]
  {
    var fields := init + [e];
    assert fields[..|fields| - 1] == init;
    var t := TagSetOf(init);
    assert TagSetOf(fields) == Put(t, e.key, Str(AsText(e.value)));
    TagSetOfKeys(init, e.key);
    PutNew(t, e.key, Str(AsText(e.value)));
  }

  /** parseArgs(JsonNode): an object gives one tag set and a non-empty
      array of objects one per element, in order; anything else (an array
      with a non-object element, an empty array, a value that is neither)
      is refused, which shows as None. */
  function TagsOf(args: Value): (r: Option<seq<TagSet>>)
    ensures args.Obj? ==> r == Some([TagSetOf(args.fields)])
    ensures r.Some? ==> r.value != []
    ensures r.Some? && args.Arr? ==> (|r.value| == |args.elems| &&
      forall i :: 0 <= i < |args.elems| ==> args.elems[i].Obj? && r.value[i] == TagSetOf(args.elems[i].fields))
    ensures r.None? <==> !args.Obj? && (!args.Arr? || args.elems == [] || exists i :: 0 <= i < |args.elems| && !args.elems[i].Obj?)
  {
    match args
    case Obj(fs) => Some([TagSetOf(fs)])
    case Arr(xs) =>
      if xs == [] || exists i :: 0 <= i < |xs| && !xs[i].Obj? then None
      else Some(seq(|xs|, i requires 0 <= i < |xs| => TagSetOf(xs[i].fields)))
    case _ => None
  }

  /** parseArgs(JsonNode). */
  method ParseArgsNode(args: Value) returns (r: Option<seq<TagSet>>)
    ensures r == TagsOf(args)
  {
    if args.Obj? {
      var t := ParseArg(args.fields);
      return Some([t]);
    }
    if !args.Arr? {
      return None;
    }
    r := ParseArgList(args.elems);
  }

  /** The array case of parseArgs(JsonNode): one tag set per element, in
      order, refused at the first element that is not an object. */
  method ParseArgList(xs: seq<Value>) returns (r: Option<seq<TagSet>>)
    ensures r == TagsOf(Arr(xs))
  {
    var list: seq<TagSet> := [];
    var i := 0;
    while i < |xs|
      invariant 0 <= i <= |xs|
      invariant |list| == i
      invariant forall j :: 0 <= j < i ==> xs[j].Obj? && list[j] == TagSetOf(xs[j].fields)
    {
      if !xs[i].Obj? {
        assert xs != [] && !xs[i].Obj?;
        return None;
      }
      var t := ParseArg(xs[i].fields);
      TagSetsSnoc(xs, list, t);
      list := list + [t];
      i := i + 1;
    }
    if list == [] {
      return None;
    }
    AllTagSets(xs, list);
    r := Some(list);
  }

  /** One more element parsed keeps the loop's tag sets aligned with the
      array's elements. */
  lemma TagSetsSnoc(xs: seq<Value>, list: seq<TagSet>, t: TagSet)
    requires |list| < |xs| && xs[|list|].Obj? && t == TagSetOf(xs[|list|].fields)
    requires forall j :: 0 <= j < |list| ==> xs[j].Obj? && list[j] == TagSetOf(xs[j].fields)
    ensures forall j :: 0 <= j < |list| + 1 ==> xs[j].Obj? && (list + [t])[j] == TagSetOf(xs[j].fields)
  {
    forall j | 0 <= j < |list| + 1
      ensures xs[j].Obj? && (list + [t])[j] == TagSetOf(xs[j].fields)
    {
      if j < |list| {
        assert (list + [t])[j] == list[j];
      }
    }
  }

  /** The tag sets gathered by the loop are those TagsOf describes. */
  lemma AllTagSets(xs: seq<Value>, list: seq<TagSet>)
    requires xs != [] && |list| == |xs|
    requires forall j :: 0 <= j < |xs| ==> xs[j].Obj? && list[j] == TagSetOf(xs[j].fields)
    ensures TagsOf(Arr(xs)) == Some(list)
  {
    assert !exists i :: 0 <= i < |xs| && !xs[i].Obj?;
    assert list == seq(|xs|, i requires 0 <= i < |xs| => TagSetOf(xs[i].fields));
  }

  /** parseArgs(String): blank arguments give no tags; otherwise the
      trimmed text is parsed as JSON, and any failure on the way raises
      InvalidReadPreferenceArgs with that text. */
  function ParseArgs(args: string, json: string -> Option<Value>): (r: Result<Option<seq<TagSet>>>)
    ensures Trim(args) == [] ==> r == Ok(None)
    ensures r.Fail? ==> r == Fail(InvalidReadPreferenceArgs(Trim(args)))
    ensures r.Ok? && r.value.Some? ==> r.value.value != []
  {
    var a := Trim(args);
    if a == [] then Ok(None)
    else
      var node := json(a);
      if node.None? then Fail(InvalidReadPreferenceArgs(a))
      else
        var tags := TagsOf(node.value);
        if tags.None? then Fail(InvalidReadPreferenceArgs(a)) else Ok(tags)
  }

  // ---------------------------------------------------------------------------
  // parse
  // ---------------------------------------------------------------------------

  /** The preference of a mode with the tags given, if any: primary takes
      none. */
  function Preference(m: Mode, tags: Option<seq<TagSet>>): (p: ReadPreference)
    ensures p.mode == m
    ensures m == Primary || tags.None? ==> p.tagSets == []
    ensures m != Primary && tags.Some? ==> p.tagSets == tags.value
  {
    if m == Primary || tags.None? then ReadPreference(m, []) else ReadPreference(m, tags.value)
  }

  /** parse(value). */
  function Parse(value: string, json: string -> Option<Value>): (r: Result<ReadPreference>)
    ensures r.Fail? ==> r.fault.InvalidReadPreference? || r.fault.InvalidReadPreferenceArgs?
    ensures r.Fail? && r.fault.InvalidReadPreference? ==> r.fault.text == Trim(value)
    ensures r.Ok? && r.value.mode == Primary ==> r.value.tagSets == []
    ensures '(' !in Trim(value) ==>
      (r.Ok? <==> ModeOf(Trim(value)).Some?) &&
      (r.Ok? ==> r.value == ReadPreference(ModeOf(Trim(value)).value, [])) &&
      (r.Fail? ==> r == Fail(InvalidReadPreference(Trim(value))))
  {
    ParseTrimmed(Trim(value), json)
  }

  /** parse(value) once value is trimmed. */
  function ParseTrimmed(v: string, json: string -> Option<Value>): (r: Result<ReadPreference>)
    ensures r.Fail? ==> r.fault.InvalidReadPreference? || r.fault.InvalidReadPreferenceArgs?
    ensures r.Fail? && r.fault.InvalidReadPreference? ==> r.fault.text == v
    ensures r.Ok? && r.value.mode == Primary ==> r.value.tagSets == []
    ensures '(' !in v ==>
      (r.Ok? <==> ModeOf(v).Some?) &&
      (r.Ok? ==> r.value == ReadPreference(ModeOf(v).value, [])) &&
      (r.Fail? ==> r == Fail(InvalidReadPreference(v)))
  {
    var paren := IndexOf(v, '(');
    if paren != -1 then WithArgs(v, Trim(v[..paren]), Trim(v[paren + 1..]), json)
    else Select(v, ModeOf(v), None)
  }

  /** The name pref, then the trimmed text after the '(', which must end
      in ')'; the arguments are parsed before the name is looked at. */
  function WithArgs(v: string, pref: string, argsStr: string, json: string -> Option<Value>): (r: Result<ReadPreference>)
    ensures r.Fail? ==> r.fault.InvalidReadPreference? || r.fault.InvalidReadPreferenceArgs?
    ensures r.Fail? && r.fault.InvalidReadPreference? ==> r.fault.text == v
    ensures r.Ok? && r.value.mode == Primary ==> r.value.tagSets == []
  {
    if !EndsWith(argsStr, ")") then Fail(InvalidReadPreference(v))
    else
      var args := ParseArgs(argsStr[..|argsStr| - 1], json);
      if args.Fail? then Fail(args.fault) else Select(v, ModeOf(pref), args.value)
  }

  /** The switch on the name. */
  function Select(v: string, m: Option<Mode>, tags: Option<seq<TagSet>>): (r: Result<ReadPreference>)
    ensures r.Fail? <==> m.None?
    ensures r.Fail? ==> r == Fail(InvalidReadPreference(v))
    ensures r.Ok? ==> r.value == Preference(m.value, tags)
  {
    if m.None? then Fail(InvalidReadPreference(v)) else Ok(Preference(m.value, tags))
  }

  // ---------------------------------------------------------------------------
  // Properties
  // ---------------------------------------------------------------------------

  predicate Blanks(s: string) {
    forall i :: 0 <= i < |s| ==> IsBlank(s[i])
  }

  /** A text that could be a name: no '(' and no blank at either end. */
  predicate Word(name: string) {
    name != [] && !IsBlank(name[0]) && !IsBlank(name[|name| - 1]) && '(' !in name
  }

  /** A name alone, with any blanks around it, selects its mode without
      tags, or is refused with the name. */
  lemma PaddedName(name: string, pad1: string, pad2: string, json: string -> Option<Value>)
    requires Word(name) && Blanks(pad1) && Blanks(pad2)
    ensures Parse(pad1 + name + pad2, json) == Select(name, ModeOf(name), None)
  {
    TrimPadded(pad1, name, pad2);
    var r := ParseTrimmed(name, json);
    assert r == Select(name, ModeOf(name), None);
  }

  /** Each of the five names, with any blanks around it, parses to its
      untagged preference. */
  lemma NameParses(m: Mode, pad1: string, pad2: string, json: string -> Option<Value>)
    requires Blanks(pad1) && Blanks(pad2)
    ensures Parse(pad1 + ModeName(m) + pad2, json) == Ok(ReadPreference(m, []))
  {
    var name := ModeName(m);
    assert Word(name);
    PaddedName(name, pad1, pad2, json);
    ModeOfName(m);
    assert Select(name, Some(m), None) == Ok(ReadPreference(m, []));
  }

  /** Trimming a text that ends in a closing parenthesis trims only its
      start. */
  lemma TrimCloseParen(a: string)
    ensures Trim(a + ")") == TrimStart(a) + ")"
  {
    TrimStartAppend(a, ")");
    var t := TrimStart(a) + ")";
    assert !IsBlank(t[|t| - 1]);
  }

  /** The arguments are trimmed again, so trimming their start first
      changes nothing. */
  lemma ParseArgsTrimStart(a: string, json: string -> Option<Value>)
    ensures ParseArgs(TrimStart(a), json) == ParseArgs(a, json)
  {
    TrimStartIdempotent(a);
    assert Trim(TrimStart(a)) == Trim(a);
  }

  /** A name, blanks and an argument list split at the first '(' into the
      name and the arguments with the closing parenthesis. */
  lemma ParenAt(name: string, pad2: string, a: string)
    requires '(' !in name && Blanks(pad2)
    ensures IndexOf(name + pad2 + "(" + a + ")", '(') == |name| + |pad2|
  {
    assert '(' !in name + pad2 by {
      assert forall i :: 0 <= i < |pad2| ==> pad2[i] != '(';
    }
    assert name + pad2 + "(" + a + ")" == (name + pad2) + ("(" + a + ")");
    IndexOfPrefix(name + pad2, "(" + a + ")", '(');
  }

  lemma BeforeParen(name: string, pad2: string, a: string)
    requires name != [] && !IsBlank(name[0]) && !IsBlank(name[|name| - 1])
    requires Blanks(pad2)
    ensures Trim((name + pad2 + "(" + a + ")")[..|name| + |pad2|]) == name
  {
    assert (name + pad2 + "(" + a + ")")[..|name| + |pad2|] == [] + name + pad2;
    TrimPadded([], name, pad2);
  }

  lemma AfterParen(name: string, pad2: string, a: string)
    ensures Trim((name + pad2 + "(" + a + ")")[|name| + |pad2| + 1..]) == TrimStart(a) + ")"
  {
    var head := name + pad2 + "(";
    assert name + pad2 + "(" + a + ")" == head + (a + ")");
    assert (name + pad2 + "(" + a + ")")[|name| + |pad2| + 1..] == a + ")";
    TrimCloseParen(a);
  }

  /** parse once the name and the arguments are found. */
  lemma ParseSplit(v: string, json: string -> Option<Value>, paren: nat, pref: string, args: string)
    requires IndexOf(v, '(') == paren
    requires Trim(v[..paren]) == pref
    requires Trim(v[paren + 1..]) == args + ")"
    ensures ParseTrimmed(v, json) ==
      var r := ParseArgs(args, json);
      if r.Fail? then Fail(r.fault) else Select(v, ModeOf(pref), r.value)
  {
    var argsStr := args + ")";
    assert EndsWith(argsStr, ")");
    assert argsStr[..|argsStr| - 1] == args;
    assert ParseTrimmed(v, json) == WithArgs(v, pref, argsStr, json);
  }

  /** A trimmed text made of a name, blanks, then an argument list: the
      arguments are parsed first and their errors win; only then is the
      name looked up. */
  lemma NameWithArgs(name: string, pad2: string, a: string, json: string -> Option<Value>)
    requires Word(name) && Blanks(pad2)
    ensures ParseTrimmed(name + pad2 + "(" + a + ")", json) ==
      var r := ParseArgs(a, json);
      if r.Fail? then Fail(r.fault) else Select(name + pad2 + "(" + a + ")", ModeOf(name), r.value)
  {
    var v := name + pad2 + "(" + a + ")";
    ParenAt(name, pad2, a);
    BeforeParen(name, pad2, a);
    AfterParen(name, pad2, a);
    ParseSplit(v, json, |name| + |pad2|, name, TrimStart(a));
    ParseArgsTrimStart(a, json);
  }

  /** The same with any blanks around the whole text. */
  lemma PaddedWithArgs(name: string, pad1: string, pad2: string, a: string, pad3: string, json: string -> Option<Value>)
    requires Word(name) && Blanks(pad1) && Blanks(pad2) && Blanks(pad3)
    ensures Parse(pad1 + name + pad2 + "(" + a + ")" + pad3, json) ==
      var r := ParseArgs(a, json);
      if r.Fail? then Fail(r.fault) else Select(name + pad2 + "(" + a + ")", ModeOf(name), r.value)
  {
    var w := name + pad2 + "(" + a + ")";
    assert pad1 + name + pad2 + "(" + a + ")" + pad3 == pad1 + w + pad3;
    TrimPadded(pad1, w, pad3);
    NameWithArgs(name, pad2, a, json);
  }

  /** Each mode's name with blanks and an argument list around it: the
      arguments decide the tags, and their errors come first. */
  lemma ParseWithArgs(m: Mode, pad1: string, pad2: string, a: string, pad3: string, json: string -> Option<Value>)
    requires Blanks(pad1) && Blanks(pad2) && Blanks(pad3)
    ensures Parse(pad1 + ModeName(m) + pad2 + "(" + a + ")" + pad3, json) ==
      var r := ParseArgs(a, json);
      if r.Fail? then Fail(r.fault) else Ok(Preference(m, r.value))
  {
    PaddedWithArgs(ModeName(m), pad1, pad2, a, pad3, json);
    ModeOfName(m);
  }

  /** A name right before its argument list. */
  lemma NameArgs(m: Mode, a: string, json: string -> Option<Value>)
    ensures Parse(ModeName(m) + "(" + a + ")", json) ==
      var r := ParseArgs(a, json);
      if r.Fail? then Fail(r.fault) else Ok(Preference(m, r.value))
  {
    var name := ModeName(m);
    assert [] + name + [] + "(" + a + ")" + [] == name + "(" + a + ")";
    ParseWithArgs(m, [], [], a, [], json);
  }

  /** Empty parentheses are the same as none. */
  lemma EmptyParens(m: Mode, blanks: string, json: string -> Option<Value>)
    requires Blanks(blanks)
    ensures Parse(ModeName(m) + "(" + blanks + ")", json) == Ok(ReadPreference(m, []))
  {
    assert ParseArgs(blanks, json) == Ok(None) by {
      TrimStartPadded(blanks, []);
      assert blanks + [] == blanks;
      assert Trim(blanks) == TrimEnd([]);
    }
    NameArgs(m, blanks, json);
  }

  /** primary ignores whatever tags its arguments give, but not their
      errors. */
  lemma PrimaryIgnoresTags(a: string, json: string -> Option<Value>)
    ensures Parse(PRIMARY + "(" + a + ")", json) ==
      if ParseArgs(a, json).Fail? then Fail(InvalidReadPreferenceArgs(Trim(a)))
      else Ok(ReadPreference(Primary, []))
  {
    NameArgs(Primary, a, json);
  }

  /** Any other mode takes the tag sets its JSON argument gives (one for
      an object, one per element of an array of objects); blank arguments
      give none, and text that is not JSON, or JSON of another shape, is
      refused with the trimmed argument text. */
  lemma TaggedParse(m: Mode, a: string, json: string -> Option<Value>)
    requires m != Primary
    ensures var r := Parse(ModeName(m) + "(" + a + ")", json);
      var t := Trim(a);
      (t == [] ==> r == Ok(ReadPreference(m, []))) &&
      (t != [] && (json(t).None? || TagsOf(json(t).value).None?) ==> r == Fail(InvalidReadPreferenceArgs(t))) &&
      (t != [] && json(t).Some? && TagsOf(json(t).value).Some? ==> r == Ok(ReadPreference(m, TagsOf(json(t).value).value)))
  {
    NameArgs(m, a, json);
  }

  /** A parenthesis that is never closed is refused with the whole
      trimmed text, whatever the name. */
  lemma UnclosedArgs(name: string, a: string, json: string -> Option<Value>)
    requires name != [] && !IsBlank(name[0]) && '(' !in name
    requires ')' !in a
    requires a == [] || !IsBlank(a[|a| - 1])
    ensures Parse(name + "(" + a, json) == Fail(InvalidReadPreference(name + "(" + a))
  {
    var w := name + "(" + a;
    assert Trim(w) == w by {
      TrimWord(w);
    }
    assert IndexOf(w, '(') == |name| by {
      assert w == name + ("(" + a);
      IndexOfPrefix(name, "(" + a, '(');
    }
    assert !EndsWith(Trim(w[|name| + 1..]), ")") by {
      assert w[|name| + 1..] == a;
      TrimKeepsOut(a, ')');
      var t := Trim(a);
      assert t == [] || t[|t| - 1] != ')';
    }
    ParseUnclosed(w, json, |name|);
  }

  /** parse refuses a text whose arguments do not end in ')'. */
  lemma ParseUnclosed(v: string, json: string -> Option<Value>, paren: nat)
    requires IndexOf(v, '(') == paren
    requires !EndsWith(Trim(v[paren + 1..]), ")")
    ensures ParseTrimmed(v, json) == Fail(InvalidReadPreference(v))
  {
    var pref := Trim(v[..paren]);
    var argsStr := Trim(v[paren + 1..]);
    assert WithArgs(v, pref, argsStr, json) == Fail(InvalidReadPreference(v));
    assert ParseTrimmed(v, json) == WithArgs(v, pref, argsStr, json);
  }

  /** Tag values are kept as their text: {"x":1} gives the tag x = "1". */
  lemma TagValueAsText()
    ensures TagSetOf([Entry("x", Num(1))]) == [Entry("x", Str("1"))]
  {
    assert AsText(Num(1)) == "1" by {
      assert IntToString(1) == NatToString(1);
    }
  }
}
