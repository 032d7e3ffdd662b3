/** IndexManagementCfg: which entities have their indexes managed by the
    controller, from an optional set of managed entity names and an
    optional set of unmanaged ones (names match exactly). */
module IndexManagement {
  import opened Text
  import opened Values

  /** None stands for a null set. */
  datatype IndexManagementCfg = IndexManagementCfg(managed: Option<set<string>>, unmanaged: Option<set<string>>)

  /** isManaged(entityName): a managed set, when there is one, must hold
      the name, and an unmanaged set, when there is one, must not. */
  function IsManaged(cfg: IndexManagementCfg, entity: string): (r: bool)
    ensures r <==> (cfg.managed.None? || entity in cfg.managed.value) &&
                   (cfg.unmanaged.None? || entity !in cfg.unmanaged.value)
  {
    var answer := if cfg.managed.Some? then entity in cfg.managed.value else true;
    if cfg.unmanaged.Some? then answer && entity !in cfg.unmanaged.value else answer
  }

  /** The rules the configuration follows: with no sets everything is
      managed, the unmanaged set overrides the managed one, an empty
      managed set manages nothing and an empty unmanaged set alone manages
      everything. */
  lemma ManagementRules(m: set<string>, u: set<string>, e: string)
    ensures IsManaged(IndexManagementCfg(None, None), e)
    ensures IsManaged(IndexManagementCfg(Some(m), None), e) <==> e in m
    ensures IsManaged(IndexManagementCfg(None, Some(u)), e) <==> e !in u
    ensures e in u ==> !IsManaged(IndexManagementCfg(Some(m), Some(u)), e)
    ensures !IsManaged(IndexManagementCfg(Some({}), Some(u)), e)
    ensures IsManaged(IndexManagementCfg(None, Some({})), e)
  {
  }

  /** The texts of the non-null elements. */
  function TextSet(xs: seq<Value>): (r: set<string>)
    ensures forall t :: t in r <==> exists i :: 0 <= i < |xs| && !xs[i].Null? && AsText(xs[i]) == t
    decreases |xs|
  {
    if xs == [] then {}
    else
      var init := xs[..|xs| - 1];
      var last := xs[|xs| - 1];
      var r := TextSet(init) + (if last.Null? then {} else {AsText(last)});
      assert forall i :: 0 <= i < |init| ==> init[i] == xs[i];
      r
  }

  /** getStringSetOption(node, optionName): None for a null node or a value
      that is not an array, else the texts of the array's non-null
      elements. As written, an option that is missing altogether raises
      NullPointerException; fixed = true treats it like a non-array. */
  function StringSetOption(node: Option<seq<Entry>>, name: string, fixed: bool): (r: Result<Option<set<string>>>)
    ensures r.Fail? ==> !fixed && r == Fail(NullPointer)
  {
    if node.None? then Ok(None)
    else if !Has(node.value, name) then (if fixed then Ok(None) else Fail(NullPointer))
    else
      var value := Lookup(node.value, name);
      if value.Arr? then Ok(Some(TextSet(value.elems))) else Ok(None)
  }

  /** getStringSetOption(node, optionName), as written. */
  method GetStringSetOption(node: Option<seq<Entry>>, name: string) returns (r: Result<Option<set<string>>>)
    ensures r == StringSetOption(node, name, false)
  {
    if node.None? {
      return Ok(None);
    }
    if !Has(node.value, name) {
      return Fail(NullPointer);
    }
    var value := Lookup(node.value, name);
    if !value.Arr? {
      return Ok(None);
    }
    var xs := value.elems;
    var answer: set<string> := {};
    var i := 0;
    while i < |xs|
      invariant 0 <= i <= |xs|
      invariant answer == TextSet(xs[..i])
    {
      TextSetStep(xs, i);
      if !xs[i].Null? {
        answer := answer + {AsText(xs[i])};
      }
      i := i + 1;
    }
    TakeAll(xs);
    r := Ok(Some(answer));
  }

  lemma TextSetStep(xs: seq<Value>, i: nat)
    requires i < |xs|
    ensures TextSet(xs[..i + 1]) == TextSet(xs[..i]) + (if xs[i].Null? then {} else {AsText(xs[i])})
  {
    TakeStep(xs, i);
  }

  /** new IndexManagementCfg(controllerCfg): the options object (None for a
      null configuration or null options); an "indexManagement" member that
      is an object supplies both sets. */
  function FromOptions(options: Option<seq<Entry>>, fixed: bool): (r: Result<IndexManagementCfg>)
    ensures r.Fail? ==> !fixed
  {
    if options.None? then Ok(IndexManagementCfg(None, None))
    else
      var im := Lookup(options.value, "indexManagement");
      if !im.Obj? then Ok(IndexManagementCfg(None, None))
      else
        match StringSetOption(Some(im.fields), "managedEntities", fixed)
        case Fail(f) => Fail(f)
        case Ok(m) =>
          match StringSetOption(Some(im.fields), "unmanagedEntities", fixed)
          case Fail(f) => Fail(f)
          case Ok(u) => Ok(IndexManagementCfg(m, u))
  }

  /** The options object a configuration file gives for the two sets, a
      missing set being left out. */
  function Encode(m: Option<seq<string>>, u: Option<seq<string>>): seq<Entry> {
    [Entry("indexManagement", Obj(Members(m, u)))]
  }

  /** The members of the "indexManagement" object. */
  function Members(m: Option<seq<string>>, u: Option<seq<string>>): seq<Entry> {
    (if m.Some? then [Entry("managedEntities", Arr(Strs(m.value)))] else []) +
    (if u.Some? then [Entry("unmanagedEntities", Arr(Strs(u.value)))] else [])
  }

  function Strs(names: seq<string>): (r: seq<Value>)
    ensures |r| == |names| && forall i :: 0 <= i < |names| ==> r[i] == Str(names[i])
  {
    seq(|names|, i requires 0 <= i < |names| => Str(names[i]))
  }

  function SetOf(names: Option<seq<string>>): Option<set<string>> {
    if names.None? then None else Some(set i | 0 <= i < |names.value| :: names.value[i])
  }

  lemma TextSetStrs(names: seq<string>)
    ensures TextSet(Strs(names)) == set i | 0 <= i < |names| :: names[i]
  {
    var xs := Strs(names);
    forall t
      ensures t in TextSet(xs) <==> t in set i | 0 <= i < |names| :: names[i]
    {
      if t in TextSet(xs) {
        var i :| 0 <= i < |xs| && !xs[i].Null? && AsText(xs[i]) == t;
        assert names[i] == t;
      }
      if t in set i | 0 <= i < |names| :: names[i] {
        var i :| 0 <= i < |names| && names[i] == t;
        assert !xs[i].Null? && AsText(xs[i]) == t;
      }
    }
  }

  /** Finding: options naming only the unmanaged entities raise
      NullPointerException instead of leaving the managed set null. */
  lemma MissingOptionFails()
    ensures FromOptions(Some(Encode(None, Some(["x"]))), false) == Fail(NullPointer)
  {
    ManagedOption(None, Some(["x"]), false);
  }

  /** With a missing option read as null, the configuration read from JSON
      is the one built from the sets directly, whichever of them are given;
      as written, this holds only when both are given. */
  lemma JsonConfigAgrees(m: Option<seq<string>>, u: Option<seq<string>>)
    ensures FromOptions(Some(Encode(m, u)), true) == Ok(IndexManagementCfg(SetOf(m), SetOf(u)))
    ensures m.Some? && u.Some? ==> FromOptions(Some(Encode(m, u)), false) == FromOptions(Some(Encode(m, u)), true)
  {
    var im := Members(m, u);
    assert Lookup(Encode(m, u), "indexManagement") == Obj(im);
    ManagedOption(m, u, true);
    UnmanagedOption(m, u, true);
    ManagedOption(m, u, false);
    UnmanagedOption(m, u, false);
  }

  /** The managed set read back from the members. */
  lemma ManagedOption(m: Option<seq<string>>, u: Option<seq<string>>, fixed: bool)
    ensures StringSetOption(Some(Members(m, u)), "managedEntities", fixed) ==
      if m.Some? || fixed then Ok(SetOf(m)) else Fail(NullPointer)
  {
    var uu := if u.Some? then [Entry("unmanagedEntities", Arr(Strs(u.value)))] else [];
    if m.Some? {
      var e := Entry("managedEntities", Arr(Strs(m.value)));
      assert Members(m, u) == [e] + uu;
      LookupCons(e, uu, "managedEntities");
      TextSetStrs(m.value);
    } else {
      assert Members(m, u) == uu by {
        EmptyAppend(uu);
      }
      if u.Some? {
        LookupCons(uu[0], [], "managedEntities");
        assert [uu[0]] + [] == uu;
      }
    }
  }

  /** The unmanaged set read back from the members. */
  lemma UnmanagedOption(m: Option<seq<string>>, u: Option<seq<string>>, fixed: bool)
    ensures StringSetOption(Some(Members(m, u)), "unmanagedEntities", fixed) ==
      if u.Some? || fixed then Ok(SetOf(u)) else Fail(NullPointer)
  {
    var mm := if m.Some? then [Entry("managedEntities", Arr(Strs(m.value)))] else [];
    if u.Some? {
      var e := Entry("unmanagedEntities", Arr(Strs(u.value)));
      LookupCons(e, [], "unmanagedEntities");
      assert [e] + [] == [e];
      if m.Some? {
        assert Members(m, u) == [mm[0]] + [e];
        LookupCons(mm[0], [e], "unmanagedEntities");
      } else {
        assert Members(m, u) == [e] by {
          EmptyAppend([e]);
        }
      }
      TextSetStrs(u.value);
    } else {
      assert Members(m, u) == mm;
      if m.Some? {
        LookupCons(mm[0], [], "unmanagedEntities");
        assert [mm[0]] + [] == mm;
      }
    }
  }
}
