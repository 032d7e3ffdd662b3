/** The small code-generation tree behind the JavaScript query translator:
    dotted variable names, the naming context of a generated function,
    blocks of statements, functions and their global variables. Names,
    blocks, functions and contexts are objects updated in place; a global
    variable declaration is a value. */
module JsAst {
  import opened Text
  import opened Values
  import opened Paths

  /** Path.PARENT and Path.THIS of lightblue field paths. */
  const PARENT := "$parent"
  const THIS := "$this"

  // ---------------------------------------------------------------------------
  // Name
  // ---------------------------------------------------------------------------

  /** Name.Part: one component of a variable name, flagged when it is an
      array index. */
  datatype Part = Part(name: string, index: bool)

  /** Name.toString of a part list, as the builder loop produces it: an
      index part appends "[name]"; any other part appends its name, after
      a '.' when the text so far is non-empty. */
  function Render(ps: seq<Part>): string
    decreases |ps|
  {
    if ps == [] then ""
    else
      var t := Render(ps[..|ps| - 1]);
      var p := ps[|ps| - 1];
      if p.index then t + "[" + p.name + "]"
      else (if t != [] then t + "." else t) + p.name
  }

  /** Without index parts and empty names, a name renders as its parts
      joined with dots. */
  lemma {:induction false} RenderFields(ps: seq<Part>)
    requires forall i :: 0 <= i < |ps| ==> !ps[i].index && ps[i].name != []
    ensures Render(ps) == Join(Names(ps), ".")
    decreases |ps|
  {
    if |ps| > 1 {
      var init := ps[..|ps| - 1];
      RenderFields(init);
      assert Names(ps) == Names(init) + [ps[|ps| - 1].name];
      JoinAppend(Names(init), [ps[|ps| - 1].name], ".");
      assert Render(init) != [] by { JoinNonEmpty(Names(init)); }
    } else if |ps| == 1 {
      assert ps[..0] == [];
    }
  }

  function Names(ps: seq<Part>): (ns: seq<string>)
    ensures |ns| == |ps|
    ensures forall i :: 0 <= i < |ps| ==> ns[i] == ps[i].name
  {
    seq(|ps|, i requires 0 <= i < |ps| => ps[i].name)
  }

  lemma JoinNonEmpty(ns: seq<string>)
    requires ns != [] && ns[0] != []
    ensures Join(ns, ".") != []
  {
    if |ns| > 1 {
      assert Join(ns, ".")[0] == ns[0][0];
    }
  }

  /** An index part between two fields: "x[n].y". */
  lemma RenderIndexBetween(x: string, n: string, y: string)
    requires x != []
    ensures Render([Part(x, false), Part(n, true), Part(y, false)]) == x + "[" + n + "]" + "." + y
  {
    var ps := [Part(x, false), Part(n, true), Part(y, false)];
    assert ps[..2][..1] == [Part(x, false)];
    assert ps[..1] == [Part(x, false)];
    assert Render(ps[..1]) == x by { assert ps[..1][..0] == []; }
    assert ps[..2] == [Part(x, false), Part(n, true)];
    assert Render(ps[..2]) == x + "[" + n + "]";
  }

  /** Rendering a name made from a path without array indexes gives the
      path's own text. */
  lemma RenderPathFields(p: Path)
    requires ValidPath(p)
    requires forall i :: 0 <= i < |p| ==> p[i].Field?
    ensures Render(PathParts(p)) == PathText(p)
  {
    var ps := PathParts(p);
    forall i | 0 <= i < |ps| ensures !ps[i].index && ps[i].name != [] {
      assert ValidSegment(p[i]);
    }
    RenderFields(ps);
    assert Names(ps) == SegTexts(p);
  }

  /** The parts Name(Path) builds. */
  function PathParts(p: Path): (ps: seq<Part>)
    ensures |ps| == |p|
    ensures forall i :: 0 <= i < |p| ==> ps[i].name == SegText(p[i]) && (ps[i].index <==> p[i].Index?)
  {
    seq(|p|, i requires 0 <= i < |p| => Part(SegText(p[i]), p[i].Index?))
  }

  /** Name: a variable name as a growing list of parts. */
  class Name {
    var parts: seq<Part>

    /** Name(): no parts. */
    constructor ()
      ensures parts == []
    {
      parts := [];
    }

    /** Name(Name): the argument's parts, in a list of its own. */
    constructor Copy(n: Name)
      ensures parts == n.parts
    {
      parts := n.parts;
    }

    /** Name(Path): one part per segment, an index part exactly for an
        index segment. */
    constructor FromPath(p: Path)
      ensures parts == PathParts(p)
    {
      var ps: seq<Part> := [];
      var i := 0;
      while i < |p|
        invariant 0 <= i <= |p|
        invariant ps == PathParts(p[..i])
      {
        assert p[..i + 1] == p[..i] + [p[i]];
        ps := ps + [Part(SegText(p[i]), p[i].Index?)];
        i := i + 1;
      }
      assert p[..|p|] == p;
      parts := ps;
    }

    function Length(): nat
      reads this
    {
      |parts|
    }

    /** add(String, boolean): one part more, at the end; the name itself is
        returned. */
    method Add(name: string, index: bool) returns (r: Name)
      modifies this
      ensures r == this
      ensures parts == old(parts) + [Part(name, index)]
      ensures Length() == old(Length()) + 1
    {
      parts := parts + [Part(name, index)];
      r := this;
    }

    /** add(Name): the argument's parts appended in order (the argument may
        be this name itself). */
    method AddName(n: Name) returns (r: Name)
      modifies this
      ensures r == this
      ensures parts == old(parts) + old(n.parts)
      ensures Length() == old(Length()) + old(n.Length())
    {
      parts := parts + n.parts;
      r := this;
    }

    /** add(Part). */
    method AddPart(p: Part) returns (r: Name)
      modifies this
      ensures r == this
      ensures parts == old(parts) + [p]
      ensures Length() == old(Length()) + 1
    {
      parts := parts + [p];
      r := this;
    }

    /** removeLast: the last part dropped; the list must not be empty
        (ArrayList.remove(-1) throws). */
    method RemoveLast() returns (r: Name)
      requires parts != []
      modifies this
      ensures r == this
      ensures parts + [old(parts)[|old(parts)| - 1]] == old(parts)
      ensures Length() == old(Length()) - 1
    {
      parts := parts[..|parts| - 1];
      r := this;
    }

    /** toString. */
    method ToString() returns (s: string)
      ensures s == Render(parts)
    {
      s := "";
      var i := 0;
      while i < |parts|
        invariant 0 <= i <= |parts|
        invariant s == Render(parts[..i])
      {
        var p := parts[i];
        assert parts[..i + 1][..i] == parts[..i];
        if p.index {
          s := s + "[" + p.name + "]";
        } else {
          if |s| > 0 {
            s := s + ".";
          }
          s := s + p.name;
        }
        i := i + 1;
      }
      assert parts[..|parts|] == parts;
    }
  }

  /** A copy made by Name(Name) is independent: adding to it leaves the
      original's parts as they were. */
  method CopyThenAdd(n: Name, name: string, index: bool) returns (c: Name)
    ensures fresh(c)
    ensures n.parts == old(n.parts)
    ensures c.parts == n.parts + [Part(name, index)]
  {
    c := new Name.Copy(n);
    var _ := c.Add(name, index);
  }

  // ---------------------------------------------------------------------------
  // GlobalVar
  // ---------------------------------------------------------------------------

  /** GlobalVar: a variable declared at the top of a generated function,
      with an optional initial value. */
  datatype GlobalVar = GlobalVar(name: string, init: Option<string>)
  {
    /** The declaration text: "var name;" or "var name=init;". */
    function Decl(): string {
      match init
      case None => "var " + name + ";"
      case Some(e) => "var " + name + "=" + e + ";"
    }

    /** appendToStr: the declaration appended to what the builder holds. */
    function AppendToStr(bld: string): (r: string)
      ensures |r| == |bld| + |Decl()|
      ensures r[..|bld|] == bld && r[|bld|..] == Decl()
    {
      bld + Decl()
    }

    /** toString: appendToStr on an empty builder. */
    function ToString(): (r: string)
      ensures r == AppendToStr("")
    {
      Decl()
    }
  }

  /** Reading a declaration back: the name up to the first '=', the
      initial value after it. */
  function ParseDecl(s: string): Option<GlobalVar> {
    if |s| >= 5 && s[..4] == "var " && s[|s| - 1] == ';' then
      var body := s[4..|s| - 1];
      var k := IndexOf(body, '=');
      if k < 0 then Some(GlobalVar(body, None))
      else Some(GlobalVar(body[..k], Some(body[k + 1..])))
    else None
  }

  /** A declaration names its variable and initial value unambiguously
      when the name holds no '='. */
  lemma ParseDeclRoundTrip(g: GlobalVar)
    requires '=' !in g.name
    ensures ParseDecl(g.Decl()) == Some(g)
  {
    match g.init
    case None => ParseBareDecl(g.name);
    case Some(e) => ParseInitDecl(g.name, e);
  }

  lemma ParseBareDecl(n: string)
    requires '=' !in n
    ensures ParseDecl("var " + n + ";") == Some(GlobalVar(n, None))
  {
    var s := "var " + n + ";";
    assert s[..4] == "var ";
    assert s[4..|s| - 1] == n;
  }

  lemma ParseInitDecl(n: string, e: string)
    requires '=' !in n
    ensures ParseDecl("var " + n + "=" + e + ";") == Some(GlobalVar(n, Some(e)))
  {
    var s := "var " + n + "=" + e + ";";
    var body := n + ("=" + e);
    assert s[..4] == "var ";
    assert s[4..|s| - 1] == body;
    IndexOfPrefix(n, "=" + e, '=');
    assert body[..|n|] == n;
    assert body[|n| + 1..] == e;
  }

  // ---------------------------------------------------------------------------
  // Block
  // ---------------------------------------------------------------------------

  /** The strings one after another. */
  function Concat(ts: seq<string>): string
    decreases |ts|
  {
    if ts == [] then "" else Concat(ts[..|ts| - 1]) + ts[|ts| - 1]
  }

  lemma ConcatSnoc(ts: seq<string>, t: string)
    ensures Concat(ts + [t]) == Concat(ts) + t
  {
    assert (ts + [t])[..|ts|] == ts;
  }

  lemma {:induction false} ConcatAppend(ts: seq<string>, us: seq<string>)
    ensures Concat(ts + us) == Concat(ts) + Concat(us)
    decreases |us|
  {
    if us == [] {
      assert ts + us == ts;
    } else {
      var init, last := us[..|us| - 1], us[|us| - 1];
      assert ts + us == (ts + init) + [last];
      ConcatSnoc(ts + init, last);
      ConcatSnoc(init, last);
      ConcatAppend(ts, init);
      AppendAssoc(Concat(ts), Concat(init), last);
    }
  }

  /** A generated statement: `code` is its rendering, `parent` the block
      holding it. */
  class Statement {
    var parent: Block?
    const code: string

    constructor (code: string)
      ensures this.code == code && parent == null
    {
      this.code := code;
      parent := null;
    }
  }

  /** The statements' renderings in order. */
  function Codes(xs: seq<Statement>): string
    decreases |xs|
  {
    if xs == [] then "" else Codes(xs[..|xs| - 1]) + xs[|xs| - 1].code
  }

  /** Rendering a list of statements is rendering its two halves one after
      the other. */
  lemma {:induction false} CodesAppend(xs: seq<Statement>, ys: seq<Statement>)
    ensures Codes(xs + ys) == Codes(xs) + Codes(ys)
    decreases |ys|
  {
    if ys == [] {
      assert xs + ys == xs;
    } else {
      var init := ys[..|ys| - 1];
      assert (xs + ys)[..|xs + ys| - 1] == xs + init;
      CodesAppend(xs, init);
    }
  }

  /** Block: a list of statements and the variable that holds its result. */
  class Block {
    var statements: seq<Statement>
    var resultVar: Option<string>

    /** Block(resultVar, Statement...): the statements added in argument
        order, each now held by this block. Block(resultVar), Block(x...)
        and Block() are this with no statements and with no result
        variable. */
    constructor (resultVar: Option<string>, xs: seq<Statement>)
      modifies set x | x in xs
      ensures this.resultVar == resultVar
      ensures statements == xs
      ensures forall x :: x in xs ==> x.parent == this
    {
      this.resultVar := resultVar;
      statements := [];
      new;
      var i := 0;
      while i < |xs|
        invariant 0 <= i <= |xs|
        invariant this.resultVar == resultVar
        invariant statements == xs[..i]
        invariant forall j :: 0 <= j < i ==> xs[j].parent == this
      {
        assert xs[..i + 1] == xs[..i] + [xs[i]];
        Add(xs[i]);
        i := i + 1;
      }
      assert xs[..|xs|] == xs;
    }

    /** add: the statement goes last and this block becomes its parent. */
    method Add(x: Statement)
      modifies this, x
      ensures statements == old(statements) + [x]
      ensures resultVar == old(resultVar)
      ensures x.parent == this
    {
      statements := statements + [x];
      x.parent := this;
    }

    /** The block's text: its statements between braces. */
    function Text(): string
      reads this
    {
      "{" + Codes(statements) + "}"
    }

    /** appendToStr. */
    method AppendToStr(bld: string) returns (r: string)
      ensures r == bld + Text()
    {
      r := bld + "{";
      var i := 0;
      while i < |statements|
        invariant 0 <= i <= |statements|
        invariant r == bld + "{" + Codes(statements[..i])
      {
        assert statements[..i + 1][..i] == statements[..i];
        r := r + statements[i].code;
        i := i + 1;
      }
      assert statements[..|statements|] == statements;
      r := r + "}";
    }
  }

  /** Adding a statement to a block puts its code right before the closing
      brace. */
  lemma AddRendersLast(ss: seq<Statement>, x: Statement)
    ensures "{" + Codes(ss + [x]) + "}" == "{" + Codes(ss) + x.code + "}"
  {
    CodesAppend(ss, [x]);
    assert [x][..0] == [];
  }

  // ---------------------------------------------------------------------------
  // Function
  // ---------------------------------------------------------------------------

  /** The declarations of a list of globals, in order. */
  function Decls(gs: seq<GlobalVar>): string {
    Concat(DeclTexts(gs))
  }

  function DeclTexts(gs: seq<GlobalVar>): (ts: seq<string>)
    ensures |ts| == |gs|
    ensures forall i :: 0 <= i < |gs| ==> ts[i] == gs[i].Decl()
  {
    seq(|gs|, i requires 0 <= i < |gs| => gs[i].Decl())
  }

  /** Declaring globals one list after another declares them in that
      order. */
  lemma DeclsAppend(gs: seq<GlobalVar>, hs: seq<GlobalVar>)
    ensures Decls(gs + hs) == Decls(gs) + Decls(hs)
  {
    assert DeclTexts(gs + hs) == DeclTexts(gs) + DeclTexts(hs);
    ConcatAppend(DeclTexts(gs), DeclTexts(hs));
  }

  /** Every global is named "r" followed by a number below n. */
  ghost predicate NamedBelow(gs: seq<GlobalVar>, n: nat) {
    forall i :: 0 <= i < |gs| ==> exists k: nat :: k < n && gs[i].name == "r" + NatToString(k)
  }

  /** Distinct counter values give distinct names. */
  lemma NamesDistinct(prefix: string, a: nat, b: nat)
    requires a != b
    ensures prefix + NatToString(a) != prefix + NatToString(b)
  {
    if prefix + NatToString(a) == prefix + NatToString(b) {
      assert NatToString(a) == (prefix + NatToString(a))[|prefix|..];
      ParseNatToString(a);
      ParseNatToString(b);
      assert false;
    }
  }

  /** The next counter value names a global none of the earlier ones has,
      and the globals stay numbered below the counter. */
  lemma FreshGlobalName(gs: seq<GlobalVar>, n: nat, e: Option<string>)
    requires NamedBelow(gs, n)
    ensures forall i :: 0 <= i < |gs| ==> gs[i].name != "r" + NatToString(n)
    ensures NamedBelow(gs + [GlobalVar("r" + NatToString(n), e)], n + 1)
  {
    forall i | 0 <= i < |gs| ensures gs[i].name != "r" + NatToString(n) {
      var k: nat :| k < n && gs[i].name == "r" + NatToString(k);
      NamesDistinct("r", k, n);
    }
    var hs := gs + [GlobalVar("r" + NatToString(n), e)];
    forall i | 0 <= i < |hs| ensures exists k: nat :: k < n + 1 && hs[i].name == "r" + NatToString(k) {
      if i < |gs| {
        var k: nat :| k < n && gs[i].name == "r" + NatToString(k);
        assert hs[i] == gs[i];
      } else {
        assert hs[i].name == "r" + NatToString(n);
      }
    }
  }

  /** The text `return` names: Java appends a null result variable as
      "null". */
  function ResultText(v: Option<string>): string {
    match v
    case None => "null"
    case Some(s) => s
  }

  lemma Regroup(a: string, h: string, d: string, b: string, t: string)
    ensures a + (h + d + b + t) == a + h + d + b + t
  {
    AppendAssoc(a, h + d + b, t);
    AppendAssoc(a, h + d, b);
    AppendAssoc(a, h, d);
  }

  /** The closing statement of a generated function. */
  function Return(v: Option<string>): string {
    "return " + ResultText(v) + ";" + "}"
  }

  /** Function: a generated function, its globals and its body. */
  class Function {
    var block: Block?
    var globals: seq<GlobalVar>

    /** Function(Block), and Function() with a null block. */
    constructor (block: Block?)
      ensures this.block == block && globals == []
    {
      this.block := block;
      globals := [];
    }

    /** global: one declaration more, last. */
    method Global(name: string, initExpr: Option<string>)
      modifies this
      ensures globals == old(globals) + [GlobalVar(name, initExpr)]
      ensures block == old(block)
    {
      globals := globals + [GlobalVar(name, initExpr)];
    }

    /** newGlobal: a global under a fresh name drawn from the context; when
        the earlier globals were all drawn from the same counter, the new
        name differs from all of them. */
    method NewGlobal(ctx: Context, initExpr: Option<string>) returns (name: string)
      requires ctx.Valid()
      modifies this, ctx.Root()
      ensures name == "r" + NatToString(old(ctx.Root().nameIndex))
      ensures ctx.Root().nameIndex == old(ctx.Root().nameIndex) + 1
      ensures globals == old(globals) + [GlobalVar(name, initExpr)]
      ensures block == old(block)
      ensures NamedBelow(old(globals), old(ctx.Root().nameIndex)) ==>
        NamedBelow(globals, ctx.Root().nameIndex) &&
        forall i :: 0 <= i < |old(globals)| ==> old(globals)[i].name != name
    {
      ghost var root := ctx.Root();
      ghost var n := root.nameIndex;
      ghost var gs := globals;
      name := ctx.NewName("r");
      Global(name, initExpr);
      assert root.nameIndex == old(root.nameIndex) + 1;
      if NamedBelow(gs, n) {
        FreshGlobalName(gs, n, initExpr);
      }
    }

    /** newGlobalBoolean: a new global initialised to false. */
    method NewGlobalBoolean(ctx: Context) returns (name: string)
      requires ctx.Valid()
      modifies this, ctx.Root()
      ensures name == "r" + NatToString(old(ctx.Root().nameIndex))
      ensures ctx.Root().nameIndex == old(ctx.Root().nameIndex) + 1
      ensures globals == old(globals) + [GlobalVar(name, Some("false"))]
      ensures block == old(block)
    {
      ghost var root := ctx.Root();
      name := ctx.NewName("r");
      Global(name, Some("false"));
      assert root.nameIndex == old(root.nameIndex) + 1;
    }

    /** newGlobalInt: a new global initialised to 0. */
    method NewGlobalInt(ctx: Context) returns (name: string)
      requires ctx.Valid()
      modifies this, ctx.Root()
      ensures name == "r" + NatToString(old(ctx.Root().nameIndex))
      ensures ctx.Root().nameIndex == old(ctx.Root().nameIndex) + 1
      ensures globals == old(globals) + [GlobalVar(name, Some("0"))]
      ensures block == old(block)
    {
      ghost var root := ctx.Root();
      name := ctx.NewName("r");
      Global(name, Some("0"));
      assert root.nameIndex == old(root.nameIndex) + 1;
    }

    /** The function's text; None when there is no block (the source then
        fails with a null pointer). */
    function Text(): Option<string>
      reads this, block
    {
      if block == null then None
      else Some("function() {" + Decls(globals) + block.Text() + Return(block.resultVar))
    }

    /** appendToStr: the header, the globals in insertion order, the block
        and the return of the block's result variable. */
    method AppendToStr(bld: string) returns (r: Option<string>)
      ensures r.Some? <==> block != null
      ensures r.Some? ==> r == Some(bld + Text().value)
    {
      var s := AppendGlobals(bld + "function() {");
      if block == null {
        return None;
      }
      var b := block.AppendToStr("");
      var tail := "return " + ResultText(block.resultVar) + ";" + "}";
      assert Text().value == "function() {" + Decls(globals) + b + tail;
      Regroup(bld, "function() {", Decls(globals), b, tail);
      r := Some(s + b + tail);
    }

    /** The loop of appendToStr over the globals. */
    method AppendGlobals(bld: string) returns (s: string)
      ensures s == bld + Decls(globals)
    {
      s := bld;
      var i := 0;
      while i < |globals|
        invariant 0 <= i <= |globals|
        invariant s == bld + Decls(globals[..i])
      {
        assert globals[..i + 1][..i] == globals[..i];
        var g := globals[i].ToString();
        assert g == globals[i].Decl();
        assert Decls(globals[..i + 1]) == Decls(globals[..i]) + g by {
          assert DeclTexts(globals[..i + 1]) == DeclTexts(globals[..i]) + [g];
          ConcatSnoc(DeclTexts(globals[..i]), g);
        }
        AppendAssoc(bld, Decls(globals[..i]), g);
        s := s + g;
        i := i + 1;
      }
      assert globals[..|globals|] == globals;
    }
  }

  // ---------------------------------------------------------------------------
  // Context
  // ---------------------------------------------------------------------------

  /** The metadata field node a context stands at, by its path. */
  datatype FieldTreeNode = FieldTreeNode(fullPath: Path)

  /** Context: where in the field tree and in which block code is being
      generated. Every context of one tree draws names from the counter of
      the tree's root. */
  class Context {
    const contextNode: Option<FieldTreeNode>
    const contextBlock: Block?
    var topLevel: Function?
    var nameIndex: nat
    const parentCtx: Context?
    ghost const depth: nat

    ghost predicate Valid()
      decreases depth
    {
      parentCtx != null ==> parentCtx.depth < depth && parentCtx.Valid()
    }

    /** The context at the top of this one's parent chain. */
    function Root(): (r: Context)
      requires Valid()
      ensures r.parentCtx == null && r.Valid()
      decreases depth
    {
      if parentCtx == null then this else parentCtx.Root()
    }

    /** Context(node, block): a root context, counter at zero. */
    constructor (node: Option<FieldTreeNode>, block: Block?)
      ensures contextNode == node && contextBlock == block
      ensures topLevel == null && parentCtx == null && nameIndex == 0
      ensures Valid()
    {
      contextNode := node;
      contextBlock := block;
      topLevel := null;
      nameIndex := 0;
      parentCtx := null;
      depth := 0;
    }

    /** A new context with its top-level function and parent set, as enter
        and copy build it. */
    constructor Linked(node: Option<FieldTreeNode>, block: Block?, top: Function?, parent: Context?, ghost d: nat)
      requires parent != null ==> parent.Valid() && parent.depth < d
      ensures contextNode == node && contextBlock == block
      ensures topLevel == top && parentCtx == parent && nameIndex == 0
      ensures Valid()
    {
      contextNode := node;
      contextBlock := block;
      topLevel := top;
      nameIndex := 0;
      parentCtx := parent;
      depth := d;
    }

    /** enter: a child context of this one, in the same tree. */
    method Enter(node: Option<FieldTreeNode>, parent: Block?) returns (ctx: Context)
      requires Valid()
      ensures fresh(ctx) && ctx.Valid()
      ensures ctx.contextNode == node && ctx.contextBlock == parent
      ensures ctx.topLevel == topLevel && ctx.parentCtx == this
      ensures ctx.Root() == Root()
    {
      ctx := new Context.Linked(node, parent, topLevel, this, depth + 1);
    }

    /** copy: the same node, block, function and parent. A copy of a
        non-root context stays in the same tree; a copy of a root is a new
        root whose counter starts again at zero. */
    method Copy() returns (ctx: Context)
      requires Valid()
      ensures fresh(ctx) && ctx.Valid()
      ensures ctx.contextNode == contextNode && ctx.contextBlock == contextBlock
      ensures ctx.topLevel == topLevel && ctx.parentCtx == parentCtx
      ensures parentCtx != null ==> ctx.Root() == Root()
      ensures parentCtx == null ==> ctx.Root() == ctx && ctx.nameIndex == 0
    {
      ctx := new Context.Linked(contextNode, contextBlock, topLevel, parentCtx, depth);
    }

    /** newName: the prefix followed by the root's counter, which moves
        on by one. */
    method NewName(prefix: string) returns (s: string)
      requires Valid()
      modifies Root()
      ensures s == prefix + NatToString(old(Root().nameIndex))
      ensures Root().nameIndex == old(Root().nameIndex) + 1
      decreases depth
    {
      if parentCtx != null {
        s := parentCtx.NewName(prefix);
      } else {
        s := prefix + NatToString(nameIndex);
        nameIndex := nameIndex + 1;
      }
    }

    /** varName: the local name resolved against the context block's loop
        variable (`loopVar`, the block's own prefix); None where the source
        fails removing a part from an empty name. */
    method VarName(localName: Name, loopVar: Name) returns (r: Option<Name>)
      ensures r.Some? ==> fresh(r.value)
      ensures VarFrom(if contextBlock != null then loopVar.parts else [], localName.parts)
        == if r.Some? then Some(r.value.parts) else None
    {
      var p := new Name();
      if contextBlock != null {
        var _ := p.AddName(loopVar);
        assert p.parts == loopVar.parts;
      }
      ghost var start := p.parts;
      assert start == if contextBlock != null then loopVar.parts else [];
      var n := localName.Length();
      var i := 0;
      while i < n
        invariant 0 <= i <= n == |localName.parts|
        invariant VarFrom(start, localName.parts) == VarFrom(p.parts, localName.parts[i..])
      {
        var seg := localName.parts[i];
        VarFromStep(p.parts, localName.parts, i);
        if seg.name == PARENT {
          if p.parts == [] {
            return None;
          }
          var _ := p.RemoveLast();
        } else if seg.name == THIS {
        } else {
          var _ := p.AddPart(seg);
        }
        i := i + 1;
      }
      r := Some(p);
    }
  }

  /** The parts varName builds from `acc` by walking `local`: "$parent"
      drops the last part built so far (and fails when there is none),
      "$this" is skipped, any other part is appended. */
  function VarFrom(acc: seq<Part>, local: seq<Part>): Option<seq<Part>>
    decreases |local|
  {
    if local == [] then Some(acc)
    else if local[0].name == PARENT then
      if acc == [] then None else VarFrom(acc[..|acc| - 1], local[1..])
    else if local[0].name == THIS then VarFrom(acc, local[1..])
    else VarFrom(acc + [local[0]], local[1..])
  }

  lemma VarFromStep(acc: seq<Part>, local: seq<Part>, i: nat)
    requires i < |local|
    ensures VarFrom(acc, local[i..]) ==
      if local[i].name == PARENT then
        (if acc == [] then None else VarFrom(acc[..|acc| - 1], local[i + 1..]))
      else if local[i].name == THIS then VarFrom(acc, local[i + 1..])
      else VarFrom(acc + [local[i]], local[i + 1..])
  {
    assert local[i..][1..] == local[i + 1..];
  }

  predicate Plain(p: Part) {
    p.name != PARENT && p.name != THIS
  }

  /** Without "$parent" and "$this" parts the local name is appended as
      it is. */
  lemma {:induction false} VarFromPlain(acc: seq<Part>, local: seq<Part>)
    requires forall i :: 0 <= i < |local| ==> Plain(local[i])
    ensures VarFrom(acc, local) == Some(acc + local)
    decreases |local|
  {
    if local == [] {
      assert acc + local == acc;
    } else {
      VarFromPlain(acc + [local[0]], local[1..]);
      assert acc + [local[0]] + local[1..] == acc + local;
    }
  }

  /** A "$this" part anywhere changes nothing. */
  lemma {:induction false} VarFromThis(acc: seq<Part>, before: seq<Part>, t: Part, after: seq<Part>)
    requires t.name == THIS
    ensures VarFrom(acc, before + [t] + after) == VarFrom(acc, before + after)
    decreases |before|
  {
    if before == [] {
      assert before + [t] + after == [t] + after;
      assert ([t] + after)[1..] == after;
      assert before + after == after;
    } else {
      assert (before + [t] + after)[0] == before[0];
      assert (before + [t] + after)[1..] == before[1..] + [t] + after;
      assert (before + after)[0] == before[0];
      assert (before + after)[1..] == before[1..] + after;
      if before[0].name == PARENT {
        if acc != [] {
          VarFromThis(acc[..|acc| - 1], before[1..], t, after);
        }
      } else if before[0].name == THIS {
        VarFromThis(acc, before[1..], t, after);
      } else {
        VarFromThis(acc + [before[0]], before[1..], t, after);
      }
    }
  }

  /** A "$parent" part cancels the plain part right before it. */
  lemma VarFromParent(acc: seq<Part>, x: Part, q: Part, after: seq<Part>)
    requires Plain(x) && q.name == PARENT
    ensures VarFrom(acc, [x, q] + after) == VarFrom(acc, after)
  {
    var l := [x, q] + after;
    assert l[1..] == [q] + after;
    assert ([q] + after)[1..] == after;
    assert (acc + [x])[..|acc|] == acc;
  }

  /** Resolving a plain local name outside any block gives the name's own
      parts. */
  lemma VarNameUnchanged(local: seq<Part>)
    requires forall i :: 0 <= i < |local| ==> Plain(local[i])
    ensures VarFrom([], local) == Some(local)
  {
    VarFromPlain([], local);
    assert [] + local == local;
  }

  /** Two names drawn from contexts of one tree differ. */
  method TwoNames(c: Context, d: Context, prefix: string) returns (a: string, b: string)
    requires c.Valid() && d.Valid() && c.Root() == d.Root()
    modifies c.Root()
    ensures a != b
  {
    a := c.NewName(prefix);
    b := d.NewName(prefix);
    NamesDistinct(prefix, c.Root().nameIndex - 2, c.Root().nameIndex - 1);
  }
}
