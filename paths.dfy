/** Field paths of lightblue metadata: dot-separated segments, where a
    segment is a field name, a numeric array index or the wildcard "*"
    ("every element of this array"). */
module Paths {
  import opened Text

  datatype Segment = Field(name: string) | Index(i: nat) | Any

  type Path = seq<Segment>

  /** Path.head(i) of a segment: its text. */
  function SegText(s: Segment): (t: string)
    ensures ValidSegment(s) ==> t != []
    ensures s.Field? ==> t == s.name
  {
    match s
    case Field(n) => n
    case Index(i) => NatToString(i)
    case Any => "*"
  }

  /** A field name a parsed path can hold: non-empty, without dots, and
      neither the wildcard nor a number (those parse as Any and Index). */
  predicate ValidName(n: string) {
    n != [] && '.' !in n && n != "*" && !AllDigits(n)
  }

  predicate ValidSegment(s: Segment) {
    s.Field? ==> ValidName(s.name)
  }

  predicate ValidPath(p: Path) {
    forall i :: 0 <= i < |p| ==> ValidSegment(p[i])
  }

  function SegTexts(p: Path): (ts: seq<string>)
    ensures |ts| == |p|
    ensures forall i :: 0 <= i < |p| ==> ts[i] == SegText(p[i])
  {
    if p == [] then [] else [SegText(p[0])] + SegTexts(p[1..])
  }

  lemma SegTextsSnoc(p: Path, x: Segment)
    ensures SegTexts(p + [x]) == SegTexts(p) + [SegText(x)]
  {
  }

  /** Path.toString: the segments joined with dots. */
  function PathText(p: Path): string {
    Join(SegTexts(p), ".")
  }

  function ParseSegment(t: string): (s: Segment)
    ensures t == "*" ==> s == Any
    ensures ValidName(t) ==> s == Field(t)
  {
    if t == "*" then Any
    else if t != [] && AllDigits(t) then Index(ParseNat(t))
    else Field(t)
  }

  /** new Path(text) for a text whose pieces are well formed. */
  function ParsePath(s: string): (p: Path)
    ensures s != [] ==> |p| == |Split(s, '.')|
  {
    if s == [] then []
    else
      var parts := Split(s, '.');
      seq(|parts|, i requires 0 <= i < |parts| => ParseSegment(parts[i]))
  }

  /** Printing a well-formed path and parsing it back gives the path. */
  lemma ParsePathText(p: Path)
    requires p != [] && ValidPath(p)
    ensures ParsePath(PathText(p)) == p
  {
    var ts := SegTexts(p);
    forall i | 0 <= i < |ts| ensures '.' !in ts[i] {
      SegTextNoDot(p[i]);
    }
    SplitJoin(ts, '.');
    var s := PathText(p);
    assert s != [] by {
      assert |ts[0]| > 0;
      JoinFirst(ts, ".");
    }
    var q := ParsePath(s);
    forall i | 0 <= i < |p| ensures q[i] == p[i] {
      SegmentRoundTrip(p[i]);
    }
  }

  lemma SegTextNoDot(s: Segment)
    requires ValidSegment(s)
    ensures '.' !in SegText(s)
  {
  }

  lemma SegmentRoundTrip(s: Segment)
    requires ValidSegment(s)
    ensures ParseSegment(SegText(s)) == s
  {
    if s.Index? {
      ParseNatToString(s.i);
      assert SegText(s) != "*";
    }
  }

  lemma {:induction false} JoinFirst(ts: seq<string>, sep: string)
    requires ts != []
    ensures |Join(ts, sep)| >= |ts[0]|
  {
  }
}
