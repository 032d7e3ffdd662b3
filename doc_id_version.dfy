/** DocIdVersion: a document identifier paired with one of its versions,
    written as "id:version". */
module DocIdVersions {
  import opened Text
  import opened Values
  import opened ObjectIds
  import opened DocTranslator
  import opened DocVerUtil

  /** The version is None where the Java field holds null: a version list
      whose first element is null yields such a pair. */
  datatype DocIdVersion = DocIdVersion(id: Value, version: Option<ObjectId>)

  /** equals(o): None stands for an object of another class. */
  predicate Equals(d: DocIdVersion, o: Option<DocIdVersion>) {
    o.Some? && o.value.id == d.id && o.value.version == d.version
  }

  /** Two pairs are equal exactly when they are the same pair. */
  lemma EqualsIsIdentity(d: DocIdVersion, o: Option<DocIdVersion>)
    ensures Equals(d, o) <==> o == Some(d)
  {
  }

  /** hashCode(): the hash of the id plus that of the version, each 0 when
      null; the two hash functions of the Java classes are parameters. */
  function HashCode(d: DocIdVersion, idHash: Value -> int, versionHash: ObjectId -> int): (h: int)
    ensures d.id.Null? && d.version.Some? ==> h == versionHash(d.version.value)
    ensures d.version.None? && !d.id.Null? ==> h == idHash(d.id)
    ensures d.id.Null? && d.version.None? ==> h == 0
  {
    (if d.id.Null? then 0 else idHash(d.id)) + (if d.version.None? then 0 else versionHash(d.version.value))
  }

  /** Equal pairs have equal hash codes. */
  lemma HashConsistent(a: DocIdVersion, b: DocIdVersion, idHash: Value -> int, versionHash: ObjectId -> int)
    requires Equals(a, Some(b))
    ensures HashCode(a, idHash, versionHash) == HashCode(b, idHash, versionHash)
  {
  }

  /** The text "%s" gives a version: its hexadecimal form, "null" for none. */
  function VersionText(v: Option<ObjectId>): (t: string)
    ensures v.None? ==> t == "null"
    ensures v.Some? ==> |t| == 2 * |v.value.bytes|
  {
    if v.None? then "null" else ToHex(v.value)
  }

  /** toString(): id, ':' and the version's text; a null id raises
      NullPointerException. */
  function ToString(d: DocIdVersion): (r: Result<string>)
    ensures r.Fail? <==> d.id.Null?
    ensures r.Ok? ==> |r.value| > |ToText(d.id)| && r.value[|ToText(d.id)|] == ':'
  {
    if d.id.Null? then Fail(NullPointer) else Ok(ToText(d.id) + ":" + VersionText(d.version))
  }

  /** valueOf(s, idType): the text before the first ':' is cast to the id
      type (the cast is a parameter, and raises its fault on text it cannot
      convert) and turned into an ObjectId when it spells one; the text
      after it must spell the version. */
  function ValueOf(s: string, cast: string -> Result<Value>): (r: Result<DocIdVersion>)
    ensures ':' !in s ==> r == Fail(IllegalArgument)
    ensures ':' in s && cast(s[..IndexOf(s, ':')]).Fail? ==> r == Fail(cast(s[..IndexOf(s, ':')]).fault)
    ensures ':' in s && cast(s[..IndexOf(s, ':')]).Ok? ==>
      (r.Fail? <==> !IsValid(s[IndexOf(s, ':') + 1..])) && (r.Fail? ==> r == Fail(IllegalArgument))
    ensures r.Ok? ==> ':' in s && r.value.version.Some? && r.value.version.value.WellFormed()
  {
    var k := IndexOf(s, ':');
    if k == -1 then Fail(IllegalArgument)
    else
      match cast(s[..k])
      case Fail(f) => Fail(f)
      case Ok(id) =>
        var hex := s[k + 1..];
        if !IsValid(hex) then Fail(IllegalArgument)
        else Ok(DocIdVersion(CreateIdFrom(id), Some(FromHex(hex))))
  }

  /** Printing a pair and reading it back gives the pair, when the id text
      holds no ':' and casting it back yields the id. */
  lemma ValueOfToString(d: DocIdVersion, cast: string -> Result<Value>)
    requires !d.id.Null? && d.version.Some? && d.version.value.WellFormed()
    requires ':' !in ToText(d.id)
    requires cast(ToText(d.id)).Ok? && CreateIdFrom(cast(ToText(d.id)).value) == d.id
    ensures ValueOf(ToString(d).value, cast) == Ok(d)
  {
    var t := ToText(d.id);
    var hex := ToHex(d.version.value);
    var s := t + ":" + hex;
    assert s[|t|] == ':' && s[..|t|] == t && s[|t| + 1..] == hex;
    var k := IndexOf(s, ':');
    assert ':' !in s[..|t|];
    assert k == |t|;
    FromHexToHex(d.version.value);
  }

  /** A pair without a version prints as "id:null", which valueOf refuses:
      "null" does not spell an ObjectId (a cast that fails first refuses it
      too). */
  lemma ValueOfToStringNoVersion(d: DocIdVersion, cast: string -> Result<Value>)
    requires !d.id.Null? && d.version.None?
    ensures ToString(d).Ok? && ValueOf(ToString(d).value, cast).Fail?
    ensures ':' !in ToText(d.id) && cast(ToText(d.id)).Ok? ==>
      ValueOf(ToString(d).value, cast) == Fail(IllegalArgument)
  {
    var t := ToText(d.id);
    var s := ToString(d).value;
    assert s == t + ":" + "null";
    var k := IndexOf(s, ':');
    assert s[|t|] == ':';
    assert k <= |t|;
    if ':' !in t {
      assert k == |t| && s[..k] == t;
    }
    var hex := s[k + 1..];
    assert hex[|hex| - 1] == s[|s| - 1] == 'l';
    assert !IsHexChar('l');
  }

  /** getDocumentVersion(doc): the _id paired with the head of the version
      list, None when the list is missing or empty. A null head gives a
      pair without a version; any other head that is not an ObjectId
      raises ClassCastException. */
  function GetDocumentVersion(fields: seq<Entry>): (r: Result<Option<DocIdVersion>>)
    ensures VersionList(fields).Fail? ==> r == Fail(VersionList(fields).fault)
    ensures VersionList(fields) == Ok(None) ==> r == Ok(None)
    ensures VersionList(fields) == Ok(Some([])) ==> r == Ok(None)
    ensures VersionList(fields).Ok? && VersionList(fields).value.Some? && VersionList(fields).value.value != [] ==>
      var x := VersionList(fields).value.value[0];
      && (x.Null? ==> r == Ok(Some(DocIdVersion(CreateIdFrom(Lookup(fields, "_id")), None))))
      && (x.Oid? ==> r == Ok(Some(DocIdVersion(CreateIdFrom(Lookup(fields, "_id")), Some(x.id)))))
      && (!x.Null? && !x.Oid? ==> r == Fail(ClassCast))
  {
    match VersionList(fields)
    case Fail(f) => Fail(f)
    case Ok(l) =>
      if l.None? || l.value == [] then Ok(None)
      else
        var x := l.value[0];
        var id := CreateIdFrom(Lookup(fields, "_id"));
        if x.Null? then Ok(Some(DocIdVersion(id, None)))
        else if !x.Oid? then Fail(ClassCast)
        else Ok(Some(DocIdVersion(id, Some(x.id))))
  }

  /** After setDocVer(doc, v) the document's version is v, paired with its
      own _id. */
  lemma DocumentVersionAfterSet(fields: seq<Entry>, v: ObjectId)
    requires SetDocVerFields(fields, v).Ok?
    ensures GetDocumentVersion(SetDocVerFields(fields, v).value) ==
      Ok(Some(DocIdVersion(CreateIdFrom(Lookup(fields, "_id")), Some(v))))
  {
    var r := SetDocVerFields(fields, v).value;
    SetDocVerPrepends(fields, v);
    NewestFirst(r, v, ListOrEmpty(fields));
    assert Lookup(r, "_id") == Lookup(fields, "_id") by {
      SetDocVerFrame(fields, v);
      assert "_id" != HIDDEN;
    }
  }

  /** The version of a document is the head of its list. */
  lemma NewestFirst(fields: seq<Entry>, v: ObjectId, older: seq<Value>)
    requires VersionList(fields) == Ok(Some([Oid(v)] + older))
    ensures GetDocumentVersion(fields) == Ok(Some(DocIdVersion(CreateIdFrom(Lookup(fields, "_id")), Some(v))))
  {
    assert ([Oid(v)] + older)[0] == Oid(v);
  }

  /** DocTranslator.getDocVer writes the same text as toString. */
  lemma GetDocVerIsToString(fields: seq<Entry>, v: ObjectId)
    requires !Lookup(fields, "_id").Null?
    ensures ToString(DocIdVersion(Lookup(fields, "_id"), Some(v))) == Ok(GetDocVer(Obj(fields), v))
  {
  }
}
