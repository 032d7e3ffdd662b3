/** MongoDB object identifiers: twelve bytes, written as 24 hexadecimal
    digits, whose first four bytes are a creation time in seconds. */
module ObjectIds {
  import opened Text

  type Byte = b: int | 0 <= b < 256

  datatype ObjectId = ObjectId(bytes: seq<Byte>) {
    predicate WellFormed() { |bytes| == 12 }
  }

  function HexDigit(d: nat): (c: char)
    requires d < 16
  {
    if d < 10 then ('0' as int + d) as char else ('a' as int + d - 10) as char
  }

  /** The characters ObjectId.isValid accepts: decimal digits and the
      letters a-f in either case. */
  predicate IsHexChar(c: char) {
    ('0' <= c <= '9') || ('a' <= c <= 'f') || ('A' <= c <= 'F')
  }

  function HexValue(c: char): (d: nat)
    requires IsHexChar(c)
    ensures d < 16
  {
    if '0' <= c <= '9' then c as int - '0' as int
    else if 'a' <= c <= 'f' then c as int - 'a' as int + 10
    else c as int - 'A' as int + 10
  }

  lemma HexValueOfDigit(d: nat)
    requires d < 16
    ensures IsHexChar(HexDigit(d)) && HexValue(HexDigit(d)) == d
  {
  }

  /** ObjectId.toString: two lower-case hexadecimal digits per byte. */
  function ToHex(o: ObjectId): (s: string)
    ensures |s| == 2 * |o.bytes|
  {
    seq(2 * |o.bytes|, j requires 0 <= j < 2 * |o.bytes| =>
      if j % 2 == 0 then HexDigit(o.bytes[j / 2] / 16) else HexDigit(o.bytes[j / 2] % 16))
  }

  /** ObjectId.isValid: exactly 24 hexadecimal digits. */
  predicate IsValid(s: string) {
    |s| == 24 && forall i :: 0 <= i < |s| ==> IsHexChar(s[i])
  }

  /** new ObjectId(s) for a valid s. */
  function FromHex(s: string): (o: ObjectId)
    requires IsValid(s)
    ensures o.WellFormed()
  {
    ObjectId(seq(12, i requires 0 <= i < 12 => (HexValue(s[2 * i]) * 16 + HexValue(s[2 * i + 1])) as Byte))
  }

  /** Printing an identifier and reading it back gives the identifier. */
  lemma FromHexToHex(o: ObjectId)
    requires o.WellFormed()
    ensures IsValid(ToHex(o))
    ensures FromHex(ToHex(o)) == o
  {
    var s := ToHex(o);
    forall j | 0 <= j < 24 ensures IsHexChar(s[j]) {
      ToHexAt(o, j / 2);
    }
    var r := FromHex(s);
    forall i | 0 <= i < 12 ensures r.bytes[i] == o.bytes[i] {
      ToHexAt(o, i);
      ByteHex(o.bytes[i]);
    }
    assert r.bytes == o.bytes;
  }

  lemma ToHexAt(o: ObjectId, i: nat)
    requires i < |o.bytes|
    ensures ToHex(o)[2 * i] == HexDigit(o.bytes[i] / 16)
    ensures ToHex(o)[2 * i + 1] == HexDigit(o.bytes[i] % 16)
    ensures IsHexChar(ToHex(o)[2 * i]) && IsHexChar(ToHex(o)[2 * i + 1])
  {
    assert (2 * i) / 2 == i && (2 * i) % 2 == 0;
    assert (2 * i + 1) / 2 == i && (2 * i + 1) % 2 == 1;
    HexValueOfDigit(o.bytes[i] / 16);
    HexValueOfDigit(o.bytes[i] % 16);
  }

  lemma ByteHex(b: Byte)
    ensures HexValue(HexDigit(b / 16)) * 16 + HexValue(HexDigit(b % 16)) == b
  {
    HexValueOfDigit(b / 16);
    HexValueOfDigit(b % 16);
  }

  /** The creation time in seconds: the first four bytes, big-endian, read as
      a signed 32-bit integer. */
  function TimestampSeconds(o: ObjectId): (t: int)
    requires o.WellFormed()
    ensures -0x8000_0000 <= t < 0x8000_0000
  {
    var u: int := o.bytes[0] as int * 0x100_0000 + o.bytes[1] as int * 0x1_0000 + o.bytes[2] as int * 0x100 + o.bytes[3] as int;
    if u >= 0x8000_0000 then u - 0x1_0000_0000 else u
  }

  /** ObjectId.getDate().getTime(): the creation time in milliseconds. */
  function DateMillis(o: ObjectId): int
    requires o.WellFormed()
  {
    TimestampSeconds(o) * 1000
  }
}
