/** `ObjectID.prototype.toString`: the identifier's bytes as lower-case
    hexadecimal, two digits per byte. */
module ObjectIdString {
  import opened JsValue

  function HexDigit(n: nat): (c: char)
    requires n < 16
    ensures IsHexDigit(c)
  {
    if n < 10 then '0' + n as char else 'a' + (n - 10) as char
  }

  predicate IsHexDigit(c: char) {
    ('0' <= c <= '9') || ('a' <= c <= 'f')
  }

  function HexValue(c: char): (n: nat)
    requires IsHexDigit(c)
    ensures n < 16 && HexDigit(n) == c
  {
    if '0' <= c <= '9' then (c - '0') as nat else (c - 'a') as nat + 10
  }

  /** The string form of an ObjectID with the given bytes. */
  function HexString(bytes: seq<byte>): (s: string)
    ensures |s| == 2 * |bytes|
    ensures forall i :: 0 <= i < |s| ==> IsHexDigit(s[i])
  {
    if bytes == [] then []
    else
      var b := bytes[0] as nat;
      [HexDigit(b / 16), HexDigit(b % 16)] + HexString(bytes[1..])
  }

  /** Reads a hexadecimal string back into bytes; the partner of HexString. */
  function ParseHex(s: string): (r: Option<seq<byte>>)
    ensures r.Some? ==> 2 * |r.value| == |s|
    decreases |s|
  {
    if s == [] then Some([])
    else if |s| < 2 || !IsHexDigit(s[0]) || !IsHexDigit(s[1]) then None
    else match ParseHex(s[2..])
      case None => None
      case Some(rest) => Some([(HexValue(s[0]) * 16 + HexValue(s[1])) as byte] + rest)
  }

  /** The string form of an ObjectID determines its bytes. */
  lemma {:induction false} ParseHexString(bytes: seq<byte>)
    ensures ParseHex(HexString(bytes)) == Some(bytes)
  {
    if bytes != [] {
      var s := HexString(bytes);
      var b := bytes[0] as nat;
      assert s[2..] == HexString(bytes[1..]);
      ParseHexString(bytes[1..]);
      assert HexValue(s[0]) == b / 16 && HexValue(s[1]) == b % 16;
      assert (HexValue(s[0]) * 16 + HexValue(s[1])) as byte == bytes[0];
      assert [bytes[0]] + bytes[1..] == bytes;
    }
  }
}
