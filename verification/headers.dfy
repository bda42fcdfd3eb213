/** The slice of the HTTP layer the credential resolver relies on: a request's
    header fields, looked up by name without regard to ASCII case, and the
    conversion of a raw header value to text. */
module Headers {
  import opened Wrappers

  newtype byte = b: int | 0 <= b < 256

  /** A raw header value as it arrived: arbitrary octets. */
  type HeaderValue = seq<byte>

  datatype Header = Header(name: string, value: HeaderValue)

  /** The request's header fields in arrival order; a name may occur more than once. */
  type HeaderMap = seq<Header>

  function LowerChar(c: char): char {
    if 'A' <= c <= 'Z' then (c as int + 32) as char else c
  }

  function AsciiLower(s: string): string {
    seq(|s|, i requires 0 <= i < |s| => LowerChar(s[i]))
  }

  /** Header names compare without regard to ASCII case. */
  predicate SameName(a: string, b: string) {
    AsciiLower(a) == AsciiLower(b)
  }

  /** `i` is the first field of `headers` whose name matches `key`. */
  ghost predicate FirstMatch(headers: HeaderMap, key: string, i: int) {
    && 0 <= i < |headers|
    && SameName(headers[i].name, key)
    && forall k :: 0 <= k < i ==> !SameName(headers[k].name, key)
  }

  /** `HeaderMap::get`: the value of the first field named `key`, if any. */
  function Get(headers: HeaderMap, key: string): (r: Option<HeaderValue>)
    ensures r.None? <==> forall i :: 0 <= i < |headers| ==> !SameName(headers[i].name, key)
    ensures forall i :: FirstMatch(headers, key, i) ==> r == Some(headers[i].value)
  {
    if |headers| == 0 then None
    else if SameName(headers[0].name, key) then Some(headers[0].value)
    else
      var r := Get(headers[1..], key);
      assert forall i :: FirstMatch(headers, key, i) ==> FirstMatch(headers[1..], key, i - 1);
      r
  }

  /** Two keys that agree up to ASCII case find the same field. */
  lemma {:induction false} GetIgnoresKeyCase(headers: HeaderMap, k1: string, k2: string)
    requires AsciiLower(k1) == AsciiLower(k2)
    ensures Get(headers, k1) == Get(headers, k2)
  {
    if |headers| > 0 {
      GetIgnoresKeyCase(headers[1..], k1, k2);
    }
  }

  /** The octets `HeaderValue::to_str` accepts: visible ASCII and horizontal tab. */
  predicate IsVisible(b: byte) {
    (32 <= b < 127) || b == 9
  }

  predicate IsText(v: HeaderValue) {
    forall i :: 0 <= i < |v| ==> IsVisible(v[i])
  }

  /** `HeaderValue::to_str`: the value as text when every octet is visible,
      one character per octet. */
  function ToStr(v: HeaderValue): (r: Option<string>)
    ensures r.Some? <==> IsText(v)
    ensures r.Some? ==> |r.value| == |v| && forall i :: 0 <= i < |v| ==> r.value[i] as int == v[i] as int
  {
    if IsText(v) then Some(seq(|v|, i requires 0 <= i < |v| => v[i] as int as char)) else None
  }

  /** A text that a client can send as a header value. */
  predicate IsSendable(s: string) {
    forall i :: 0 <= i < |s| ==> (32 <= s[i] as int < 127) || s[i] == '\t'
  }

  /** The octets a client puts on the wire for the header text `s`. */
  function Encode(s: string): (v: HeaderValue)
    requires IsSendable(s)
    ensures IsText(v) && |v| == |s|
  {
    seq(|s|, i requires 0 <= i < |s| => s[i] as int as byte)
  }

  /** Every value that reads as text is what a client sends for that text. */
  lemma ToStrIsEncode(v: HeaderValue)
    requires IsText(v)
    ensures IsSendable(ToStr(v).value) && v == Encode(ToStr(v).value)
  {
    var s := ToStr(v).value;
    assert forall i :: 0 <= i < |s| ==> s[i] as int == v[i] as int;
    assert Encode(s) == v;
  }

  /** Reading back a sent header value gives the text that was sent. */
  lemma ToStrEncode(s: string)
    requires IsSendable(s)
    ensures ToStr(Encode(s)) == Some(s)
  {
    var r := ToStr(Encode(s));
    assert r.value == s;
  }
}
