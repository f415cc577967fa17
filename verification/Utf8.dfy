/** UTF-8 as in section 3 of RFC 3629. */
module Utf8 {
  import opened ByteStrings

  const REPLACEMENT: char := '\U{FFFD}'

  /** The octets of one character: a first octet that is no continuation octet, then up to three
      continuation octets. */
  function EncodeChar(c: char): (r: Bytes)
    ensures |r| == if c < '\U{80}' then 1 else if c < '\U{800}' then 2 else if c < '\U{10000}' then 3 else 4
    ensures !IsContinuation(r[0])
    ensures forall i | 1 <= i < |r| :: IsContinuation(r[i])
  {
    var n := c as int;
    if n < 0x80 then [n as byte]
    else if n < 0x800 then [(0xC0 + n / 0x40) as byte, Continuation(n)]
    else if n < 0x10000 then [(0xE0 + n / 0x1000) as byte, Continuation(n / 0x40), Continuation(n)]
    else [(0xF0 + n / 0x40000) as byte, Continuation(n / 0x1000), Continuation(n / 0x40), Continuation(n)]
  }

  function Continuation(n: nat): byte {
    (0x80 + n % 0x40) as byte
  }

  /** `(b & 0xC0) == 0x80`. */
  predicate IsContinuation(b: byte) {
    b / 0x40 == 2
  }

  function Encode(text: string): Bytes {
    if text == "" then [] else EncodeChar(text[0]) + Encode(text[1..])
  }

  /** Number of octets of the character that starts with this octet. */
  function CharLength(first: byte): (n: nat)
    ensures 1 <= n <= 4
  {
    if first < 0xC0 then 1 else if first < 0xE0 then 2 else if first < 0xF0 then 3 else 4
  }

  function CharOf(code: int): char {
    if 0 <= code < 0xD800 || 0xE000 <= code < 0x110000 then code as char else REPLACEMENT
  }

  function DecodeChar(data: Bytes): char
    requires data != [] && |data| == CharLength(data[0])
  {
    var first := data[0] as int;
    if |data| == 1 then CharOf(first)
    else if |data| == 2 then CharOf((first - 0xC0) * 0x40 + data[1] as int % 0x40)
    else if |data| == 3 then
      CharOf((first - 0xE0) * 0x1000 + data[1] as int % 0x40 * 0x40 + data[2] as int % 0x40)
    else
      CharOf((first - 0xF0) * 0x40000 + data[1] as int % 0x40 * 0x1000 + data[2] as int % 0x40 * 0x40
             + data[3] as int % 0x40)
  }

  /** Decoding, with a replacement character where the octets end within a character. */
  function Decode(data: Bytes): string {
    if data == [] then ""
    else
      var n := CharLength(data[0]);
      if n > |data| then [REPLACEMENT] else [DecodeChar(data[..n])] + Decode(data[n..])
  }

  lemma PayloadOfContinuation(n: nat)
    ensures Continuation(n) as int % 0x40 == n % 0x40
  {
  }

  /** The digits of a number below 0x110000 in base 64. */
  lemma Base64Digits(n: nat)
    ensures n == n / 0x40 * 0x40 + n % 0x40
    ensures n == n / 0x1000 * 0x1000 + n / 0x40 % 0x40 * 0x40 + n % 0x40
    ensures n == n / 0x40000 * 0x40000 + n / 0x1000 % 0x40 * 0x1000 + n / 0x40 % 0x40 * 0x40 + n % 0x40
  {
    assert n / 0x40 / 0x40 == n / 0x1000;
    assert n / 0x1000 / 0x40 == n / 0x40000;
  }

  lemma DecodeOfEncodeChar(c: char)
    ensures var r := EncodeChar(c); |r| == CharLength(r[0]) && DecodeChar(r) == c
  {
    var n, r := c as int, EncodeChar(c);
    Base64Digits(n);
    PayloadOfContinuation(n);
    PayloadOfContinuation(n / 0x40);
    PayloadOfContinuation(n / 0x1000);
    if n < 0x80 {
      assert CharOf(n) == c;
    } else if n < 0x800 {
      assert r[0] as int - 0xC0 == n / 0x40;
    } else if n < 0x10000 {
      assert r[0] as int - 0xE0 == n / 0x1000;
    } else {
      assert r[0] as int - 0xF0 == n / 0x40000;
    }
  }

  lemma {:induction false} DecodeOfEncode(text: string)
    ensures Decode(Encode(text)) == text
  {
    if text != "" {
      var first := EncodeChar(text[0]);
      var data := Encode(text);
      DecodeOfEncodeChar(text[0]);
      DecodeOfEncode(text[1..]);
      assert data[..|first|] == first && data[|first|..] == Encode(text[1..]);
    }
  }

  lemma {:induction false} EncodeConcat(a: string, b: string)
    ensures Encode(a + b) == Encode(a) + Encode(b)
  {
    if a == "" {
      assert a + b == b;
    } else {
      assert (a + b)[1..] == a[1..] + b;
      EncodeConcat(a[1..], b);
    }
  }

  // ---------------------------------------------------------------- character boundaries

  predicate IsBoundary(data: Bytes, at: nat) {
    at == |data| || (at < |data| && !IsContinuation(data[at]))
  }

  /** An offset is a boundary exactly when it is the encoded length of some prefix of the text. */
  lemma {:induction false} BoundaryIsPrefix(text: string, at: nat)
    requires at <= |Encode(text)|
    ensures IsBoundary(Encode(text), at) <==> exists k | 0 <= k <= |text| :: at == |Encode(text[..k])|
  {
    var data := Encode(text);
    if text == "" {
      assert text[..0] == "";
    } else {
      var n := |EncodeChar(text[0])|;
      if at < n {
        PrefixLengths(text, at);
        assert text[..0] == "";
      } else {
        BoundaryIsPrefix(text[1..], at - n);
        assert IsBoundary(data, at) <==> IsBoundary(Encode(text[1..]), at - n);
        ShiftPrefix(text, at, n);
      }
    }
  }

  lemma BoundaryOfPrefix(text: string, k: nat)
    requires k <= |text|
    ensures IsBoundary(Encode(text), |Encode(text[..k])|)
  {
    EncodeConcat(text[..k], text[k..]);
    assert text[..k] + text[k..] == text;
    BoundaryIsPrefix(text, |Encode(text[..k])|);
  }

  lemma PrefixLengths(text: string, at: nat)
    requires text != "" && at < |EncodeChar(text[0])|
    ensures forall k | 0 <= k <= |text| && at == |Encode(text[..k])| :: k == 0
  {
    forall k | 1 <= k <= |text| ensures |Encode(text[..k])| > at {
      assert text[..k][0] == text[0];
    }
  }

  lemma ShiftPrefix(text: string, at: nat, n: nat)
    requires text != "" && n == |EncodeChar(text[0])| <= at
    ensures (exists k | 0 <= k <= |text| :: at == |Encode(text[..k])|)
            <==> exists k | 0 <= k <= |text| - 1 :: at - n == |Encode(text[1..][..k])|
  {
    forall k | 1 <= k <= |text| ensures |Encode(text[..k])| == n + |Encode(text[1..][..k - 1])| {
      assert text[..k][1..] == text[1..][..k - 1];
    }
    if k :| 0 <= k <= |text| && at == |Encode(text[..k])| {
      assert k > 0;
      assert at - n == |Encode(text[1..][..k - 1])|;
    }
    if k :| 0 <= k <= |text| - 1 && at - n == |Encode(text[1..][..k])| {
      assert at == |Encode(text[..k + 1])|;
    }
  }

  /** At most three continuation octets follow one another. */
  lemma {:induction false} ShortRuns(text: string, at: nat)
    requires at + 4 <= |Encode(text)|
    ensures exists i | at <= i < at + 4 :: IsBoundary(Encode(text), i)
  {
    var n := |EncodeChar(text[0])|;
    var rest := Encode(text[1..]);
    assert forall i | n <= i < |Encode(text)| :: Encode(text)[i] == rest[i - n];
    if at == 0 {
      assert IsBoundary(Encode(text), 0);
    } else if at < n {
      assert n < |Encode(text)| ==> rest != [] && text[1..] != "" && !IsContinuation(rest[0]);
      assert IsBoundary(Encode(text), n);
    } else {
      ShortRuns(text[1..], at - n);
      var i :| at - n <= i < at - n + 4 && IsBoundary(rest, i);
      assert IsBoundary(Encode(text), i + n);
    }
  }

  /** A character's octets cut at a boundary decode to a prefix and a suffix of the text. */
  lemma CutAtBoundary(text: string, at: nat) returns (k: nat)
    requires at <= |Encode(text)| && IsBoundary(Encode(text), at)
    ensures k <= |text|
    ensures Encode(text)[..at] == Encode(text[..k]) && Encode(text)[at..] == Encode(text[k..])
    ensures Decode(Encode(text)[..at]) == text[..k] && Decode(Encode(text)[at..]) == text[k..]
  {
    BoundaryIsPrefix(text, at);
    k :| 0 <= k <= |text| && at == |Encode(text[..k])|;
    EncodeConcat(text[..k], text[k..]);
    assert text[..k] + text[k..] == text;
    DecodeOfEncode(text[..k]);
    DecodeOfEncode(text[k..]);
  }
}
