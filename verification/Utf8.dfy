/** UTF-8 (RFC 3629) for strings of Unicode scalar values: Rust's `str::bytes` and its ordering of strings. */
module Utf8 {
  import opened Wrappers

  type byte = x: int | 0 <= x < 256

  function EncodeChar(c: char): (bs: seq<byte>)
    ensures 1 <= |bs| <= 4
  {
    var v := c as int;
    if v < 0x80 then [v]
    else if v < 0x800 then [0xC0 + v / 64, 0x80 + v % 64]
    else if v < 0x10000 then [0xE0 + v / 4096, 0x80 + v / 64 % 64, 0x80 + v % 64]
    else [0xF0 + v / 262144, 0x80 + v / 4096 % 64, 0x80 + v / 64 % 64, 0x80 + v % 64]
  }

  function Encode(s: string): seq<byte> {
    if s == [] then [] else EncodeChar(s[0]) + Encode(s[1..])
  }

  /** How many bytes the character at the front takes, by its first byte. */
  function Width(bs: seq<byte>): nat
    requires bs != []
  {
    if bs[0] < 0xC0 then 1 else if bs[0] < 0xE0 then 2 else if bs[0] < 0xF0 then 3 else 4
  }

  /** The value of the character at the front. */
  function Value(bs: seq<byte>): int
    requires bs != [] && Width(bs) <= |bs|
  {
    var lead: int := bs[0];
    if Width(bs) == 1 then lead
    else if Width(bs) == 2 then (lead - 0xC0) * 64 + Low(bs[1])
    else if Width(bs) == 3 then (lead - 0xE0) * 4096 + Low(bs[1]) * 64 + Low(bs[2])
    else (lead - 0xF0) * 262144 + Low(bs[1]) * 4096 + Low(bs[2]) * 64 + Low(bs[3])
  }

  /** The six bits of a continuation byte. */
  function Low(b: byte): int {
    b - 0x80
  }

  predicate IsScalar(v: int) {
    0 <= v < 0xD800 || 0xE000 <= v < 0x110000
  }

  function Decode(bs: seq<byte>): Option<string>
    decreases |bs|
  {
    if bs == [] then Some([])
    else if Width(bs) > |bs| || !IsScalar(Value(bs)) then None
    else
      var rest := Decode(bs[Width(bs)..]);
      if rest.None? then None else Some([Value(bs) as char] + rest.value)
  }

  lemma DigitsOf64(v: int)
    requires 0 <= v < 0x110000
    ensures v == v / 64 * 64 + v % 64
    ensures v / 64 == v / 4096 * 64 + v / 64 % 64
    ensures v / 4096 == v / 262144 * 64 + v / 4096 % 64
  {
  }

  lemma CharAtFront(c: char, rest: seq<byte>)
    ensures var bs := EncodeChar(c) + rest;
      Width(bs) == |EncodeChar(c)| && Value(bs) == c as int && bs[Width(bs)..] == rest
  {
    var v := c as int;
    DigitsOf64(v);
    var bs := EncodeChar(c) + rest;
    assert forall i :: 0 <= i < |EncodeChar(c)| ==> bs[i] == EncodeChar(c)[i];
  }

  predicate IsContinuation(b: byte) {
    0x80 <= b < 0xC0
  }

  /** The shortest form: how many bytes a character takes and between which bounds the first of them lies. */
  lemma EncodeCharShape(c: char)
    ensures var v, bs := c as int, EncodeChar(c);
      && (|bs| == 1 <==> v < 0x80) && (|bs| == 2 <==> 0x80 <= v < 0x800) && (|bs| == 3 <==> 0x800 <= v < 0x10000)
      && (|bs| == 1 ==> bs[0] < 0x80) && (|bs| == 2 ==> 0xC2 <= bs[0] < 0xE0)
      && (|bs| == 3 ==> 0xE0 <= bs[0] < 0xF0) && (|bs| == 4 ==> 0xF0 <= bs[0] < 0xF5)
      && forall k :: 1 <= k < |bs| ==> IsContinuation(bs[k])
  {
  }

  lemma {:induction false} DecodeEncode(s: string)
    ensures Decode(Encode(s)) == Some(s)
  {
    if s != [] {
      DecodeEncode(s[1..]);
      CharAtFront(s[0], Encode(s[1..]));
      assert IsScalar(s[0] as int);
      assert s == [s[0]] + s[1..];
    }
  }

  lemma EncodeInjective(s: string, t: string)
    ensures Encode(s) == Encode(t) ==> s == t
  {
    DecodeEncode(s);
    DecodeEncode(t);
  }

  lemma {:induction false} EncodeAppend(s: string, t: string)
    ensures Encode(s + t) == Encode(s) + Encode(t)
  {
    if s == [] {
      assert s + t == t;
    } else {
      assert (s + t)[1..] == s[1..] + t;
      EncodeAppend(s[1..], t);
    }
  }

  // ----- the order of strings is the lexicographic order of their bytes

  /** a is a proper beginning of b, or has the lesser byte where the two first differ. */
  lemma {:induction false} BytesLessMeans(a: seq<byte>, b: seq<byte>)
    ensures BytesLess(a, b) <==>
      exists k :: 0 <= k <= |a| && k < |b| && a[..k] == b[..k] && (k == |a| || a[k] < b[k])
  {
    if a != [] && b != [] {
      BytesLessMeans(a[1..], b[1..]);
      if a[0] == b[0] && BytesLess(a[1..], b[1..]) {
        var k :| 0 <= k <= |a| - 1 && k < |b| - 1 && a[1..][..k] == b[1..][..k] && (k == |a| - 1 || a[1..][k] < b[1..][k]);
        assert a[..k + 1] == [a[0]] + a[1..][..k] && b[..k + 1] == [b[0]] + b[1..][..k];
      } else if a[0] < b[0] {
        assert a[..0] == b[..0];
      }
      if k :| 0 <= k <= |a| && k < |b| && a[..k] == b[..k] && (k == |a| || a[k] < b[k]) {
        if k > 0 {
          assert a[0] == a[..k][0] == b[..k][0] == b[0];
          assert a[1..][..k - 1] == a[..k][1..] == b[..k][1..] == b[1..][..k - 1];
        }
      }
    } else if a == [] && b != [] {
      assert a[..0] == b[..0];
    }
  }

  predicate BytesLess(a: seq<byte>, b: seq<byte>) {
    b != [] && (a == [] || a[0] < b[0] || (a[0] == b[0] && BytesLess(a[1..], b[1..])))
  }

  predicate StringLess(a: string, b: string) {
    BytesLess(Encode(a), Encode(b))
  }

  lemma {:induction false} BytesLessTotal(a: seq<byte>, b: seq<byte>)
    ensures BytesLess(a, b) || BytesLess(b, a) || a == b
    ensures !(BytesLess(a, b) && BytesLess(b, a)) && !BytesLess(a, a)
    decreases |a|
  {
    if a != [] {
      BytesLessTotal(a[1..], a[1..]);
      if b != [] {
        BytesLessTotal(a[1..], b[1..]);
        assert a == [a[0]] + a[1..] && b == [b[0]] + b[1..];
      }
    }
  }

  lemma {:induction false} BytesLessTransitive(a: seq<byte>, b: seq<byte>, c: seq<byte>)
    requires BytesLess(a, b) && BytesLess(b, c)
    ensures BytesLess(a, c)
  {
    if a != [] && a[0] == b[0] && b[0] == c[0] {
      BytesLessTransitive(a[1..], b[1..], c[1..]);
    }
  }

  lemma StringLessTotal(a: string, b: string)
    ensures StringLess(a, b) || StringLess(b, a) || a == b
    ensures !(StringLess(a, b) && StringLess(b, a)) && !StringLess(a, a)
  {
    BytesLessTotal(Encode(a), Encode(b));
    EncodeInjective(a, b);
  }

  lemma StringLessTransitive(a: string, b: string, c: string)
    requires StringLess(a, b) && StringLess(b, c)
    ensures StringLess(a, c)
  {
    BytesLessTransitive(Encode(a), Encode(b), Encode(c));
  }
}
