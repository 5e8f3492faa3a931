/** Artifact file names (plugins/memory/src/local_store.rs, encode_record_id_for_file_name). */
module FileNames {
  import opened Wrappers
  import opened Utf8

  /** Bytes that stand for themselves: ASCII letters and digits, '-', '_' and '.'. */
  predicate Plain(b: int) {
    'A' as int <= b <= 'Z' as int || 'a' as int <= b <= 'z' as int || '0' as int <= b <= '9' as int
    || b == '-' as int || b == '_' as int || b == '.' as int
  }

  function NibbleToHex(value: int): char
    requires 0 <= value < 16
  {
    if value < 10 then (value + '0' as int) as char else (value - 10 + 'a' as int) as char
  }

  function EncodeByte(b: byte): (s: string)
    ensures 1 <= |s| <= 3
  {
    if Plain(b) then [b as char] else ['~', NibbleToHex(b / 16), NibbleToHex(b % 16)]
  }

  function EncodeBytes(bs: seq<byte>): string {
    if bs == [] then [] else EncodeBytes(bs[..|bs| - 1]) + EncodeByte(bs[|bs| - 1])
  }

  /** The loop of encode_record_id_for_file_name, over the bytes of the id. */
  method EncodeRecordId(recordId: string) returns (encoded: string)
    ensures encoded == EncodeBytes(Encode(recordId))
  {
    encoded := [];
    var bytes := Encode(recordId);
    for i := 0 to |bytes|
      invariant encoded == EncodeBytes(bytes[..i])
    {
      assert bytes[..i + 1][..i] == bytes[..i];
      if Plain(bytes[i]) {
        encoded := encoded + [bytes[i] as char];
      } else {
        encoded := encoded + ['~'];
        encoded := encoded + [NibbleToHex(bytes[i] / 16)];
        encoded := encoded + [NibbleToHex(bytes[i] % 16)];
      }
      assert encoded == EncodeBytes(bytes[..i]) + EncodeByte(bytes[i]);
    }
    assert bytes[..|bytes|] == bytes;
  }

  // ----- a decoder

  function HexValue(c: char): Option<int> {
    if '0' <= c <= '9' then Some(c as int - '0' as int)
    else if 'a' <= c <= 'f' then Some(c as int - 'a' as int + 10)
    else None
  }

  function DecodeName(s: string): Option<seq<byte>> {
    if s == [] then Some([])
    else if s[0] == '~' then
      if |s| < 3 || HexValue(s[1]).None? || HexValue(s[2]).None? then None
      else
        var rest := DecodeName(s[3..]);
        if rest.None? then None else Some([HexValue(s[1]).value * 16 + HexValue(s[2]).value] + rest.value)
    else if !Plain(s[0] as int) then None
    else
      var rest := DecodeName(s[1..]);
      if rest.None? then None else Some([s[0] as int] + rest.value)
  }

  lemma HexDigits(value: int)
    requires 0 <= value < 16
    ensures HexValue(NibbleToHex(value)) == Some(value)
  {
  }

  lemma DecodeByteAtFront(b: byte, tail: string)
    ensures DecodeName(EncodeByte(b) + tail) ==
            if DecodeName(tail).None? then None else Some([b] + DecodeName(tail).value)
  {
    hide NibbleToHex, HexValue;
    var s := EncodeByte(b) + tail;
    if Plain(b) {
      assert s[0] == b as char && s[1..] == tail;
    } else {
      assert s[0] == '~' && s[1] == NibbleToHex(b / 16) && s[2] == NibbleToHex(b % 16) && s[3..] == tail;
      HexDigits(b / 16);
      HexDigits(b % 16);
    }
  }

  lemma {:induction false} EncodeBytesCons(b: byte, bs: seq<byte>)
    ensures EncodeBytes([b] + bs) == EncodeByte(b) + EncodeBytes(bs)
  {
    hide EncodeByte;
    var all := [b] + bs;
    if bs == [] {
      assert all[..0] == [] && EncodeBytes([]) == [];
    } else {
      var n := |bs| - 1;
      assert all[..n + 1] == [b] + bs[..n] && all[n + 1] == bs[n];
      EncodeBytesCons(b, bs[..n]);
      assert EncodeBytes(all) == (EncodeByte(b) + EncodeBytes(bs[..n])) + EncodeByte(bs[n]);
      assert EncodeBytes(bs) == EncodeBytes(bs[..n]) + EncodeByte(bs[n]);
    }
  }

  /** The decoder inverts the encoding on every byte string. */
  lemma {:induction false} DecodeEncodedName(bs: seq<byte>)
    ensures DecodeName(EncodeBytes(bs)) == Some(bs)
  {
    if bs != [] {
      DecodeEncodedName(bs[1..]);
      EncodeBytesCons(bs[0], bs[1..]);
      assert bs == [bs[0]] + bs[1..];
      DecodeByteAtFront(bs[0], EncodeBytes(bs[1..]));
    }
  }

  /** Encoded names use only characters that stand for themselves, and '~'. */
  /** No separator, no blank and no wild card: letters, digits, '-', '_', '.' and the escape character. */
  predicate IsSafe(c: char) {
    'A' <= c <= 'Z' || 'a' <= c <= 'z' || '0' <= c <= '9' || c == '-' || c == '_' || c == '.' || c == '~'
  }

  lemma {:induction false} EncodedNameIsSafe(bs: seq<byte>)
    ensures forall c :: c in EncodeBytes(bs) ==> IsSafe(c)
  {
    if bs != [] {
      EncodedNameIsSafe(bs[..|bs| - 1]);
    }
  }

  /** A safe byte stands for itself; any other is written as '~' and its two hexadecimal digits. */
  lemma EscapesExactly(b: byte)
    ensures var digits := "0123456789abcdef";
      EncodeByte(b) == if b != '~' as int && IsSafe(b as char) then [b as char] else ['~', digits[b / 16], digits[b % 16]]
  {
  }

  const ARTIFACT_SUFFIX := ".governed-memory-record.json"

  function ArtifactFileName(recordId: string): string {
    EncodeBytes(Encode(recordId)) + ARTIFACT_SUFFIX
  }

  lemma ArtifactFileNameEnds(recordId: string)
    ensures var name, stem := ArtifactFileName(recordId), EncodeBytes(Encode(recordId));
      |name| == |stem| + 28 && name[..|stem|] == stem && name[|stem|..] == ".governed-memory-record.json"
  {
    var stem := EncodeBytes(Encode(recordId));
    assert ArtifactFileName(recordId)[|stem|..] == ARTIFACT_SUFFIX;
  }

  /** Different record ids never share an artifact file. */
  lemma ArtifactFileNameInjective(a: string, b: string)
    ensures ArtifactFileName(a) == ArtifactFileName(b) ==> a == b
  {
    if ArtifactFileName(a) == ArtifactFileName(b) {
      var ea, eb := EncodeBytes(Encode(a)), EncodeBytes(Encode(b));
      assert ea == ArtifactFileName(a)[..|ea|] && eb == ArtifactFileName(b)[..|eb|];
      DecodeEncodedName(Encode(a));
      DecodeEncodedName(Encode(b));
      EncodeInjective(a, b);
    }
  }
}
