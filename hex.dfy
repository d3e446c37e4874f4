/**
  Key minting shared by both variants: `crypto.randomBytes(6).toString("hex").toUpperCase()`.
  The random bytes are an input; the encoding is Node's lower-case hexadecimal
  followed by an upper-casing pass, and a parser for the upper-case form shows
  that the encoding loses nothing.
*/
module Hex {
  import opened Wrappers

  type byte = x: int | 0 <= x < 256

  /** Number of random bytes each handler draws for a key. */
  const KeyBytes: nat := 6

  const LowerDigits: string := "0123456789abcdef"
  const UpperDigits: string := "0123456789ABCDEF"

  predicate IsUpperHexDigit(c: char) {
    '0' <= c <= '9' || 'A' <= c <= 'F'
  }

  predicate IsLowerHexDigit(c: char) {
    '0' <= c <= '9' || 'a' <= c <= 'f'
  }

  /** `Buffer.toString("hex")`: two lower-case digits per byte, high nibble first. */
  function ToHex(bytes: seq<byte>): (s: string)
    ensures |s| == 2 * |bytes|
    ensures forall i :: 0 <= i < |s| ==> IsLowerHexDigit(s[i])
  {
    assert forall n :: 0 <= n < 16 ==> IsLowerHexDigit(LowerDigits[n]);
    if bytes == [] then []
    else [LowerDigits[bytes[0] / 16], LowerDigits[bytes[0] % 16]] + ToHex(bytes[1..])
  }

  /** `String.prototype.toUpperCase` restricted to ASCII letters; every other character is kept. */
  function UpperAscii(c: char): char {
    if 'a' <= c <= 'z' then (c as int - 32) as char else c
  }

  function ToUpperCase(s: string): (u: string)
    ensures |u| == |s|
  {
    seq(|s|, i requires 0 <= i < |s| => UpperAscii(s[i]))
  }

  /** The key a handler mints from the given random bytes. */
  function MintKey(bytes: seq<byte>): (key: string)
    ensures |key| == 2 * |bytes|
    ensures forall i :: 0 <= i < |key| ==> IsUpperHexDigit(key[i])
  {
    var lower := ToHex(bytes);
    assert forall i :: 0 <= i < |lower| ==> IsUpperHexDigit(UpperAscii(lower[i]));
    ToUpperCase(lower)
  }

  /** Value of an upper-case hexadecimal digit; lower-case and other characters are rejected. */
  function DigitValue(c: char): (v: Option<int>)
    ensures v.Some? <==> IsUpperHexDigit(c)
    ensures v.Some? ==> 0 <= v.value < 16 && UpperDigits[v.value] == c
  {
    if '0' <= c <= '9' then Some(c as int - '0' as int)
    else if 'A' <= c <= 'F' then Some(c as int - 'A' as int + 10)
    else None
  }

  /** Inverse of MintKey: parses a string of upper-case digit pairs back into bytes. */
  function ParseHex(s: string): (r: Option<seq<byte>>)
    ensures r.Some? ==> 2 * |r.value| == |s|
    decreases |s|
  {
    if s == [] then Some([])
    else if |s| < 2 then None
    else match (DigitValue(s[0]), DigitValue(s[1]), ParseHex(s[2..]))
      case (Some(hi), Some(lo), Some(rest)) => Some([hi * 16 + lo] + rest)
      case _ => None
  }

  lemma UpperOfLowerDigit(n: int)
    requires 0 <= n < 16
    ensures UpperAscii(LowerDigits[n]) == UpperDigits[n]
  {
  }

  lemma ToUpperCaseAppend(a: string, b: string)
    ensures ToUpperCase(a + b) == ToUpperCase(a) + ToUpperCase(b)
  {
  }

  /** MintKey processes one byte at a time: two upper-case digits, then the rest. */
  lemma MintKeyCons(bytes: seq<byte>)
    requires bytes != []
    ensures MintKey(bytes) == [UpperDigits[bytes[0] / 16], UpperDigits[bytes[0] % 16]] + MintKey(bytes[1..])
  {
    var hi, lo := bytes[0] / 16, bytes[0] % 16;
    var head := [LowerDigits[hi], LowerDigits[lo]];
    var tail := ToHex(bytes[1..]);
    assert ToHex(bytes) == head + tail;
    ToUpperCaseAppend(head, tail);
    UpperOfLowerDigit(hi);
    UpperOfLowerDigit(lo);
    assert ToUpperCase(head) == [UpperDigits[hi], UpperDigits[lo]];
  }

  lemma DigitValueOfUpper(n: int)
    requires 0 <= n < 16
    ensures DigitValue(UpperDigits[n]) == Some(n)
  {
  }

  /** A byte splits into its two nibbles and is rebuilt from them. */
  lemma Nibbles(b: byte, hi: int, lo: int)
    requires 0 <= hi < 16 && 0 <= lo < 16
    ensures b == hi * 16 + lo <==> (hi == b / 16 && lo == b % 16)
  {
  }

  /** Every minted key parses back to the bytes it was minted from. */
  lemma {:induction false} ParseMintKey(bytes: seq<byte>)
    ensures ParseHex(MintKey(bytes)) == Some(bytes)
  {
    if bytes != [] {
      var hi, lo := bytes[0] / 16, bytes[0] % 16;
      MintKeyCons(bytes);
      var key := MintKey(bytes);
      assert key[0] == UpperDigits[hi] && key[1] == UpperDigits[lo];
      assert key[2..] == MintKey(bytes[1..]);
      ParseMintKey(bytes[1..]);
      DigitValueOfUpper(hi);
      DigitValueOfUpper(lo);
      Nibbles(bytes[0], hi, lo);
      assert ParseHex(key) == Some([hi * 16 + lo] + bytes[1..]);
      assert [bytes[0]] + bytes[1..] == bytes;
    }
  }

  /** Every string ParseHex accepts is exactly the key minted from the parsed bytes. */
  lemma {:induction false} MintParsedKey(s: string)
    requires ParseHex(s).Some?
    ensures MintKey(ParseHex(s).value) == s
    decreases |s|
  {
    if s != [] {
      var bytes := ParseHex(s).value;
      var hi, lo := DigitValue(s[0]).value, DigitValue(s[1]).value;
      MintParsedKey(s[2..]);
      assert bytes == [hi * 16 + lo] + ParseHex(s[2..]).value;
      Nibbles(bytes[0], hi, lo);
      MintKeyCons(bytes);
      assert bytes[1..] == ParseHex(s[2..]).value;
      assert s == [s[0], s[1]] + s[2..];
    }
  }

  /** Distinct random draws give distinct keys. */
  lemma MintKeyInjective(a: seq<byte>, b: seq<byte>)
    requires MintKey(a) == MintKey(b)
    ensures a == b
  {
    ParseMintKey(a);
    ParseMintKey(b);
  }
}
