/**
 * Transaction hashes: '0x' followed by the lower-case hex encoding of 32
 * random bytes.  The random bytes are a parameter (the entropy source is not
 * modelled); the encoding is proved injective by decoding it again.
 */
module TxHashes {

  type Byte = b: int | 0 <= b < 256

  const TOKEN_BYTES: nat := 32
  const PREFIX: string := "0x"

  predicate IsHexDigit(c: char) {
    '0' <= c <= '9' || 'a' <= c <= 'f'
  }

  predicate IsHex(s: string) {
    forall i :: 0 <= i < |s| ==> IsHexDigit(s[i])
  }

  function DigitValue(c: char): (v: int)
    requires IsHexDigit(c)
    ensures 0 <= v < 16
  {
    if c <= '9' then c as int - '0' as int else c as int - 'a' as int + 10
  }

  function Digit(v: int): (c: char)
    requires 0 <= v < 16
    ensures IsHexDigit(c) && DigitValue(c) == v
  {
    if v < 10 then ('0' as int + v) as char else ('a' as int + v - 10) as char
  }

  /** Two lower-case hex digits per byte, most significant nibble first. */
  function TokenHex(bytes: seq<Byte>): (r: string)
    ensures |r| == 2 * |bytes| && IsHex(r)
  {
    if bytes == [] then ""
    else [Digit(bytes[0] / 16), Digit(bytes[0] % 16)] + TokenHex(bytes[1..])
  }

  /** Decoding of an even-length lower-case hex string. */
  function ParseHex(s: string): (bytes: seq<Byte>)
    requires |s| % 2 == 0 && IsHex(s)
    ensures 2 * |bytes| == |s|
  {
    if s == [] then []
    else [DigitValue(s[0]) * 16 + DigitValue(s[1])] + ParseHex(s[2..])
  }

  lemma {:induction false} ParseTokenHex(bytes: seq<Byte>)
    ensures ParseHex(TokenHex(bytes)) == bytes
  {
    if bytes != [] {
      var h := TokenHex(bytes);
      assert h[2..] == TokenHex(bytes[1..]);
      ParseTokenHex(bytes[1..]);
    }
  }

  /** generate_tx_hash: the prefix and 64 hex digits. */
  function GenerateTxHash(entropy: seq<Byte>): (h: string)
    requires |entropy| == TOKEN_BYTES
    ensures |h| == 2 + 2 * TOKEN_BYTES && h[..2] == PREFIX && IsHex(h[2..])
  {
    PREFIX + TokenHex(entropy)
  }

  /** Distinct random tokens give distinct hashes. */
  lemma GenerateTxHashInjective(e1: seq<Byte>, e2: seq<Byte>)
    requires |e1| == TOKEN_BYTES && |e2| == TOKEN_BYTES
    requires GenerateTxHash(e1) == GenerateTxHash(e2)
    ensures e1 == e2
  {
    var h := GenerateTxHash(e1);
    assert TokenHex(e1) == h[2..] == TokenHex(e2);
    ParseTokenHex(e1);
    ParseTokenHex(e2);
  }
}
