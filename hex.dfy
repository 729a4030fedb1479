/**
 * The byte decoding done before every serial write,
 * `bytes(int(x, 16) for x in cmd_hex.split())`, and the encoding a capture
 * log uses for a frame (two upper-case hex digits per byte, separated by
 * single spaces), which the decoder inverts.
 */
module HexCodec {
  import opened Wrappers
  import opened Text

  newtype byte = x: int | 0 <= x < 256

  predicate IsHexDigit(c: char) {
    '0' <= c <= '9' || 'A' <= c <= 'F' || 'a' <= c <= 'f'
  }

  function DigitValue(c: char): (d: nat)
    requires IsHexDigit(c)
    ensures d < 16
  {
    if '0' <= c <= '9' then c as int - '0' as int
    else if 'A' <= c <= 'F' then c as int - 'A' as int + 10
    else c as int - 'a' as int + 10
  }

  predicate AllHexDigits(t: string) {
    forall i :: 0 <= i < |t| ==> IsHexDigit(t[i])
  }

  /** A token `int(t, 16)` accepts, restricted to plain digit strings. */
  predicate IsHexNumeral(t: string) {
    t != [] && AllHexDigits(t)
  }

  /** The base-16 value of a digit string, most significant digit first. */
  function NumeralValue(t: string): nat
    requires AllHexDigits(t)
    decreases |t|
  {
    if t == [] then 0 else NumeralValue(t[..|t| - 1]) * 16 + DigitValue(t[|t| - 1])
  }

  /** A token that `bytes(...)` accepts: a hex numeral whose value is below 256. */
  predicate IsByteToken(t: string) {
    IsHexNumeral(t) && NumeralValue(t) < 256
  }

  /** What stops the decoding: `int()` refusing a token, or `bytes()`
      refusing a value outside range(0, 256). */
  datatype DecodeError = NotHex(token: string) | OutOfRange(token: string)

  function TokenError(t: string): (e: DecodeError)
    requires !IsByteToken(t)
    ensures e.token == t
    ensures e.OutOfRange? <==> IsHexNumeral(t)
  {
    if IsHexNumeral(t) then OutOfRange(t) else NotHex(t)
  }

  /** `toks[i]` is the first token that is not a byte. */
  predicate FirstBadToken(toks: seq<string>, i: int) {
    0 <= i < |toks| && !IsByteToken(toks[i]) && forall j :: 0 <= j < i ==> IsByteToken(toks[j])
  }

  /** `bytes(int(x, 16) for x in toks)`: one byte per token, in order; the
      first token that is not a byte stops the decoding with its error. */
  function DecodeTokens(toks: seq<string>): (r: Result<seq<byte>, DecodeError>)
    ensures r.Ok? <==> forall i :: 0 <= i < |toks| ==> IsByteToken(toks[i])
    ensures r.Ok? ==> |r.value| == |toks|
    ensures r.Ok? ==> forall i :: 0 <= i < |toks| ==> r.value[i] as int == NumeralValue(toks[i])
    ensures r.Err? ==> exists i :: FirstBadToken(toks, i) && r.error == TokenError(toks[i])
    decreases |toks|
  {
    if toks == [] then Ok([])
    else if !IsByteToken(toks[0]) then Err(TokenError(toks[0]))
    else
      match DecodeTokens(toks[1..])
      case Ok(rest) => Ok([NumeralValue(toks[0]) as byte] + rest)
      case Err(e) =>
        assert exists i :: FirstBadToken(toks, i) && e == TokenError(toks[i]) by {
          var k :| FirstBadToken(toks[1..], k) && e == TokenError(toks[1..][k]);
          assert toks[1..][k] == toks[k + 1];
          forall j | 0 <= j < k + 1 ensures IsByteToken(toks[j]) {
            if j > 0 { assert toks[1..][j - 1] == toks[j]; }
          }
          assert FirstBadToken(toks, k + 1);
        }
        Err(e)
  }

  /** The decoding of a command's hex text at the start of `_write_serial`. */
  function Decode(hex: string): (r: Result<seq<byte>, DecodeError>)
    ensures r.Ok? <==> forall i :: 0 <= i < |Tokens(hex)| ==> IsByteToken(Tokens(hex)[i])
    ensures r.Ok? ==> |r.value| == |Tokens(hex)|
    ensures r.Ok? ==> forall i :: 0 <= i < |r.value| ==> r.value[i] as int == NumeralValue(Tokens(hex)[i])
    ensures r.Err? ==> exists i :: FirstBadToken(Tokens(hex), i) && r.error == TokenError(Tokens(hex)[i])
  {
    DecodeTokens(Tokens(hex))
  }

  // ------------------------------------------------------------- encoding

  function HexChar(d: nat): (c: char)
    requires d < 16
    ensures IsHexDigit(c) && !('a' <= c <= 'z') && !IsSpace(c)
  {
    if d < 10 then ('0' as int + d) as char else ('A' as int + d - 10) as char
  }

  lemma DigitOfHexChar(d: nat)
    requires d < 16
    ensures DigitValue(HexChar(d)) == d
  {
  }

  /** A byte as two upper-case hex digits. */
  function ByteHex(b: byte): (t: string)
    ensures |t| == 2 && IsHexNumeral(t) && NoSpace(t) && NoLower(t)
  {
    [HexChar(b as int / 16), HexChar(b as int % 16)]
  }

  lemma ByteHexValue(b: byte)
    ensures IsByteToken(ByteHex(b)) && NumeralValue(ByteHex(b)) == b as int
  {
    var t := ByteHex(b);
    assert t[..|t| - 1] == [t[0]];
    assert [t[0]][..0] == [];
    DigitOfHexChar(b as int / 16);
    DigitOfHexChar(b as int % 16);
  }

  function ByteWords(bs: seq<byte>): (ws: seq<string>)
    ensures |ws| == |bs| && forall i :: 0 <= i < |bs| ==> ws[i] == ByteHex(bs[i])
  {
    seq(|bs|, i requires 0 <= i < |bs| => ByteHex(bs[i]))
  }

  /** A frame as a capture log writes it: `"AA BB CC"`. */
  function EncodeHex(bs: seq<byte>): string {
    JoinSpaced(ByteWords(bs))
  }

  /** Decoding inverts encoding. */
  lemma DecodeEncodeHex(bs: seq<byte>)
    ensures Decode(EncodeHex(bs)) == Ok(bs)
  {
    var ws := ByteWords(bs);
    TokensOfJoined(ws);
    forall i | 0 <= i < |ws| ensures IsByteToken(ws[i]) && NumeralValue(ws[i]) == bs[i] as int {
      ByteHexValue(bs[i]);
    }
    var r := DecodeTokens(ws);
    assert r.value == bs;
  }

  /** Every character of an encoded frame is an upper-case hex digit or a
      space, and a non-empty frame starts and ends with a digit. */
  lemma {:induction false} EncodeHexShape(bs: seq<byte>)
    ensures |EncodeHex(bs)| == 0 <==> bs == []
    ensures forall i :: 0 <= i < |EncodeHex(bs)| ==>
      EncodeHex(bs)[i] == ' ' || (IsHexDigit(EncodeHex(bs)[i]) && !('a' <= EncodeHex(bs)[i] <= 'z'))
    ensures bs != [] ==> IsHexDigit(EncodeHex(bs)[0]) && IsHexDigit(EncodeHex(bs)[|EncodeHex(bs)| - 1])
    decreases |bs|
  {
    if |bs| >= 2 {
      assert ByteWords(bs)[1..] == ByteWords(bs[1..]);
      EncodeHexShape(bs[1..]);
      var h := ByteHex(bs[0]);
      var t := EncodeHex(bs[1..]);
      assert EncodeHex(bs) == h + " " + t;
      forall i | 0 <= i < |EncodeHex(bs)|
        ensures EncodeHex(bs)[i] == ' ' || (IsHexDigit(EncodeHex(bs)[i]) && !('a' <= EncodeHex(bs)[i] <= 'z'))
      {
        if i >= 3 { assert EncodeHex(bs)[i] == t[i - 3]; }
      }
    }
  }

  /** The example frame of a capture log line. */
  lemma DecodeExample()
    ensures Decode("AA BB CC") == Ok([0xAA, 0xBB, 0xCC])
  {
    var bs: seq<byte> := [0xAA, 0xBB, 0xCC];
    assert ByteWords(bs) == ["AA", "BB", "CC"];
    assert EncodeHex(bs) == "AA BB CC";
    DecodeEncodeHex(bs);
  }

  /** A token that `int(x, 16)` refuses stops the decoding with its error. */
  lemma DecodeNotHexExample()
    ensures Decode("AA ZZ") == Err(NotHex("ZZ"))
  {
    ByteHexValue(0xAA);
    assert ByteHex(0xAA) == "AA";
    assert !IsHexDigit("ZZ"[0]);
    TokensOfJoined(["AA", "ZZ"]);
    assert JoinSpaced(["AA", "ZZ"]) == "AA ZZ";
    assert DecodeTokens(["AA", "ZZ"]) == Err(NotHex("ZZ")) by {
      assert ["AA", "ZZ"][1..] == ["ZZ"];
    }
  }

  /** A token above `FF` stops the decoding before any later token is read. */
  lemma DecodeOutOfRangeExample()
    ensures Decode("1FF AA") == Err(OutOfRange("1FF"))
  {
    var t := "1FF";
    assert t[..2] == "1F" && t[..2][..1] == "1" && t[..2][..1][..0] == [];
    assert AllHexDigits(t);
    assert NumeralValue("1") == 1;
    assert NumeralValue("1F") == 31;
    assert NumeralValue(t) == 511;
    assert !IsByteToken(t);
    TokensOfJoined(["1FF", "AA"]);
    assert JoinSpaced(["1FF", "AA"]) == "1FF AA";
  }
}
