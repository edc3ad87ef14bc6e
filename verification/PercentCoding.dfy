/** Percent coding of file names (section 3.2.1 of RFC 5987), on the bytes of the text. */
module PercentCoding {
  import opened Collections
  import opened Bytes

  const PERCENT: byte := 37

  predicate IsUpper(b: byte) { 65 <= b <= 90 }
  predicate IsLower(b: byte) { 97 <= b <= 122 }
  predicate IsDigit(b: byte) { 48 <= b <= 57 }

  /** Letters, digits and ! # $ & + - . ^ _ ` | ~ stand for themselves. */
  predicate IsAttrChar(b: byte) {
    IsUpper(b) || IsLower(b) || IsDigit(b) || b in {33, 35, 36, 38, 43, 45, 46, 94, 95, 96, 124, 126}
  }

  /** The attr-char of the standard, as characters. */
  lemma AttrCharIsStandard(b: byte)
    ensures var c := b as char;
      IsAttrChar(b) <==>
        || 'A' <= c <= 'Z' || 'a' <= c <= 'z' || '0' <= c <= '9'
        || c in {'!', '#', '$', '&', '+', '-', '.', '^', '_', '`', '|', '~'}
  {
  }

  function HexDigit(n: nat): byte
    requires n < 16
  {
    if n < 10 then 48 + n else 55 + n
  }

  function FromHex(b: byte): Option<nat> {
    if IsDigit(b) then Some(b - 48)
    else if 97 <= b <= 102 then Some(b - 87)
    else if 65 <= b <= 70 then Some(b - 55)
    else None
  }

  function EncodedByte(b: byte): seq<byte> {
    if IsAttrChar(b) then [b] else [PERCENT, HexDigit(b / 16), HexDigit(b % 16)]
  }

  function Encoded(s: seq<byte>): seq<byte> {
    if s == [] then [] else EncodedByte(s[0]) + Encoded(s[1..])
  }

  /** A triple is decoded only when both digits are there and are hexadecimal; anything else stays. */
  predicate StartsWithTriple(s: seq<byte>) {
    |s| > 2 && s[0] == PERCENT && FromHex(s[1]).Some? && FromHex(s[2]).Some?
  }

  function TripleValue(s: seq<byte>): byte
    requires StartsWithTriple(s)
  {
    FromHex(s[1]).value * 16 + FromHex(s[2]).value
  }

  function Decoded(s: seq<byte>): seq<byte> {
    if s == [] then []
    else if StartsWithTriple(s) then [TripleValue(s)] + Decoded(s[3..])
    else [s[0]] + Decoded(s[1..])
  }

  method PercentEncode(s: seq<byte>) returns (encoded: seq<byte>)
    ensures encoded == Encoded(s)
  {
    encoded := [];
    for i := 0 to |s|
      invariant encoded + Encoded(s[i..]) == Encoded(s)
    {
      assert s[i..][1..] == s[i + 1..];
      ConcatAssociates(encoded, EncodedByte(s[i]), Encoded(s[i + 1..]));
      if IsAttrChar(s[i]) {
        encoded := encoded + [s[i]];
      } else {
        encoded := encoded + [PERCENT, HexDigit(s[i] / 16), HexDigit(s[i] % 16)];
      }
    }
  }

  lemma DecodeTriple(s: seq<byte>, i: nat, done: seq<byte>)
    requires i <= |s| && StartsWithTriple(s[i..])
    ensures done + Decoded(s[i..]) == (done + [TripleValue(s[i..])]) + Decoded(s[i + 3..])
  {
    assert s[i..][3..] == s[i + 3..];
    ConcatAssociates(done, [TripleValue(s[i..])], Decoded(s[i + 3..]));
  }

  lemma DecodePlain(s: seq<byte>, i: nat, done: seq<byte>)
    requires i < |s| && !StartsWithTriple(s[i..])
    ensures done + Decoded(s[i..]) == (done + [s[i]]) + Decoded(s[i + 1..])
  {
    assert s[i..][1..] == s[i + 1..];
    ConcatAssociates(done, [s[i]], Decoded(s[i + 1..]));
  }

  method PercentDecode(s: seq<byte>) returns (decoded: seq<byte>)
    ensures decoded == Decoded(s)
  {
    decoded := [];
    var index := 0;
    assert s[0..] == s;
    while index < |s|
      invariant index <= |s|
      invariant decoded + Decoded(s[index..]) == Decoded(s)
    {
      if s[index] == PERCENT && index + 2 < |s| {
        var high, low := FromHex(s[index + 1]), FromHex(s[index + 2]);
        if high.Some? && low.Some? {
          DecodeTriple(s, index, decoded);
          decoded := decoded + [high.value * 16 + low.value];
          index := index + 3;
          continue;
        }
      }
      DecodePlain(s, index, decoded);
      decoded := decoded + [s[index]];
      index := index + 1;
    }
    assert s[|s|..] == [];
  }

  // --- Round trip ---

  lemma DecodeOneByte(b: byte, rest: seq<byte>)
    ensures Decoded(EncodedByte(b) + rest) == [b] + Decoded(rest)
  {
    var s := EncodedByte(b) + rest;
    if IsAttrChar(b) {
      assert s[1..] == rest;
    } else {
      assert s[3..] == rest;
      assert b == b / 16 * 16 + b % 16;
    }
  }

  /** Decoding gives back every encoded byte string. */
  lemma {:induction false} PercentRoundTrip(s: seq<byte>)
    ensures Decoded(Encoded(s)) == s
  {
    if s != [] {
      PercentRoundTrip(s[1..]);
      DecodeOneByte(s[0], Encoded(s[1..]));
    }
  }

  function Lower(digit: byte): byte {
    if IsUpper(digit) then digit + 32 else digit
  }

  /** A digit is hexadecimal exactly when it is one of the sixteen, in upper or lower case. */
  lemma HexDigitsOnly(b: byte, n: nat)
    requires n < 16
    ensures FromHex(b) == Some(n) <==> b == HexDigit(n) || b == Lower(HexDigit(n))
    ensures FromHex(b).Some? ==> FromHex(b).value < 16
  {
  }

  /** Each digit of a triple may be in either case. */
  lemma EitherCaseDecodes(b: byte, high: byte, low: byte, rest: seq<byte>)
    requires high == HexDigit(b / 16) || high == Lower(HexDigit(b / 16))
    requires low == HexDigit(b % 16) || low == Lower(HexDigit(b % 16))
    ensures Decoded([PERCENT, high, low] + rest) == [b] + Decoded(rest)
  {
    var s := [PERCENT, high, low] + rest;
    HexDigitsOnly(high, b / 16);
    HexDigitsOnly(low, b % 16);
    assert s[3..] == rest;
    assert b == b / 16 * 16 + b % 16;
  }

  /** A percent sign that no two digits follow stands for itself. */
  lemma OtherBytesStay(b: byte, rest: seq<byte>)
    requires b == PERCENT ==> |rest| < 2 || FromHex(rest[0]).None? || FromHex(rest[1]).None?
    ensures Decoded([b] + rest) == [b] + Decoded(rest)
  {
    var s := [b] + rest;
    assert s[1..] == rest;
  }

  /** The grammar of an encoded value: attribute characters and upper-case %XX triples. */
  predicate IsExtValue(s: seq<byte>) {
    s == []
    || (IsAttrChar(s[0]) && IsExtValue(s[1..]))
    || (|s| > 2 && s[0] == PERCENT && IsUpperHex(s[1]) && IsUpperHex(s[2]) && IsExtValue(s[3..]))
  }

  predicate IsUpperHex(b: byte) { IsDigit(b) || 65 <= b <= 70 }

  lemma {:induction false} EncodedIsExtValue(s: seq<byte>)
    ensures IsExtValue(Encoded(s))
  {
    if s != [] {
      EncodedIsExtValue(s[1..]);
      var r := Encoded(s);
      if IsAttrChar(s[0]) {
        assert r[1..] == Encoded(s[1..]);
      } else {
        assert r[3..] == Encoded(s[1..]);
      }
    }
  }
}
