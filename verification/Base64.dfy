/** Standard base64 with padding (section 4 of RFC 4648). */
module Base64 {
  import opened Collections
  import opened Bytes

  const PAD: byte := 61

  type sextet = x: int | 0 <= x < 64

  function Symbol(i: sextet): (s: byte)
    ensures s != PAD
  {
    if i < 26 then i + 65
    else if i < 52 then i + 71
    else if i < 62 then i - 4
    else if i == 62 then 43
    else 47
  }

  function Symbols(s: seq<sextet>): (r: seq<byte>)
    ensures |r| == |s|
  {
    seq(|s|, i requires 0 <= i < |s| => Symbol(s[i]))
  }

  function First(a: byte): sextet { a / 4 }
  function Second(a: byte, b: byte): sextet { a % 4 * 16 + b / 16 }
  function Third(b: byte, c: byte): sextet { b % 16 * 4 + c / 64 }
  function Fourth(c: byte): sextet { c % 64 }

  /** Three bytes give four sextets; one or two leftover bytes give two or three. */
  function Sextets(s: seq<byte>): (r: seq<sextet>)
    ensures |r| == |s| / 3 * 4 + if |s| % 3 == 0 then 0 else |s| % 3 + 1
  {
    if |s| == 0 then []
    else if |s| == 1 then [First(s[0]), Second(s[0], 0)]
    else if |s| == 2 then [First(s[0]), Second(s[0], s[1]), Third(s[1], 0)]
    else [First(s[0]), Second(s[0], s[1]), Third(s[1], s[2]), Fourth(s[2])] + Sextets(s[3..])
  }

  function Padding(length: nat): seq<byte> {
    if length % 3 == 0 then [] else if length % 3 == 1 then [PAD, PAD] else [PAD]
  }

  function Encode(s: seq<byte>): seq<byte> {
    Symbols(Sextets(s)) + Padding(|s|)
  }

  // --- Nothing is lost ---

  lemma SymbolInjective(i: sextet, j: sextet)
    requires Symbol(i) == Symbol(j)
    ensures i == j
  {
  }

  lemma SplitByte(a: byte, b: byte, k: nat)
    requires 0 < k && a / k == b / k && a % k == b % k
    ensures a == b
  {
    assert a == a / k * k + a % k && b == b / k * k + b % k;
  }

  lemma SecondInjective(a: byte, b: byte, x: byte, y: byte)
    requires First(a) == First(x) && Second(a, b) == Second(x, y)
    ensures a == x && b / 16 == y / 16
  {
    SplitByte(a, x, 4);
  }

  lemma ThirdInjective(b: byte, c: byte, y: byte, z: byte)
    requires b / 16 == y / 16 && Third(b, c) == Third(y, z)
    ensures b == y && c / 64 == z / 64
  {
    SplitByte(b, y, 16);
  }

  lemma SameGroup(a: seq<byte>, b: seq<byte>)
    requires |a| >= 3 && |b| >= 3
    requires First(a[0]) == First(b[0]) && Second(a[0], a[1]) == Second(b[0], b[1])
    requires Third(a[1], a[2]) == Third(b[1], b[2]) && Fourth(a[2]) == Fourth(b[2])
    ensures a[..3] == b[..3]
  {
    SecondInjective(a[0], a[1], b[0], b[1]);
    ThirdInjective(a[1], a[2], b[1], b[2]);
    SplitByte(a[2], b[2], 64);
  }

  lemma {:induction false} SextetsReflectPrefix(a: seq<byte>, b: seq<byte>)
    requires Sextets(a) <= Sextets(b) && (|a| % 3 != 0 ==> |Sextets(a)| == |Sextets(b)|)
    ensures a <= b
  {
    var sa, sb := Sextets(a), Sextets(b);
    if |a| >= 3 {
      assert |b| >= 3;
      assert sa[0] == sb[0] && sa[1] == sb[1] && sa[2] == sb[2] && sa[3] == sb[3];
      SameGroup(a, b);
      assert sa[4..] == Sextets(a[3..]) && sb[4..] == Sextets(b[3..]);
      assert sa[4..] <= sb[4..];
      SextetsReflectPrefix(a[3..], b[3..]);
      assert a == a[..3] + a[3..] && b == b[..3] + b[3..];
    } else if |a| == 2 {
      assert |b| == 2;
      assert sa[0] == sb[0] && sa[1] == sb[1] && sa[2] == sb[2];
      SecondInjective(a[0], a[1], b[0], b[1]);
      ThirdInjective(a[1], 0, b[1], 0);
    } else if |a| == 1 {
      assert |b| == 1;
      assert sa[0] == sb[0] && sa[1] == sb[1];
      SecondInjective(a[0], 0, b[0], 0);
    }
  }

  predicate IsPadding(p: seq<byte>) {
    forall i :: 0 <= i < |p| ==> p[i] == PAD
  }

  lemma SymbolsReflectPrefix(sa: seq<sextet>, sb: seq<sextet>, pa: seq<byte>, pb: seq<byte>)
    requires IsPadding(pa) && IsPadding(pb) && Symbols(sa) + pa <= Symbols(sb) + pb
    ensures sa <= sb && (pa != [] ==> |sa| == |sb|)
  {
    var ea, eb := Symbols(sa) + pa, Symbols(sb) + pb;
    if |sb| < |ea| { assert ea[|sb|] == eb[|sb|]; }
    if |sa| < |ea| { assert ea[|sa|] == eb[|sa|]; }
    forall i | 0 <= i < |sa| ensures sa[i] == sb[i] {
      assert ea[i] == eb[i];
      SymbolInjective(sa[i], sb[i]);
    }
  }

  /** If one encoding is a prefix of another, so are the encoded strings: padding can only end an encoding. */
  lemma EncodeReflectsPrefix(a: seq<byte>, b: seq<byte>)
    requires Encode(a) <= Encode(b)
    ensures a <= b
  {
    SymbolsReflectPrefix(Sextets(a), Sextets(b), Padding(|a|), Padding(|b|));
    SextetsReflectPrefix(a, b);
  }

  // --- The decoder of the standard ---

  function ValueOfSymbol(b: byte): (v: int)
    ensures -1 <= v < 64
  {
    var c := b as char;
    if 'A' <= c <= 'Z' then c as int - 'A' as int
    else if 'a' <= c <= 'z' then 26 + (c as int - 'a' as int)
    else if '0' <= c <= '9' then 52 + (c as int - '0' as int)
    else if c == '+' then 62
    else if c == '/' then 63
    else -1
  }

  function Triple(a: sextet, b: sextet, c: sextet, d: sextet): (r: seq<byte>)
    ensures |r| == 3
  {
    [a * 4 + b / 16, b % 16 * 16 + c / 4, c % 4 * 64 + d]
  }

  /** Groups of four symbols; only the last one may be padded with '=', and then its unused bits are zero. */
  function Decode(t: seq<byte>): Option<seq<byte>> {
    if t == [] then Some([])
    else if |t| < 4 then None
    else
      var a, b, c, d := ValueOfSymbol(t[0]), ValueOfSymbol(t[1]), ValueOfSymbol(t[2]), ValueOfSymbol(t[3]);
      if a < 0 || b < 0 then None
      else if t[2..] == [61, 61] then
        if b % 16 == 0 then Some([a * 4 + b / 16]) else None
      else if c < 0 then None
      else if t[3..] == [61] then
        if c % 4 == 0 then Some([a * 4 + b / 16, b % 16 * 16 + c / 4]) else None
      else if d < 0 || Decode(t[4..]).None? then None
      else Some(Triple(a, b, c, d) + Decode(t[4..]).value)
  }

  lemma SymbolRoundTrip(i: sextet)
    ensures ValueOfSymbol(Symbol(i)) == i && Symbol(i) != 61
  {
  }

  lemma GroupRoundTrip(x: byte, y: byte, z: byte)
    ensures First(x) * 4 + Second(x, y) / 16 == x
    ensures Second(x, y) % 16 * 16 + Third(y, z) / 4 == y
    ensures Third(y, z) % 4 * 64 + Fourth(z) == z
    ensures Second(x, 0) % 16 == 0 && Third(y, 0) % 4 == 0
  {
    assert x == x / 4 * 4 + x % 4 && y == y / 16 * 16 + y % 16 && z == z / 64 * 64 + z % 64;
  }

  function Group(x: byte, y: byte, z: byte): seq<byte> {
    [Symbol(First(x)), Symbol(Second(x, y)), Symbol(Third(y, z)), Symbol(Fourth(z))]
  }

  lemma SextetsStep(s: seq<byte>)
    requires |s| >= 3
    ensures Symbols(Sextets(s)) == Group(s[0], s[1], s[2]) + Symbols(Sextets(s[3..]))
  {
    SextetsUnfold(s);
    SymbolsAppend(GroupSextets(s[0], s[1], s[2]), Sextets(s[3..]));
    GroupSymbols(GroupSextets(s[0], s[1], s[2]));
  }

  function GroupSextets(x: byte, y: byte, z: byte): (r: seq<sextet>)
    ensures |r| == 4
  {
    [First(x), Second(x, y), Third(y, z), Fourth(z)]
  }

  lemma SextetsUnfold(s: seq<byte>)
    requires |s| >= 3
    ensures Sextets(s) == GroupSextets(s[0], s[1], s[2]) + Sextets(s[3..])
  {
  }

  lemma GroupSymbols(g: seq<sextet>)
    requires |g| == 4
    ensures Symbols(g) == [Symbol(g[0]), Symbol(g[1]), Symbol(g[2]), Symbol(g[3])]
  {
  }

  lemma SymbolsAppend(a: seq<sextet>, b: seq<sextet>)
    ensures Symbols(a + b) == Symbols(a) + Symbols(b)
  {
  }

  lemma EncodeStep(s: seq<byte>)
    requires |s| >= 3
    ensures Encode(s) == Group(s[0], s[1], s[2]) + Encode(s[3..])
  {
    SextetsStep(s);
    SamePadding(|s|);
    ConcatAssociates(Group(s[0], s[1], s[2]), Symbols(Sextets(s[3..])), Padding(|s|));
  }

  lemma SamePadding(length: nat)
    requires length >= 3
    ensures Padding(length - 3) == Padding(length)
  {
  }

  lemma DecodeStep(t: seq<byte>, a: sextet, b: sextet, c: sextet, d: sextet)
    requires |t| >= 4 && Decode(t[4..]).Some?
    requires ValueOfSymbol(t[0]) == a && ValueOfSymbol(t[1]) == b
    requires ValueOfSymbol(t[2]) == c && ValueOfSymbol(t[3]) == d
    ensures Decode(t) == Some(Triple(a, b, c, d) + Decode(t[4..]).value)
  {
    assert t[2..][0] == t[2] && t[3..][0] == t[3];
    assert ValueOfSymbol(61) == -1;
  }

  lemma DecodeGroup(x: byte, y: byte, z: byte, rest: seq<byte>)
    requires Decode(rest).Some?
    ensures Decode(Group(x, y, z) + rest) == Some([x, y, z] + Decode(rest).value)
  {
    var t := Group(x, y, z) + rest;
    assert t[4..] == rest;
    SymbolRoundTrip(First(x));
    SymbolRoundTrip(Second(x, y));
    SymbolRoundTrip(Third(y, z));
    SymbolRoundTrip(Fourth(z));
    DecodeStep(t, First(x), Second(x, y), Third(y, z), Fourth(z));
    GroupIsTriple(x, y, z);
  }

  lemma GroupIsTriple(x: byte, y: byte, z: byte)
    ensures Triple(First(x), Second(x, y), Third(y, z), Fourth(z)) == [x, y, z]
  {
    GroupRoundTrip(x, y, z);
  }

  lemma EncodeTwo(x: byte, y: byte)
    ensures Encode([x, y]) == [Symbol(First(x)), Symbol(Second(x, y)), Symbol(Third(y, 0)), 61]
  {
    assert Symbols(Sextets([x, y])) == [Symbol(First(x)), Symbol(Second(x, y)), Symbol(Third(y, 0))];
  }

  lemma EncodeOne(x: byte)
    ensures Encode([x]) == [Symbol(First(x)), Symbol(Second(x, 0)), 61, 61]
  {
    assert Symbols(Sextets([x])) == [Symbol(First(x)), Symbol(Second(x, 0))];
  }

  lemma DecodeTwo(x: byte, y: byte)
    ensures Decode(Encode([x, y])) == Some([x, y])
  {
    var t := Encode([x, y]);
    EncodeTwo(x, y);
    GroupRoundTrip(x, y, 0);
    SymbolRoundTrip(First(x));
    SymbolRoundTrip(Second(x, y));
    SymbolRoundTrip(Third(y, 0));
    assert t[2..][0] == t[2] && t[3..] == [61];
  }

  lemma DecodeOne(x: byte)
    ensures Decode(Encode([x])) == Some([x])
  {
    var t := Encode([x]);
    EncodeOne(x);
    GroupRoundTrip(x, 0, 0);
    SymbolRoundTrip(First(x));
    SymbolRoundTrip(Second(x, 0));
    assert t[2..] == [61, 61];
  }

  lemma EncodeNone(s: seq<byte>)
    requires s == []
    ensures Decode(Encode(s)) == Some(s)
  {
    assert Encode(s) == [];
  }

  /** Decoding an encoding as the standard says gives back the bytes. */
  lemma {:induction false} EncodeRoundTrip(s: seq<byte>)
    ensures Decode(Encode(s)) == Some(s)
  {
    if |s| >= 3 {
      EncodeStep(s);
      EncodeRoundTrip(s[3..]);
      DecodeGroup(s[0], s[1], s[2], Encode(s[3..]));
      assert s == [s[0], s[1], s[2]] + s[3..];
    } else if |s| == 2 {
      assert s == [s[0], s[1]];
      DecodeTwo(s[0], s[1]);
    } else if |s| == 1 {
      assert s == [s[0]];
      DecodeOne(s[0]);
    } else {
      EncodeNone(s);
    }
  }
}
