/** One-shot keys that redeem a pending file transfer. */
module TransferKeys {
  import opened Numbers
  import opened Bytes
  import opened Base64

  const KEY_PREFIX := Ascii("blackteaspeak-ft-")
  const FTKEY := Ascii("ftkey=")
  const DASH: byte := 45

  /** Only downloads start at a position of their own. */
  datatype Direction = Upload | Download(seek: nat)

  datatype Transfer = Transfer(id: nat, direction: Direction, path: string, size: nat)

  // --- Decimal numerals ---

  function Digits(n: nat): (r: seq<byte>)
    ensures |r| > 0 && forall d :: d in r ==> 48 <= d <= 57
  {
    if n < 10 then [48 + n] else Digits(n / 10) + [48 + n % 10]
  }

  function ValueOf(digits: seq<byte>): int {
    if digits == [] then 0 else ValueOf(digits[..|digits| - 1]) * 10 + digits[|digits| - 1] - 48
  }

  lemma {:induction false} DigitsRoundTrip(n: nat)
    ensures ValueOf(Digits(n)) == n
  {
    var r := Digits(n);
    if n < 10 {
      assert r[..0] == [];
    } else {
      DigitsRoundTrip(n / 10);
      assert r[..|r| - 1] == Digits(n / 10);
    }
  }

  lemma DigitsInjective(m: nat, n: nat)
    requires Digits(m) == Digits(n)
    ensures m == n
  {
    DigitsRoundTrip(m);
    DigitsRoundTrip(n);
  }

  function Power10(k: nat): nat {
    if k == 0 then 1 else 10 * Power10(k - 1)
  }

  lemma {:induction false} DigitsBound(n: nat, k: nat)
    requires k > 0 && n < Power10(k)
    ensures |Digits(n)| <= k
  {
    if n >= 10 {
      assert Power10(k) == 10 * Power10(k - 1);
      assert Power10(0) == 1;
      DigitsBound(n / 10, k - 1);
    }
  }

  // --- Keys ---

  function KeyText(id: nat, size: nat): seq<byte> {
    KEY_PREFIX + (Digits(id) + ([DASH] + Digits(size)))
  }

  function Key(id: nat, size: nat): seq<byte> {
    Encode(KeyText(id, size))
  }

  lemma DashPosition(a: seq<byte>, b: seq<byte>, x: seq<byte>, y: seq<byte>)
    requires a + ([DASH] + x) <= b + ([DASH] + y)
    requires DASH !in a && DASH !in b
    ensures a == b
  {
    var s, t := a + ([DASH] + x), b + ([DASH] + y);
    assert s[|a|] == DASH && t[|b|] == DASH;
    assert |a| < |s| <= |t| && s[|a|] == t[|a|];
    assert forall i :: 0 <= i < |a| ==> s[i] == a[i] && a[i] in a;
    assert forall i :: 0 <= i < |b| ==> t[i] == b[i] && b[i] in b;
    if |b| < |s| {
      assert s[|b|] == t[|b|];
    }
    assert a == s[..|a|] && b == t[..|b|];
  }

  /** A key is a prefix of another one only if both belong to the same transfer id. */
  lemma KeysPrefixFree(id: nat, size: nat, id': nat, size': nat)
    ensures Key(id, size) <= Key(id', size') ==> id == id'
  {
    if Key(id, size) <= Key(id', size') {
      var a, b := KeyText(id, size), KeyText(id', size');
      EncodeReflectsPrefix(a, b);
      assert a[|KEY_PREFIX|..] <= b[|KEY_PREFIX|..];
      assert a[|KEY_PREFIX|..] == Digits(id) + ([DASH] + Digits(size));
      assert b[|KEY_PREFIX|..] == Digits(id') + ([DASH] + Digits(size'));
      DashPosition(Digits(id), Digits(id'), Digits(size), Digits(size'));
      DigitsInjective(id, id');
    }
  }

  /** Every key starts with 'Y', so it never starts like the `ftkey=` form. */
  lemma KeyStart(id: nat, size: nat)
    ensures |Key(id, size)| > 0 && Key(id, size)[0] == 89 && FTKEY[0] == 102
  {
    var t := KeyText(id, size);
    assert t[0] == KEY_PREFIX[0] == 98;
    assert Sextets(t)[0] == 24;
    assert FTKEY[0] == 102;
  }

  lemma KeyLength(id: nat, size: nat)
    requires id <= U64_MAX && size <= U64_MAX
    ensures |Key(id, size)| <= 80
  {
    assert Power10(5) == 100_000;
    assert Power10(10) == 10_000_000_000;
    assert Power10(15) == 1_000_000_000_000_000;
    assert Power10(20) == 100_000_000_000_000_000_000;
    DigitsBound(id, 20);
    DigitsBound(size, 20);
    assert |KEY_PREFIX| == 17;
    assert |KeyText(id, size)| <= 58;
    EncodeLength(KeyText(id, size));
  }

  lemma EncodeLength(s: seq<byte>)
    requires |s| <= 58
    ensures |Encode(s)| <= 80
  {
  }
}
