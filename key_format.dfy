/**
  The nine-digit identifier formatter shared by admin API keys and booking ids:
  a 32-bit random value is reduced modulo 10^9, written in decimal the way
  `Number.prototype.toString` writes a non-negative integer, and left-padded
  with '0' to nine characters (`padStart(9, "0")`).
 */
module KeyFormat {

  /** Width of every key, and the modulus that keeps the value within it. */
  const KeyWidth: nat := 9
  const KeyModulus: nat := 1_000_000_000

  /** A value read with `readUInt32BE` from four random bytes. */
  type U32 = n: int | 0 <= n < 0x1_0000_0000

  function Pow10(k: nat): (p: nat)
    ensures p >= 1
  {
    if k == 0 then 1 else 10 * Pow10(k - 1)
  }

  predicate IsDigit(c: char) {
    '0' <= c <= '9'
  }

  predicate AllDigits(s: string) {
    forall i :: 0 <= i < |s| ==> IsDigit(s[i])
  }

  function DigitChar(d: nat): (c: char)
    requires d < 10
    ensures IsDigit(c) && c as int - '0' as int == d
  {
    ('0' as int + d) as char
  }

  /** The number a string of decimal digits denotes, most significant digit first. */
  function ValueOf(s: string): (v: nat)
    requires AllDigits(s)
    ensures v < Pow10(|s|)
  {
    if s == [] then 0
    else
      var init := s[..|s| - 1];
      assert AllDigits(init) by {
        forall i | 0 <= i < |init| ensures IsDigit(init[i]) { assert init[i] == s[i]; }
      }
      ValueOf(init) * 10 + (s[|s| - 1] as int - '0' as int)
  }

  /** Appending one digit multiplies the value by ten and adds that digit. */
  lemma ValueOfSnoc(s: string, c: char)
    requires AllDigits(s) && IsDigit(c)
    ensures AllDigits(s + [c])
    ensures ValueOf(s + [c]) == ValueOf(s) * 10 + (c as int - '0' as int)
  {
    assert (s + [c])[..|s|] == s;
  }

  /**
    `n.toString()` for a non-negative integer: the shortest decimal numeral of
    `n`, so it has no leading zero and exactly as many digits as `n` needs.
   */
  function ToDecimal(n: nat): (s: string)
    ensures AllDigits(s) && ValueOf(s) == n
    ensures |s| >= 1 && (|s| == 1 || s[0] != '0')
    ensures |s| == 1 || Pow10(|s| - 1) <= n
  {
    if n < 10 then
      [DigitChar(n)]
    else
      var t := ToDecimal(n / 10);
      var c := DigitChar(n % 10);
      ValueOfSnoc(t, c);
      assert (t + [c])[0] == t[0];
      t + [c]
  }

  /** `s.padStart(width, fill)` for a one-character fill string. */
  function PadStart(s: string, width: nat, fill: char): (r: string)
    ensures |r| == if |s| < width then width else |s|
    ensures r[|r| - |s|..] == s
    ensures forall i :: 0 <= i < |r| - |s| ==> r[i] == fill
  {
    if |s| < width then seq(width - |s|, _ => fill) + s else s
  }

  /** Leading zeros do not change the value of a numeral. */
  lemma {:induction false} ZeroPaddedValue(z: string, s: string)
    requires forall i :: 0 <= i < |z| ==> z[i] == '0'
    requires AllDigits(s)
    ensures AllDigits(z + s) && ValueOf(z + s) == ValueOf(s)
  {
    if s == [] {
      assert z + s == z;
      if z != [] {
        var init := z[..|z| - 1];
        ZeroPaddedValue(init, []);
        assert init + [] == init;
        assert z == init + [z[|z| - 1]];
        ValueOfSnoc(init, '0');
      }
    } else {
      var init, c := s[..|s| - 1], s[|s| - 1];
      assert AllDigits(init) by {
        forall i | 0 <= i < |init| ensures IsDigit(init[i]) { assert init[i] == s[i]; }
      }
      ZeroPaddedValue(z, init);
      assert s == init + [c];
      assert z + s == (z + init) + [c];
      ValueOfSnoc(z + init, c);
      ValueOfSnoc(init, c);
    }
  }

  lemma {:induction false} Pow10Monotone(i: nat, j: nat)
    requires i <= j
    ensures Pow10(i) <= Pow10(j)
  {
    if i < j {
      Pow10Monotone(i, j - 1);
    }
  }

  lemma KeyModulusIsPow10()
    ensures KeyModulus == Pow10(KeyWidth)
  {
    assert Pow10(9) == 1_000_000_000;
  }

  /**
    The formatter: `(n % 1e9).toString().padStart(9, "0")`. The key is exactly
    nine decimal digits and denotes `n mod 10^9`.
   */
  function FormatKey(n: U32): (key: string)
    ensures |key| == KeyWidth && AllDigits(key)
    ensures ValueOf(key) == n % KeyModulus
  {
    var v := n % KeyModulus;
    var s := ToDecimal(v);
    assert |s| <= KeyWidth by {
      if |s| > KeyWidth {
        KeyModulusIsPow10();
        Pow10Monotone(KeyWidth, |s| - 1);
      }
    }
    var key := PadStart(s, KeyWidth, '0');
    assert key == key[..|key| - |s|] + s;
    ZeroPaddedValue(key[..|key| - |s|], s);
    key
  }

  /** Two numerals of the same length and value are the same string. */
  lemma {:induction false} ValueOfInjective(a: string, b: string)
    requires AllDigits(a) && AllDigits(b) && |a| == |b|
    requires ValueOf(a) == ValueOf(b)
    ensures a == b
  {
    if a != [] {
      var ia, ib := a[..|a| - 1], b[..|b| - 1];
      var ca, cb := a[|a| - 1], b[|b| - 1];
      assert a == ia + [ca] && b == ib + [cb];
      assert AllDigits(ia) by {
        forall i | 0 <= i < |ia| ensures IsDigit(ia[i]) { assert ia[i] == a[i]; }
      }
      assert AllDigits(ib) by {
        forall i | 0 <= i < |ib| ensures IsDigit(ib[i]) { assert ib[i] == b[i]; }
      }
      ValueOfSnoc(ia, ca);
      ValueOfSnoc(ib, cb);
      ValueOfInjective(ia, ib);
    }
  }

  /**
    Every nine-digit string is the key of exactly the values congruent to its
    own value: the formatter is onto the nine-digit strings, and its partner
    `ValueOf` recovers `n mod 10^9`.
   */
  lemma FormatKeyOnto(key: string, n: U32)
    requires |key| == KeyWidth && AllDigits(key)
    ensures FormatKey(n) == key <==> n % KeyModulus == ValueOf(key)
  {
    if n % KeyModulus == ValueOf(key) {
      ValueOfInjective(FormatKey(n), key);
    }
  }

  /** Round trip from the other side: reading a nine-digit key and formatting it again gives the key back. */
  lemma KeyRoundTrip(key: string)
    requires |key| == KeyWidth && AllDigits(key)
    ensures ValueOf(key) < KeyModulus
    ensures FormatKey(ValueOf(key)) == key
  {
    KeyModulusIsPow10();
    FormatKeyOnto(key, ValueOf(key));
  }

  /**
    Two random values give the same key exactly when they agree modulo 10^9;
    nothing in the formatter makes keys unique.
   */
  lemma FormatKeyCollides(a: U32, b: U32)
    ensures FormatKey(a) == FormatKey(b) <==> a % KeyModulus == b % KeyModulus
  {
  }

  /** A concrete collision: 7 and 1_000_000_007 both format as "000000007". */
  lemma SevenCollides()
    ensures FormatKey(7) == FormatKey(1_000_000_007) == "000000007"
  {
    var k := "000000007";
    assert AllDigits(k);
    assert ValueOf(k) == 7 by {
      assert k == "00000000" + "7";
      ZeroPaddedValue("00000000", "7");
    }
    FormatKeyOnto(k, 7);
    FormatKeyOnto(k, 1_000_000_007);
  }
}
