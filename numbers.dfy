/**
 * Decimal digits and the 32-bit integer arithmetic of the .NET runtime:
 * `int.Parse` on a run of ASCII digits, unchecked `int` wrap-around, the
 * default `int` to string conversion, and the custom format "000".
 */
module Numbers {
  import opened Wrappers

  const Int32Min: int := -0x8000_0000
  const Int32Max: int := 0x7FFF_FFFF

  predicate IsDigit(c: char) { '0' <= c <= '9' }

  predicate AllDigits(s: string) { forall k :: 0 <= k < |s| ==> IsDigit(s[k]) }

  function DigitValue(c: char): (v: nat)
    requires IsDigit(c)
    ensures v < 10
  {
    c as int - '0' as int
  }

  function DigitChar(v: nat): (c: char)
    requires v < 10
    ensures IsDigit(c) && DigitValue(c) == v
  {
    ('0' as int + v) as char
  }

  /** The number a string of decimal digits denotes (leading zeros allowed). */
  function Value(s: string): nat
    requires AllDigits(s)
  {
    if s == [] then 0 else Value(s[..|s| - 1]) * 10 + DigitValue(s[|s| - 1])
  }

  /** Shortest decimal rendering of a natural number ("0" for zero). */
  function NatToString(n: nat): (r: string)
    ensures |r| > 0 && AllDigits(r)
    decreases n
  {
    if n < 10 then [DigitChar(n)] else NatToString(n / 10) + [DigitChar(n % 10)]
  }

  lemma {:induction false} ValueOfNatToString(n: nat)
    ensures Value(NatToString(n)) == n
    decreases n
  {
    if n >= 10 {
      var r := NatToString(n);
      assert r[..|r| - 1] == NatToString(n / 10);
      ValueOfNatToString(n / 10);
    }
  }

  /** `int.Parse` of a non-empty run of ASCII digits: None is the OverflowException. */
  function ParseInt32(s: string): (r: Option<int>)
    requires AllDigits(s)
    ensures r.Some? <==> Value(s) <= Int32Max
    ensures r.Some? ==> r.value == Value(s)
  {
    if Value(s) <= Int32Max then Some(Value(s)) else None
  }

  /** `int.Parse` reads back what `int.ToString()` writes for every value that fits in 32 bits, and overflows above. */
  lemma ParseInt32RoundTrip(n: nat)
    ensures n <= Int32Max ==> ParseInt32(NatToString(n)) == Some(n)
    ensures n > Int32Max ==> ParseInt32(NatToString(n)) == None
  {
    ValueOfNatToString(n);
  }

  lemma {:induction false} ValueLeadingZero(s: string)
    requires AllDigits(s)
    ensures AllDigits("0" + s) && Value("0" + s) == Value(s)
    decreases |s|
  {
    if s != [] {
      var t := "0" + s;
      assert t[..|t| - 1] == "0" + s[..|s| - 1];
      ValueLeadingZero(s[..|s| - 1]);
    }
  }

  /** Leading zeros change neither the value `int.Parse` reads nor whether it overflows. */
  lemma ParseInt32LeadingZero(s: string)
    requires AllDigits(s)
    ensures AllDigits("0" + s) && ParseInt32("0" + s) == ParseInt32(s)
  {
    ValueLeadingZero(s);
  }

  /** The two's-complement reading of x modulo 2^32 (unchecked C# `int` arithmetic). */
  function Wrap32(x: int): (r: int)
    ensures Int32Min <= r <= Int32Max
  {
    (x - Int32Min) % 0x1_0000_0000 + Int32Min
  }

  lemma Wrap32InRange(x: int)
    requires Int32Min <= x <= Int32Max
    ensures Wrap32(x) == x
  {
  }

  /** `int.ToString()` with the invariant culture. */
  function IntToString(n: int): (r: string)
  {
    if n < 0 then "-" + NatToString(-n) else NatToString(n)
  }

  /** NatToString is injective because Value inverts it. */
  lemma NatToStringInjective(a: nat, b: nat)
    requires NatToString(a) == NatToString(b)
    ensures a == b
  {
    ValueOfNatToString(a);
    ValueOfNatToString(b);
  }

  lemma IntToStringInjective(a: int, b: int)
    requires IntToString(a) == IntToString(b)
    ensures a == b
  {
    var ra, rb := IntToString(a), IntToString(b);
    SignOfIntToString(a);
    SignOfIntToString(b);
    if a < 0 {
      assert NatToString(-a) == ra[1..] == NatToString(-b);
      NatToStringInjective(-a, -b);
    } else {
      NatToStringInjective(a, b);
    }
  }

  lemma SignOfIntToString(n: int)
    ensures |IntToString(n)| > 0
    ensures IntToString(n)[0] == '-' <==> n < 0
  {
    if n >= 0 {
      assert IsDigit(NatToString(n)[0]);
    }
  }

  /** No rendering of an integer contains a space. */
  lemma IntToStringHasNoSpace(n: int)
    ensures ' ' !in IntToString(n)
  {
    var r := IntToString(n);
    if n >= 0 {
      assert forall k :: 0 <= k < |r| ==> r[k] != ' ';
    } else {
      var t := NatToString(-n);
      assert r == "-" + t;
      assert forall k :: 0 <= k < |r| ==> r[k] != ' ' by {
        forall k | 0 <= k < |r| ensures r[k] != ' ' {
          if k > 0 { assert r[k] == t[k - 1]; }
        }
      }
    }
  }

  /** Left-pads s with '0' up to the given width. */
  function ZeroPad(s: string, width: nat): (r: string)
    ensures |r| == if |s| < width then width else |s|
    ensures r[|r| - |s|..] == s
    ensures forall k :: 0 <= k < |r| - |s| ==> r[k] == '0'
  {
    if |s| >= width then s else seq(width - |s|, _ => '0') + s
  }

  /** The custom numeric format "000": at least three digits, zero-padded, with a leading minus sign for a negative number. */
  function Format000(n: int): (r: string)
  {
    if n < 0 then "-" + ZeroPad(NatToString(-n), 3) else ZeroPad(NatToString(n), 3)
  }

  lemma {:induction false} ValueOfLeadingZeros(z: string, s: string)
    requires forall k :: 0 <= k < |z| ==> z[k] == '0'
    requires AllDigits(s)
    ensures AllDigits(z + s) && Value(z + s) == Value(s)
    decreases |s|
  {
    if s == [] {
      assert z + s == z;
      ZerosValue(z);
    } else {
      var t := z + s;
      assert t[..|t| - 1] == z + s[..|s| - 1];
      ValueOfLeadingZeros(z, s[..|s| - 1]);
    }
  }

  lemma {:induction false} ZerosValue(z: string)
    requires forall k :: 0 <= k < |z| ==> z[k] == '0'
    ensures AllDigits(z) && Value(z) == 0
    decreases |z|
  {
    if z != [] {
      ZerosValue(z[..|z| - 1]);
    }
  }

  /** For a non-negative index, "000" gives at least three digits that read back as the index. */
  lemma Format000RoundTrip(n: nat)
    ensures var r := Format000(n);
      |r| >= 3 && AllDigits(r) && Value(r) == n
  {
    var s := NatToString(n);
    var r := ZeroPad(s, 3);
    var z := r[..|r| - |s|];
    assert r == z + s;
    ValueOfLeadingZeros(z, s);
    ValueOfNatToString(n);
  }
}
