/**
 * Hexadecimal text as viem produces and accepts it: lower-case digits from
 * `numberToHex`, fixed-width left padding from `padHex`, and the
 * `0x` + 40 hex digits shape of an address.
 */
module Hex {
  import opened Strings

  function Pow(b: nat, e: nat): (r: nat)
    ensures b > 0 ==> r > 0
  {
    if e == 0 then 1 else b * Pow(b, e - 1)
  }

  /** 2^(4k) = 16^k: a width in hex digits is four times as many bits. */
  lemma {:induction false} PowTwoSixteen(k: nat)
    ensures Pow(2, 4 * k) == Pow(16, k)
  {
    if k > 0 {
      PowTwoSixteen(k - 1);
      var e := 4 * (k - 1);
      calc {
        Pow(2, 4 * k);
        2 * Pow(2, e + 3);
        4 * Pow(2, e + 2);
        8 * Pow(2, e + 1);
        16 * Pow(2, e);
      }
    }
  }

  /** b^(m+n) = b^m * b^n. */
  lemma {:induction false} PowAdd(b: nat, m: nat, n: nat)
    ensures Pow(b, m + n) == Pow(b, m) * Pow(b, n)
  {
    if n > 0 {
      PowAdd(b, m, n - 1);
      calc {
        Pow(b, m + n);
        b * Pow(b, m + (n - 1));
        b * (Pow(b, m) * Pow(b, n - 1));
        { MulCommutesInside(b, Pow(b, m), Pow(b, n - 1)); }
        Pow(b, m) * (b * Pow(b, n - 1));
      }
    }
  }

  lemma MulCommutesInside(x: nat, y: nat, z: nat)
    ensures x * (y * z) == y * (x * z)
  {
  }

  predicate IsHexChar(c: char) { '0' <= c <= '9' || 'a' <= c <= 'f' || 'A' <= c <= 'F' }

  predicate IsHex(s: string) { forall i :: 0 <= i < |s| ==> IsHexChar(s[i]) }

  /** The value of one hex digit, either case. */
  function HexCharValue(c: char): (v: nat)
    requires IsHexChar(c)
    ensures v < 16
  {
    if '0' <= c <= '9' then (c as int) - ('0' as int)
    else if 'a' <= c <= 'f' then (c as int) - ('a' as int) + 10
    else (c as int) - ('A' as int) + 10
  }

  /** The lower-case digit for a value below 16. */
  function HexDigit(v: nat): (c: char)
    requires v < 16
    ensures IsHexChar(c) && !IsUpper(c) && HexCharValue(c) == v
  {
    if v < 10 then (('0' as int) + v) as char else (('a' as int) + v - 10) as char
  }

  /** The big-endian value of a hex string (its reference reading). */
  function HexValue(s: string): nat
    requires IsHex(s)
  {
    if s == [] then 0 else 16 * HexValue(s[..|s| - 1]) + HexCharValue(s[|s| - 1])
  }

  /**
   * `numberToHex(n, { size })` without the `0x`: `n` in big-endian lower-case
   * hex, left-padded with zeros to `width` digits. Callers keep `n` below
   * 16^width (viem throws otherwise).
   */
  function NatToHex(n: nat, width: nat): (r: string)
  {
    if width == 0 then "" else NatToHex(n / 16, width - 1) + [HexDigit(n % 16)]
  }

  /** The rendering has the requested width, is lower-case hex, and reads back as `n`. */
  lemma {:induction false} NatToHexRoundTrip(n: nat, width: nat)
    requires n < Pow(16, width)
    ensures |NatToHex(n, width)| == width
    ensures IsHex(NatToHex(n, width)) && IsLower(NatToHex(n, width))
    ensures HexValue(NatToHex(n, width)) == n
  {
    if width > 0 {
      NatToHexRoundTrip(n / 16, width - 1);
      var r := NatToHex(n, width);
      assert r[..|r| - 1] == NatToHex(n / 16, width - 1);
    }
  }

  /** A hex string of `k` digits is below 16^k. */
  lemma {:induction false} HexValueBound(s: string)
    requires IsHex(s)
    ensures HexValue(s) < Pow(16, |s|)
  {
    if s != [] {
      HexValueBound(s[..|s| - 1]);
    }
  }

  /** Lower-casing hex text keeps it hex and keeps its value. */
  lemma {:induction false} HexValueToLower(s: string)
    requires IsHex(s)
    ensures IsHex(ToLower(s)) && HexValue(ToLower(s)) == HexValue(s)
  {
    if s != [] {
      HexValueToLower(s[..|s| - 1]);
      ToLowerSlice(s, 0, |s| - 1);
      assert ToLower(s)[..|s| - 1] == ToLower(s[..|s| - 1]);
    }
  }

  /** Two hex strings of one width and one value are the same once lower-cased. */
  lemma {:induction false} HexValueInjective(s: string, t: string)
    requires IsHex(s) && IsHex(t) && IsLower(s) && IsLower(t) && |s| == |t|
    requires HexValue(s) == HexValue(t)
    ensures s == t
  {
    if s != [] {
      var k := |s| - 1;
      assert HexCharValue(s[k]) == HexValue(s) % 16 && HexCharValue(t[k]) == HexValue(t) % 16;
      HexCharValueInjective(s[k], t[k]);
      HexValueInjective(s[..k], t[..k]);
      assert s == s[..k] + [s[k]] && t == t[..k] + [t[k]];
    }
  }

  lemma HexCharValueInjective(c: char, d: char)
    requires IsHexChar(c) && IsHexChar(d) && !IsUpper(c) && !IsUpper(d)
    requires HexCharValue(c) == HexCharValue(d)
    ensures c == d
  {
  }

  /** The shape viem's `isAddress` accepts: `0x` followed by 40 hex digits (20 bytes). */
  predicate IsAddress(s: string)
  {
    |s| == 42 && s[..2] == "0x" && IsHex(s[2..])
  }
}
