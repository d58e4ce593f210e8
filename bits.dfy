/**
 * Strings of '0'/'1' characters and the handful of JavaScript number
 * conversions the assembler and the simulator rely on: `n.toString(2)`,
 * `padStart`, `parseInt(s, 2)`, the Int32Array store and `>>> 0`.
 */
module Bits {

  function Pow2(k: nat): (r: nat)
    ensures r >= 1
  {
    if k == 0 then 1 else 2 * Pow2(k - 1)
  }

  lemma {:induction false} Pow2Add(a: nat, b: nat)
    ensures Pow2(a + b) == Pow2(a) * Pow2(b)
  {
    if a > 0 { Pow2Add(a - 1, b); }
  }

  lemma Pow2Values()
    ensures Pow2(4) == 16 && Pow2(5) == 32 && Pow2(15) == 0x8000 && Pow2(16) == 0x1_0000 && Pow2(26) == 0x400_0000
  {
  }

  lemma Pow2Wide()
    ensures Pow2(28) == 0x1000_0000 && Pow2(30) == 0x4000_0000 && Pow2(31) == TwoTo31 && Pow2(32) == TwoTo32
  {
    Pow2Add(16, 12);
    Pow2Add(16, 14);
    Pow2Add(16, 15);
    Pow2Add(16, 16);
    Pow2Values();
  }

  predicate IsBit(c: char) { c == '0' || c == '1' }

  /** `s` is a string of exactly `n` binary digits. */
  predicate IsBits(s: string, n: nat) {
    |s| == n && forall i :: 0 <= i < |s| ==> IsBit(s[i])
  }

  function BitValue(c: char): nat { if c == '1' then 1 else 0 }

  /** `parseInt(s, 2)` for a non-empty string of binary digits (most significant first). */
  function BinToNat(s: string): nat
  {
    if s == [] then 0 else 2 * BinToNat(s[..|s| - 1]) + BitValue(s[|s| - 1])
  }

  /** The `len` low-order bits of `n`, most significant first. */
  function NatToBits(n: nat, len: nat): (r: string)
    ensures IsBits(r, len)
  {
    if len == 0 then [] else NatToBits(n / 2, len - 1) + [if n % 2 == 1 then '1' else '0']
  }

  /** `n.toString(2)` for a non-negative integer: no leading zeros, "0" for zero. */
  function ToBinary(n: nat): (r: string)
    ensures |r| >= 1 && forall i :: 0 <= i < |r| ==> IsBit(r[i])
  {
    if n < 2 then [if n == 1 then '1' else '0'] else ToBinary(n / 2) + [if n % 2 == 1 then '1' else '0']
  }

  function Repeat(c: char, k: nat): (r: string)
    ensures |r| == k && forall i :: 0 <= i < k ==> r[i] == c
  {
    if k == 0 then [] else [c] + Repeat(c, k - 1)
  }

  /** `s.padStart(len, c)`: a string already `len` long or longer is returned unchanged. */
  function PadStart(s: string, len: nat, c: char): (r: string)
    ensures |s| >= len ==> r == s
    ensures |s| < len ==> |r| == len && r[len - |s|..] == s
    ensures |s| < len ==> forall i :: 0 <= i < len - |s| ==> r[i] == c
  {
    if |s| >= len then s else Repeat(c, len - |s|) + s
  }

  lemma {:induction false} BinToNatBound(s: string)
    ensures BinToNat(s) < Pow2(|s|)
  {
    if s != [] { BinToNatBound(s[..|s| - 1]); }
  }

  lemma {:induction false} BinToNatOfNatToBits(n: nat, len: nat)
    ensures BinToNat(NatToBits(n, len)) == n % Pow2(len)
  {
    if len > 0 {
      var r := NatToBits(n, len);
      assert r[..|r| - 1] == NatToBits(n / 2, len - 1);
      BinToNatOfNatToBits(n / 2, len - 1);
      HalfMod(n, Pow2(len - 1));
    }
  }

  /** The low bits of `n` are its lowest bit below the low bits of `n / 2`. */
  lemma HalfMod(n: nat, q: nat)
    requires q > 0
    ensures n % (2 * q) == 2 * ((n / 2) % q) + n % 2
  {
    var a, b := (n / 2) / q, (n / 2) % q;
    assert n / 2 == q * a + b;
    assert (2 * q) * a == 2 * (q * a);
    ModUnique(n, 2 * q, a, 2 * b + n % 2);
  }

  /** The remainder of Euclidean division is the unique one in range. */
  lemma ModUnique(n: int, d: int, k: int, m: int)
    requires d > 0 && n == d * k + m && 0 <= m < d
    ensures n % d == m && n / d == k
  {
    var q, r := n / d, n % d;
    assert d * (k - q) == r - m;
    if k - q >= 1 { MulAtLeast(d, k - q); }
    if q - k >= 1 { MulAtLeast(d, q - k); }
  }

  lemma MulAtLeast(d: int, t: int)
    requires d > 0 && t >= 1
    ensures d * t >= d
  {
    assert d * t == d * (t - 1) + d;
  }

  lemma {:induction false} NatToBitsOfBinToNat(s: string, len: nat)
    requires IsBits(s, len)
    ensures NatToBits(BinToNat(s), len) == s
  {
    if len > 0 {
      var p := s[..len - 1];
      assert IsBits(p, len - 1);
      NatToBitsOfBinToNat(p, len - 1);
      var n := BinToNat(s);
      assert n == 2 * BinToNat(p) + BitValue(s[len - 1]);
      assert n / 2 == BinToNat(p);
      assert s == p + [s[len - 1]];
    }
  }

  lemma {:induction false} NatToBitsInjective(a: nat, b: nat, len: nat)
    requires a < Pow2(len) && b < Pow2(len) && NatToBits(a, len) == NatToBits(b, len)
    ensures a == b
  {
    BinToNatOfNatToBits(a, len);
    BinToNatOfNatToBits(b, len);
    ModUnique(a, Pow2(len), 0, a);
    ModUnique(b, Pow2(len), 0, b);
  }

  lemma {:induction false} ToBinaryLength(n: nat, len: nat)
    requires len >= 1
    ensures |ToBinary(n)| <= len <==> n < Pow2(len)
  {
    if n >= 2 {
      if len > 1 { ToBinaryLength(n / 2, len - 1); }
      else { assert |ToBinary(n)| >= 2; }
    } else {
      assert Pow2(len) >= 2;
    }
  }

  /** Padding `n.toString(2)` to `len` digits gives the fixed-width encoding when `n` fits. */
  lemma {:induction false} PaddedBinary(n: nat, len: nat)
    requires len >= 1 && n < Pow2(len)
    ensures PadStart(ToBinary(n), len, '0') == NatToBits(n, len)
  {
    ToBinaryLength(n, len);
    if n < 2 {
      PaddedSmall(n, len);
    } else {
      PaddedBinary(n / 2, len - 1);
      var t := ToBinary(n / 2);
      assert ToBinary(n) == t + [if n % 2 == 1 then '1' else '0'];
      assert PadStart(ToBinary(n), len, '0') == PadStart(t, len - 1, '0') + [if n % 2 == 1 then '1' else '0'];
    }
  }

  lemma {:induction false} PaddedSmall(n: nat, len: nat)
    requires n < 2 && 1 <= len
    ensures PadStart(ToBinary(n), len, '0') == NatToBits(n, len)
  {
    if len > 1 {
      PaddedSmall(0, len - 1);
      var z := Repeat('0', len - 1);
      assert Repeat('0', len - 1) == Repeat('0', len - 2) + ['0'] by {
        RepeatSnoc('0', len - 2);
      }
      assert NatToBits(n, len) == NatToBits(0, len - 1) + ToBinary(n);
    }
  }

  lemma {:induction false} RepeatSnoc(c: char, k: nat)
    ensures Repeat(c, k + 1) == Repeat(c, k) + [c]
  {
    if k > 0 { RepeatSnoc(c, k - 1); }
  }

  /** The encoding of zero is all zeros. */
  lemma {:induction false} ZeroBits(len: nat)
    ensures NatToBits(0, len) == Repeat('0', len)
  {
    if len > 0 {
      ZeroBits(len - 1);
      RepeatSnoc('0', len - 1);
    }
  }

  /** Widening a fixed-width encoding only adds leading zeros. */
  lemma {:induction false} WidenedBits(n: nat, k: nat, len: nat)
    requires n < Pow2(k) && k <= len
    ensures Repeat('0', len - k) + NatToBits(n, k) == NatToBits(n, len)
  {
    if k == 0 {
      ZeroBits(len);
    } else {
      WidenedBits(n / 2, k - 1, len - 1);
      var z, b := Repeat('0', len - k), [if n % 2 == 1 then '1' else '0'];
      assert z + (NatToBits(n / 2, k - 1) + b) == (z + NatToBits(n / 2, k - 1)) + b;
    }
  }

  /** Left-padding a bit string with zeros keeps its value. */
  lemma PaddedBits(s: string, len: nat)
    requires IsBits(s, |s|) && |s| <= len
    ensures PadStart(s, len, '0') == NatToBits(BinToNat(s), len)
  {
    NatToBitsOfBinToNat(s, |s|);
    BinToNatBound(s);
    WidenedBits(BinToNat(s), |s|, len);
  }

  /** The leading digit of a `len`-bit encoding is '1' exactly when the value reaches 2^(len-1). */
  lemma {:induction false} LeadingBit(n: nat, len: nat)
    requires 1 <= len && n < Pow2(len)
    ensures NatToBits(n, len)[0] == '1' <==> n >= Pow2(len - 1)
  {
    if len > 1 {
      LeadingBit(n / 2, len - 1);
      assert NatToBits(n, len)[0] == NatToBits(n / 2, len - 1)[0];
    }
  }

  /** The value of a bit string read as an `|s|`-bit two's-complement number. */
  function TwosComplement(s: string): int
  {
    if s != [] && s[0] == '1' then BinToNat(s) - Pow2(|s|) else BinToNat(s)
  }

  /** Read as two's complement, a `len`-bit encoding of `n` is `n` below 2^(len-1) and `n - 2^len` from there. */
  lemma TwosComplementOfNatToBits(n: nat, len: nat)
    requires 1 <= len && n < Pow2(len)
    ensures TwosComplement(NatToBits(n, len)) == if n >= Pow2(len - 1) then n - Pow2(len) else n
  {
    LeadingBit(n, len);
    BinToNatOfNatToBits(n, len);
    ModUnique(n, Pow2(len), 0, n);
  }

  /** An `n`-bit two's-complement value lies in [-2^(n-1), 2^(n-1)). */
  lemma TwosComplementRange(s: string)
    requires |s| >= 1 && IsBits(s, |s|)
    ensures -(Pow2(|s| - 1) as int) <= TwosComplement(s) < Pow2(|s| - 1)
  {
    var n := BinToNat(s);
    BinToNatBound(s);
    NatToBitsOfBinToNat(s, |s|);
    TwosComplementOfNatToBits(n, |s|);
    assert Pow2(|s|) == 2 * Pow2(|s| - 1);
  }

  /** A leading digit `c` is worth `2^|t|` when it is a '1'. */
  lemma {:induction false} BinToNatCons(c: char, t: string)
    ensures BinToNat([c] + t) == BitValue(c) * Pow2(|t|) + BinToNat(t)
  {
    if t != [] {
      var init := t[..|t| - 1];
      assert ([c] + t)[..|t|] == [c] + init;
      BinToNatCons(c, init);
      assert 2 * (BitValue(c) * Pow2(|init|)) == BitValue(c) * Pow2(|t|);
    }
  }

  /** Copies of the sign bit in front of a two's-complement string keep its value. */
  lemma {:induction false} SignExtendedValue(k: nat, s: string)
    requires |s| >= 1 && IsBits(s, |s|)
    ensures TwosComplement(Repeat(s[0], k) + s) == TwosComplement(s)
  {
    if k == 0 {
      assert Repeat(s[0], k) + s == s;
    } else {
      var t := Repeat(s[0], k - 1) + s;
      assert Repeat(s[0], k) + s == [s[0]] + t;
      assert t[0] == s[0];
      SignExtendedValue(k - 1, s);
      BinToNatCons(s[0], t);
      assert Pow2(|t| + 1) == 2 * Pow2(|t|);
    }
  }

  // ---- Digits in other radices ----

  /** The value `parseInt` gives a digit character in radices up to 36; 36 for a non-digit. */
  function DigitValue(c: char): nat
  {
    if '0' <= c <= '9' then c as nat - '0' as nat
    else if 'a' <= c <= 'z' then c as nat - 'a' as nat + 10
    else if 'A' <= c <= 'Z' then c as nat - 'A' as nat + 10
    else 36
  }

  /** The value of a string of radix-`radix` digits, most significant first. */
  function DigitsValue(s: string, radix: nat): nat
  {
    if s == [] then 0 else radix * DigitsValue(s[..|s| - 1], radix) + DigitValue(s[|s| - 1])
  }

  /** The lower-case hexadecimal digit for `d`. */
  function HexChar(d: nat): (c: char)
    requires d < 16
    ensures DigitValue(c) == d
  {
    if d < 10 then ('0' as int + d) as char else ('a' as int + d - 10) as char
  }

  /** `n.toString(16)` for a non-negative integer: lower-case digits, no leading zeros. */
  function ToHex(n: nat): (r: string)
    ensures |r| >= 1
  {
    if n < 16 then [HexChar(n)] else ToHex(n / 16) + [HexChar(n % 16)]
  }

  lemma {:induction false} ToHexValue(n: nat)
    ensures DigitsValue(ToHex(n), 16) == n
  {
    if n >= 16 {
      ToHexValue(n / 16);
      var t := ToHex(n);
      assert t[..|t| - 1] == ToHex(n / 16);
    }
  }

  lemma {:induction false} ToHexLength(n: nat, k: nat)
    requires 1 <= k && n < Pow2(4 * k)
    ensures |ToHex(n)| <= k
  {
    if n >= 16 {
      Pow2Add(4, 4 * (k - 1));
      ToHexLength(n / 16, k - 1);
    }
  }

  /** `n.toString(16)` only uses the digits `0-9a-f`. */
  lemma {:induction false} ToHexDigits(n: nat)
    ensures forall i :: 0 <= i < |ToHex(n)| ==> DigitValue(ToHex(n)[i]) < 16 && !('A' <= ToHex(n)[i] <= 'Z')
  {
    if n >= 16 { ToHexDigits(n / 16); }
  }

  lemma {:induction false} ZerosValue(z: string, radix: nat)
    requires forall i :: 0 <= i < |z| ==> z[i] == '0'
    ensures DigitsValue(z, radix) == 0
  {
    if z != [] { ZerosValue(z[..|z| - 1], radix); }
  }

  /** Leading zeros do not change the value of a digit string. */
  lemma {:induction false} LeadingZerosValue(z: string, s: string, radix: nat)
    requires forall i :: 0 <= i < |z| ==> z[i] == '0'
    ensures DigitsValue(z + s, radix) == DigitsValue(s, radix)
  {
    if s == [] {
      assert z + s == z;
      ZerosValue(z, radix);
    } else {
      LeadingZerosValue(z, s[..|s| - 1], radix);
      assert (z + s)[..|z + s| - 1] == z + s[..|s| - 1];
    }
  }

  /** `n.toString(16).padStart(k, "0")` for `n < 16^k`: exactly `k` lower-case hexadecimal digits worth `n`. */
  lemma PaddedHex(n: nat, k: nat)
    requires 1 <= k && n < Pow2(4 * k)
    ensures var h := PadStart(ToHex(n), k, '0');
      && |h| == k
      && (forall i :: 0 <= i < k ==> DigitValue(h[i]) < 16 && !('A' <= h[i] <= 'Z'))
      && DigitsValue(h, 16) == n
  {
    var t := ToHex(n);
    ToHexLength(n, k);
    ToHexValue(n);
    ToHexDigits(n);
    var h := PadStart(t, k, '0');
    if |t| < k {
      var z := Repeat('0', k - |t|);
      assert h == z + t;
      LeadingZerosValue(z, t, 16);
      forall i | 0 <= i < k ensures DigitValue(h[i]) < 16 && !('A' <= h[i] <= 'Z') {
        if i >= k - |t| { assert h[i] == t[i - (k - |t|)]; }
      }
    }
  }

  /** In radix 2, a string of binary digits has the value `BinToNat` gives it. */
  lemma {:induction false} DigitsValueOfBits(s: string)
    requires forall i :: 0 <= i < |s| ==> IsBit(s[i])
    ensures DigitsValue(s, 2) == BinToNat(s)
  {
    if s != [] { DigitsValueOfBits(s[..|s| - 1]); }
  }

  // ---- JavaScript 32-bit integer conversions ----

  const TwoTo32: int := 0x1_0000_0000
  const TwoTo31: int := 0x8000_0000

  predicate IsInt32(x: int) { -TwoTo31 <= x < TwoTo31 }
  predicate IsUint32(x: int) { 0 <= x < TwoTo32 }

  /** ECMAScript ToUint32 on an integer, which is also `x >>> 0`. */
  function ToUint32(x: int): (r: int)
    ensures IsUint32(r) && (x - r) % TwoTo32 == 0
    ensures IsUint32(x) ==> r == x
  {
    x % TwoTo32
  }

  /** ECMAScript ToInt32 on an integer: what an Int32Array element becomes when `x` is stored. */
  function ToInt32(x: int): (r: int)
    ensures IsInt32(r) && (x - r) % TwoTo32 == 0
    ensures IsInt32(x) ==> r == x
  {
    var u := x % TwoTo32;
    if u >= TwoTo31 then u - TwoTo32 else u
  }

  /** Reading an `Int32Array` element back with `>>> 0` gives the unsigned pattern that was stored. */
  lemma ToUint32OfInt32(x: int)
    ensures ToUint32(ToInt32(x)) == ToUint32(x)
  {
  }

  /** Storing the unsigned pattern of `x` in an `Int32Array` gives what storing `x` gives. */
  lemma ToInt32OfUint32(x: int)
    ensures ToInt32(ToUint32(x)) == ToInt32(x)
  {
  }

  // ---- Bitwise operators on unsigned values ----

  /** The bitwise AND of the `n` low-order bits of `a` and `b`, lowest bit first. */
  function AndBits(a: nat, b: nat, n: nat): (r: nat)
    ensures r < Pow2(n)
  {
    if n == 0 then 0
    else 2 * AndBits(a / 2, b / 2, n - 1) + (if a % 2 == 1 && b % 2 == 1 then 1 else 0)
  }

  /** The bitwise OR of the `n` low-order bits of `a` and `b`, lowest bit first. */
  function OrBits(a: nat, b: nat, n: nat): (r: nat)
    ensures r < Pow2(n)
  {
    if n == 0 then 0
    else 2 * OrBits(a / 2, b / 2, n - 1) + (if a % 2 == 1 || b % 2 == 1 then 1 else 0)
  }

  /** Halving, then dividing by `q`, is dividing by `2 * q`. */
  lemma HalfDiv(a: nat, q: nat)
    requires q > 0
    ensures (a / 2) / q == a / (2 * q)
  {
    var x, y := (a / 2) / q, (a / 2) % q;
    assert a == (2 * q) * x + (2 * y + a % 2);
    ModUnique(a, 2 * q, x, 2 * y + a % 2);
  }

  lemma MulDouble(q: int, p: int)
    ensures 2 * (q * p) == q * (2 * p)
  {
  }

  /** A mask of all ones keeps an `n`-bit value. */
  lemma {:induction false} AndAllOnes(a: nat, n: nat)
    requires a < Pow2(n)
    ensures AndBits(a, Pow2(n) - 1, n) == a
  {
    if n > 0 {
      assert (Pow2(n) - 1) / 2 == Pow2(n - 1) - 1 && (Pow2(n) - 1) % 2 == 1;
      AndAllOnes(a / 2, n - 1);
    }
  }

  /** Masking with ones from bit `k` up to bit `n - 1` clears the `k` low-order bits of an `n`-bit value. */
  lemma {:induction false} AndHighMask(a: nat, mask: nat, n: nat, k: nat)
    requires a < Pow2(n) && k <= n && mask + Pow2(k) == Pow2(n)
    ensures AndBits(a, mask, n) == a / Pow2(k) * Pow2(k)
  {
    if k == 0 {
      AndAllOnes(a, n);
    } else {
      var half := Pow2(n - 1) - Pow2(k - 1);
      assert mask == 2 * half;
      assert AndBits(a, mask, n) == 2 * AndBits(a / 2, half, n - 1);
      AndHighMask(a / 2, half, n - 1, k - 1);
      HalfDiv(a, Pow2(k - 1));
      var q, p := a / Pow2(k), Pow2(k - 1);
      assert Pow2(k) == 2 * p;
      MulDouble(q, p);
    }
  }

  /** OR with zero keeps an `n`-bit value. */
  lemma {:induction false} OrZero(a: nat, n: nat)
    requires a < Pow2(n)
    ensures OrBits(a, 0, n) == a
  {
    if n > 0 { OrZero(a / 2, n - 1); }
  }

  /** OR of a multiple of `2^k` and a value below `2^k` is their sum. */
  lemma {:induction false} OrDisjoint(h: nat, b: nat, n: nat, k: nat)
    requires k <= n && h * Pow2(k) < Pow2(n) && b < Pow2(k)
    ensures OrBits(h * Pow2(k), b, n) == h * Pow2(k) + b
  {
    if k == 0 {
      OrZero(h, n);
    } else {
      var x := h * Pow2(k);
      assert x == 2 * (h * Pow2(k - 1));
      assert x / 2 == h * Pow2(k - 1) && x % 2 == 0;
      OrDisjoint(h, b / 2, n - 1, k - 1);
    }
  }

  /** Bit `j` of `x`, counting from the least significant. */
  function BitAt(x: nat, j: nat): nat
  {
    (x / Pow2(j)) % 2
  }

  lemma BitAtHalf(x: nat, j: nat)
    requires j > 0
    ensures BitAt(x, j) == BitAt(x / 2, j - 1)
  {
    HalfDiv(x, Pow2(j - 1));
  }

  /** Bit `j` of `a & b` is set exactly when bit `j` is set in both. */
  lemma {:induction false} AndBitsAt(a: nat, b: nat, n: nat, j: nat)
    requires j < n
    ensures BitAt(AndBits(a, b, n), j) == if BitAt(a, j) == 1 && BitAt(b, j) == 1 then 1 else 0
  {
    if j > 0 {
      var r := AndBits(a, b, n);
      assert r / 2 == AndBits(a / 2, b / 2, n - 1);
      BitAtHalf(r, j);
      BitAtHalf(a, j);
      BitAtHalf(b, j);
      AndBitsAt(a / 2, b / 2, n - 1, j - 1);
    }
  }

  /** Bit `j` of `a | b` is set exactly when bit `j` is set in either. */
  lemma {:induction false} OrBitsAt(a: nat, b: nat, n: nat, j: nat)
    requires j < n
    ensures BitAt(OrBits(a, b, n), j) == if BitAt(a, j) == 1 || BitAt(b, j) == 1 then 1 else 0
  {
    if j > 0 {
      var r := OrBits(a, b, n);
      assert r / 2 == OrBits(a / 2, b / 2, n - 1);
      BitAtHalf(r, j);
      BitAtHalf(a, j);
      BitAtHalf(b, j);
      OrBitsAt(a / 2, b / 2, n - 1, j - 1);
    }
  }
}
