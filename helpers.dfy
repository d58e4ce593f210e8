/**
 * The pure helpers of the simulator object (js/MIPS.js:342-402): the
 * 32-bit reinterpretation `signedInt`, `parseInt32`, `signExtend`, and the
 * display helpers `toBinString` and `toHexString`, together with the
 * two's-complement rendering of a 32-bit value that `toHexString` is meant
 * to produce.
 *
 * `toHexString` pads `num.toString(2)` with '0' characters and reads the
 * result back with `parseInt(_, 2)`. For a non-negative value that is the
 * hexadecimal form of the value. For most negative values the padding goes
 * in front of the minus sign, and `parseInt` stops at it after reading only
 * zeros: the value is shown as `00000000`.
 */
module Helpers {
  import opened Results
  import opened Bits
  import Compiler

  /**
   * `signedInt(unsigned)`: the value stored into a `Uint32Array` and read
   * back through an `Int32Array` over the same buffer.
   */
  function SignedInt(unsigned: int): (r: int)
    ensures IsInt32(r) && (unsigned - r) % TwoTo32 == 0
    ensures IsUint32(unsigned) ==> r == if unsigned < TwoTo31 then unsigned else unsigned - TwoTo32
  {
    var stored := ToUint32(unsigned);
    ToInt32(stored)
  }

  /** `parseInt32(inputStr, radix)`: a NaN from `parseInt` is stored into the `Uint32Array` as 0. */
  function ParseInt32(inputStr: string, radix: nat): (r: int)
    requires radix == 0 || 2 <= radix <= 36
    ensures IsInt32(r)
    ensures Compiler.ParseInt(inputStr, radix).None? ==> r == 0
    ensures Compiler.ParseInt(inputStr, radix).Some? ==> r == SignedInt(Compiler.ParseInt(inputStr, radix).value)
  {
    var parsed := Compiler.ParseInt(inputStr, radix);
    SignedInt(if parsed.None? then 0 else parsed.value)
  }

  /** `parseInt32` reads a 32-bit word as its two's-complement value. */
  lemma ParseInt32OfWord(word: string)
    requires IsBits(word, 32)
    ensures ParseInt32(word, 2) == TwosComplement(word)
  {
    Compiler.ParseIntOfBits(word);
    BinToNatBound(word);
    NatToBitsOfBinToNat(word, 32);
    TwosComplementOfNatToBits(BinToNat(word), 32);
    Pow2Wide();
  }

  /**
   * `signExtend(inputStr, initialLen, finalLen)`: the first character
   * repeated `finalLen - initialLen` times in front of the string. When
   * `initialLen > finalLen` the `repeat` count is negative, `repeat` throws
   * and the caught error leaves the result `undefined` (`None`): the
   * truncating branch after it is never reached.
   */
  function SignExtend(inputStr: string, initialLen: int, finalLen: int): (r: Option<string>)
    ensures r.None? <==> initialLen > finalLen
    ensures r.Some? ==> |r.value| == |inputStr| + (if inputStr == [] then 0 else finalLen - initialLen)
    ensures r.Some? ==> r.value[|r.value| - |inputStr|..] == inputStr
  {
    var count := finalLen - initialLen;
    if count < 0 then None
    else
      var signExtension := if inputStr == [] then [] else Repeat(inputStr[0], count);
      if initialLen < finalLen then Some(signExtension + inputStr) else Some(inputStr)
  }

  /** Extending a bit string by its sign bit keeps its two's-complement value and adds `finalLen - initialLen` bits. */
  lemma SignExtendKeepsValue(inputStr: string, initialLen: int, finalLen: int)
    requires |inputStr| >= 1 && IsBits(inputStr, |inputStr|) && initialLen <= finalLen
    ensures var r := SignExtend(inputStr, initialLen, finalLen);
      && r.Some? && IsBits(r.value, |inputStr| + finalLen - initialLen)
      && TwosComplement(r.value) == TwosComplement(inputStr)
  {
    var k := finalLen - initialLen;
    SignExtendedValue(k, inputStr);
    assert SignExtend(inputStr, initialLen, finalLen).value == Repeat(inputStr[0], k) + inputStr;
  }

  /** `toBinString(num, binLen)` as a value: `num.toString(2)` left-padded with '0' to `binLen`. */
  function BinString(num: int, binLen: nat): string
  {
    PadStart(Compiler.NumberToBinary(num), binLen, '0')
  }

  /** `toHexString(num, hexLen)` as a value. */
  function HexString(num: int, hexLen: nat): string
  {
    var hexStr := Compiler.ParsedToHex(Compiler.ParseInt(BinString(num, hexLen * 4), 2));
    PadStart(hexStr, hexLen, '0')
  }

  /** `toBinString`: prepends '0' to `num.toString(2)` until it is `binLen` long. */
  method ToBinString(num: int, binLen: nat) returns (binaryStr: string)
    ensures binaryStr == BinString(num, binLen)
  {
    binaryStr := Compiler.NumberToBinary(num);
    ghost var digits := binaryStr;
    while |binaryStr| < binLen
      invariant |digits| <= |binaryStr|
      invariant binaryStr == Repeat('0', |binaryStr| - |digits|) + digits
      invariant |binaryStr| > |digits| ==> |binaryStr| <= binLen
      decreases binLen - |binaryStr|
    {
      binaryStr := "0" + binaryStr;
    }
  }

  /** `toHexString`: the padded binary string read back in radix 2, printed in radix 16 and padded to `hexLen`. */
  method ToHexString(num: int, hexLen: nat) returns (hex: string)
    ensures hex == HexString(num, hexLen)
  {
    var binaryStr := ToBinString(num, hexLen * 4);
    var hexStr := Compiler.ParsedToHex(Compiler.ParseInt(binaryStr, 2));
    hex := PadStart(hexStr, hexLen, '0');
  }

  /** A value that fits in `hexLen` hexadecimal digits is shown as its own digits. */
  lemma HexStringOfNat(n: nat, hexLen: nat)
    requires 1 <= hexLen && n < Pow2(4 * hexLen)
    ensures HexString(n, hexLen) == PadStart(ToHex(n), hexLen, '0')
  {
    var bits := NatToBits(n, hexLen * 4);
    PaddedBinary(n, hexLen * 4);
    assert BinString(n, hexLen * 4) == bits;
    Compiler.ParseIntOfBits(bits);
    BinToNatOfNatToBits(n, hexLen * 4);
    ModUnique(n, Pow2(hexLen * 4), 0, n);
  }

  /** Zeros in front of a character that is not a binary digit are the whole leading digit run. */
  lemma {:induction false} ZerosBeforeMinus(z: string, t: string)
    requires (forall i :: 0 <= i < |z| ==> z[i] == '0') && |t| > 0 && t[0] == '-'
    ensures Compiler.DigitSpan(2, z + t) == |z|
  {
    if z != [] {
      assert (z + t)[1..] == z[1..] + t;
      ZerosBeforeMinus(z[1..], t);
    }
  }

  /**
   * As written, a negative value above -2^30 is displayed as eight zeros:
   * `toBinString` pads in front of the minus sign and `parseInt` reads only
   * the padding.
   */
  lemma NegativeShownAsZeros(num: int)
    requires -0x4000_0000 < num < 0
    ensures HexString(num, 8) == "00000000"
  {
    NegativeReadsAsZero(num);
    assert Compiler.ParsedToHex(Some(0)) == "0";
  }

  /** The 32-digit padding of a negative value above -2^30 reads back as 0, since only the zeros before the sign are read. */
  lemma NegativeReadsAsZero(num: int)
    requires -0x4000_0000 < num < 0
    ensures Compiler.ParseInt(BinString(num, 32), 2) == Some(0)
  {
    var digits := Compiler.NumberToBinary(num);
    assert digits == "-" + ToBinary(-num);
    Pow2Wide();
    ToBinaryLength(-num, 30);
    var z := Repeat('0', 32 - |digits|);
    assert BinString(num, 32) == z + digits;
    ZerosThenSignReadAsZero(z, digits);
  }

  /** `parseInt(s, 2)` of zeros followed by a minus sign reads only the zeros. */
  lemma ZerosThenSignReadAsZero(z: string, t: string)
    requires |z| >= 1 && (forall i :: 0 <= i < |z| ==> z[i] == '0') && |t| > 0 && t[0] == '-'
    ensures Compiler.ParseInt(z + t, 2) == Some(0)
  {
    var padded := z + t;
    assert padded[0] == '0';
    Compiler.NoLeadingSpace(padded);
    ZerosBeforeMinus(z, t);
    assert padded[..|z|] == z;
    ZerosValue(z, 2);
  }

  /** The eight lower-case hexadecimal digits of the 32-bit two's-complement pattern of `v`. */
  function Int32Hex(v: int): string
  {
    PadStart(ToHex(ToUint32(v)), 8, '0')
  }

  /** `Int32Hex` gives eight hexadecimal digits whose value is `v` modulo 2^32. */
  lemma Int32HexDigits(v: int)
    ensures var h := Int32Hex(v);
      && |h| == 8
      && (forall i :: 0 <= i < 8 ==> DigitValue(h[i]) < 16 && !('A' <= h[i] <= 'Z'))
      && DigitsValue(h, 16) == ToUint32(v)
      && (IsInt32(v) ==> DigitsValue(h, 16) == if v < 0 then v + TwoTo32 else v)
  {
    Pow2Wide();
    PaddedHex(ToUint32(v), 8);
  }

  /** On values from 0 to 2^32 - 1, such as the program counter, `toHexString` as written gives the same digits. */
  lemma HexStringOfUint32(v: int)
    requires IsUint32(v)
    ensures HexString(v, 8) == Int32Hex(v)
  {
    Pow2Wide();
    HexStringOfNat(v, 8);
  }
}
