/** `String.toBinary` of MainActivity.kt: the unpadded base-2 digits of each character's
    code (`Integer.toBinaryString(char.code)`), concatenated. A Kotlin `Char` is a UTF-16
    code unit, so a character is modelled by its code, a number below 0x1_0000. */
module Binary {
  import opened Wrappers

  /** `Char.code` of a Kotlin `Char`. */
  type CharCode = c: int | 0 <= c < 0x1_0000

  /** The bit character for 0 or 1. */
  function Bit(b: nat): char
    requires b < 2
  {
    if b == 0 then '0' else '1'
  }

  /** `Integer.toBinaryString` on a non-negative value: base-2 digits, most significant
      first, with no leading zero except that 0 gives "0". */
  function BinaryString(n: nat): (r: string)
    ensures |r| >= 1 && IsBits(r)
    ensures r[0] == '0' <==> n == 0
    ensures n == 0 ==> r == "0"
  {
    if n < 2 then [Bit(n)] else BinaryString(n / 2) + [Bit(n % 2)]
  }

  /** A bit string read as a base-2 number, most significant bit first. */
  function BinaryValue(bits: string): nat
    requires IsBits(bits)
  {
    if bits == [] then 0
    else 2 * BinaryValue(bits[..|bits| - 1]) + (if bits[|bits| - 1] == '1' then 1 else 0)
  }

  /** The number of base-2 digits of `n` (one for 0). */
  function BitLength(n: nat): (k: nat)
    ensures k >= 1
  {
    if n < 2 then 1 else 1 + BitLength(n / 2)
  }

  /** Reading the digits back gives the number. */
  lemma {:induction false} BinaryStringValue(n: nat)
    ensures BinaryValue(BinaryString(n)) == n
    ensures |BinaryString(n)| == BitLength(n)
  {
    var r := BinaryString(n);
    if n >= 2 {
      BinaryStringValue(n / 2);
      assert r[..|r| - 1] == BinaryString(n / 2);
    }
  }

  /** A bit string with a 1 in front is worth at least 1. */
  lemma {:induction false} LeadingOneIsPositive(bits: string)
    requires IsBits(bits) && |bits| >= 1 && bits[0] == '1'
    ensures BinaryValue(bits) >= 1
  {
    if |bits| > 1 {
      var init := bits[..|bits| - 1];
      assert init[0] == '1';
      LeadingOneIsPositive(init);
    }
  }

  /** Conversely, a bit string without a leading zero (or "0" itself) is the
      binary string of its value. */
  lemma {:induction false} BinaryValueString(bits: string)
    requires IsBits(bits) && |bits| >= 1
    requires bits[0] == '1' || bits == "0"
    ensures BinaryString(BinaryValue(bits)) == bits
  {
    if |bits| > 1 {
      var init := bits[..|bits| - 1];
      assert init[0] == '1';
      LeadingOneIsPositive(init);
      BinaryValueString(init);
      var v := BinaryValue(bits);
      assert v / 2 == BinaryValue(init);
      assert bits == init + [bits[|bits| - 1]];
    }
  }

  /** 2 to the power `k`. */
  function Pow2(k: nat): nat {
    if k == 0 then 1 else 2 * Pow2(k - 1)
  }

  /** A number below 2^k has at most k digits. */
  lemma {:induction false} BitLengthBound(n: nat, k: nat)
    requires 1 <= k && n < Pow2(k)
    ensures BitLength(n) <= k
  {
    if n >= 2 {
      assert Pow2(1) == 2;
      BitLengthBound(n / 2, k - 1);
    }
  }

  /** Every character code takes between 1 and 16 digits. */
  lemma CharCodeBitLength(c: CharCode)
    ensures 1 <= BitLength(c) <= 16
  {
    assert Pow2(8) == 0x100;
    assert Pow2(16) == 0x1_0000;
    BitLengthBound(c, 16);
  }

  /** `toBinary`: the binary strings of the character codes, concatenated in order. */
  function ToBinary(s: seq<CharCode>): (r: string)
    ensures IsBits(r)
  {
    if s == [] then "" else BinaryString(s[0]) + ToBinary(s[1..])
  }

  /** Each character contributes its own chunk, in order. */
  lemma {:induction false} ToBinaryAppend(s: seq<CharCode>, t: seq<CharCode>)
    ensures ToBinary(s + t) == ToBinary(s) + ToBinary(t)
  {
    if s == [] {
      assert s + t == t;
    } else {
      assert (s + t)[0] == s[0];
      assert (s + t)[1..] == s[1..] + t;
      ToBinaryAppend(s[1..], t);
    }
  }

  /** The sum of the digit counts of the characters. */
  function TotalBitLength(s: seq<CharCode>): nat {
    if s == [] then 0 else BitLength(s[0]) + TotalBitLength(s[1..])
  }

  /** The output is as long as the characters' digit counts added up: at least one
      digit per character, at most sixteen. */
  lemma {:induction false} ToBinaryLength(s: seq<CharCode>)
    ensures |ToBinary(s)| == TotalBitLength(s)
    ensures |s| <= |ToBinary(s)| <= 16 * |s|
  {
    if s != [] {
      BinaryStringValue(s[0]);
      CharCodeBitLength(s[0]);
      ToBinaryLength(s[1..]);
    }
  }

  /** The chunks carry no separators, so different texts can share an output:
      the codes 1, 0 and the code 2 both give "10". */
  lemma ToBinaryIsNotInjective()
    ensures ToBinary([1, 0]) == ToBinary([2]) == "10"
  {
  }
}
