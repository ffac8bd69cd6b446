/**
 Bit-level view of a register value: the reference meaning of "bit i is set"
 (bit 0 the least significant), Python's `format(v, 'b')` binary expansion
 with zero padding and reversal as the bitfield renderer uses it, and the
 flag vector of the low bits with its inverse encoding.
 */
module Bits {

  function Pow2(k: nat): (p: nat)
    ensures p >= 1
  {
    if k == 0 then 1 else 2 * Pow2(k - 1)
  }

  /** Bit `i` of `v` is set; bit 0 is the least significant bit. */
  predicate BitSet(v: nat, i: nat)
    decreases i
  {
    if i == 0 then v % 2 == 1 else BitSet(v / 2, i - 1)
  }

  lemma {:induction false} NoBitOfZero(i: nat)
    ensures !BitSet(0, i)
    decreases i
  {
    if i > 0 {
      NoBitOfZero(i - 1);
    }
  }

  function BinaryDigit(b: nat): char
    requires b < 2
  {
    if b == 0 then '0' else '1'
  }

  /**
   Python's `format(v, 'b')` for a non-negative integer: binary digits, most
   significant first, with no leading zero ("0" for zero).
   */
  function Binary(v: nat): (s: string)
    ensures |s| >= 1
    ensures forall i | 0 <= i < |s| :: s[i] == '0' || s[i] == '1'
    ensures s[0] == '0' ==> v == 0 && s == "0"
    decreases v
  {
    if v < 2 then [BinaryDigit(v)] else Binary(v / 2) + [BinaryDigit(v % 2)]
  }

  /** The digit `i` places from the right of `Binary(v)` is '1' exactly when bit `i` of `v` is set. */
  lemma {:induction false} BinaryDigitIsBit(v: nat, i: nat)
    requires i < |Binary(v)|
    ensures Binary(v)[|Binary(v)| - 1 - i] == '1' <==> BitSet(v, i)
    decreases v
  {
    if v >= 2 && i > 0 {
      BinaryDigitIsBit(v / 2, i - 1);
    }
  }

  /** No bit beyond the length of `Binary(v)` is set. */
  lemma {:induction false} NoBitBeyondBinary(v: nat, i: nat)
    requires i >= |Binary(v)|
    ensures !BitSet(v, i)
    decreases v
  {
    if v < 2 {
      NoBitOfZero(i - 1);
    } else {
      NoBitBeyondBinary(v / 2, i - 1);
    }
  }

  /** The zero fill of Python's `'0<width>'` format: pad on the left with '0' up to `width` characters. */
  function PadLeft(s: string, width: nat): (r: string)
    ensures |r| == if |s| >= width then |s| else width
    decreases width - |s|
  {
    if |s| >= width then s else PadLeft(['0'] + s, width)
  }

  /** The padded text is the fill '0's followed by the text itself. */
  lemma {:induction false} PadLeftAt(s: string, width: nat, j: nat)
    requires j < |PadLeft(s, width)|
    ensures var fill := |PadLeft(s, width)| - |s|;
      PadLeft(s, width)[j] == if j < fill then '0' else s[j - fill]
    decreases width - |s|
  {
    if |s| < width {
      PadLeftAt(['0'] + s, width, j);
    }
  }

  /** Python's `s[::-1]`. */
  function Reverse(s: string): (r: string)
    ensures |r| == |s|
    decreases |s|
  {
    if |s| == 0 then "" else Reverse(s[1..]) + [s[0]]
  }

  /** Character `i` of the reversal is character `i` of the text counted from its end. */
  lemma {:induction false} ReverseAt(s: string, i: nat)
    requires i < |s|
    ensures Reverse(s)[i] == s[|s| - 1 - i]
    decreases |s|
  {
    if i < |s| - 1 {
      ReverseAt(s[1..], i);
    }
  }

  /**
   The string the bitfield renderer indexes: `format(v, '0<width>b')[::-1]`.
   Its character `i` is '1' exactly when bit `i` of `v` is set, and it is at
   least `width` characters long, so every declared bit has a character.
   */
  function LsbDigits(v: nat, width: nat): (r: string)
    ensures |r| >= width
    ensures forall i | 0 <= i < |r| :: r[i] == '1' <==> BitSet(v, i)
  {
    var r := Reverse(PadLeft(Binary(v), width));
    forall i | 0 <= i < |r|
      ensures r[i] == '1' <==> BitSet(v, i)
    {
      ReversedPaddedDigit(v, width, i);
    }
    r
  }

  /** Character `i` of a padded text read from the right: a character of the text, then fill '0's. */
  lemma ReversedPaddedChar(s: string, width: nat, i: nat)
    requires i < |PadLeft(s, width)|
    ensures Reverse(PadLeft(s, width))[i] == if i < |s| then s[|s| - 1 - i] else '0'
  {
    var padded := PadLeft(s, width);
    ReverseAt(padded, i);
    PadLeftAt(s, width, |padded| - 1 - i);
  }

  /** Reading `Binary(v)` from the right, with '0' beyond its length, gives the bits of `v`. */
  lemma BinaryFromRight(v: nat, i: nat)
    ensures (if i < |Binary(v)| then Binary(v)[|Binary(v)| - 1 - i] else '0') == '1' <==> BitSet(v, i)
  {
    if i < |Binary(v)| {
      BinaryDigitIsBit(v, i);
    } else {
      NoBitBeyondBinary(v, i);
    }
  }

  /** A character of the reversed padded text is '1' exactly when the text read from the right has '1' there. */
  lemma ReversedPaddedOne(s: string, width: nat, i: nat, one: bool)
    requires i < |PadLeft(s, width)|
    requires (if i < |s| then s[|s| - 1 - i] else '0') == '1' <==> one
    ensures Reverse(PadLeft(s, width))[i] == '1' <==> one
  {
    ReversedPaddedChar(s, width, i);
  }

  lemma ReversedPaddedDigit(v: nat, width: nat, i: nat)
    requires i < |PadLeft(Binary(v), width)|
    ensures Reverse(PadLeft(Binary(v), width))[i] == '1' <==> BitSet(v, i)
  {
    BinaryFromRight(v, i);
    ReversedPaddedOne(Binary(v), width, i, BitSet(v, i));
  }

  /** The flag vector of the `k` low bits of `v`, bit 0 first. */
  function Flags(v: nat, k: nat): (f: seq<bool>)
    ensures |f| == k
    ensures forall i | 0 <= i < k :: f[i] == BitSet(v, i)
    decreases k
  {
    if k == 0 then [] else [v % 2 == 1] + Flags(v / 2, k - 1)
  }

  /** The number whose low bits a flag vector lists, bit 0 first. */
  function Encode(f: seq<bool>): (n: nat)
    ensures n < Pow2(|f|)
    decreases |f|
  {
    if |f| == 0 then 0 else (if f[0] then 1 else 0) + 2 * Encode(f[1..])
  }

  lemma ModUnique(v: nat, m: nat, a: nat, c: nat)
    requires 0 <= c < m && v == m * a + c
    ensures v % m == c && v / m == a
  {
    var d := v / m - a;
    assert m * d == c - v % m;
    assert d >= 1 ==> m * d >= m;
    assert d <= -1 ==> m * d + m <= 0;
  }

  /** Splitting off the lowest bit commutes with keeping the `k + 1` low bits. */
  lemma ModPow2Step(v: nat, k: nat)
    ensures v % Pow2(k + 1) == v % 2 + 2 * ((v / 2) % Pow2(k))
    ensures (v % Pow2(k + 1)) / 2 == (v / 2) % Pow2(k)
  {
    var m := Pow2(k);
    var q, r := v / 2, v % 2;
    var a, b := q / m, q % m;
    assert v == 2 * q + r;
    assert q == m * a + b;
    assert v == (2 * m) * a + (2 * b + r);
    ModUnique(v, 2 * m, a, 2 * b + r);
  }

  /** Encoding the flag vector of `v` gives back the `k` low bits of `v`. */
  lemma {:induction false} EncodeFlags(v: nat, k: nat)
    ensures Encode(Flags(v, k)) == v % Pow2(k)
    decreases k
  {
    if k > 0 {
      EncodeFlags(v / 2, k - 1);
      ModPow2Step(v, k - 1);
      assert Flags(v, k)[1..] == Flags(v / 2, k - 1);
    }
  }

  /** Every flag vector is the flag vector of its encoding. */
  lemma {:induction false} FlagsEncode(f: seq<bool>)
    ensures Flags(Encode(f), |f|) == f
    decreases |f|
  {
    if |f| > 0 {
      var n := Encode(f);
      var rest := Encode(f[1..]);
      FlagsEncode(f[1..]);
      assert n % 2 == (if f[0] then 1 else 0) && n / 2 == rest;
      assert f == [f[0]] + f[1..];
    }
  }

  /** Bits at index `k` or above do not affect the `k` low bits. */
  lemma {:induction false} LowBitsOfRemainder(v: nat, k: nat, i: nat)
    requires i < k
    ensures BitSet(v % Pow2(k), i) <==> BitSet(v, i)
    decreases i
  {
    ModPow2Step(v, k - 1);
    if i > 0 {
      LowBitsOfRemainder(v / 2, k - 1, i - 1);
    }
  }
}
