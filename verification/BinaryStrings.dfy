/** bindings/python/rad_util.py: int2bin, bin2int and binary_range. */
module BinaryStrings {
  import opened Collections

  datatype Result = Ok(value: string) | ValueError | KeyError

  function Pow2(n: nat): nat {
    if n == 0 then 1 else 2 * Pow2(n - 1)
  }

  // ---------- binary numerals

  predicate IsBinary(s: string) {
    forall k :: 0 <= k < |s| ==> s[k] == '0' || s[k] == '1'
  }

  function Bit(b: bool): char {
    if b then '1' else '0'
  }

  /** `int(s, 2)` of a string of binary digits. */
  function Bin2Int(s: string): nat {
    if s == "" then 0 else 2 * Bin2Int(s[..|s| - 1]) + if s[|s| - 1] == '1' then 1 else 0
  }

  /** The n low bits of i, highest first. */
  function LowBits(i: nat, n: nat): (s: string)
    ensures |s| == n && IsBinary(s)
  {
    if n == 0 then "" else LowBits(i / 2, n - 1) + [Bit(i % 2 == 1)]
  }

  lemma {:induction false} ValueBelow(s: string)
    ensures Bin2Int(s) < Pow2(|s|)
  {
    if s != "" { ValueBelow(s[..|s| - 1]); }
  }

  lemma {:induction false} BitsOfValue(s: string)
    requires IsBinary(s)
    ensures LowBits(Bin2Int(s), |s|) == s
  {
    if s != "" {
      BitsOfValue(s[..|s| - 1]);
      assert Bin2Int(s) / 2 == Bin2Int(s[..|s| - 1]);
    }
  }

  lemma {:induction false} ValueOfBits(i: nat, n: nat)
    requires i < Pow2(n)
    ensures Bin2Int(LowBits(i, n)) == i
  {
    if n > 0 {
      ValueOfBits(i / 2, n - 1);
      var s := LowBits(i, n);
      assert s[..n - 1] == LowBits(i / 2, n - 1);
    }
  }

  lemma {:induction false} ValueOfJoined(s: string, t: string)
    ensures Bin2Int(s + t) == Bin2Int(s) * Pow2(|t|) + Bin2Int(t)
  {
    if t == "" {
      assert s + t == s;
    } else {
      var front := t[..|t| - 1];
      ValueOfJoined(s, front);
      assert (s + t)[..|s + t| - 1] == s + front;
      Distribute(Bin2Int(s), Pow2(|front|), Bin2Int(front));
    }
  }

  lemma Distribute(a: nat, b: nat, c: nat)
    ensures 2 * (a * b + c) == a * (2 * b) + 2 * c
  {
  }

  lemma {:induction false} ZeroValue(s: string)
    requires IsBinary(s)
    ensures Bin2Int(s) == 0 <==> '1' !in s
  {
    if s != "" {
      ZeroValue(s[..|s| - 1]);
      assert s == s[..|s| - 1] + [s[|s| - 1]];
    }
  }

  // ---------- int2bin

  /** The hexadecimal digits of hex(i), without its prefix. */
  function HexDigits(i: nat): (digits: seq<nat>)
    ensures digits != [] && forall k :: 0 <= k < |digits| ==> digits[k] < 16
  {
    if i < 16 then [i] else HexDigits(i / 16) + [i % 16]
  }

  /** `hex2bin[x]` of each digit, joined. */
  function Expand(digits: seq<nat>): (s: string)
    ensures IsBinary(s) && |s| == 4 * |digits|
  {
    if digits == [] then "" else Expand(digits[..|digits| - 1]) + LowBits(digits[|digits| - 1], 4)
  }

  lemma LastDigit(front: seq<nat>, last: nat)
    requires last < 16
    ensures Bin2Int(Expand(front + [last])) == 16 * Bin2Int(Expand(front)) + last
  {
    assert (front + [last])[..|front|] == front;
    assert Pow2(4) == 16 by { assert Pow2(2) == 4; }
    ValueOfBits(last, 4);
    ValueOfJoined(Expand(front), LowBits(last, 4));
  }

  lemma {:induction false} HexValue(i: nat)
    ensures Bin2Int(Expand(HexDigits(i))) == i
  {
    if i >= 16 {
      HexValue(i / 16);
      LastDigit(HexDigits(i / 16), i % 16);
    } else {
      LastDigit([], i);
      assert [] + [i] == [i];
    }
  }

  function Zeros(n: nat): (s: string)
    ensures |s| == n
  {
    seq(n, _ => '0')
  }

  /** A negative number trips over the 'x' of its hex form, a large one over the check before the cut;
      for n = 0 both Python slices, `[:-0]` and `[-0:]`, leave the check empty and the string whole. */
  function Int2Bin(i: int, n: nat): Result {
    if i < 0 then KeyError
    else
      var result := Expand(HexDigits(i));
      if n == 0 then Ok(result)
      else if |result| > n && '1' in result[..|result| - n] then ValueError
      else if |result| > n then Ok(result[|result| - n..])
      else Ok(Zeros(n - |result|) + result)
  }

  lemma {:induction false} ZerosHaveNoValue(n: nat)
    ensures IsBinary(Zeros(n)) && Bin2Int(Zeros(n)) == 0
  {
    ZeroValue(Zeros(n));
  }

  lemma HighPart(a: nat, b: nat, p: nat)
    requires b < p
    ensures a * p + b < p <==> a == 0
  {
    if a >= 1 { assert a * p >= p; }
  }

  /** The digits above the low n are all zero exactly when the value needs no more than n bits. */
  lemma CutString(result: string, n: nat)
    requires IsBinary(result) && |result| > n
    ensures '1' in result[..|result| - n] <==> Bin2Int(result) >= Pow2(n)
    ensures Bin2Int(result) < Pow2(n) ==> result[|result| - n..] == LowBits(Bin2Int(result), n)
  {
    hide Bin2Int, Pow2, LowBits;
    var high, low := result[..|result| - n], result[|result| - n..];
    assert result == high + low;
    ZeroValue(high);
    ValueBelow(low);
    BitsOfValue(low);
    JoinedValue(high, low);
  }

  lemma JoinedValue(high: string, low: string)
    ensures Bin2Int(high + low) < Pow2(|low|) <==> Bin2Int(high) == 0
    ensures Bin2Int(high) == 0 ==> Bin2Int(high + low) == Bin2Int(low)
  {
    hide Bin2Int, Pow2;
    ValueOfJoined(high, low);
    ValueBelow(low);
    HighPart(Bin2Int(high), Bin2Int(low), Pow2(|low|));
  }

  lemma PadString(result: string, n: nat)
    requires IsBinary(result) && |result| <= n
    ensures Bin2Int(result) < Pow2(n)
    ensures Zeros(n - |result|) + result == LowBits(Bin2Int(result), n)
  {
    hide Bin2Int, Pow2, LowBits, Zeros;
    var zeros := Zeros(n - |result|);
    var padded := zeros + result;
    ZerosHaveNoValue(n - |result|);
    JoinedValue(zeros, result);
    ValueBelow(padded);
    BitsOfValue(padded);
  }

  /** int2bin fails on a nonnegative number exactly when it needs more than n bits, and otherwise
      prints its n low bits. */
  lemma Int2BinIsLowBits(i: nat, n: nat)
    requires n >= 1
    ensures Int2Bin(i, n) == if i < Pow2(n) then Ok(LowBits(i, n)) else ValueError
  {
    var result := Expand(HexDigits(i));
    HexValue(i);
    hide Bin2Int, Expand, HexDigits, LowBits, Pow2;
    if |result| > n { CutString(result, n); } else { PadString(result, n); }
  }

  /** When int2bin raises: for a negative number, and for one that needs more than n bits, except that
      no number is too large for n = 0. */
  lemma WhenInt2BinRaises(i: int, n: nat)
    ensures Int2Bin(i, n) == KeyError <==> i < 0
    ensures Int2Bin(i, n) == ValueError <==> n >= 1 && i >= Pow2(n)
  {
    if i >= 0 && n >= 1 { Int2BinIsLowBits(i, n); }
    Pow2Positive(n);
  }

  lemma {:induction false} HexLength(i: nat)
    ensures |HexDigits(i)| > 1 ==> i >= Pow2(4 * (|HexDigits(i)| - 1))
  {
    if i >= 16 {
      HexLength(i / 16);
      var n := 4 * (|HexDigits(i / 16)| - 1);
      FourMoreBits(n);
      if |HexDigits(i / 16)| == 1 {
        assert Pow2(n) == 1;
      }
    }
  }

  lemma FourMoreBits(n: nat)
    ensures Pow2(n + 4) == 16 * Pow2(n)
  {
    assert Pow2(n + 4) == 2 * Pow2(n + 3) && Pow2(n + 3) == 2 * Pow2(n + 2) && Pow2(n + 2) == 2 * Pow2(n + 1);
  }

  /** For n = 0 a nonnegative number is printed in full: in the fewest groups of four digits that hold it, at least
      one. */
  lemma Int2BinInFull(i: nat)
    ensures Int2Bin(i, 0).Ok?
    ensures var s := Int2Bin(i, 0).value;
      && s == LowBits(i, |s|) && Bin2Int(s) == i
      && |s| % 4 == 0 && |s| >= 4 && (|s| > 4 ==> i >= Pow2(|s| - 4))
  {
    hide Bin2Int, Expand, HexDigits, LowBits, Pow2;
    HexValue(i);
    HexLength(i);
    BitsOfValue(Expand(HexDigits(i)));
  }

  lemma IntRoundTrip(i: nat, n: nat)
    requires n >= 1 && i < Pow2(n)
    ensures Int2Bin(i, n).Ok? && |Int2Bin(i, n).value| == n && Bin2Int(Int2Bin(i, n).value) == i
  {
    Int2BinIsLowBits(i, n);
    ValueOfBits(i, n);
  }

  lemma StringRoundTrip(s: string)
    requires IsBinary(s) && s != ""
    ensures Int2Bin(Bin2Int(s), |s|) == Ok(s)
  {
    ValueBelow(s);
    Int2BinIsLowBits(Bin2Int(s), |s|);
    BitsOfValue(s);
  }

  // ---------- binary_range

  /** The value of the digits in v, lowest first. */
  function LowFirst(v: string): nat {
    if v == "" then 0 else (if v[0] == '1' then 1 else 0) + 2 * LowFirst(v[1..])
  }

  lemma {:induction false} ReversedValue(v: string)
    requires IsBinary(v)
    ensures IsBinary(Reverse(v)) && Bin2Int(Reverse(v)) == LowFirst(v)
  {
    if v != "" {
      ReversedValue(v[1..]);
      assert Reverse(v)[..|v| - 1] == Reverse(v[1..]);
    }
  }

  /** The carry chain: the digits of v below position i have just turned from 1 to 0. */
  ghost predicate Carrying(v: string, v': string, i: nat) {
    && |v'| == |v| && i <= |v|
    && IsBinary(v) && IsBinary(v')
    && (forall k :: 0 <= k < i ==> v[k] == '1' && v'[k] == '0')
    && (forall k :: i <= k < |v| ==> v'[k] == v[k])
  }

  lemma {:induction false} CarryAll(v: string, v': string)
    requires Carrying(v, v', |v|)
    ensures LowFirst(v) + 1 == Pow2(|v|) && LowFirst(v') == 0
  {
    if v != "" { CarryAll(v[1..], v'[1..]); }
  }

  lemma {:induction false} CarryInto(v: string, v': string, i: nat)
    requires i < |v| && Carrying(v, v', i) && v[i] == '0'
    ensures LowFirst(v'[i := '1']) == LowFirst(v) + 1
  {
    if i == 0 {
      assert v'[0 := '1'][1..] == v[1..];
    } else {
      assert v'[i := '1'][1..] == v'[1..][i - 1 := '1'];
      CarryInto(v[1..], v'[1..], i - 1);
    }
  }

  lemma {:induction false} LowFirstBelow(v: string)
    ensures LowFirst(v) < Pow2(|v|)
  {
    if v != "" { LowFirstBelow(v[1..]); }
  }

  lemma {:induction false} ZeroDigits(n: nat)
    ensures LowFirst(Zeros(n)) == 0
  {
    if n > 0 {
      assert Zeros(n)[1..] == Zeros(n - 1);
      ZeroDigits(n - 1);
    }
  }

  lemma PrintedEntry(v: string)
    requires IsBinary(v)
    ensures Reverse(v) == LowBits(LowFirst(v), |v|)
  {
    ReversedValue(v);
    BitsOfValue(Reverse(v));
  }

  /** The inner loop: counts v up by one, wrapping to zero; toggle[bits] tells whether it wrapped. */
  method CountUp(v: array<char>, toggle: array<nat>)
    requires toggle.Length == v.Length + 1 && IsBinary(v[..])
    requires toggle[0] == 1 && forall k :: 0 < k < toggle.Length ==> toggle[k] == 0
    modifies v, toggle
    ensures IsBinary(v[..])
    ensures toggle[v.Length] == 1 <==> LowFirst(old(v[..])) + 1 == Pow2(v.Length)
    ensures toggle[v.Length] == 1 ==> LowFirst(v[..]) == 0
    ensures toggle[v.Length] != 1 ==> LowFirst(v[..]) == LowFirst(old(v[..])) + 1
  {
    var bits := v.Length;
    ghost var start := v[..];
    var i := 0;
    while i < bits && toggle[i] == 1
      invariant 0 <= i <= bits && IsBinary(v[..])
      invariant toggle[i] == 1 ==> Carrying(start, v[..], i)
      invariant toggle[i] != 1 ==> i > 0 && LowFirst(v[..]) == LowFirst(start) + 1 && LowFirst(start) + 1 < Pow2(bits)
      invariant forall k :: i < k < toggle.Length ==> toggle[k] == 0
    {
      ghost var was := v[..];
      if v[i] == '0' {
        v[i] := '1';
        toggle[i + 1] := 0;
        assert v[..] == was[i := '1'];
        CarryInto(start, was, i);
        LowFirstBelow(v[..]);
      } else {
        v[i] := '0';
        toggle[i + 1] := 1;
        assert v[..] == was[i := '0'];
      }
      i := i + 1;
    }
    if i == bits && toggle[i] == 1 {
      CarryAll(start, v[..]);
    }
  }

  lemma {:induction false} Pow2Positive(n: nat)
    ensures Pow2(n) >= 1
  {
    if n > 0 { Pow2Positive(n - 1); }
  }

  /** For at least one bit, all numerals of that width in order; for none, nothing. */
  method BinaryRange(bits: nat) returns (l: seq<string>)
    ensures bits == 0 ==> l == []
    ensures bits >= 1 ==> |l| == Pow2(bits) && forall k :: 0 <= k < |l| ==> l[k] == LowBits(k, bits)
  {
    hide LowFirst, LowBits, Reverse, Pow2;
    l := [];
    var v := new char[bits](_ => '0');
    var toggle := new nat[bits + 1](i => if i == 0 then 1 else 0);
    assert v[..] == Zeros(bits);
    ZeroDigits(bits);
    Pow2Positive(bits);
    while toggle[bits] != 1
      invariant fresh(v) && fresh(toggle) && v.Length == bits && toggle.Length == bits + 1
      invariant IsBinary(v[..]) && |l| <= Pow2(bits)
      invariant bits == 0 ==> l == [] && toggle[bits] == 1
      invariant toggle[bits] != 1 ==> LowFirst(v[..]) == |l| < Pow2(bits)
      invariant bits >= 1 && toggle[bits] == 1 ==> |l| == Pow2(bits)
      invariant forall k :: 0 <= k < |l| ==> l[k] == LowBits(k, bits)
      decreases Pow2(bits) - |l|
    {
      var vCopy := Reverse(v[..]);
      PrintedEntry(v[..]);
      l := l + [vCopy];
      toggle := new nat[bits + 1](i => if i == 0 then 1 else 0);
      CountUp(v, toggle);
      LowFirstBelow(v[..]);
    }
  }
}
