/** Decimal output of 32-bit numbers: the length by bit tricks, the digits two at a time. */
module Decimal {
  import opened Bytes
  import opened Words

  const U32_SIZE := 0x1_0000_0000

  /** The decimal digits of n without leading zeros. */
  function Digits(n: nat): (s: seq<Byte>)
    ensures |s| >= 1
  {
    if n < 10 then [48 + n] else Digits(n / 10) + [48 + n % 10]
  }

  predicate DigitsOnly(s: seq<Byte>) {
    forall i :: 0 <= i < |s| ==> 48 <= s[i] <= 57
  }

  /** The number that a digit string denotes. */
  function Denotes(s: seq<Byte>): nat
    requires DigitsOnly(s)
  {
    if s == [] then 0 else Denotes(s[..|s| - 1]) * 10 + (s[|s| - 1] - 48) as int
  }

  lemma {:induction false} DigitsDenote(n: nat)
    ensures DigitsOnly(Digits(n)) && Denotes(Digits(n)) == n
    ensures n > 0 ==> Digits(n)[0] != 48
  {
    if n >= 10 {
      DigitsDenote(n / 10);
      var s := Digits(n);
      assert s[..|s| - 1] == Digits(n / 10);
    } else {
      assert Digits(n)[..0] == [];
    }
  }

  const POW10: seq<nat> := [0, 10, 100, 1000, 10000, 100000, 1000000, 10000000, 100000000, 1000000000]

  function Pow10(k: nat): (p: nat)
    ensures p >= 1
  {
    if k == 0 then 1 else 10 * Pow10(k - 1)
  }

  lemma {:induction false} DigitCount(n: nat, k: nat)
    requires k >= 1 && n < Pow10(k) && (k > 1 ==> Pow10(k - 1) <= n)
    ensures |Digits(n)| == k
  {
    if k > 1 {
      assert Pow10(k) == 10 * Pow10(k - 1) && Pow10(k - 1) == 10 * Pow10(k - 2);
      DigitCount(n / 10, k - 1);
    }
  }

  /** n | 1 */
  function OrOne(n: nat): nat {
    if n % 2 == 0 then n + 1 else n
  }

  /** (32 - clz(n | 1)) * 1233 >> 12 */
  function Estimate(n: nat): nat {
    BitLength(OrOne(n)) * 1233 / 4096
  }

  /** utility_u32_len */
  function U32Len(n: nat): (r: int)
    requires n < U32_SIZE
  {
    EstimateInTable(n);
    var t := Estimate(n);
    t - (if n < POW10[t] then 1 else 0) + 1
  }

  lemma BitLengthRange(x: nat, a: nat, b: nat)
    requires Pow2(a) <= x < Pow2(b)
    ensures a + 1 <= BitLength(x) <= b
  {
    BitLengthBounds(x);
    var k := BitLength(x);
    if k <= a {
      Pow2Monotone(k, a);
    }
    if b < k {
      Pow2Monotone(b, k - 1);
    }
  }

  lemma EstimateRange(n: nat, a: nat, b: nat, t: nat)
    requires Pow2(a) <= OrOne(n) < Pow2(b)
    requires (a + 1) * 1233 / 4096 == t == b * 1233 / 4096
    ensures Estimate(n) == t
  {
    BitLengthRange(OrOne(n), a, b);
  }

  lemma Powers()
    ensures Pow2(0) == 1 && Pow2(3) == 8 && Pow2(6) == 64 && Pow2(9) == 512 && Pow2(13) == 8192 && Pow2(16) == 65536
    ensures Pow2(19) == 524288 && Pow2(23) == 8388608 && Pow2(26) == 67108864 && Pow2(29) == 536870912
            && Pow2(32) == U32_SIZE
  {
    assert Pow2(4) == 16;
    Pow2Add(3, 3);
    Pow2Add(6, 3);
    Pow2Add(9, 4);
    Pow2Add(13, 3);
    Pow2Add(16, 3);
    Pow2Add(19, 4);
    Pow2Add(23, 3);
    Pow2Add(26, 3);
    Pow2Add(29, 3);
  }

  /** The estimate is the digit count or one less, for every 32-bit number. */
  lemma EstimateCases(n: nat)
    requires n < U32_SIZE
    ensures var x := OrOne(n);
            Estimate(n) == if x < 8 then 0 else if x < 64 then 1 else if x < 512 then 2 else if x < 8192 then 3
                           else if x < 65536 then 4 else if x < 524288 then 5 else if x < 8388608 then 6
                           else if x < 67108864 then 7 else if x < 536870912 then 8 else 9
  {
    hide Pow2, Estimate;
    Powers();
    var x := OrOne(n);
    if x < 8 { EstimateRange(n, 0, 3, 0); }
    else if x < 64 { EstimateRange(n, 3, 6, 1); }
    else if x < 512 { EstimateRange(n, 6, 9, 2); }
    else if x < 8192 { EstimateRange(n, 9, 13, 3); }
    else if x < 65536 { EstimateRange(n, 13, 16, 4); }
    else if x < 524288 { EstimateRange(n, 16, 19, 5); }
    else if x < 8388608 { EstimateRange(n, 19, 23, 6); }
    else if x < 67108864 { EstimateRange(n, 23, 26, 7); }
    else if x < 536870912 { EstimateRange(n, 26, 29, 8); }
    else { EstimateRange(n, 29, 32, 9); }
  }

  lemma EstimateInTable(n: nat)
    requires n < U32_SIZE
    ensures Estimate(n) < |POW10|
  {
    hide Estimate;
    EstimateCases(n);
  }

  lemma TablePowers()
    ensures Pow10(0) == 1 && Pow10(10) == 10000000000
    ensures forall k :: 1 <= k < |POW10| ==> Pow10(k) == POW10[k]
  {
    assert Pow10(1) == 10 && Pow10(2) == 100 && Pow10(3) == 1000 && Pow10(4) == 10000 && Pow10(5) == 100000;
    assert Pow10(6) == 1000000 && Pow10(7) == 10000000 && Pow10(8) == 100000000 && Pow10(9) == 1000000000;
  }

  /** The length computed without a division is the exact number of digits. */
  lemma U32LenIsExact(n: nat)
    requires n < U32_SIZE
    ensures U32Len(n) == |Digits(n)|
  {
    hide Estimate, Pow10, Digits;
    EstimateCases(n);
    TablePowers();
    var k := U32Len(n);
    assert 1 <= k <= 10 && n < Pow10(k) && (k > 1 ==> Pow10(k - 1) <= n);
    DigitCount(n, k);
  }

  /** Entry i of the table "000102...99" of the digit pairs of 0 to 99. */
  function DigitChar(i: nat): Byte
    requires i < 200
  {
    if i % 2 == 0 then 48 + i / 2 / 10 else 48 + i / 2 % 10
  }

  lemma DigitsByPairs(n: nat)
    requires n >= 100
    ensures Digits(n) == Digits(n / 100) + [48 + n % 100 / 10, 48 + n % 100 % 10]
  {
    assert Digits(n) == Digits(n / 10) + [48 + n % 10];
    assert Digits(n / 10) == Digits(n / 10 / 10) + [48 + n / 10 % 10];
    assert n / 10 / 10 == n / 100 && n / 10 % 10 == n % 100 / 10 && n % 10 == n % 100 % 10;
  }

  /** The two digits of n, just before position p. */
  method PutPair(n: nat, text: array<Byte>, p: nat, end: nat)
    requires n < 100 && 2 <= p <= end <= text.Length
    modifies text
    ensures text[p - 2..end] == [48 + n / 10, 48 + n % 10] + old(text[p..end])
    ensures text[..p - 2] == old(text[..p - 2]) && text[end..] == old(text[end..])
  {
    var i := 2 * n;
    text[p - 1] := DigitChar(i + 1);
    text[p - 2] := DigitChar(i);
  }

  /** The digit n, just before position p. */
  method PutDigit(n: nat, text: array<Byte>, p: nat, end: nat)
    requires n < 10 && 1 <= p <= end <= text.Length
    modifies text
    ensures text[p - 1..end] == [48 + n] + old(text[p..end])
    ensures text[..p - 1] == old(text[..p - 1]) && text[end..] == old(text[end..])
  {
    text[p - 1] := n + 48;
  }

  lemma TakeLess(s: seq<Byte>, t: seq<Byte>, p: nat, q: nat)
    requires q <= p <= |s| == |t| && s[..p] == t[..p]
    ensures s[..q] == t[..q]
  {
    assert s[..q] == s[..p][..q] && t[..q] == t[..p][..q];
  }

  /** utility_u32_sprint: writes the digits so that they end just before `end`. */
  method Sprint(value: nat, text: array<Byte>, end: nat)
    requires value < U32_SIZE && |Digits(value)| <= end <= text.Length
    modifies text
    ensures text[end - |Digits(value)|..end] == Digits(value)
    ensures text[..end - |Digits(value)|] == old(text[..end - |Digits(value)|]) && text[end..] == old(text[end..])
  {
    hide Digits;
    var n, p := value, end;
    ghost var original := text[..];
    while n >= 100
      invariant |Digits(n)| <= p <= end && Digits(value) == Digits(n) + text[p..end]
      invariant text[..p] == original[..p] && text[end..] == original[end..]
      decreases n
    {
      DigitsByPairs(n);
      TakeLess(text[..], original, p, p - 2);
      Regroup(Digits(n / 100), n % 100, text[p..end]);
      PutPair(n % 100, text, p, end);
      n := n / 100;
      p := p - 2;
    }
    LastDigits(n);
    TakeLess(text[..], original, p, p - |Digits(n)|);
    if n < 10 {
      PutDigit(n, text, p, end);
    } else {
      PutPair(n, text, p, end);
    }
  }

  lemma Regroup(front: seq<Byte>, n: nat, back: seq<Byte>)
    requires n < 100
    ensures front + [48 + n / 10, 48 + n % 10] + back == front + ([48 + n / 10, 48 + n % 10] + back)
  {
  }

  lemma LastDigits(n: nat)
    requires n < 100
    ensures Digits(n) == if n < 10 then [48 + n] else [48 + n / 10, 48 + n % 10]
  {
  }
}
