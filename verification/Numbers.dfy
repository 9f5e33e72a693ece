/**
 The library's strtoull on bytes: white space, a sign, for base 16 an optional 0x, then digits;
 a value beyond 64 bits saturates and a minus sign negates modulo 2^64. Reading stops at the end
 of the given bytes. The C code gives no length; it stops there too if the byte behind them belongs
 to no number (NumberStopsAt).
 */
module Numbers {
  import opened Bytes
  import opened Words

  function Digit(ch: Byte, base: nat): (v: int)
    ensures -1 <= v < 16
  {
    if DecodeHex(ch) < base then DecodeHex(ch) else -1
  }

  predicate IsSpace(b: Byte) {
    b == SP || 9 <= b <= 13
  }

  function SkipSpaces(s: seq<Byte>, i: nat): (p: nat)
    requires i <= |s|
    ensures i <= p <= |s| && (p < |s| ==> !IsSpace(s[p]))
    ensures forall k :: i <= k < p ==> IsSpace(s[k])
    decreases |s| - i
  {
    if i < |s| && IsSpace(s[i]) then SkipSpaces(s, i + 1) else i
  }

  function SkipDigits(s: seq<Byte>, i: nat, base: nat): (p: nat)
    requires i <= |s|
    ensures i <= p <= |s| && (p < |s| ==> Digit(s[p], base) == -1)
    ensures forall k :: i <= k < p ==> Digit(s[k], base) != -1
    decreases |s| - i
  {
    if i < |s| && Digit(s[i], base) != -1 then SkipDigits(s, i + 1, base) else i
  }

  predicate Signed(s: seq<Byte>, i: nat) {
    i < |s| && (s[i] == 43 || s[i] == 45)
  }

  predicate Negative(s: seq<Byte>) {
    var i := SkipSpaces(s, 0);
    i < |s| && s[i] == 45
  }

  predicate HexPrefix(s: seq<Byte>, i: nat) {
    i + 1 < |s| && s[i] == 48 && (s[i + 1] == 120 || s[i + 1] == 88)
  }

  /** Where the digits begin. */
  function NumberStart(s: seq<Byte>, base: nat): (p: nat)
    ensures p <= |s|
  {
    var i := SkipSpaces(s, 0);
    var j := if Signed(s, i) then i + 1 else i;
    if base == 16 && HexPrefix(s, j) then j + 2 else j
  }

  /** The byte at which reading stops; |s| means that it ran out of bytes. */
  function NumberEnd(s: seq<Byte>, base: nat): (p: nat)
    ensures NumberStart(s, base) <= p <= |s|
  {
    SkipDigits(s, NumberStart(s, base), base)
  }

  /** The value of bytes i to j read as digits, without any bound. */
  function DigitsValue(s: seq<Byte>, i: nat, j: nat, base: nat): (v: nat)
    requires i <= j <= |s|
    requires forall k :: i <= k < j ==> Digit(s[k], base) != -1
    decreases j
  {
    if i == j then 0 else DigitsValue(s, i, j - 1, base) * base + Digit(s[j - 1], base)
  }

  function Clamp(v: nat, negative: bool): Word {
    if v >= WORD_SIZE then WORD_SIZE - 1
    else if negative && v > 0 then WORD_SIZE - v
    else v
  }

  function StrToUll(s: seq<Byte>, base: nat): Word {
    Clamp(DigitsValue(s, NumberStart(s, base), NumberEnd(s, base), base), Negative(s))
  }

  lemma {:induction false} SkipSpacesExtend(s: seq<Byte>, t: seq<Byte>, i: nat)
    requires i <= |s| && (SkipSpaces(s, i) < |s| || t == [] || !IsSpace(t[0]))
    ensures SkipSpaces(s + t, i) == SkipSpaces(s, i)
    decreases |s| - i
  {
    if i < |s| && IsSpace(s[i]) {
      SkipSpacesExtend(s, t, i + 1);
    }
  }

  lemma {:induction false} SkipDigitsExtend(s: seq<Byte>, t: seq<Byte>, i: nat, base: nat)
    requires i <= |s| && (SkipDigits(s, i, base) < |s| || t == [] || Digit(t[0], base) == -1)
    ensures SkipDigits(s + t, i, base) == SkipDigits(s, i, base)
    decreases |s| - i
  {
    if i < |s| && Digit(s[i], base) != -1 {
      SkipDigitsExtend(s, t, i + 1, base);
    }
  }

  lemma {:induction false} DigitsValueExtend(s: seq<Byte>, t: seq<Byte>, i: nat, j: nat, base: nat)
    requires i <= j <= |s| && forall k :: i <= k < j ==> Digit(s[k], base) != -1
    ensures DigitsValue(s + t, i, j, base) == DigitsValue(s, i, j, base)
    decreases j
  {
    if i < j {
      DigitsValueExtend(s, t, i, j - 1, base);
    }
  }

  /**
   More bytes do not change what is read, when the number ended before the old end, or when the
   first of the new bytes can belong to no number.
   */
  lemma StrToUllExtend(s: seq<Byte>, t: seq<Byte>, base: nat)
    requires base <= 16
    requires NumberEnd(s, base) < |s| || t == []
    ensures StrToUll(s + t, base) == StrToUll(s, base) && NumberEnd(s + t, base) == NumberEnd(s, base)
  {
    var i := SkipSpaces(s, 0);
    SkipSpacesExtend(s, t, 0);
    assert Signed(s + t, i) == Signed(s, i);
    assert NumberStart(s + t, base) == NumberStart(s, base);
    SkipDigitsExtend(s, t, NumberStart(s, base), base);
    DigitsValueExtend(s, t, NumberStart(s, base), NumberEnd(s, base), base);
  }

  /** A byte at which every number that is being read ends, wherever in it one is. */
  predicate NoNumberByte(b: Byte) {
    Digit(b, 16) == -1 && !IsSpace(b) && b != 43 && b != 45 && b != 120 && b != 88
  }

  lemma StartStopsAt(s: seq<Byte>, t: seq<Byte>, base: nat)
    requires base <= 16 && t != [] && NoNumberByte(t[0])
    ensures NumberStart(s + t, base) == NumberStart(s, base) && Negative(s + t) == Negative(s)
  {
    SkipSpacesExtend(s, t, 0);
    var i := SkipSpaces(s, 0);
    assert i < |s| ==> (s + t)[i] == s[i];
    assert Signed(s + t, i) == Signed(s, i);
  }

  /** So strtoull reads the same, whether or not it is told where the bytes end. */
  lemma NumberStopsAt(s: seq<Byte>, t: seq<Byte>, base: nat)
    requires base <= 16 && t != [] && NoNumberByte(t[0])
    ensures StrToUll(s + t, base) == StrToUll(s, base)
  {
    hide SkipSpaces, NumberStart, Negative;
    StartStopsAt(s, t, base);
    SkipDigitsExtend(s, t, NumberStart(s, base), base);
    DigitsValueExtend(s, t, NumberStart(s, base), NumberEnd(s, base), base);
  }

  /** A digit 1 after bytes that ran out is read too. */
  lemma StrToUllRunsOn(s: seq<Byte>, base: nat)
    requires (base == 10 || base == 16) && NumberEnd(s, base) == |s|
    ensures StrToUll(s + [49], base)
         == Clamp(DigitsValue(s, NumberStart(s, base), |s|, base) * base + 1, Negative(s))
  {
    hide SkipSpaces, DigitsValue, Clamp, DecodeHex;
    var t := s + [49];
    StartRunsOn(s, base);
    var p := NumberStart(s, base);
    DigitsRunOn(s, p, base);
    DigitsValueExtend(s, [49], p, |s|, base);
    DigitsValueStep(t, p, |s|, base);
  }

  lemma StartRunsOn(s: seq<Byte>, base: nat)
    requires NumberEnd(s, base) == |s|
    ensures NumberStart(s + [49], base) == NumberStart(s, base) && Negative(s + [49]) == Negative(s)
  {
    SkipSpacesExtend(s, [49], 0);
  }

  lemma DigitsValueStep(t: seq<Byte>, p: nat, n: nat, base: nat)
    requires (base == 10 || base == 16) && p <= n < |t| && t[n] == 49
    requires forall k :: p <= k < n + 1 ==> Digit(t[k], base) != -1
    ensures DigitsValue(t, p, n + 1, base) == DigitsValue(t, p, n, base) * base + 1
  {
  }

  lemma {:induction false} DigitsRunOn(s: seq<Byte>, i: nat, base: nat)
    requires (base == 10 || base == 16) && i <= |s| && SkipDigits(s, i, base) == |s|
    ensures SkipDigits(s + [49], i, base) == |s| + 1
    decreases |s| - i
  {
    if i < |s| {
      DigitsRunOn(s, i + 1, base);
    }
  }

  /** The hexadecimal number is so large that no further digit changes what is read. */
  predicate Saturated(s: seq<Byte>) {
    var v := DigitsValue(s, NumberStart(s, 16), NumberEnd(s, 16), 16);
    v >= WORD_SIZE || (v == WORD_SIZE - 1 && !Negative(s))
  }

  /** A further digit changes every other number that ran to the end. */
  lemma LongerNumber(s: seq<Byte>)
    requires NumberEnd(s, 16) == |s| && !Saturated(s)
    ensures StrToUll(s + [49], 16) != StrToUll(s, 16)
  {
    StrToUllRunsOn(s, 16);
  }

  lemma {:induction false} DigitsGrow(s: seq<Byte>, i: nat, j: nat, k: nat)
    requires i <= j <= k <= |s| && forall x :: i <= x < k ==> Digit(s[x], 16) != -1
    ensures DigitsValue(s, i, k, 16) >= DigitsValue(s, i, j, 16) * (if j < k then 16 else 1)
    decreases k
  {
    if j < k {
      DigitsGrow(s, i, j, k - 1);
    }
  }

  lemma ShortNumber(s: seq<Byte>, p: nat)
    requires p <= |s| && forall k :: p <= k < |s| ==> Digit(s[k], 16) != -1
    ensures |s| <= p + 1 ==> DigitsValue(s, p, |s|, 16) < 16
  {
  }

  lemma ZeroIsNotSaturated(s: seq<Byte>)
    ensures StrToUll(s, 16) == 0 ==> !Saturated(s)
  {
  }

  lemma SaturatedStart(s: seq<Byte>, t: seq<Byte>)
    requires NumberEnd(s, 16) == |s| && Saturated(s)
    ensures NumberStart(s + t, 16) == NumberStart(s, 16) && Negative(s + t) == Negative(s)
  {
    var i, p := SkipSpaces(s, 0), NumberStart(s, 16);
    ShortNumber(s, p);
    SkipSpacesExtend(s, t, 0);
  }

  lemma {:induction false} DigitsReach(s: seq<Byte>, t: seq<Byte>, i: nat)
    requires i <= |s| && SkipDigits(s, i, 16) == |s|
    ensures SkipDigits(s + t, i, 16) >= |s|
    decreases |s| - i
  {
    if i < |s| {
      DigitsReach(s, t, i + 1);
    }
  }

  lemma SaturatedStays(s: seq<Byte>, t: seq<Byte>)
    requires NumberEnd(s, 16) == |s| && Saturated(s)
    ensures StrToUll(s + t, 16) == StrToUll(s, 16) == WORD_SIZE - 1
  {
    hide SkipSpaces, SkipDigits, DigitsValue, NumberStart, Negative;
    SaturatedStart(s, t);
    var p, e := NumberStart(s, 16), NumberEnd(s + t, 16);
    DigitsReach(s, t, p);
    DigitsValueExtend(s, t, p, |s|, 16);
    DigitsGrow(s + t, p, |s|, e);
  }

  // ---------------------------------------------------------------- without some of the leading white space

  lemma {:induction false} SkipSpacesTail(s: seq<Byte>, m: nat, i: nat)
    requires m <= i <= |s|
    ensures SkipSpaces(s[m..], i - m) + m == SkipSpaces(s, i)
    decreases |s| - i
  {
    if i < |s| && IsSpace(s[i]) {
      SkipSpacesTail(s, m, i + 1);
    }
  }

  lemma {:induction false} SkipSpacesFrom(s: seq<Byte>, i: nat, m: nat)
    requires i <= |s| && i <= m <= SkipSpaces(s, i)
    ensures SkipSpaces(s, m) == SkipSpaces(s, i)
    decreases m - i
  {
    if i < m {
      SkipSpacesFrom(s, i + 1, m);
    }
  }

  lemma {:induction false} SkipDigitsTail(s: seq<Byte>, m: nat, i: nat, base: nat)
    requires m <= i <= |s|
    ensures SkipDigits(s[m..], i - m, base) + m == SkipDigits(s, i, base)
    decreases |s| - i
  {
    if i < |s| && Digit(s[i], base) != -1 {
      SkipDigitsTail(s, m, i + 1, base);
    }
  }

  lemma {:induction false} DigitsValueTail(s: seq<Byte>, m: nat, i: nat, j: nat, base: nat)
    requires m <= i <= j <= |s| && forall k :: i <= k < j ==> Digit(s[k], base) != -1
    ensures DigitsValue(s[m..], i - m, j - m, base) == DigitsValue(s, i, j, base)
    decreases j
  {
    if i < j {
      DigitsValueTail(s, m, i, j - 1, base);
    }
  }

  lemma StartTail(s: seq<Byte>, m: nat, base: nat)
    requires m <= SkipSpaces(s, 0)
    ensures NumberStart(s[m..], base) + m == NumberStart(s, base) && Negative(s[m..]) == Negative(s)
  {
    SkipSpacesFrom(s, 0, m);
    SkipSpacesTail(s, m, m);
  }

  /** Leading white space may be cut off anywhere. */
  lemma TailNumber(s: seq<Byte>, m: nat, base: nat)
    requires m <= SkipSpaces(s, 0)
    ensures StrToUll(s[m..], base) == StrToUll(s, base) && NumberEnd(s[m..], base) + m == NumberEnd(s, base)
  {
    hide SkipSpaces, SkipDigits, DigitsValue, NumberStart, Negative;
    StartTail(s, m, base);
    var p := NumberStart(s, base);
    SkipDigitsTail(s, m, p, base);
    DigitsValueTail(s, m, p, NumberEnd(s, base), base);
  }

  /** A line feed behind which a number still runs to the end stands in the leading white space. */
  lemma LineFeedBefore(s: seq<Byte>, q: nat)
    requires q < |s| && s[q] == LF && NumberEnd(s, 16) == |s|
    ensures q < SkipSpaces(s, 0)
  {
    assert Digit(LF, 16) == -1;
  }
}
