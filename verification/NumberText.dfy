/**
 Numbers as text: what strtoull makes of white space, a sign, a prefix and digits that were written
 by division, in either case of the letters. The alphabets are literal.
 */
module NumberText {
  import opened Bytes
  import opened Alphabet
  import opened Words
  import opened Decimal
  import opened Numbers

  /** The white space of the C library: blank, tab, line feed, vertical tab, form feed, carriage return. */
  const WHITE := " \t\n\U{000B}\U{000C}\r"

  /** d is n written in that base, perhaps with zeros in front. */
  predicate Writes(d: seq<Byte>, n: nat, base: nat) {
    && 0 < base <= 16 && d != [] && HexChar(d[|d| - 1], n % base)
    && (if |d| == 1 then n < base else Writes(d[..|d| - 1], n / base, base))
  }

  /** The byte is none of the digits of that base. */
  predicate NoDigit(b: Byte, base: nat) {
    forall k :: 0 <= k < base ==> !HexChar(b, k)
  }

  lemma WhiteIff(b: Byte)
    ensures IsSpace(b) <==> In(b, WHITE)
  {
  }

  lemma DigitIff(b: Byte, base: nat)
    requires base <= 16
    ensures forall k :: 0 <= k < base ==> (Digit(b, base) == k <==> HexChar(b, k))
    ensures Digit(b, base) == -1 <==> NoDigit(b, base)
  {
    hide DecodeHex, HexChar;
    HexAlphabet(b);
    forall k | 0 <= k < base
      ensures Digit(b, base) == k <==> HexChar(b, k)
    {
      HexCharRange(b, k);
    }
    if Digit(b, base) != -1 {
      assert HexChar(b, Digit(b, base));
    }
  }

  lemma Divided(n: nat, base: nat)
    requires base == 10 || base == 16
    ensures n == n / base * base + n % base && n % base < base
  {
  }

  lemma WritesStep(d: seq<Byte>, n: nat, base: nat)
    requires Writes(d, n, base)
    ensures d != [] && HexChar(d[|d| - 1], n % base) && 0 < base <= 16
    ensures if |d| == 1 then n < base else Writes(d[..|d| - 1], n / base, base)
  {
  }

  lemma ValueStep(d: seq<Byte>, h: nat, base: nat)
    requires h < |d| && forall k :: 0 <= k < h + 1 ==> Digit(d[k], base) != -1
    ensures DigitsValue(d, 0, h + 1, base) == DigitsValue(d, 0, h, base) * base + Digit(d[h], base)
    ensures DigitsValue(d, 0, 0, base) == 0
  {
  }

  /** Digits written by division are read back as their number. */
  lemma {:induction false} WrittenDigits(d: seq<Byte>, n: nat, base: nat)
    requires (base == 10 || base == 16) && Writes(d, n, base)
    ensures d != [] && forall k :: 0 <= k < |d| ==> Digit(d[k], base) != -1
    ensures DigitsValue(d, 0, |d|, base) == n
    decreases |d|
  {
    hide HexChar, Digit, Writes, DigitsValue;
    WritesStep(d, n, base);
    Divided(n, base);
    var h := |d| - 1;
    var init := d[..h];
    DigitIff(d[h], base);
    if h > 0 {
      WrittenDigits(init, n / base, base);
      assert forall k :: 0 <= k < h ==> d[k] == init[k];
      assert d == init + [d[h]];
      DigitsValueExtend(init, [d[h]], 0, h, base);
    }
    ValueStep(d, h, base);
  }

  /** Every number is written by its decimal digits. */
  lemma {:induction false} DigitsWrite(n: nat)
    ensures Writes(Digits(n), n, 10)
  {
    HexCharRange(48 + n % 10, n % 10);
    if n >= 10 {
      DigitsWrite(n / 10);
      assert Digits(n)[..|Digits(n)| - 1] == Digits(n / 10);
    }
  }

  predicate Sign(sign: seq<Byte>) {
    sign == [] || sign == Ascii("+") || sign == Ascii("-")
  }

  predicate Prefix(prefix: seq<Byte>, base: nat) {
    prefix == [] || (base == 16 && (prefix == Ascii("0x") || prefix == Ascii("0X")))
  }

  /** What follows a number: no digit, and no x, which could make a prefix of a zero. */
  predicate Follows(t: seq<Byte>, base: nat) {
    t != [] ==> NoDigit(t[0], base) && t[0] as char != 'x' && t[0] as char != 'X'
  }

  lemma {:induction false} SpacesSkipped(s: seq<Byte>, i: nat, e: nat)
    requires i <= e < |s| && !IsSpace(s[e]) && forall k :: i <= k < e ==> IsSpace(s[k])
    ensures SkipSpaces(s, i) == e
    decreases e - i
  {
    if i < e {
      SpacesSkipped(s, i + 1, e);
    }
  }

  lemma {:induction false} DigitsSkipped(s: seq<Byte>, i: nat, e: nat, base: nat)
    requires i <= e <= |s| && (e < |s| ==> Digit(s[e], base) == -1)
    requires forall k :: i <= k < e ==> Digit(s[k], base) != -1
    ensures SkipDigits(s, i, base) == e
    decreases e - i
  {
    if i < e {
      DigitsSkipped(s, i + 1, e, base);
    }
  }

  lemma DigitIsNoOther(b: Byte, base: nat)
    requires base <= 16
    ensures Digit(b, base) != -1 ==> !IsSpace(b) && b != 43 && b != 45 && b != 120 && b != 88
  {
  }

  /** Where the parts of a written number stand. */
  lemma Parts(s: seq<Byte>, w: seq<Byte>, sign: seq<Byte>, prefix: seq<Byte>, r: seq<Byte>)
    requires s == w + (sign + (prefix + r))
    ensures var b := |w| + |sign|; s[|w|..] == sign + (prefix + r) && s[b..] == prefix + r && s[b + |prefix|..] == r
    ensures forall k :: 0 <= k < |w| ==> s[k] == w[k]
  {
  }

  lemma SignAt(s: seq<Byte>, a: nat, sign: seq<Byte>, r: seq<Byte>)
    requires a <= |s| && s[a..] == sign + r && Sign(sign) && r != []
    requires !IsSpace(r[0]) && r[0] != 43 && r[0] != 45
    ensures a < |s| && !IsSpace(s[a]) && (Signed(s, a) <==> sign != []) && (s[a] == 45 <==> sign == Ascii("-"))
  {
    SpecialCharacters();
    assert s[a] == s[a..][0];
  }

  lemma PrefixAt(s: seq<Byte>, b: nat, prefix: seq<Byte>, r: seq<Byte>)
    requires b <= |s| && s[b..] == prefix + r && Prefix(prefix, 16) && r != []
    requires |r| > 1 ==> r[1] != 120 && r[1] != 88
    ensures HexPrefix(s, b) <==> prefix != []
  {
    SpecialCharacters();
    assert forall k :: b <= k < |s| ==> s[k] == s[b..][k - b];
  }

  lemma WrittenStart(s: seq<Byte>, w: seq<Byte>, sign: seq<Byte>, prefix: seq<Byte>, r: seq<Byte>, base: nat)
    requires s == w + (sign + (prefix + r)) && (base == 10 || base == 16)
    requires (forall k :: 0 <= k < |w| ==> IsSpace(w[k])) && Sign(sign) && Prefix(prefix, base)
    requires r != [] && !IsSpace(r[0]) && r[0] != 43 && r[0] != 45
    requires |r| > 1 ==> r[1] != 120 && r[1] != 88
    ensures NumberStart(s, base) == |w| + |sign| + |prefix| && (Negative(s) <==> sign == Ascii("-"))
    ensures s[NumberStart(s, base)..] == r
  {
    hide Sign, HexPrefix;
    var a := |w|;
    var b := a + |sign|;
    Parts(s, w, sign, prefix, r);
    PrefixStart(prefix, base);
    SignAt(s, a, sign, prefix + r);
    SpacesSkipped(s, 0, a);
    PrefixAt(s, b, prefix, r);
    assert |prefix| == (if prefix == [] then 0 else 2);
    SignLength(sign);
  }

  lemma SignLength(sign: seq<Byte>)
    requires Sign(sign)
    ensures |sign| == (if sign == [] then 0 else 1)
  {
  }

  lemma PrefixStart(prefix: seq<Byte>, base: nat)
    requires Prefix(prefix, base)
    ensures prefix != [] ==> base == 16 && prefix[0] == 48 && |prefix| == 2
    ensures Prefix(prefix, 16)
  {
    SpecialCharacters();
  }

  lemma SpecialCharacters()
    ensures Ascii("+") == [43] && Ascii("-") == [45] && Ascii("0x") == [48, 120] && Ascii("0X") == [48, 88]
    ensures 'x' as int == 120 && 'X' as int == 88
  {
  }

  lemma DigitsAt(s: seq<Byte>, c: nat, d: seq<Byte>, t: seq<Byte>, n: nat, base: nat)
    requires (base == 10 || base == 16) && c <= |s| && s[c..] == d + t && Writes(d, n, base)
    requires t != [] ==> Digit(t[0], base) == -1
    ensures SkipDigits(s, c, base) == c + |d| <= |s| && (forall k :: c <= k < c + |d| ==> Digit(s[k], base) != -1)
    ensures DigitsValue(s, c, c + |d|, base) == n
  {
    hide Writes, Digit;
    WrittenDigits(d, n, base);
    var e := c + |d|;
    assert forall k :: c <= k < |s| ==> s[k] == s[c..][k - c];
    DigitsSkipped(s, c, e, base);
    DigitsValueTail(s, c, c, e, base);
    DigitsValueExtend(d, t, 0, |d|, base);
  }

  lemma FollowsEnds(t: seq<Byte>, base: nat)
    requires Follows(t, base) && base <= 16
    ensures t != [] ==> Digit(t[0], base) == -1 && t[0] != 120 && t[0] != 88
  {
    hide NoDigit, Digit;
    SpecialCharacters();
    if t != [] { DigitIff(t[0], base); }
  }

  lemma FirstDigits(d: seq<Byte>, t: seq<Byte>, n: nat, base: nat)
    requires (base == 10 || base == 16) && Writes(d, n, base) && Follows(t, base)
    ensures var r := d + t;
            && r != [] && !IsSpace(r[0]) && r[0] != 43 && r[0] != 45
            && (|r| > 1 ==> r[1] != 120 && r[1] != 88)
  {
    hide Writes, Follows, Digit, IsSpace;
    WrittenDigits(d, n, base);
    FollowsEnds(t, base);
    DigitIsNoOther(d[0], base);
    if |d| > 1 { DigitIsNoOther(d[1], base); }
  }

  /**
   strtoull on a written number: white space and a prefix do not matter, a value beyond 64 bits
   saturates, and a minus sign negates modulo 2^64.
   */
  lemma WrittenNumber(w: seq<Byte>, sign: seq<Byte>, prefix: seq<Byte>, d: seq<Byte>, t: seq<Byte>, n: nat, base: nat)
    requires (base == 10 || base == 16) && (forall k :: 0 <= k < |w| ==> In(w[k], WHITE))
    requires Sign(sign) && Prefix(prefix, base) && Writes(d, n, base) && Follows(t, base)
    ensures StrToUll(w + (sign + (prefix + (d + t))), base) ==
            if n >= WORD_SIZE then WORD_SIZE - 1
            else if sign == Ascii("-") then (WORD_SIZE - n) % WORD_SIZE
            else n
  {
    hide Writes, In, Follows, NumberStart, Negative, Digit, IsSpace, Sign, Prefix, SkipDigits, DigitsValue;
    var s := w + (sign + (prefix + (d + t)));
    forall k | 0 <= k < |w| ensures IsSpace(w[k]) { WhiteIff(w[k]); }
    FollowsEnds(t, base);
    FirstDigits(d, t, n, base);
    WrittenStart(s, w, sign, prefix, d + t, base);
    DigitsAt(s, NumberStart(s, base), d, t, n, base);
  }

  /** strtoull reads back the decimal digits of every 64-bit number. */
  lemma DecimalRead(n: Word, t: seq<Byte>)
    requires Follows(t, 10)
    ensures StrToUll(Digits(n) + t, 10) == n
  {
    hide Digits, StrToUll;
    DigitsWrite(n);
    WrittenNumber([], [], [], Digits(n), t, n, 10);
    assert [] + ([] + ([] + (Digits(n) + t))) == Digits(n) + t;
  }
}
