/** The Luhn checksum and the credit-card check built on it
    (pkg/redaction/patterns.go), after Annex B of ISO/IEC 7812-1. */
module Luhn {
  import opened Text

  predicate AllDigits(s: string) {
    forall i :: 0 <= i < |s| ==> IsDigit(s[i])
  }

  function Value(c: char): (d: nat)
    requires IsDigit(c)
    ensures d <= 9
  {
    c as int - '0' as int
  }

  /** What a digit adds: itself, or twice itself with the digits of that summed. */
  function Weight(d: nat, double: bool): nat
    requires d <= 9
  {
    if !double then d else if 2 * d > 9 then 2 * d - 9 else 2 * d
  }

  /** The weighted sum from the right, where `double` says whether the last digit is doubled. */
  function Sum(s: string, double: bool): nat
    requires AllDigits(s)
  {
    if s == [] then 0
    else
      var n := |s| - 1;
      Weight(Value(s[n]), double) + Sum(s[..n], !double)
  }

  predicate Valid(s: string)
    requires AllDigits(s)
  {
    Sum(s, false) % 10 == 0
  }

  method LuhnValid(digits: string) returns (ok: bool)
    requires AllDigits(digits)
    ensures ok <==> Valid(digits)
  {
    var sum := 0;
    var double := false;
    var i := |digits| - 1;
    assert digits[..|digits|] == digits;
    while i >= 0
      invariant -1 <= i < |digits|
      invariant sum + Sum(digits[..i + 1], double) == Sum(digits, false)
    {
      assert digits[..i + 1][..i] == digits[..i];
      var d := Value(digits[i]);
      if double {
        d := d * 2;
        if d > 9 {
          d := d - 9;
        }
      }
      sum := sum + d;
      double := !double;
      i := i - 1;
    }
    ok := sum % 10 == 0;
  }

  // ------------------------------------------------------------ what it detects

  lemma {:induction false} SumSplit(a: string, b: string, double: bool)
    requires AllDigits(a + b)
    ensures AllDigits(a) && AllDigits(b)
    ensures Sum(a + b, double) == Sum(b, double) + Sum(a, if |b| % 2 == 0 then double else !double)
    decreases |b|
  {
    forall i | 0 <= i < |a| ensures IsDigit(a[i]) { assert (a + b)[i] == a[i]; }
    forall i | 0 <= i < |b| ensures IsDigit(b[i]) { assert (a + b)[|a| + i] == b[i]; }
    if b == [] {
      assert a + b == a;
    } else {
      var n := |b| - 1;
      assert (a + b)[..|a| + n] == a + b[..n];
      SumSplit(a, b[..n], !double);
    }
  }

  lemma SumOne(c: char, double: bool)
    requires IsDigit(c)
    ensures Sum([c], double) == Weight(Value(c), double)
  {
    assert Sum([c][..0], !double) == 0;
  }

  /** The sum is the weight of one position plus a rest that does not depend on it. */
  lemma SumAt(a: string, c: char, b: string, double: bool)
    requires AllDigits(a) && IsDigit(c) && AllDigits(b)
    ensures AllDigits(a + [c] + b)
    ensures var flipped := if |b| % 2 == 0 then double else !double;
            Sum(a + [c] + b, double) == Sum(b, double) + Weight(Value(c), flipped) + Sum(a, !flipped)
  {
    SumSplit(a + [c], b, double);
    SumSplit(a, [c], if |b| % 2 == 0 then double else !double);
    SumOne(c, if |b| % 2 == 0 then double else !double);
  }

  /** Doubling permutes the digits. */
  lemma WeightInjective(c: nat, d: nat, double: bool)
    requires c <= 9 && d <= 9
    ensures Weight(c, double) <= 9
    ensures Weight(c, double) == Weight(d, double) ==> c == d
  {
  }

  lemma SameResidue(x: nat, y: nat)
    requires x <= 9 && y <= 9 && Congruent(x, y)
    ensures x == y
  {
  }

  lemma ChangedDigit(a: string, d: char, c: char, b: string)
    requires AllDigits(a + [d] + b) && Valid(a + [d] + b) && IsDigit(c) && c != d
    ensures AllDigits(a + [c] + b) && !Valid(a + [c] + b)
  {
    DigitsOf(a, d, b);
    SumAt(a, d, b, false);
    SumAt(a, c, b, false);
    var flipped := |b| % 2 != 0;
    WeightInjective(Value(d), Value(c), flipped);
    WeightInjective(Value(c), Value(d), flipped);
    hide *;
    BothValid(a + [d] + b, a + [c] + b, Sum(b, false) + Sum(a, !flipped),
              Weight(Value(d), flipped), Weight(Value(c), flipped));
    if Valid(a + [c] + b) {
      SameResidue(Weight(Value(c), flipped), Weight(Value(d), flipped));
      DigitValues(c, d);
    }
  }

  lemma DigitValues(c: char, d: char)
    requires IsDigit(c) && IsDigit(d) && Value(c) == Value(d)
    ensures c == d
  {
  }

  lemma DigitsOf(a: string, d: char, b: string)
    requires AllDigits(a + [d] + b)
    ensures AllDigits(a) && IsDigit(d) && AllDigits(b)
  {
    var s := a + [d] + b;
    forall i | 0 <= i < |a| ensures IsDigit(a[i]) { assert s[i] == a[i]; }
    forall i | 0 <= i < |b| ensures IsDigit(b[i]) { assert s[|a| + 1 + i] == b[i]; }
    assert s[|a|] == d;
  }

  /** Changing one digit of a valid string makes it invalid. */
  lemma SingleErrorDetected(s: string, i: nat, c: char)
    requires AllDigits(s) && Valid(s) && i < |s| && IsDigit(c) && c != s[i]
    ensures AllDigits(s[i := c]) && !Valid(s[i := c])
  {
    var a, b := s[..i], s[i + 1..];
    assert s == a + [s[i]] + b && s[i := c] == a + [c] + b;
    hide *;
    ChangedDigit(a, s[i], c, b);
  }

  predicate Congruent(x: nat, y: nat) { x % 10 == y % 10 }

  lemma AddMod(rest: nat, x: nat, y: nat)
    ensures Congruent(rest + x, rest + y) <==> Congruent(x, y)
  {
  }

  /** Of two numbers that share part of their sums, one valid, the other is valid when
      the remaining parts are congruent. */
  lemma BothValid(s: string, s': string, rest: nat, x: nat, y: nat)
    requires AllDigits(s) && AllDigits(s') && Valid(s)
    requires Sum(s, false) == rest + x && Sum(s', false) == rest + y
    ensures Valid(s') <==> Congruent(y, x)
  {
    hide Sum, AllDigits;
    AddMod(rest, y, x);
  }

  predicate ZeroAndNine(c: nat, d: nat) { (c == 0 && d == 9) || (c == 9 && d == 0) }

  /** Two distinct neighbours add up differently when swapped, except 0 and 9. */
  lemma PairWeights(c: nat, d: nat, double: bool)
    requires c <= 9 && d <= 9 && c != d
    ensures Congruent(Weight(c, double) + Weight(d, !double), Weight(d, double) + Weight(c, !double))
            <==> ZeroAndNine(c, d)
  {
    if double { DoubledFirst(c, d); } else { DoubledFirst(d, c); }
  }

  lemma DoubledFirst(c: nat, d: nat)
    requires c <= 9 && d <= 9 && c != d
    ensures Congruent(Weight(c, true) + d, Weight(d, true) + c) <==> ZeroAndNine(c, d)
    ensures Congruent(d + Weight(c, true), c + Weight(d, true)) <==> ZeroAndNine(c, d)
  {
    var x, y := Weight(c, true) + d, Weight(d, true) + c;
    assert x % 10 == y % 10 <==> x == y || x == y + 10 || y == x + 10;
  }

  /** Swapping two adjacent distinct digits of a valid string goes unnoticed exactly
      when they are 0 and 9. */
  lemma TranspositionDetected(s: string, i: nat)
    requires AllDigits(s) && Valid(s) && i + 1 < |s| && s[i] != s[i + 1]
    ensures AllDigits(s[i := s[i + 1]][i + 1 := s[i]])
    ensures Valid(s[i := s[i + 1]][i + 1 := s[i]]) <==> ZeroAndNine(Value(s[i]), Value(s[i + 1]))
  {
    var a, b, c, d := s[..i], s[i + 2..], s[i], s[i + 1];
    assert s == a + [c] + ([d] + b);
    assert s[i := d][i + 1 := c] == a + [d] + ([c] + b);
    hide *;
    SwappedPair(a, c, d, b);
  }

  lemma SwappedPair(a: string, c: char, d: char, b: string)
    requires AllDigits(a) && IsDigit(c) && IsDigit(d) && AllDigits(b) && c != d
    requires AllDigits(a + [c] + ([d] + b)) && AllDigits(a + [d] + ([c] + b))
    requires Valid(a + [c] + ([d] + b))
    ensures Valid(a + [d] + ([c] + b)) <==> ZeroAndNine(Value(c), Value(d))
  {
    var flipped := |b| % 2 != 0;
    PairWeights(Value(c), Value(d), flipped);
    hide *;
    SumPair(a, c, d, b);
    SumPair(a, d, c, b);
    BothValid(a + [c] + ([d] + b), a + [d] + ([c] + b), Sum(b, false) + Sum(a, flipped),
              Weight(Value(d), flipped) + Weight(Value(c), !flipped),
              Weight(Value(c), flipped) + Weight(Value(d), !flipped));
  }

  lemma SumPair(a: string, c: char, d: char, b: string)
    requires AllDigits(a) && IsDigit(c) && IsDigit(d) && AllDigits(b)
    ensures AllDigits(a + [c] + ([d] + b))
    ensures var flipped := |b| % 2 != 0;
            Sum(a + [c] + ([d] + b), false)
            == (Sum(b, false) + Sum(a, flipped)) + (Weight(Value(d), flipped) + Weight(Value(c), !flipped))
  {
    hide Weight, Sum;
    assert AllDigits([d] + b);
    SumAt(a, c, [d] + b, false);
    SumSplit([d], b, false);
    SumOne(d, |b| % 2 != 0);
  }

  /** The digit that completes a prefix. */
  function CheckDigit(prefix: string): (c: char)
    requires AllDigits(prefix)
    ensures IsDigit(c)
  {
    ((10 - Sum(prefix, true) % 10) % 10 + '0' as int) as char
  }

  /** Every prefix has exactly one check digit. */
  lemma CheckDigitUnique(prefix: string, c: char)
    requires AllDigits(prefix) && IsDigit(c)
    ensures AllDigits(prefix + [c])
    ensures Valid(prefix + [c]) <==> c == CheckDigit(prefix)
  {
    assert (prefix + [c])[..|prefix|] == prefix;
  }

  // ------------------------------------------------------------ card numbers

  predicate IsSeparator(c: char) { c == ' ' || c == '-' }

  function Stripped(s: string): string {
    if s == [] then []
    else (if IsSeparator(s[0]) then [] else [s[0]]) + Stripped(s[1..])
  }

  /** What counts as a card number: 13 to 19 digits with a valid checksum, however grouped. */
  predicate CardNumber(s: string) {
    13 <= |Stripped(s)| <= 19 && AllDigits(Stripped(s)) && Valid(Stripped(s))
  }

  method StripSeparators(s: string) returns (digits: string)
    ensures digits == Stripped(s)
  {
    digits := [];
    for i := 0 to |s|
      invariant digits + Stripped(s[i..]) == Stripped(s)
    {
      assert s[i..][1..] == s[i + 1..];
      if !IsSeparator(s[i]) {
        digits := digits + [s[i]];
      }
    }
  }

  method IsValidCreditCard(text: string) returns (ok: bool)
    ensures ok <==> CardNumber(text)
  {
    var digits := StripSeparators(text);
    if |digits| < 13 || |digits| > 19 {
      return false;
    }
    for i := 0 to |digits|
      invariant AllDigits(digits[..i])
    {
      if !IsDigit(digits[i]) {
        return false;
      }
    }
    assert digits[..|digits|] == digits;
    ok := LuhnValid(digits);
  }

  lemma {:induction false} StrippedConcat(a: string, b: string)
    ensures Stripped(a + b) == Stripped(a) + Stripped(b)
  {
    if a == [] {
      assert a + b == b && [] + Stripped(b) == Stripped(b);
    } else {
      StrippedCons(a[0], a[1..]);
      StrippedCons(a[0], a[1..] + b);
      hide *;
      StrippedConcat(a[1..], b);
      assert a == [a[0]] + a[1..] && a + b == [a[0]] + (a[1..] + b);
      var first := if IsSeparator(a[0]) then [] else [a[0]];
      assert first + (Stripped(a[1..]) + Stripped(b)) == first + Stripped(a[1..]) + Stripped(b);
    }
  }

  lemma StrippedCons(c: char, rest: string)
    ensures Stripped([c] + rest) == (if IsSeparator(c) then [] else [c]) + Stripped(rest)
  {
    assert ([c] + rest)[1..] == rest;
  }

  /** Grouping does not matter: a separator put in anywhere changes nothing. */
  lemma GroupingIrrelevant(a: string, sep: char, b: string)
    requires IsSeparator(sep)
    ensures CardNumber(a + [sep] + b) <==> CardNumber(a + b)
  {
    StrippedConcat(a + [sep], b);
    StrippedConcat(a, [sep]);
    StrippedConcat(a, b);
    assert Stripped([sep]) == [] + Stripped([sep][1..]) == [];
    assert Stripped(a) + [] == Stripped(a);
  }

  lemma StrippedAt(a: string, c: char, b: string)
    requires !IsSeparator(c)
    ensures Stripped(a + [c] + b) == Stripped(a) + [c] + Stripped(b)
  {
    StrippedConcat(a + [c], b);
    StrippedConcat(a, [c]);
    assert Stripped([c]) == [c] + Stripped([c][1..]);
  }

  /** A mistyped digit is caught in the grouped text as well. */
  lemma CardErrorDetected(s: string, i: nat, c: char)
    requires CardNumber(s) && i < |s| && IsDigit(s[i]) && IsDigit(c) && c != s[i]
    ensures !CardNumber(s[i := c])
  {
    var a, b := s[..i], s[i + 1..];
    assert s == a + [s[i]] + b && s[i := c] == a + [c] + b;
    StrippedAt(a, s[i], b);
    StrippedAt(a, c, b);
    var j := |Stripped(a)|;
    assert Stripped(s)[j := c] == Stripped(s[i := c]);
    SingleErrorDetected(Stripped(s), j, c);
  }
}
