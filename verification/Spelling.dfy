/** Decimal spellings: what padding with zeros, stripping zeros and removing underscores do to the
    number a string of digits stands for. */
module Spelling {
  import opened Bits
  import opened Chars

  lemma {:induction false} NumberConcat(s: string, t: string)
    requires AllDigits(s) && AllDigits(t)
    ensures AllDigits(s + t) && Number(s + t) == Number(s) * Pow(10, |t|) + Number(t)
  {
    if t == [] {
      assert s + t == s;
    } else {
      var t' := t[..|t| - 1];
      NumberConcat(s, t');
      assert (s + t)[..|s + t| - 1] == s + t';
      assert Number(s) * Pow(10, |t|) == 10 * (Number(s) * Pow(10, |t'|));
    }
  }

  lemma {:induction false} NumberBelow(s: string)
    requires AllDigits(s)
    ensures Number(s) < Pow(10, |s|)
  {
    if s != [] { NumberBelow(s[..|s| - 1]); }
  }

  lemma {:induction false} NumberOfDigits(n: nat)
    ensures Number(Digits(n)) == n
    ensures Digits(n)[0] == '0' ==> n == 0 && |Digits(n)| == 1
  {
    if n >= 10 {
      NumberOfDigits(n / 10);
      assert Digits(n)[..|Digits(n)| - 1] == Digits(n / 10);
    } else {
      assert Digits(n)[..0] == [];
    }
  }

  lemma {:induction false} DigitsLength(n: nat, w: nat)
    requires 0 < w && n < Pow(10, w)
    ensures |Digits(n)| <= w
  {
    if n >= 10 {
      assert Pow(10, 1) == 10;
      DigitsLength(n / 10, w - 1);
    }
  }

  /** A spelling is canonical when it is "0" or does not start with a zero. */
  predicate Canonical(s: string) {
    s != [] && AllDigits(s) && (s[0] == '0' ==> |s| == 1)
  }

  lemma {:induction false} CanonicalIsDigits(s: string)
    requires Canonical(s)
    ensures s == Digits(Number(s))
  {
    var s' := s[..|s| - 1];
    assert s == s' + [s[|s| - 1]];
    if |s| > 1 {
      CanonicalIsDigits(s');
      CanonicalPositive(s');
    }
  }

  lemma {:induction false} CanonicalPositive(s: string)
    requires Canonical(s) && s[0] != '0'
    ensures 0 < Number(s)
  {
    if |s| > 1 { CanonicalPositive(s[..|s| - 1]); }
  }

  lemma {:induction false} NumberOfZeros(n: nat)
    ensures AllDigits(Repeat('0', n)) && Number(Repeat('0', n)) == 0
  {
    var z := Repeat('0', n);
    if n != 0 {
      NumberOfZeros(n - 1);
      assert z[..n - 1] == Repeat('0', n - 1) by { RepeatPrefix(n); }
    }
  }

  lemma RepeatPrefix(n: nat)
    requires 0 < n
    ensures Repeat('0', n)[..n - 1] == Repeat('0', n - 1)
  {
  }

  lemma NumberOfZeroFill(s: string, w: nat)
    requires AllDigits(s)
    ensures AllDigits(ZeroFill(s, w)) && Number(ZeroFill(s, w)) == Number(s)
    ensures |ZeroFill(s, w)| == if |s| >= w then |s| else w
  {
    if |s| < w {
      NumberOfZeros(w - |s|);
      NumberConcat(Repeat('0', w - |s|), s);
    }
  }

  /** `s.lstrip('0')` */
  function StripZeros(s: string): string {
    if s != [] && s[0] == '0' then StripZeros(s[1..]) else s
  }

  lemma {:induction false} NumberOfStripZeros(s: string)
    requires AllDigits(s)
    ensures AllDigits(StripZeros(s)) && Number(StripZeros(s)) == Number(s)
    ensures StripZeros(s) != [] ==> StripZeros(s)[0] != '0'
  {
    if s != [] && s[0] == '0' {
      NumberOfStripZeros(s[1..]);
      assert s == [s[0]] + s[1..] && Number([s[0]]) == DigitValue(s[0]) by { assert [s[0]][..0] == []; }
      NumberConcat([s[0]], s[1..]);
    }
  }

  predicate IsDigitOrUnderscore(c: char) { IsDigit(c) || c == '_' }

  /** `s.replace('_', '')` */
  function RemoveUnderscores(s: string): string {
    if s == [] then [] else (if s[0] == '_' then [] else [s[0]]) + RemoveUnderscores(s[1..])
  }

  lemma {:induction false} OnlyDigitsLeft(s: string)
    requires forall i :: 0 <= i < |s| ==> IsDigitOrUnderscore(s[i])
    ensures AllDigits(RemoveUnderscores(s))
  {
    if s != [] { OnlyDigitsLeft(s[1..]); }
  }

  lemma {:induction false} NoUnderscores(s: string)
    requires AllDigits(s)
    ensures RemoveUnderscores(s) == s
  {
    if s != [] { NoUnderscores(s[1..]); assert s == [s[0]] + s[1..]; }
  }
}
