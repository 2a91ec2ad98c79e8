/**
 The parts of Ruby's String and Integer behaviour that the manifest
 generator relies on: the ordering `String#<=>` that `Array#sort` uses,
 `String#gsub` with a literal pattern and an empty replacement, and
 `Integer#to_s` as used by string interpolation.
 */
module RubyString {

  predicate IsDigit(c: char) {
    '0' <= c <= '9'
  }

  predicate AllDigits(s: string) {
    forall i :: 0 <= i < |s| ==> IsDigit(s[i])
  }

  predicate HasPrefix(s: string, p: string) {
    |p| <= |s| && s[..|p|] == p
  }

  predicate HasSuffix(s: string, p: string) {
    |p| <= |s| && s[|s| - |p|..] == p
  }

  /** `pat` occurs in `s` starting at index `i`. */
  predicate OccursAt(s: string, pat: string, i: nat) {
    i + |pat| <= |s| && s[i..i + |pat|] == pat
  }

  /** `pat` occurs nowhere in `s` as a contiguous piece. */
  ghost predicate NoOccurrence(s: string, pat: string) {
    forall i: nat :: !OccursAt(s, pat, i)
  }

  // ---------------------------------------------------------------------
  // String#<=> : lexicographic by character, a proper prefix sorts first
  // ---------------------------------------------------------------------

  /** `a <= b` under Ruby's String comparison; a prefix sorts no later than the whole. */
  predicate LessEq(a: string, b: string): (r: bool)
    ensures a <= b ==> r
  {
    a == [] || (b != [] && (a[0] < b[0] || (a[0] == b[0] && LessEq(a[1..], b[1..]))))
  }

  lemma {:induction false} LessEqReflexive(a: string)
    ensures LessEq(a, a)
  {
    if a != [] {
      LessEqReflexive(a[1..]);
    }
  }

  lemma {:induction false} LessEqTotal(a: string, b: string)
    ensures LessEq(a, b) || LessEq(b, a)
  {
    if a != [] && b != [] && a[0] == b[0] {
      LessEqTotal(a[1..], b[1..]);
    }
  }

  lemma {:induction false} LessEqAntisymmetric(a: string, b: string)
    requires LessEq(a, b) && LessEq(b, a)
    ensures a == b
  {
    if a != [] && b != [] {
      LessEqAntisymmetric(a[1..], b[1..]);
      assert a == [a[0]] + a[1..] && b == [b[0]] + b[1..];
    }
  }

  lemma {:induction false} LessEqTransitive(a: string, b: string, c: string)
    requires LessEq(a, b) && LessEq(b, c)
    ensures LessEq(a, c)
  {
    if a != [] && b != [] && c != [] && a[0] == b[0] && b[0] == c[0] {
      LessEqTransitive(a[1..], b[1..], c[1..]);
    }
  }

  /** Paths that share a directory prefix compare as their remainders do. */
  lemma {:induction false} LessEqCommonPrefix(p: string, a: string, b: string)
    ensures LessEq(p + a, p + b) <==> LessEq(a, b)
  {
    if p != [] {
      assert (p + a)[0] == (p + b)[0];
      assert (p + a)[1..] == p[1..] + a;
      assert (p + b)[1..] == p[1..] + b;
      LessEqCommonPrefix(p[1..], a, b);
    } else {
      assert p + a == a && p + b == b;
    }
  }

  // ---------------------------------------------------------------------
  // String#gsub(pat, '') with a literal pattern
  // ---------------------------------------------------------------------

  /**
   Scans `s` from the left; wherever `pat` starts, that occurrence is
   dropped and the scan resumes after it, otherwise one character is kept.
   An empty pattern leaves the string as it is.
   */
  function RemoveAll(s: string, pat: string): (r: string)
    ensures |r| <= |s|
    decreases |s|
  {
    if pat == [] || |s| < |pat| then s
    else if s[..|pat|] == pat then RemoveAll(s[|pat|..], pat)
    else [s[0]] + RemoveAll(s[1..], pat)
  }

  /** Where the pattern does not occur, nothing is removed. */
  lemma {:induction false} RemoveAllNoOccurrence(s: string, pat: string)
    requires NoOccurrence(s, pat)
    ensures RemoveAll(s, pat) == s
    decreases |s|
  {
    if pat != [] && |s| >= |pat| {
      assert !OccursAt(s, pat, 0);
      assert s[..|pat|] == s[0..|pat|];
      forall i: nat
        ensures !OccursAt(s[1..], pat, i)
      {
        assert !OccursAt(s, pat, i + 1);
        if i + |pat| <= |s[1..]| {
          assert s[1..][i..i + |pat|] == s[i + 1..i + 1 + |pat|];
        }
      }
      RemoveAllNoOccurrence(s[1..], pat);
      assert s == [s[0]] + s[1..];
    }
  }

  /**
   A pattern whose first character appears nowhere else in it (".png" is
   one) is removed from the end of a string that does not otherwise
   contain it, leaving exactly the rest.
   */
  lemma {:induction false} RemoveAllDropsSuffix(base: string, pat: string)
    requires pat != [] && pat[0] !in pat[1..]
    requires NoOccurrence(base, pat)
    ensures RemoveAll(base + pat, pat) == base
    decreases |base|
  {
    var s := base + pat;
    if base == [] {
      assert s == pat;
      assert s[|pat|..] == [];
    } else {
      assert s[..|pat|] != pat by {
        if |base| >= |pat| {
          assert !OccursAt(base, pat, 0);
          assert s[..|pat|] == base[0..0 + |pat|];
        } else {
          assert s[..|pat|][|base|] == pat[0];
          assert pat[|base|] == pat[1..][|base| - 1] != pat[0];
        }
      }
      forall i: nat
        ensures !OccursAt(base[1..], pat, i)
      {
        assert !OccursAt(base, pat, i + 1);
        if i + |pat| <= |base[1..]| {
          assert base[1..][i..i + |pat|] == base[i + 1..i + 1 + |pat|];
        }
      }
      assert s[1..] == base[1..] + pat;
      RemoveAllDropsSuffix(base[1..], pat);
      assert base == [base[0]] + base[1..];
    }
  }

  /**
   Where the pattern's first character does not recur in it (".png" is
   such a pattern), occurrences never overlap, so an occurrence splits the
   removal: what precedes it and what follows it are treated separately.
   With RemoveAllNoOccurrence this fixes the result for every string.
   */
  lemma {:induction false} RemoveAllSplit(a: string, b: string, pat: string)
    requires pat != [] && pat[0] !in pat[1..]
    ensures RemoveAll(a + pat + b, pat) == RemoveAll(a, pat) + RemoveAll(b, pat)
    decreases |a|
  {
    var s := a + pat + b;
    if a == [] {
      assert s == pat + b;
      assert s[..|pat|] == pat && s[|pat|..] == b;
    } else if |a| >= |pat| && a[..|pat|] == pat {
      assert s[..|pat|] == pat;
      assert s[|pat|..] == a[|pat|..] + pat + b;
      RemoveAllSplit(a[|pat|..], b, pat);
    } else {
      assert s[..|pat|] != pat by {
        if |a| >= |pat| {
          assert s[..|pat|] == a[..|pat|];
        } else {
          assert s[..|pat|][|a|] == pat[0];
          assert pat[|a|] == pat[1..][|a| - 1] != pat[0];
        }
      }
      assert s[0] == a[0];
      assert s[1..] == a[1..] + pat + b;
      RemoveAllSplit(a[1..], b, pat);
      assert a == [a[0]] + a[1..];
    }
  }

  /**
   One pass can leave a new occurrence behind: removing ".png" from
   "..pngpng" yields ".png", so the removal is not idempotent.
   */
  lemma RemoveAllNotIdempotent()
    ensures RemoveAll("..pngpng", ".png") == ".png"
    ensures RemoveAll(RemoveAll("..pngpng", ".png"), ".png") == ""
  {
    var s := "..pngpng";
    assert s[..4] == "..pn" != ".png";
    assert s[1..] == ".pngpng";
    assert s[1..][..4] == ".png";
    assert s[1..][4..] == "png";
    assert ".png"[..4] == ".png";
    assert ".png"[4..] == "";
  }

  // ---------------------------------------------------------------------
  // Integer#to_s in base 10
  // ---------------------------------------------------------------------

  function DigitChar(d: nat): (c: char)
    requires d < 10
    ensures IsDigit(c)
  {
    (48 + d) as char
  }

  function DigitValue(c: char): (d: nat)
    requires IsDigit(c)
    ensures d < 10
  {
    c as int - 48
  }

  /** The decimal digits of `n`, most significant first, without leading zeros. */
  function NatToS(n: nat): (s: string)
    ensures s != [] && AllDigits(s)
    ensures s[0] == '0' ==> n == 0 && |s| == 1
    decreases n
  {
    if n < 10 then [DigitChar(n)] else NatToS(n / 10) + [DigitChar(n % 10)]
  }

  /**
   Integer text in its canonical form: no leading zero except for zero
   itself, and no minus sign before zero.
   */
  predicate CanonicalIntegerText(s: string) {
    IsIntegerText(s)
    && (s[0] == '0' ==> s == "0")
    && (s[0] == '-' ==> s[1] != '0')
  }

  /** Integer#to_s: a minus sign before the digits of a negative number. */
  function IntToS(i: int): (s: string)
    ensures CanonicalIntegerText(s)
    ensures s[0] == '-' <==> i < 0
  {
    if i < 0 then "-" + NatToS(-i) else NatToS(i)
  }

  /** The value of a string of decimal digits. */
  function DecimalValue(s: string): nat
    requires AllDigits(s)
  {
    if s == [] then 0 else DecimalValue(s[..|s| - 1]) * 10 + DigitValue(s[|s| - 1])
  }

  /** Text that reads as an integer: digits, optionally after a minus sign. */
  predicate IsIntegerText(s: string) {
    (s != [] && AllDigits(s)) || (|s| >= 2 && s[0] == '-' && AllDigits(s[1..]))
  }

  function IntegerValue(s: string): int
    requires IsIntegerText(s)
  {
    if s[0] == '-' then -(DecimalValue(s[1..]) as int) else DecimalValue(s)
  }

  lemma {:induction false} NatToSRoundTrip(n: nat)
    ensures DecimalValue(NatToS(n)) == n
    decreases n
  {
    var s := NatToS(n);
    if n >= 10 {
      NatToSRoundTrip(n / 10);
      assert s[..|s| - 1] == NatToS(n / 10);
      assert s[|s| - 1] == DigitChar(n % 10);
    }
  }

  /** Rendering an integer and reading it back gives the integer. */
  lemma IntToSRoundTrip(i: int)
    ensures IsIntegerText(IntToS(i)) && IntegerValue(IntToS(i)) == i
  {
    if i < 0 {
      NegativeRoundTrip(-i);
    } else {
      var s := NatToS(i);
      assert s[0] != '-' by { assert IsDigit(s[0]); }
      NatToSRoundTrip(i);
    }
  }

  lemma NegativeRoundTrip(n: nat)
    requires n > 0
    ensures var s := "-" + NatToS(n);
      IsIntegerText(s) && IntegerValue(s) == -(n as int)
  {
    var d := NatToS(n);
    var s := "-" + d;
    assert s[0] == '-' && s[1..] == d;
    NatToSRoundTrip(n);
  }
}
