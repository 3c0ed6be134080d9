/**
 The string operations the screens rely on: `String.trim`, `toLowerCase`, `contains`,
 `compareToIgnoreCase`, `Integer.parseInt` and `String.valueOf(int)`.
 Case mapping is restricted to ASCII letters; every other character maps to itself.
 */
module Text {
  import opened Values

  /** The characters `String.trim` removes: every code point up to and including the space. */
  predicate IsTrimmed(c: char)
  {
    c <= ' '
  }

  function TrimStart(s: string): (r: string)
    ensures |r| <= |s| && r == s[|s| - |r|..]
    ensures forall i :: 0 <= i < |s| - |r| ==> IsTrimmed(s[i])
    ensures r == [] || !IsTrimmed(r[0])
  {
    if s != [] && IsTrimmed(s[0]) then TrimStart(s[1..]) else s
  }

  function TrimEnd(s: string): (r: string)
    ensures |r| <= |s| && r == s[..|r|]
    ensures forall i :: |r| <= i < |s| ==> IsTrimmed(s[i])
    ensures r == [] || !IsTrimmed(r[|r| - 1])
  {
    if s != [] && IsTrimmed(s[|s| - 1]) then TrimEnd(s[..|s| - 1]) else s
  }

  /** `r` is `s[i..j]`, and everything of `s` before `i` and from `j` on is blank. */
  predicate TrimmedInfix(s: string, r: string, i: int, j: int)
  {
    && 0 <= i <= j <= |s| && r == s[i..j]
    && (forall k :: 0 <= k < i ==> IsTrimmed(s[k]))
    && (forall k :: j <= k < |s| ==> IsTrimmed(s[k]))
  }

  /**
   `String.trim`: `s` with its leading and trailing characters `<= ' '` removed, and no more, so
   the result neither starts nor ends with such a character.
   */
  function Trim(s: string): (r: string)
    ensures exists i, j :: TrimmedInfix(s, r, i, j)
    ensures r == [] || (!IsTrimmed(r[0]) && !IsTrimmed(r[|r| - 1]))
  {
    TrimInfix(s, TrimStart(s), TrimEnd(TrimStart(s)));
    TrimEnd(TrimStart(s))
  }

  /**
   Where the trimmed text sits in `s`: `t` is `s` after dropping a blank prefix and `r` is `t`
   after dropping a blank suffix, so `r` is an infix of `s` with blanks on both sides.
   */
  lemma TrimInfix(s: string, t: string, r: string)
    requires |t| <= |s| && t == s[|s| - |t|..] && forall k :: 0 <= k < |s| - |t| ==> IsTrimmed(s[k])
    requires |r| <= |t| && r == t[..|r|] && forall k :: |r| <= k < |t| ==> IsTrimmed(t[k])
    ensures TrimmedInfix(s, r, |s| - |t|, |s| - |t| + |r|)
  {
    var i := |s| - |t|;
    assert r == s[i..i + |r|];
    forall k | i + |r| <= k < |s| ensures IsTrimmed(s[k]) {
      assert s[k] == t[k - i];
    }
  }

  /** Trimming leaves nothing exactly when every character is blank. */
  lemma TrimEmptyIff(s: string)
    ensures Trim(s) == [] <==> forall i :: 0 <= i < |s| ==> IsTrimmed(s[i])
  {
    var t := TrimStart(s);
    if Trim(s) == [] {
      assert t == [];
    } else {
      var r := Trim(s);
      assert r == t[..|r|];
      assert s[|s| - |t|] == t[0] == r[0];
    }
  }

  function LowerChar(c: char): (r: char)
    ensures 'A' <= c <= 'Z' ==> r as int == c as int + 32
    ensures !('A' <= c <= 'Z') ==> r == c
  {
    if 'A' <= c <= 'Z' then (c as int + 32) as char else c
  }

  /** `String.toLowerCase`, character by character. */
  function Lower(s: string): (r: string)
    ensures |r| == |s|
    ensures forall i :: 0 <= i < |s| ==> r[i] == LowerChar(s[i])
  {
    seq(|s|, i requires 0 <= i < |s| => LowerChar(s[i]))
  }

  predicate IsPrefix(q: string, s: string)
  {
    |q| <= |s| && s[..|q|] == q
  }

  /** `s.contains(q)`: `q` occurs in `s` at some position. */
  predicate Contains(s: string, q: string)
  {
    IsPrefix(q, s) || (s != [] && Contains(s[1..], q))
  }

  /** `q` occurs in `s` starting at index `k`. */
  predicate OccursAt(s: string, q: string, k: nat)
  {
    k + |q| <= |s| && s[k..k + |q|] == q
  }

  lemma {:induction false} ContainsAt(s: string, q: string)
    ensures Contains(s, q) <==> exists k: nat :: OccursAt(s, q, k)
  {
    if IsPrefix(q, s) {
      assert OccursAt(s, q, 0);
    } else if s != [] {
      ContainsAt(s[1..], q);
      if Contains(s[1..], q) {
        var k: nat :| OccursAt(s[1..], q, k);
        assert s[k + 1..k + 1 + |q|] == s[1..][k..k + |q|];
        assert OccursAt(s, q, k + 1);
      } else {
        forall k: nat | OccursAt(s, q, k) ensures false {
          if k > 0 {
            var j := k - 1;
            assert s[1..][j..j + |q|] == s[j + 1..j + 1 + |q|];
            assert OccursAt(s[1..], q, j);
          }
        }
      }
    } else {
      forall k: nat | OccursAt(s, q, k) ensures false {
      }
    }
  }

  /**
   `a.compareToIgnoreCase(b)`: compares the case-folded characters one by one and returns the
   difference of the first pair that differs, or the difference of the lengths.
   */
  function CompareIgnoreCase(a: string, b: string): int
  {
    if a == [] || b == [] then |a| - |b|
    else if LowerChar(a[0]) != LowerChar(b[0]) then LowerChar(a[0]) as int - LowerChar(b[0]) as int
    else CompareIgnoreCase(a[1..], b[1..])
  }

  lemma {:induction false} CompareIgnoreCaseZeroIff(a: string, b: string)
    ensures CompareIgnoreCase(a, b) == 0 <==> Lower(a) == Lower(b)
  {
    if a == [] || b == [] {
      if |a| != |b| {
        assert |Lower(a)| != |Lower(b)|;
      }
    } else if LowerChar(a[0]) != LowerChar(b[0]) {
      assert Lower(a)[0] != Lower(b)[0];
    } else {
      CompareIgnoreCaseZeroIff(a[1..], b[1..]);
      assert Lower(a)[1..] == Lower(a[1..]);
      assert Lower(b)[1..] == Lower(b[1..]);
      if Lower(a[1..]) == Lower(b[1..]) {
        assert Lower(a) == [Lower(a)[0]] + Lower(a)[1..];
        assert Lower(b) == [Lower(b)[0]] + Lower(b)[1..];
      }
    }
  }

  lemma {:induction false} CompareIgnoreCaseAntisymmetric(a: string, b: string)
    ensures CompareIgnoreCase(a, b) == -CompareIgnoreCase(b, a)
  {
    if a != [] && b != [] && LowerChar(a[0]) == LowerChar(b[0]) {
      CompareIgnoreCaseAntisymmetric(a[1..], b[1..]);
    }
  }

  lemma {:induction false} CompareIgnoreCaseTransitive(a: string, b: string, c: string)
    requires CompareIgnoreCase(a, b) <= 0 && CompareIgnoreCase(b, c) <= 0
    ensures CompareIgnoreCase(a, c) <= 0
  {
    if a != [] && b != [] && c != [] {
      if LowerChar(a[0]) == LowerChar(b[0]) && LowerChar(b[0]) == LowerChar(c[0]) {
        CompareIgnoreCaseTransitive(a[1..], b[1..], c[1..]);
      }
    }
  }

  predicate IsDigit(c: char)
  {
    '0' <= c <= '9'
  }

  predicate AllDigits(s: string)
  {
    forall i :: 0 <= i < |s| ==> IsDigit(s[i])
  }

  /** The value of a run of decimal digits, most significant first. */
  function DigitsValue(s: string): (n: nat)
    requires AllDigits(s)
  {
    if s == [] then 0 else DigitsValue(s[..|s| - 1]) * 10 + (s[|s| - 1] as int - '0' as int)
  }

  /** The text of an integer: an optional sign, then at least one decimal digit. */
  predicate IntText(s: string)
  {
    if s != [] && (s[0] == '-' || s[0] == '+') then |s| > 1 && AllDigits(s[1..])
    else s != [] && AllDigits(s)
  }

  /** The value such a text denotes. */
  function IntTextValue(s: string): int
    requires IntText(s)
  {
    if s[0] == '-' then -(DigitsValue(s[1..]) as int)
    else if s[0] == '+' then DigitsValue(s[1..])
    else DigitsValue(s)
  }

  /**
   `Integer.parseInt(s)`: an optional sign followed by at least one decimal digit, whose value
   fits in 32 bits; anything else is a `NumberFormatException`, modelled as `None`.
   */
  function ParseInt(s: string): (r: Option<int>)
    ensures r.Some? <==> IntText(s) && IsInt32(IntTextValue(s))
    ensures r.Some? ==> r.value == IntTextValue(s) && IsInt32(r.value)
  {
    if s == [] then None
    else if s[0] == '-' || s[0] == '+' then
      if |s| == 1 || !AllDigits(s[1..]) then None
      else
        var v: int := if s[0] == '-' then -(DigitsValue(s[1..]) as int) else DigitsValue(s[1..]);
        if IsInt32(v) then Some(v) else None
    else if !AllDigits(s) then None
    else if IsInt32(DigitsValue(s)) then Some(DigitsValue(s)) else None
  }

  /** Digits followed by a letter are refused. */
  lemma ParseIntTrailingLetter()
    ensures ParseInt("12a") == None
  {
    assert !IsDigit("12a"[2]);
  }

  /** A doubled sign is refused. */
  lemma ParseIntDoubleSign()
    ensures ParseInt("--1") == None
  {
    assert !IsDigit("--1"[1..][0]);
  }

  /** The value of four nines, digit by digit. */
  lemma FourNines()
    ensures AllDigits("9999") && DigitsValue("9999") == 9999
  {
    assert DigitsValue("9") == 9;
    assert "99"[..1] == "9";
    assert DigitsValue("99") == 99;
    assert "999"[..2] == "99";
    assert DigitsValue("999") == 999;
    assert "9999"[..3] == "999";
    assert DigitsValue("9999") == 9999;
  }

  /** The value of eight nines, from four. */
  lemma EightNines()
    ensures AllDigits("99999999") && DigitsValue("99999999") == 99999999
  {
    FourNines();
    assert "99999"[..4] == "9999";
    assert DigitsValue("99999") == 99999;
    assert "999999"[..5] == "99999";
    assert DigitsValue("999999") == 999999;
    assert "9999999"[..6] == "999999";
    assert DigitsValue("9999999") == 9999999;
    assert "99999999"[..7] == "9999999";
    assert DigitsValue("99999999") == 99999999;
  }

  /** The value of eleven nines, from eight. */
  lemma ElevenNines()
    ensures AllDigits("99999999999") && DigitsValue("99999999999") == 99999999999
  {
    EightNines();
    assert "999999999"[..8] == "99999999";
    assert DigitsValue("999999999") == 999999999;
    assert "9999999999"[..9] == "999999999";
    assert DigitsValue("9999999999") == 9999999999;
    assert "99999999999"[..10] == "9999999999";
    assert DigitsValue("99999999999") == 99999999999;
  }

  /** A number beyond 32 bits, as a numeric keypad allows, is refused. */
  lemma ParseIntOverflow()
    ensures ParseInt("99999999999") == None
  {
    ElevenNines();
  }

  /** A leading plus sign is accepted. */
  lemma ParseIntPlusSign()
    ensures ParseInt("+5") == Some(5)
  {
    assert "+5"[1..] == "5";
    assert AllDigits("5") && DigitsValue("5") == 5;
  }

  /** Leading zeros are accepted. */
  lemma ParseIntLeadingZeros()
    ensures ParseInt("007") == Some(7)
  {
    assert "007"[..2] == "00" && "00"[..1] == "0";
    assert AllDigits("007") && DigitsValue("007") == 7;
  }

  function DigitChar(d: nat): (c: char)
    requires d < 10
    ensures IsDigit(c) && c as int - '0' as int == d
  {
    ('0' as int + d) as char
  }

  /** The decimal digits of a natural number, as `String.valueOf` prints them. */
  function ShowNat(n: nat): (s: string)
    ensures s != [] && AllDigits(s)
    ensures s[0] == '0' <==> n == 0
    ensures |s| == 1 <==> n < 10
  {
    if n < 10 then [DigitChar(n)] else ShowNat(n / 10) + [DigitChar(n % 10)]
  }

  /** `String.valueOf(int)`. */
  function ShowInt(n: int): (s: string)
    ensures s != [] && (s[0] == '-' <==> n < 0)
    ensures n < 0 ==> AllDigits(s[1..])
    ensures n >= 0 ==> AllDigits(s)
  {
    if n < 0 then "-" + ShowNat(-n) else ShowNat(n)
  }

  lemma {:induction false} DigitsValueShowNat(n: nat)
    ensures DigitsValue(ShowNat(n)) == n
  {
    if n >= 10 {
      DigitsValueShowNat(n / 10);
      var s := ShowNat(n);
      assert s[..|s| - 1] == ShowNat(n / 10);
    }
  }

  /** Parsing a printed 32-bit number gives the number back. */
  lemma ParseShowInt(n: int)
    requires IsInt32(n)
    ensures ParseInt(ShowInt(n)) == Some(n)
  {
    var s := ShowInt(n);
    if n < 0 {
      var m := ShowNat(-n);
      DigitsValueShowNat(-n);
      assert s == "-" + m && s[1..] == m;
      assert IntText(s) && IntTextValue(s) == n;
    } else {
      DigitsValueShowNat(n);
      assert s == ShowNat(n) && s[0] != '-' && s[0] != '+';
      assert IntText(s) && IntTextValue(s) == n;
    }
  }
}
