/** String helpers shared by the browser page and the backend controller:
    the `replace(/ /g, '')` rewrite and the decimal rendering that JavaScript
    template literals give an integer (`${n}`). */
module Text {

  /** `s.replace(/ /g, '')`: every U+0020 removed, every other character
      (tabs and newlines included) kept. */
  function StripSpaces(s: string): (r: string)
    ensures ' ' !in r
    ensures |r| <= |s|
  {
    if s == [] then []
    else
      assert s == [s[0]] + s[1..];
      (if s[0] == ' ' then [] else [s[0]]) + StripSpaces(s[1..])
  }

  /** Every character other than a space is kept as often as it occurs. */
  lemma {:induction false} StripSpacesKeepsOthers(s: string)
    ensures forall c :: c != ' ' ==> multiset(StripSpaces(s))[c] == multiset(s)[c]
  {
    if s != [] {
      StripSpacesKeepsOthers(s[1..]);
      var head := if s[0] == ' ' then [] else [s[0]];
      assert s == [s[0]] + s[1..];
      assert multiset(s) == multiset([s[0]]) + multiset(s[1..]);
      assert multiset(StripSpaces(s)) == multiset(head) + multiset(StripSpaces(s[1..]));
    }
  }

  /** Removing spaces commutes with concatenation, so the kept characters stay
      in their original order. */
  lemma {:induction false} StripSpacesAppend(a: string, b: string)
    ensures StripSpaces(a + b) == StripSpaces(a) + StripSpaces(b)
  {
    if a == [] {
      assert a + b == b;
    } else {
      assert (a + b)[0] == a[0];
      assert (a + b)[1..] == a[1..] + b;
      StripSpacesAppend(a[1..], b);
    }
  }

  /** A string without spaces is left as it is. */
  lemma {:induction false} StripSpacesNoSpaces(s: string)
    requires ' ' !in s
    ensures StripSpaces(s) == s
  {
    if s != [] {
      assert s[0] != ' ';
      assert ' ' !in s[1..] by {
        forall i | 0 <= i < |s[1..]| ensures s[1..][i] != ' ' { assert s[1..][i] == s[i + 1]; }
      }
      StripSpacesNoSpaces(s[1..]);
    }
  }

  lemma StripSpacesIdempotent(s: string)
    ensures StripSpaces(StripSpaces(s)) == StripSpaces(s)
  {
    StripSpacesNoSpaces(StripSpaces(s));
  }

  /** A name made of spaces only is rewritten to the empty string. */
  lemma {:induction false} StripSpacesAllSpaces(s: string)
    requires forall i :: 0 <= i < |s| ==> s[i] == ' '
    ensures StripSpaces(s) == ""
  {
    if s != [] {
      assert forall i :: 0 <= i < |s[1..]| ==> s[1..][i] == s[i + 1];
      StripSpacesAllSpaces(s[1..]);
    }
  }

  predicate IsDigit(c: char) {
    '0' <= c <= '9'
  }

  predicate AllDigits(s: string) {
    forall i :: 0 <= i < |s| ==> IsDigit(s[i])
  }

  function DigitChar(d: nat): (c: char)
    requires d < 10
    ensures IsDigit(c) && c as int - '0' as int == d
  {
    ('0' as int + d) as char
  }

  /** Decimal rendering of a natural number, without leading zeros. */
  function NatToString(n: nat): (r: string)
    ensures |r| >= 1 && AllDigits(r)
    ensures n == 0 <==> r == "0"
    ensures n > 0 ==> r[0] != '0'
    decreases n
  {
    if n < 10 then [DigitChar(n)] else NatToString(n / 10) + [DigitChar(n % 10)]
  }

  /** `${i}` for an integer `i`: a minus sign before the digits when negative. */
  function IntToString(i: int): (r: string)
    ensures i >= 0 ==> r == NatToString(i)
    ensures i < 0 ==> r == "-" + NatToString(-i)
  {
    if i < 0 then "-" + NatToString(-i) else NatToString(i)
  }

  /** The value of a decimal digit string (reference reading of NatToString). */
  function ParseNat(s: string): (r: nat)
    requires AllDigits(s)
  {
    if s == [] then 0 else ParseNat(s[..|s| - 1]) * 10 + (s[|s| - 1] as int - '0' as int)
  }

  lemma {:induction false} ParseNatToString(n: nat)
    ensures ParseNat(NatToString(n)) == n
  {
    if n >= 10 {
      var r := NatToString(n);
      assert r[..|r| - 1] == NatToString(n / 10);
      ParseNatToString(n / 10);
    }
  }

  lemma NatToStringInjective(x: nat, y: nat)
    requires NatToString(x) == NatToString(y)
    ensures x == y
  {
    ParseNatToString(x);
    ParseNatToString(y);
    assert x == ParseNat(NatToString(x)) == ParseNat(NatToString(y)) == y;
  }

  /** Different integers print differently. */
  lemma IntToStringInjective(a: int, b: int)
    requires IntToString(a) == IntToString(b)
    ensures a == b
  {
    var sa, sb := IntToString(a), IntToString(b);
    assert (sa[0] == '-') == (a < 0) by { if a >= 0 { assert IsDigit(NatToString(a)[0]); } }
    assert (sb[0] == '-') == (b < 0) by { if b >= 0 { assert IsDigit(NatToString(b)[0]); } }
    if a < 0 {
      assert NatToString(-a) == sa[1..] == sb[1..] == NatToString(-b);
      NatToStringInjective(-a, -b);
    } else {
      NatToStringInjective(a, b);
    }
  }

  /** A digit string is recovered from the front of `digits + sep + rest`
      whenever `sep` is not a digit. */
  lemma DigitsBeforeSeparator(a: string, x: string, b: string, y: string, sep: char)
    requires AllDigits(a) && AllDigits(b) && !IsDigit(sep)
    requires a + [sep] + x == b + [sep] + y
    ensures a == b && x == y
  {
    var s := a + [sep] + x;
    assert !IsDigit(s[|a|]) && !IsDigit(s[|b|]);
    assert forall i :: 0 <= i < |a| ==> IsDigit(s[i]);
    assert forall i :: 0 <= i < |b| ==> IsDigit(s[i]);
    assert a == s[..|a|] == b;
    assert x == s[|a| + 1..] == y;
  }

  /** `Math.round(x)`: the nearest integer, halves rounded up. */
  function Round(x: real): (n: int)
    ensures n as real <= x + 0.5 < n as real + 1.0
  {
    (x + 0.5).Floor
  }

  /** The digits after the point of `f/100` as a number prints them:
      nothing for a whole number, one digit when the second is zero. */
  function FractionText(f: nat): (r: string)
    requires f < 100
  {
    if f == 0 then ""
    else if f % 10 == 0 then "." + [DigitChar(f / 10)]
    else "." + [DigitChar(f / 10), DigitChar(f % 10)]
  }

  /** How `${n / 100}` prints for an integer `n` (shortest round-trip form,
      which for a value with two decimals is its exact decimal). */
  function Hundredths(n: int): (r: string)
  {
    if n < 0 then "-" + NatHundredths(-n) else NatHundredths(n)
  }

  function NatHundredths(m: nat): (r: string) {
    NatToString(m / 100) + FractionText(m % 100)
  }

  lemma FractionTextInjective(f: nat, g: nat)
    requires f < 100 && g < 100 && FractionText(f) == FractionText(g)
    ensures f == g
  {
    if f != 0 && g != 0 {
      assert FractionText(f)[1] == FractionText(g)[1];
      if f % 10 != 0 {
        assert FractionText(f)[2] == FractionText(g)[2];
      }
    }
  }

  /** A whole part followed by a fraction: a point appears exactly when the
      fraction is not zero. */
  lemma PartsShape(q: nat, f: nat)
    requires f < 100
    ensures FractionText(f) == "" <==> f == 0
    ensures f != 0 ==> FractionText(f)[0] == '.'
    ensures '.' in NatToString(q) + FractionText(f) <==> f != 0
  {
    var w, t := NatToString(q), FractionText(f);
    assert '.' !in w by {
      forall i | 0 <= i < |w| ensures w[i] != '.' { assert IsDigit(w[i]); }
    }
    if f != 0 {
      assert (w + t)[|w|] == '.';
    } else {
      assert w + t == w;
    }
  }

  /** The whole part and the fraction can be read back from the text. */
  lemma PartsInjective(qa: nat, fa: nat, qb: nat, fb: nat)
    requires fa < 100 && fb < 100
    requires NatToString(qa) + FractionText(fa) == NatToString(qb) + FractionText(fb)
    ensures qa == qb && fa == fb
  {
    PartsShape(qa, fa);
    PartsShape(qb, fb);
    var wa, wb := NatToString(qa), NatToString(qb);
    var ta, tb := FractionText(fa), FractionText(fb);
    if ta == "" {
      assert wa == wa + ta == wb + tb == wb;
    } else {
      assert wa + ['.'] + ta[1..] == wa + ta;
      assert wb + ['.'] + tb[1..] == wb + tb;
      DigitsBeforeSeparator(wa, ta[1..], wb, tb[1..], '.');
      assert ta == ['.'] + ta[1..] == tb;
      FractionTextInjective(fa, fb);
    }
    NatToStringInjective(qa, qb);
  }

  /** A natural number is determined by its quotient and remainder by 100. */
  lemma DivModInjective(a: nat, b: nat)
    requires a / 100 == b / 100 && a % 100 == b % 100
    ensures a == b
  {
    assert a == 100 * (a / 100) + a % 100;
    assert b == 100 * (b / 100) + b % 100;
  }

  /** The text of a natural number of hundredths has a point exactly when
      the number is not whole. */
  lemma NatHundredthsShape(n: nat)
    ensures '.' in NatHundredths(n) <==> n % 100 != 0
  {
    PartsShape(n / 100, n % 100);
  }

  lemma NatHundredthsInjective(a: nat, b: nat)
    requires NatHundredths(a) == NatHundredths(b)
    ensures a == b
  {
    PartsInjective(a / 100, a % 100, b / 100, b % 100);
    DivModInjective(a, b);
  }

  /** The text starts with a minus sign exactly for a negative number. */
  lemma HundredthsSign(n: int)
    ensures |Hundredths(n)| >= 1
    ensures Hundredths(n)[0] == '-' <==> n < 0
  {
    if n >= 0 {
      assert Hundredths(n)[0] == NatToString(n / 100)[0];
    }
  }

  /** Different numbers of hundredths print differently, so the printed
      percentage determines the rounded value. */
  lemma HundredthsInjective(a: int, b: int)
    requires Hundredths(a) == Hundredths(b)
    ensures a == b
  {
    var ha, hb := Hundredths(a), Hundredths(b);
    HundredthsSign(a);
    HundredthsSign(b);
    if a < 0 {
      assert b < 0 by { assert hb[0] == ha[0]; }
      assert NatHundredths(-a) == ha[1..] == hb[1..] == NatHundredths(-b);
      NatHundredthsInjective(-a, -b);
    } else {
      assert b >= 0 by { assert hb[0] == ha[0]; }
      NatHundredthsInjective(a, b);
    }
  }
}
