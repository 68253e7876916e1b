/**
 * The java.lang.String operations the message layer relies on, written out
 * so that their behaviour can be reasoned about: `contains`, `replace` with a
 * literal target, `equalsIgnoreCase` and the decimal rendering of a `long`.
 */
module JavaText {

  /** String.contains: `t` occurs somewhere in `s`. */
  predicate Contains(s: string, t: string)
    decreases |s|
  {
    t <= s || (s != [] && Contains(s[1..], t))
  }

  /** A string without a '$' character: it cannot hold a placeholder. */
  predicate DollarFree(s: string)
  {
    forall i :: 0 <= i < |s| ==> s[i] != '$'
  }

  /**
   * String.replace(target, replacement) for a non-empty target: scanning from
   * the left, every non-overlapping occurrence is replaced.
   */
  function Replace(s: string, target: string, replacement: string): string
    requires target != []
    decreases |s|
  {
    if s == [] then []
    else if target <= s then replacement + Replace(s[|target|..], target, replacement)
    else [s[0]] + Replace(s[1..], target, replacement)
  }

  /** A string that does not contain the target is left as it is. */
  lemma {:induction false} ReplaceAbsent(s: string, target: string, replacement: string)
    requires target != [] && !Contains(s, target)
    ensures Replace(s, target, replacement) == s
    decreases |s|
  {
    if s != [] {
      ReplaceAbsent(s[1..], target, replacement);
    }
  }

  /** A string without '$' contains no target that starts with '$'. */
  lemma {:induction false} DollarFreeHasNoPlaceholder(s: string, t: string)
    requires DollarFree(s) && t != [] && t[0] == '$'
    ensures !Contains(s, t)
    decreases |s|
  {
    if s != [] {
      assert !(t <= s) by { assert s[0] != '$'; }
      DollarFreeHasNoPlaceholder(s[1..], t);
    }
  }

  /** A dollar-free word followed by one '$' holds no target of two or more characters that starts with '$'. */
  lemma {:induction false} OnlyClosingDollar(w: string, t: string)
    requires DollarFree(w) && |t| >= 2 && t[0] == '$'
    ensures !Contains(w + "$", t)
    decreases |w|
  {
    var s := w + "$";
    if w == [] {
      assert !(t <= s);
      assert s[1..] == [];
    } else {
      assert s[0] == w[0] != '$';
      assert s[1..] == w[1..] + "$";
      OnlyClosingDollar(w[1..], t);
    }
  }

  /**
   * Placeholders "$w$" and "$v$" with dollar-free names: the first contains
   * the second exactly when the names are equal.
   */
  lemma PlaceholderContains(w: string, v: string)
    requires DollarFree(w) && DollarFree(v)
    ensures Contains("$" + w + "$", "$" + v + "$") <==> w == v
  {
    var s, t := "$" + w + "$", "$" + v + "$";
    if w == v {
      assert t <= s;
    } else {
      if |v| < |w| {
        assert t[|v| + 1] != s[|v| + 1];
      } else if |v| == |w| {
        var i :| 0 <= i < |w| && w[i] != v[i];
        assert t[i + 1] != s[i + 1];
      }
      assert !(t <= s);
      assert s[1..] == w + "$";
      OnlyClosingDollar(w, t);
    }
  }

  /** Upper-case mapping of a character (ASCII letters only). */
  function ToUpper(c: char): char
  {
    if 'a' <= c <= 'z' then (c as int - 32) as char else c
  }

  /** Lower-case mapping of a character (ASCII letters only). */
  function ToLower(c: char): char
  {
    if 'A' <= c <= 'Z' then (c as int + 32) as char else c
  }

  /** The per-character test of String.equalsIgnoreCase. */
  predicate CharEqualsIgnoreCase(a: char, b: char)
  {
    a == b || ToUpper(a) == ToUpper(b) || ToLower(ToUpper(a)) == ToLower(ToUpper(b))
  }

  /** String.equalsIgnoreCase: same length and every position matches ignoring case. */
  predicate EqualsIgnoreCase(a: string, b: string)
  {
    |a| == |b| && forall i :: 0 <= i < |a| ==> CharEqualsIgnoreCase(a[i], b[i])
  }

  /** Upper-casing every character. */
  function UpperCase(s: string): (r: string)
    ensures |r| == |s| && forall i :: 0 <= i < |s| ==> r[i] == ToUpper(s[i])
  {
    if s == [] then [] else [ToUpper(s[0])] + UpperCase(s[1..])
  }

  /** Ignoring case is comparing the upper-cased strings; hence it is an equivalence. */
  lemma EqualsIgnoreCaseIsUpperCaseEquality(a: string, b: string)
    ensures EqualsIgnoreCase(a, b) <==> UpperCase(a) == UpperCase(b)
  {
    if UpperCase(a) == UpperCase(b) {
      assert |a| == |b|;
      forall i | 0 <= i < |a| ensures CharEqualsIgnoreCase(a[i], b[i]) {
        assert UpperCase(a)[i] == UpperCase(b)[i];
      }
    }
  }

  /** The decimal digit for 0..9. */
  function Digit(d: nat): char
    requires d < 10
  {
    "0123456789"[d]
  }

  /** Decimal rendering of a natural number, most significant digit first, no leading zeros. */
  function NatToString(n: nat): (r: string)
    ensures r != [] && DollarFree(r)
    ensures forall i :: 0 <= i < |r| ==> '0' <= r[i] <= '9'
  {
    if n < 10 then [Digit(n)] else NatToString(n / 10) + [Digit(n % 10)]
  }

  /** `"" + n` for a `long`: a minus sign for negative values, then the digits. */
  function LongToString(n: int): (r: string)
    ensures r != [] && DollarFree(r)
  {
    if n < 0 then "-" + NatToString(-n) else NatToString(n)
  }

  /** Value of a string of decimal digits: the reading direction of NatToString. */
  function DigitsValue(s: string): int
  {
    if s == [] then 0 else DigitsValue(s[..|s| - 1]) * 10 + (s[|s| - 1] as int - '0' as int)
  }

  /** Reading the decimal rendering back gives the number: the rendering loses nothing. */
  lemma {:induction false} NatToStringRoundTrip(n: nat)
    ensures DigitsValue(NatToString(n)) == n
  {
    var r := NatToString(n);
    if n >= 10 {
      NatToStringRoundTrip(n / 10);
      assert r[..|r| - 1] == NatToString(n / 10);
    }
  }

  /** The sign is the first character exactly for negative numbers; the digits follow it. */
  lemma LongToStringSign(n: int)
    ensures LongToString(n)[0] == '-' <==> n < 0
    ensures n < 0 ==> LongToString(n)[1..] == NatToString(-n)
    ensures n >= 0 ==> LongToString(n) == NatToString(n)
  {
    if n >= 0 {
      assert '0' <= NatToString(n)[0] <= '9';
    }
  }

  /** Distinct natural numbers render differently. */
  lemma NatToStringInjective(x: nat, y: nat)
    requires NatToString(x) == NatToString(y)
    ensures x == y
  {
    NatToStringRoundTrip(x);
    NatToStringRoundTrip(y);
  }

  /** Distinct numbers render differently. */
  lemma LongToStringInjective(a: int, b: int)
    requires LongToString(a) == LongToString(b)
    ensures a == b
  {
    LongToStringSign(a);
    LongToStringSign(b);
    if a < 0 {
      NatToStringInjective(-a, -b);
    } else {
      NatToStringInjective(a, b);
    }
  }
}
