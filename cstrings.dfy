/**
 * The C library string routines the daemon relies on (strlen, strncmp, atoi).
 * A C string is modelled as a `string` that is read up to its first NUL
 * character; past its end a terminating NUL is read.
 */
module CStrings {
  const NUL: char := '\0'

  /** The character at index i as C reads it: the terminator past the end. */
  function At(s: string, i: nat): char
  {
    if i < |s| then s[i] else NUL
  }

  /** strlen: the index of the first NUL, or the whole length. */
  function StrLen(s: string): (n: nat)
    ensures n <= |s|
    ensures forall i :: 0 <= i < n ==> s[i] != NUL
    ensures n < |s| ==> s[n] == NUL
  {
    if |s| == 0 || s[0] == NUL then 0 else 1 + StrLen(s[1..])
  }

  /** The characters C sees: everything before the first NUL. */
  function CStr(s: string): (c: string)
    ensures |c| == StrLen(s) && c <= s
    ensures NUL !in c
  {
    s[..StrLen(s)]
  }

  lemma CStrOfNulFree(s: string)
    requires NUL !in s
    ensures CStr(s) == s
  {
  }

  lemma CStrCons(s: string)
    requires At(s, 0) != NUL
    ensures CStr(s) == [s[0]] + CStr(s[1..])
  {
    assert s == [s[0]] + s[1..];
  }

  /** strncmp(a, b, n) == 0: compare at most n characters, stopping at a common terminator. */
  function StrNCmpEq(a: string, b: string, n: nat): bool
    decreases n
  {
    if n == 0 then true
    else if At(a, 0) != At(b, 0) then false
    else if At(a, 0) == NUL then true
    else StrNCmpEq(a[1..], b[1..], n - 1)
  }

  /** The first n characters of s, or all of s when it is shorter. */
  function Trunc(s: string, n: nat): (r: string)
    ensures |r| <= n && r <= s
    ensures |r| == n || r == s
  {
    if n <= |s| then s[..n] else s
  }

  /** The first n characters of a non-empty C string: its first character, then n - 1 from the rest. */
  lemma TruncCons(s: string, n: nat)
    requires At(s, 0) != NUL && n > 0
    ensures Trunc(CStr(s), n) == [s[0]] + Trunc(CStr(s[1..]), n - 1)
  {
    CStrCons(s);
  }

  /** strncmp(a, b, n) == 0 exactly when the two C strings agree on their first n characters. */
  lemma {:induction false} StrNCmpEqTrunc(a: string, b: string, n: nat)
    ensures StrNCmpEq(a, b, n) <==> Trunc(CStr(a), n) == Trunc(CStr(b), n)
    decreases n
  {
    if n == 0 {
    } else if At(a, 0) == NUL && At(b, 0) == NUL {
      assert CStr(a) == [] && CStr(b) == [];
    } else if At(a, 0) == NUL {
      assert CStr(a) == [];
      TruncCons(b, n);
    } else if At(b, 0) == NUL {
      assert CStr(b) == [];
      TruncCons(a, n);
    } else {
      TruncCons(a, n);
      TruncCons(b, n);
      var x, y := Trunc(CStr(a[1..]), n - 1), Trunc(CStr(b[1..]), n - 1);
      if a[0] == b[0] {
        StrNCmpEqTrunc(a[1..], b[1..], n - 1);
        assert ([a[0]] + x)[1..] == x && ([b[0]] + y)[1..] == y;
      } else {
        assert ([a[0]] + x)[0] != ([b[0]] + y)[0];
      }
    }
  }

  /**
   * The prefix test the daemon writes as strncmp(x, y, strlen(y)) == 0, in
   * either argument order: y (as a C string) is a prefix of x.
   */
  lemma PrefixTest(x: string, y: string)
    ensures StrNCmpEq(x, y, StrLen(y)) <==> CStr(y) <= CStr(x)
    ensures StrNCmpEq(y, x, StrLen(y)) <==> CStr(y) <= CStr(x)
  {
    StrNCmpEqTrunc(x, y, StrLen(y));
    StrNCmpEqTrunc(y, x, StrLen(y));
    assert Trunc(CStr(y), StrLen(y)) == CStr(y);
  }

  /** strcmp(a, b) == 0: strncmp through a's terminator. */
  function StrCmpEq(a: string, b: string): bool
  {
    StrNCmpEq(a, b, StrLen(a) + 1)
  }

  /** strcmp(a, b) == 0 exactly when the two C strings are equal. */
  lemma StrCmpEqMeaning(a: string, b: string)
    ensures StrCmpEq(a, b) <==> CStr(a) == CStr(b)
  {
    StrNCmpEqTrunc(a, b, StrLen(a) + 1);
    assert Trunc(CStr(a), StrLen(a) + 1) == CStr(a);
  }

  /** The C locale's isspace. */
  predicate IsSpace(c: char)
  {
    c == ' ' || c == '\t' || c == '\n' || c == '\U{000B}' || c == '\U{000C}' || c == '\r'
  }

  predicate IsDigit(c: char)
  {
    '0' <= c <= '9'
  }

  predicate AllDigits(s: string)
  {
    forall i :: 0 <= i < |s| ==> IsDigit(s[i])
  }

  function SkipSpaces(s: string): (r: string)
    ensures r == [] || !IsSpace(r[0])
    decreases |s|
  {
    if |s| > 0 && IsSpace(s[0]) then SkipSpaces(s[1..]) else s
  }

  /** The longest run of decimal digits at the start of s. */
  function LeadingDigits(s: string): (d: string)
    ensures d <= s && AllDigits(d)
    ensures |d| < |s| ==> !IsDigit(s[|d|])
  {
    if |s| > 0 && IsDigit(s[0]) then [s[0]] + LeadingDigits(s[1..]) else []
  }

  /** The value of a run of decimal digits, most significant first. */
  function DigitsValue(d: string): nat
    requires AllDigits(d)
  {
    if d == [] then 0
    else 10 * DigitsValue(d[..|d| - 1]) + ((d[|d| - 1] as int) - ('0' as int))
  }

  /**
   * atoi in base ten: leading white space, an optional sign, then digits; the
   * first other character ends the number (no digits at all gives 0).
   */
  function Atoi(s: string): int
  {
    var u := SkipSpaces(CStr(s));
    if |u| > 0 && u[0] == '-' then -(DigitsValue(LeadingDigits(u[1..])) as int)
    else if |u| > 0 && u[0] == '+' then DigitsValue(LeadingDigits(u[1..]))
    else DigitsValue(LeadingDigits(u))
  }

  /** The decimal numeral of n, as printf("%d") writes it. */
  function Decimal(n: nat): (s: string)
    ensures |s| > 0 && AllDigits(s)
  {
    if n < 10 then [('0' as int + n) as char]
    else Decimal(n / 10) + [('0' as int + n % 10) as char]
  }

  lemma {:induction false} DigitsValueOfDecimal(n: nat)
    ensures DigitsValue(Decimal(n)) == n
  {
    if n >= 10 {
      DigitsValueOfDecimal(n / 10);
      assert Decimal(n)[..|Decimal(n)| - 1] == Decimal(n / 10);
    }
  }

  lemma {:induction false} LeadingDigitsOfDigits(s: string)
    requires AllDigits(s)
    ensures LeadingDigits(s) == s
    decreases |s|
  {
    if |s| > 0 {
      LeadingDigitsOfDigits(s[1..]);
    }
  }

  /** A C string of digits is its own C string, and atoi reads its digits, with or without a minus sign. */
  lemma AtoiOfDigits(d: string)
    requires |d| > 0 && AllDigits(d)
    ensures Atoi(d) == DigitsValue(d)
    ensures Atoi("-" + d) == -(DigitsValue(d) as int)
  {
    LeadingDigitsOfDigits(d);
    assert NUL !in d by {
      assert forall i :: 0 <= i < |d| ==> d[i] != NUL;
    }
    CStrOfNulFree(d);
    assert SkipSpaces(d) == d;
    var m := "-" + d;
    assert m[1..] == d;
    assert NUL !in m by {
      assert forall i :: 1 <= i < |m| ==> m[i] == d[i - 1];
    }
    CStrOfNulFree(m);
    assert SkipSpaces(m) == m;
  }

  /** atoi reads back what printf("%d") writes, for either sign. */
  lemma AtoiDecimal(n: nat)
    ensures Atoi(Decimal(n)) == n
    ensures Atoi("-" + Decimal(n)) == -(n as int)
  {
    DigitsValueOfDecimal(n);
    AtoiOfDigits(Decimal(n));
  }
}
