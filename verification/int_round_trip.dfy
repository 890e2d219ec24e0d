/** Python's `int()` against its base-10 syntax, what `str()` spells for an
    integer, and `int(str(n)) == n`. */
module IntRoundTrip {
  import opened Results
  import opened PyText

  /** `int()` reads a plain run of digits as its value. */
  lemma ParseDigits(d: string)
    requires d != [] && AllDigits(d)
    ensures ParseInt(d) == Some(DigitsValue(d))
  {
    DigitsUnstripped(d);
    DigitsAreGroups(d);
    assert ParseSigned(d) == Some(DigitsValue(d)) by {
      assert IsDigit(d[0]);
    }
  }

  lemma DigitsUnstripped(d: string)
    requires d != [] && AllDigits(d)
    ensures Strip(d, IsIntSpace) == d
  {
    assert IsDigit(d[0]) && IsDigit(d[|d| - 1]);
    StripKeeps(d, IsIntSpace);
  }

  /** `int()` reads a minus sign and digit groups as the negated value. */
  lemma NegativeGroupsParse(d: string, magnitude: nat)
    requires d != [] && AllDigits(d) && GroupsValue(d) == Some(magnitude)
    ensures ParseInt("-" + d) == Some(-(magnitude as int))
  {
    var s := "-" + d;
    NegativeDigitsUnstripped(d, s);
    NegatedGroups(d, magnitude);
  }

  lemma NegativeDigitsUnstripped(d: string, s: string)
    requires d != [] && AllDigits(d) && s == "-" + d
    ensures Strip(s, IsIntSpace) == s
  {
    assert s[0] == '-' && s[|s| - 1] == d[|d| - 1];
    StripKeeps(s, IsIntSpace);
  }

  /** A plain run of digits is digit groups of its own value. */
  lemma DigitsAreGroups(d: string)
    requires d != [] && AllDigits(d)
    ensures GroupsValue(d) == Some(DigitsValue(d))
  {
    DigitsHaveNoUnderscore(d);
  }

  /** A minus sign followed by digit groups reads as the negated value of the
      groups. */
  lemma NegatedGroups(d: string, magnitude: nat)
    requires GroupsValue(d) == Some(magnitude)
    ensures ParseSigned("-" + d) == Some(-(magnitude as int))
  {
    var t := "-" + d;
    assert t[0] == '-' && t[1..] == d;
  }

  /** `int(str(n)) == n`. */
  lemma IntToStringRoundTrip(n: int)
    ensures ParseInt(IntToString(n)) == Some(n)
  {
    if n < 0 {
      var d := NatToString(-n);
      DigitsAreGroups(d);
      NegativeGroupsParse(d, -n);
    } else {
      ParseDigits(NatToString(n));
    }
  }

  /** `int(s)` succeeds with `n` exactly when `s` is whitespace, an optional sign,
      digit groups of value `|n|` and whitespace. */
  lemma ParseIntMeaning(s: string, n: int)
    ensures ParseInt(s) == Some(n) <==> IsIntLiteral(s, n)
  {
    if ParseInt(s) == Some(n) {
      ParsedIsLiteral(s, n);
    }
    if IsIntLiteral(s, n) {
      var a, b, c :| IntLiteralAt(s, n, a, b, c);
      LiteralParses(s, n, a, b, c);
    }
  }

  lemma ParsedIsLiteral(s: string, n: int)
    requires ParseInt(s) == Some(n)
    ensures IsIntLiteral(s, n)
  {
    StripIsMiddle(s, IsIntSpace);
    var a, c :| StrippedAround(s, IsIntSpace, a, c) && Strip(s, IsIntSpace) == s[a..c];
    SignedIsLiteral(s, n, a, c);
  }

  /** A signed literal between `int()`-whitespace is a literal of the whole text. */
  lemma SignedIsLiteral(s: string, n: int, a: int, c: int)
    requires StrippedAround(s, IsIntSpace, a, c)
    requires ParseSigned(s[a..c]) == Some(n)
    ensures IsIntLiteral(s, n)
  {
    var t := s[a..c];
    var b := if t[0] == '-' || t[0] == '+' then a + 1 else a;
    assert s[b..c] == (if t[0] == '-' || t[0] == '+' then t[1..] else t);
    assert IntLiteralAt(s, n, a, b, c);
  }

  lemma LiteralParses(s: string, n: int, a: int, b: int, c: int)
    requires IntLiteralAt(s, n, a, b, c)
    ensures ParseInt(s) == Some(n)
  {
    var t := s[a..c];
    LiteralStrips(s, n, a, b, c);
    assert t[b - a..] == s[b..c];
    assert t[0] == s[a];
    SignedLiteral(t, n, b - a);
  }

  lemma LiteralStrips(s: string, n: int, a: int, b: int, c: int)
    requires IntLiteralAt(s, n, a, b, c)
    ensures Strip(s, IsIntSpace) == s[a..c]
  {
    assert s[c - 1] == s[b..c][c - b - 1];
    assert b == a ==> s[a] == s[b..c][0];
    StripToSlice(s, IsIntSpace, a, c);
  }

  /** A stripped literal: a sign of length `j` (none or one) and digit groups. */
  lemma SignedLiteral(t: string, n: int, j: int)
    requires 0 <= j <= 1 && j < |t|
    requires j == 1 ==> t[0] == '+' || t[0] == '-'
    requires IsDigitGroups(t[j..])
    requires var magnitude := DigitsValue(RemoveUnderscores(t[j..]));
      n == (if j == 1 && t[0] == '-' then -(magnitude as int) else magnitude)
    ensures ParseSigned(t) == Some(n)
  {
    assert j == 0 ==> t[j..] == t && IsDigit(t[0]);
  }

  /** `str(n)` is the digits of `|n|` without leading zeros, after a '-' exactly
      when `n` is negative. */
  lemma IntToStringSpells(n: int)
    ensures var s := IntToString(n);
      n >= 0 ==> AllDigits(s) && DigitsValue(s) == n && (s[0] == '0' ==> s == "0")
    ensures var s := IntToString(n);
      n < 0 ==> s[0] == '-' && AllDigits(s[1..]) && DigitsValue(s[1..]) == -n && s[1] != '0'
  {
    if n < 0 {
      var s := IntToString(n);
      assert s[1..] == NatToString(-n);
    }
  }

  /** An information separator (U+001C to U+001F) after a run of digits is not
      whitespace to `int()`, although the pattern's `\s` matches it: the text does
      not read as a number. */
  lemma SeparatorIsNotIntSpace(d: string, sep: char)
    requires d != [] && AllDigits(d)
    requires '\U{001C}' <= sep <= '\U{001F}'
    ensures IsUnicodeSpace(sep) && ParseInt(d + [sep]) == None
  {
    var s := d + [sep];
    assert s[0] == d[0] && s[|s| - 1] == sep;
    SeparatorKept(d, sep, s);
    SignedRejects(s);
  }

  /** A text that starts with a digit but does not end with one is not a number. */
  lemma SignedRejects(s: string)
    requires s != [] && IsDigit(s[0]) && !IsDigit(s[|s| - 1])
    ensures ParseSigned(s) == None
  {
    assert GroupsValue(s) == None;
  }

  lemma SeparatorKept(d: string, sep: char, s: string)
    requires d != [] && AllDigits(d) && '\U{001C}' <= sep <= '\U{001F}' && s == d + [sep]
    ensures ParseInt(s) == ParseSigned(s)
  {
    assert s[0] == d[0] && s[|s| - 1] == sep;
    assert IsDigit(s[0]);
    StripKeeps(s, IsIntSpace);
  }
}
