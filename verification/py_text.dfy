/** The pieces of Python's string handling the version bump relies on: `strip`,
    `str.split` on one character, `int()` on a decimal string and `str()` of an
    integer. */
module PyText {
  import opened Results

  /** The whitespace `bytes.strip()` removes. */
  predicate IsAsciiSpace(c: char)
  {
    c == ' ' || c == '\t' || c == '\n' || c == '\r' || c == '\U{000B}' || c == '\U{000C}'
  }

  /** Python's Unicode whitespace: what `\s` matches in a `str` pattern. */
  predicate IsUnicodeSpace(c: char)
  {
    || IsAsciiSpace(c)
    || ('\U{001C}' <= c <= '\U{001F}')
    || c == '\U{0085}' || c == '\U{00A0}' || c == '\U{1680}'
    || ('\U{2000}' <= c <= '\U{200A}')
    || c == '\U{2028}' || c == '\U{2029}' || c == '\U{202F}' || c == '\U{205F}' || c == '\U{3000}'
  }

  /** The whitespace `int()` ignores around its digits: C's `isspace` on ASCII
      characters, and Python's whitespace beyond ASCII (which `int()` first turns
      into ' '). The separators U+001C to U+001F are `\s` but not skipped. */
  predicate IsIntSpace(c: char)
  {
    IsAsciiSpace(c) || (c > '\U{007F}' && IsUnicodeSpace(c))
  }

  predicate IsDigit(c: char)
  {
    '0' <= c <= '9'
  }

  predicate AllDigits(s: string)
  {
    forall i :: 0 <= i < |s| ==> IsDigit(s[i])
  }

  /** `s` with its leading `drop` characters removed. */
  function TrimLeft(s: string, drop: char -> bool): (r: string)
    ensures |r| <= |s| && r == s[|s| - |r|..]
    ensures forall k :: 0 <= k < |s| - |r| ==> drop(s[k])
    ensures r == [] || !drop(r[0])
    decreases |s|
  {
    if s != [] && drop(s[0]) then TrimLeft(s[1..], drop) else s
  }

  /** `s` with its trailing `drop` characters removed. */
  function TrimRight(s: string, drop: char -> bool): (r: string)
    ensures |r| <= |s| && r == s[..|r|]
    ensures forall k :: |r| <= k < |s| ==> drop(s[k])
    ensures r == [] || !drop(r[|r| - 1])
    decreases |s|
  {
    if s != [] && drop(s[|s| - 1]) then TrimRight(s[..|s| - 1], drop) else s
  }

  /** Python's `strip` with the set of characters given as a predicate. */
  function Strip(s: string, drop: char -> bool): (r: string)
    ensures |r| <= |s|
    ensures r == [] || (!drop(r[0]) && !drop(r[|r| - 1]))
    ensures r == [] ==> forall k :: 0 <= k < |s| ==> drop(s[k])
  {
    TrimRight(TrimLeft(s, drop), drop)
  }

  /** Stripping leaves a string alone whose ends are not stripped. */
  lemma StripKeeps(s: string, drop: char -> bool)
    requires s != [] && !drop(s[0]) && !drop(s[|s| - 1])
    ensures Strip(s, drop) == s
  {
  }

  /** Every character of `s` before `a` and from `b` on is stripped. */
  predicate StrippedAround(s: string, drop: char -> bool, a: int, b: int)
  {
    && 0 <= a <= b <= |s|
    && (forall k :: 0 <= k < a ==> drop(s[k]))
    && (forall k :: b <= k < |s| ==> drop(s[k]))
  }

  /** `strip` keeps a middle slice of `s`, with only stripped characters before
      and after it. */
  lemma StripIsMiddle(s: string, drop: char -> bool)
    ensures exists a, b :: StrippedAround(s, drop, a, b) && Strip(s, drop) == s[a..b]
  {
    var a := |s| - |TrimLeft(s, drop)|;
    var b := a + |Strip(s, drop)|;
    StripBounds(s, drop, a, b);
    assert StrippedAround(s, drop, a, b) && Strip(s, drop) == s[a..b];
  }

  lemma StripBounds(s: string, drop: char -> bool, a: int, b: int)
    requires a == |s| - |TrimLeft(s, drop)| && b == a + |Strip(s, drop)|
    ensures StrippedAround(s, drop, a, b) && Strip(s, drop) == s[a..b]
  {
    var l := TrimLeft(s, drop);
    var r := TrimRight(l, drop);
    assert l == s[a..] && r == l[..|r|];
    forall k | b <= k < |s|
      ensures drop(s[k])
    {
      assert s[k] == l[k - a];
    }
  }

  /** The slice between a stripped prefix and a stripped suffix is what `strip`
      keeps when neither of its ends is stripped. */
  lemma StripToSlice(s: string, drop: char -> bool, a: int, b: int)
    requires StrippedAround(s, drop, a, b) && a < b
    requires !drop(s[a]) && !drop(s[b - 1])
    ensures Strip(s, drop) == s[a..b]
  {
    var m := s[a..b];
    assert s == s[..a] + m + s[b..];
    assert m[0] == s[a] && m[|m| - 1] == s[b - 1];
    StripOf(s[..a], m, s[b..], drop);
  }

  /** Stripping `p + m + q`, where `p` and `q` are all stripped characters and `m`
      has no stripped character at either end, gives `m`. */
  lemma StripOf(p: string, m: string, q: string, drop: char -> bool)
    requires forall k :: 0 <= k < |p| ==> drop(p[k])
    requires forall k :: 0 <= k < |q| ==> drop(q[k])
    requires m == [] || (!drop(m[0]) && !drop(m[|m| - 1]))
    ensures Strip(p + m + q, drop) == m
  {
    var s := p + m + q;
    if m == [] {
      assert s == p + q;
      StripAllDropped(p, q, drop);
    } else {
      TrimLeftOf(p, m + q, drop);
      assert s == p + (m + q);
      TrimRightOf(m, q, drop);
    }
  }

  lemma StripAllDropped(p: string, q: string, drop: char -> bool)
    requires forall k :: 0 <= k < |p| ==> drop(p[k])
    requires forall k :: 0 <= k < |q| ==> drop(q[k])
    ensures Strip(p + q, drop) == []
  {
    var s := p + q;
    var l := TrimLeft(s, drop);
    forall k | 0 <= k < |s|
      ensures drop(s[k])
    {
      if k < |p| { assert s[k] == p[k]; } else { assert s[k] == q[k - |p|]; }
    }
  }

  lemma TrimLeftOf(p: string, rest: string, drop: char -> bool)
    requires forall k :: 0 <= k < |p| ==> drop(p[k])
    requires rest != [] && !drop(rest[0])
    ensures TrimLeft(p + rest, drop) == rest
  {
    var s := p + rest;
    var l := TrimLeft(s, drop);
    assert forall k :: 0 <= k < |p| ==> s[k] == p[k];
    assert s[|p|] == rest[0];
    assert l == s[|p|..];
  }

  lemma TrimRightOf(rest: string, q: string, drop: char -> bool)
    requires rest != [] && !drop(rest[|rest| - 1])
    requires forall k :: 0 <= k < |q| ==> drop(q[k])
    ensures TrimRight(rest + q, drop) == rest
  {
    var s := rest + q;
    var r := TrimRight(s, drop);
    assert forall k :: |rest| <= k < |s| ==> s[k] == q[k - |rest|];
    assert s[|rest| - 1] == rest[|rest| - 1];
    assert r == s[..|rest|];
  }

  /** Joins `parts` with `sep` between consecutive parts. */
  function Join(parts: seq<string>, sep: char): string
    requires |parts| >= 1
    decreases |parts|
  {
    if |parts| == 1 then parts[0] else parts[0] + [sep] + Join(parts[1..], sep)
  }

  /** Python's `s.split(sep)` for a one-character separator: the pieces between the
      separators, empty pieces included. */
  function Split(s: string, sep: char): (parts: seq<string>)
    ensures |parts| >= 1
    ensures forall i :: 0 <= i < |parts| ==> sep !in parts[i]
    ensures Join(parts, sep) == s
    decreases |s|
  {
    if s == [] then [[]]
    else
      var rest := Split(s[1..], sep);
      if s[0] == sep then
        assert s == [sep] + s[1..];
        [[]] + rest
      else
        var parts := [[s[0]] + rest[0]] + rest[1..];
        assert parts[1..] == rest[1..];
        JoinFirst(parts, rest, s[0], sep);
        parts
  }

  lemma JoinFirst(parts: seq<string>, rest: seq<string>, c: char, sep: char)
    requires |rest| >= 1 && |parts| == |rest|
    requires parts[0] == [c] + rest[0] && parts[1..] == rest[1..]
    ensures Join(parts, sep) == [c] + Join(rest, sep)
  {
  }

  /** Splitting undoes joining when no part contains the separator. */
  lemma {:induction false} SplitJoin(parts: seq<string>, sep: char)
    requires |parts| >= 1
    requires forall i :: 0 <= i < |parts| ==> sep !in parts[i]
    ensures Split(Join(parts, sep), sep) == parts
    decreases |parts|
  {
    if |parts| == 1 {
      SplitWithoutSep(parts[0], sep);
    } else {
      SplitJoin(parts[1..], sep);
      SplitAtFirst(parts[0], Join(parts[1..], sep), sep);
      assert parts == [parts[0]] + parts[1..];
    }
  }

  lemma {:induction false} SplitWithoutSep(s: string, sep: char)
    requires sep !in s
    ensures Split(s, sep) == [s]
    decreases |s|
  {
    if s != [] {
      SplitWithoutSep(s[1..], sep);
      assert s == [s[0]] + s[1..];
    }
  }

  lemma {:induction false} SplitAtFirst(p: string, t: string, sep: char)
    requires sep !in p
    ensures Split(p + [sep] + t, sep) == [p] + Split(t, sep)
    decreases |p|
  {
    var s := p + [sep] + t;
    if p == [] {
      assert s[0] == sep && s[1..] == t;
    } else {
      assert s[0] == p[0] && s[1..] == p[1..] + [sep] + t;
      SplitAtFirst(p[1..], t, sep);
      assert [p[0]] + p[1..] == p;
    }
  }

  /** The number a string of ASCII digits spells in base 10. */
  function DigitsValue(s: string): nat
    requires AllDigits(s)
    decreases |s|
  {
    if s == [] then 0 else DigitsValue(s[..|s| - 1]) * 10 + (s[|s| - 1] - '0') as int
  }

  /** The digits of `int()`'s base-10 syntax: digits with single underscores
      between them. */
  predicate IsDigitGroups(s: string)
  {
    && s != []
    && IsDigit(s[0]) && IsDigit(s[|s| - 1])
    && (forall i :: 0 <= i < |s| ==> IsDigit(s[i]) || s[i] == '_')
    && NoDoubleUnderscore(s)
  }

  /** No two underscores stand next to each other. */
  predicate NoDoubleUnderscore(s: string)
    decreases |s|
  {
    |s| < 2 || (!(s[0] == '_' && s[1] == '_') && NoDoubleUnderscore(s[1..]))
  }

  lemma {:induction false} DigitsHaveNoUnderscore(d: string)
    requires AllDigits(d)
    ensures NoDoubleUnderscore(d) && RemoveUnderscores(d) == d
    decreases |d|
  {
    if |d| >= 2 {
      DigitsHaveNoUnderscore(d[1..]);
    }
  }

  function RemoveUnderscores(s: string): (r: string)
    ensures (forall i :: 0 <= i < |s| ==> IsDigit(s[i]) || s[i] == '_') ==> AllDigits(r)
    ensures AllDigits(s) ==> r == s
    decreases |s|
  {
    if s == [] then []
    else if s[0] == '_' then RemoveUnderscores(s[1..])
    else [s[0]] + RemoveUnderscores(s[1..])
  }

  /** Python's `int(s)` in base 10: surrounding whitespace, an optional sign, then
      digit groups; `None` where Python raises `ValueError`. */
  function ParseInt(s: string): Option<int>
  {
    ParseSigned(Strip(s, IsIntSpace))
  }

  /** `int()` once the surrounding whitespace is gone. */
  function ParseSigned(t: string): Option<int>
  {
    if t == [] then None
    else
      var body := if t[0] == '-' || t[0] == '+' then t[1..] else t;
      match GroupsValue(body)
      case None => None
      case Some(magnitude) => Some(if t[0] == '-' then -(magnitude as int) else magnitude)
  }

  /** The value of unsigned digit groups, if `s` is such. */
  function GroupsValue(s: string): Option<nat>
  {
    if IsDigitGroups(s) then Some(DigitsValue(RemoveUnderscores(s))) else None
  }

  /** `int()`'s base-10 syntax read off positions of `s`: whitespace before `a`,
      an optional sign in `a..b`, digit groups in `b..c`, whitespace from `c` on;
      `n` is the groups' value with the sign applied. */
  predicate IntLiteralAt(s: string, n: int, a: int, b: int, c: int)
  {
    && StrippedAround(s, IsIntSpace, a, c)
    && a <= b < c
    && (b == a || (b == a + 1 && (s[a] == '+' || s[a] == '-')))
    && IsDigitGroups(s[b..c])
    && var magnitude := DigitsValue(RemoveUnderscores(s[b..c]));
       n == (if b == a + 1 && s[a] == '-' then -(magnitude as int) else magnitude)
  }

  ghost predicate IsIntLiteral(s: string, n: int)
  {
    exists a, b, c :: IntLiteralAt(s, n, a, b, c)
  }

  function DigitChar(d: nat): (c: char)
    requires d < 10
    ensures IsDigit(c) && (c - '0') as int == d
  {
    '0' + d as char
  }

  /** Python's `str(n)` for `n >= 0`: the shortest decimal spelling. */
  function NatToString(n: nat): (s: string)
    ensures s != [] && AllDigits(s)
    ensures DigitsValue(s) == n
    ensures s[0] == '0' ==> s == "0"
    decreases n
  {
    if n < 10 then [DigitChar(n)]
    else
      var s := NatToString(n / 10) + [DigitChar(n % 10)];
      assert s[..|s| - 1] == NatToString(n / 10);
      s
  }

  /** Python's `str(n)` for any integer. */
  function IntToString(n: int): (s: string)
    ensures s != [] && (s[0] == '-' || IsDigit(s[0])) && IsDigit(s[|s| - 1])
    ensures forall i :: 0 < i < |s| ==> IsDigit(s[i])
    ensures (s[0] == '-') <==> n < 0
  {
    if n < 0 then "-" + NatToString(-n) else NatToString(n)
  }
}
