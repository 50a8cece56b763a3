/** String helpers with the meaning Python gives to the str methods the
    loaders use: strip(), split(sep, maxsplit=1), replace(c, '') and the
    decimal rendering of an int inside an f-string. The functions carry only
    what their callers need to be well defined; what they compute is stated
    by the lemmas beside them. */
module Text {

  /** The characters for which Python's str.isspace() holds; these are the
      characters str.strip() with no argument removes from both ends. */
  predicate IsWs(c: char) {
    || c == '\t' || c == '\n' || c == '\U{000B}' || c == '\U{000C}' || c == '\r'
    || ('\U{001C}' <= c <= '\U{001F}') || c == ' ' || c == '\U{0085}' || c == '\U{00A0}'
    || c == '\U{1680}' || ('\U{2000}' <= c <= '\U{200A}') || c == '\U{2028}' || c == '\U{2029}'
    || c == '\U{202F}' || c == '\U{205F}' || c == '\U{3000}'
  }

  predicate AllWs(s: string) {
    forall i :: 0 <= i < |s| ==> IsWs(s[i])
  }

  /** lstrip() */
  function TrimStart(s: string): (r: string)
    ensures |r| <= |s|
  {
    if s != [] && IsWs(s[0]) then TrimStart(s[1..]) else s
  }

  /** lstrip() keeps the longest suffix of s that does not start with
      whitespace. */
  lemma {:induction false} TrimStartSpec(s: string)
    ensures var r := TrimStart(s);
      && r == s[|s| - |r|..] && AllWs(s[..|s| - |r|])
      && (r == [] || !IsWs(r[0]))
  {
    if s != [] && IsWs(s[0]) {
      TrimStartSpec(s[1..]);
      var r := TrimStart(s[1..]);
      assert s[..|s| - |r|] == [s[0]] + s[1..][..|s| - 1 - |r|];
    }
  }

  /** rstrip() */
  function TrimEnd(s: string): (r: string)
    ensures |r| <= |s|
  {
    if s != [] && IsWs(s[|s| - 1]) then TrimEnd(s[..|s| - 1]) else s
  }

  /** rstrip() keeps the longest prefix of s that does not end with
      whitespace. */
  lemma {:induction false} TrimEndSpec(s: string)
    ensures var r := TrimEnd(s);
      && r == s[..|r|] && AllWs(s[|r|..])
      && (r == [] || !IsWs(r[|r| - 1]))
  {
    if s != [] && IsWs(s[|s| - 1]) {
      TrimEndSpec(s[..|s| - 1]);
      var r := TrimEnd(s[..|s| - 1]);
      assert s[|r|..] == s[..|s| - 1][|r|..] + [s[|s| - 1]];
    }
  }

  /** Whitespace on both sides of whitespace is whitespace. */
  lemma AllWsConcat(a: string, b: string)
    requires AllWs(a) && AllWs(b)
    ensures AllWs(a + b)
  {
    forall k | 0 <= k < |a + b| ensures IsWs((a + b)[k]) {
      if k >= |a| { assert (a + b)[k] == b[k - |a|]; }
    }
  }

  /** strip() */
  function Strip(s: string): (r: string)
    ensures |r| <= |s|
  {
    TrimEnd(TrimStart(s))
  }

  /** strip() keeps the slice of s between a whitespace prefix and a
      whitespace suffix. */
  lemma StripSlice(s: string)
    ensures var r, i := Strip(s), |s| - |TrimStart(s)|;
      && i + |r| <= |s| && s == s[..i] + r + s[i + |r|..]
      && AllWs(s[..i]) && AllWs(s[i + |r|..])
  {
    var t := TrimStart(s);
    var r := TrimEnd(t);
    var i := |s| - |t|;
    TrimStartSpec(s);
    TrimEndSpec(t);
    SliceAround(s, t, r, i);
  }

  /** s = s[..i] + t and t = r + t[|r|..] put r in the middle of s. */
  lemma SliceAround(s: string, t: string, r: string, i: nat)
    requires i <= |s| && t == s[i..] && |r| <= |t| && r == t[..|r|]
    ensures i + |r| <= |s| && s == s[..i] + r + s[i + |r|..] && s[i + |r|..] == t[|r|..]
  {
    assert s[i + |r|..] == t[|r|..];
    assert s == s[..i] + s[i..];
    assert t == r + t[|r|..];
  }

  /** The result of strip() is empty exactly when s is all whitespace, and
      otherwise starts and ends with a non-space. */
  lemma StripSpec(s: string)
    ensures Strip(s) == [] <==> AllWs(s)
    ensures Strip(s) == [] || (!IsWs(Strip(s)[0]) && !IsWs(Strip(s)[|Strip(s)| - 1]))
  {
    var t := TrimStart(s);
    var r := TrimEnd(t);
    var i := |s| - |t|;
    TrimStartSpec(s);
    TrimEndSpec(t);
    StripSlice(s);
    if r == [] {
      assert s == s[..i] + s[i..];
      AllWsConcat(s[..i], s[i..]);
    } else {
      assert s[i] == r[0];
    }
  }

  /** A non-space character of s survives strip(), and strip() adds none. */
  lemma StripKeeps(s: string, c: char)
    requires !IsWs(c)
    ensures c in Strip(s) <==> c in s
  {
    var r := Strip(s);
    var i := |s| - |TrimStart(s)|;
    StripSlice(s);
    var pre, post := s[..i], s[i + |r|..];
    assert s == pre + r + post;
    assert c !in pre && c !in post;
  }

  /** strip() of a string framed by whitespace is the string inside. */
  lemma StripAround(s: string, pre: string, core: string, post: string)
    requires s == pre + core + post && AllWs(pre) && AllWs(post)
    requires core != [] && !IsWs(core[0]) && !IsWs(core[|core| - 1])
    ensures Strip(s) == core
  {
    var r := Strip(s);
    var i := |s| - |TrimStart(s)|;
    StripSlice(s);
    StripSpec(s);
    var j := i + |r|;
    assert s[|pre|] == core[0];
    assert s[|pre| + |core| - 1] == core[|core| - 1];
    assert r != [] by { assert !IsWs(s[|pre|]); }
    assert s[i] == r[0] && s[j - 1] == r[|r| - 1];
    assert i == |pre|;
    assert j == |pre| + |core|;
    assert r == s[|pre|..|pre| + |core|];
  }

  /** The index of the first occurrence of c in s, or |s| when there is none
      (str.find with -1 replaced by the length). */
  function IndexOf(s: string, c: char): (i: nat)
    ensures i <= |s|
  {
    if s == [] then 0
    else if s[0] == c then 0
    else IndexOf(s[1..], c) + 1
  }

  /** IndexOf finds the first occurrence, and finds one exactly when there
      is one. */
  lemma {:induction false} IndexOfSpec(s: string, c: char)
    ensures var i := IndexOf(s, c);
      && c !in s[..i]
      && (i < |s| <==> c in s)
      && (i < |s| ==> s[i] == c)
  {
    if s != [] && s[0] != c {
      IndexOfSpec(s[1..], c);
      var j := IndexOf(s[1..], c);
      assert s[..j + 1] == [s[0]] + s[1..][..j];
      assert s == [s[0]] + s[1..];
    }
  }

  /** The first occurrence of c is the one with no c before it. */
  lemma IndexOfIs(s: string, c: char, i: nat)
    requires i < |s| && s[i] == c && c !in s[..i]
    ensures IndexOf(s, c) == i
  {
    IndexOfSpec(s, c);
  }

  /** s.split(sep, maxsplit=1) */
  function SplitOnce(s: string, sep: char): (parts: seq<string>)
    ensures 1 <= |parts| <= 2
  {
    var i := IndexOf(s, sep);
    if i == |s| then [s] else [s[..i], s[i + 1..]]
  }

  /** split(sep, maxsplit=1) gives one part, the whole string, when sep does
      not occur, and otherwise the text before the first sep and everything
      after it. */
  lemma SplitOnceSpec(s: string, sep: char)
    ensures var parts := SplitOnce(s, sep);
      && (sep !in s <==> parts == [s])
      && (sep in s ==> |parts| == 2 && s == parts[0] + [sep] + parts[1] && sep !in parts[0])
  {
    IndexOfSpec(s, sep);
    var i := IndexOf(s, sep);
    if i < |s| {
      assert s == s[..i] + [sep] + s[i + 1..];
    }
  }

  /** s.replace(c, '') */
  function RemoveAll(s: string, c: char): (r: string)
    ensures |r| <= |s|
  {
    if s == [] then []
    else if s[0] == c then RemoveAll(s[1..], c)
    else [s[0]] + RemoveAll(s[1..], c)
  }

  /** replace(c, '') removes every c and keeps every other character as
      often as it occurs in s; a string without c is left as it is. */
  lemma {:induction false} RemoveAllSpec(s: string, c: char)
    ensures c !in RemoveAll(s, c)
    ensures forall d :: d != c ==> multiset(RemoveAll(s, c))[d] == multiset(s)[d]
    ensures c !in s ==> RemoveAll(s, c) == s
  {
    if s != [] {
      RemoveAllSpec(s[1..], c);
      assert s == [s[0]] + s[1..];
    }
  }

  /** replace(c, '') works character by character and keeps the order of
      what it keeps: the cleaned text of a + b is the cleaned a followed by
      the cleaned b, and one character is dropped exactly when it is c. */
  lemma {:induction false} RemoveAllConcat(a: string, b: string, c: char, x: char)
    ensures RemoveAll(a + b, c) == RemoveAll(a, c) + RemoveAll(b, c)
    ensures RemoveAll([x], c) == if x == c then [] else [x]
  {
    if a == [] {
      assert a + b == b;
    } else {
      RemoveAllConcat(a[1..], b, c, x);
      assert (a + b)[1..] == a[1..] + b;
    }
  }

  /** A character occurs in s.replace(c, '') exactly when it occurs in s
      and is not c. */
  lemma RemoveAllKeeps(s: string, c: char, d: char)
    ensures d in RemoveAll(s, c) <==> d in s && d != c
  {
    var r := RemoveAll(s, c);
    RemoveAllSpec(s, c);
    if d != c {
      assert d in r <==> multiset(r)[d] > 0;
      assert d in s <==> multiset(s)[d] > 0;
    }
  }

  function Digit(d: nat): char
    requires d < 10
  {
    ('0' as int + d) as char
  }

  /** The decimal text of n, as str(n) or f"{n}" renders it. */
  function Decimal(n: nat): (r: string)
    ensures |r| >= 1
    ensures |r| == 1 <==> n < 10
  {
    if n < 10 then [Digit(n)] else Decimal(n / 10) + [Digit(n % 10)]
  }

  /** The decimal text of a number is made of the digits 0 to 9 only. */
  lemma {:induction false} DecimalDigits(n: nat)
    ensures forall i :: 0 <= i < |Decimal(n)| ==> '0' <= Decimal(n)[i] <= '9'
  {
    if n >= 10 {
      DecimalDigits(n / 10);
      var d := Decimal(n);
      forall i | 0 <= i < |d| ensures '0' <= d[i] <= '9' {
        if i < |d| - 1 { assert d[i] == Decimal(n / 10)[i]; }
      }
    }
  }

  /** The number a string of decimal digits denotes, most significant
      digit first, as int() reads it. */
  function DigitsValue(s: string): int {
    if s == [] then 0 else DigitsValue(s[..|s| - 1]) * 10 + (s[|s| - 1] as int - '0' as int)
  }

  /** The decimal text of n reads back as n, and starts with '0' only when n
      is 0: with DecimalDigits, it is the canonical decimal rendering. */
  lemma {:induction false} DecimalValue(n: nat)
    ensures DigitsValue(Decimal(n)) == n
    ensures Decimal(n)[0] == '0' ==> n == 0
  {
    var d := Decimal(n);
    if n < 10 {
      assert d[..0] == [];
    } else {
      DecimalValue(n / 10);
      assert d[..|d| - 1] == Decimal(n / 10);
      assert d[0] == Decimal(n / 10)[0];
    }
  }

  /** Different numbers have different decimal texts. */
  lemma {:induction false} DecimalInjective(a: nat, b: nat)
    requires Decimal(a) == Decimal(b)
    ensures a == b
  {
    if a >= 10 && b >= 10 {
      var da, db := Decimal(a), Decimal(b);
      assert da[|da| - 1] == db[|db| - 1];
      assert Digit(a % 10) == Digit(b % 10);
      assert da[..|da| - 1] == Decimal(a / 10);
      assert db[..|db| - 1] == Decimal(b / 10);
      DecimalInjective(a / 10, b / 10);
    } else if a < 10 && b < 10 {
      assert Decimal(a)[0] == Decimal(b)[0];
    }
  }

  /** Suffixing one key with two different numbers gives two different keys. */
  lemma SuffixedInjective(k: string, a: nat, b: nat)
    requires k + Decimal(a) == k + Decimal(b)
    ensures a == b
  {
    assert (k + Decimal(a))[|k|..] == Decimal(a);
    assert (k + Decimal(b))[|k|..] == Decimal(b);
    DecimalInjective(a, b);
  }
}
