/** The three `java.lang.String` operations the file-name code relies on:
    `replace` of every occurrence of a literal, `Integer.toString` and
    `Integer.parseInt`, plus `File.getName` (the part after the last separator). */
module Strings {
  import opened Wrappers

  const INT_MIN: int := -0x8000_0000
  const INT_MAX: int := 0x7fff_ffff

  predicate IsInt32(v: int)
  {
    INT_MIN <= v <= INT_MAX
  }

  /** `s.replace(pat, rep)`: every occurrence of `pat`, scanned left to right
      and not overlapping, is replaced by `rep`. */
  function ReplaceAll(s: string, pat: string, rep: string): (r: string)
    requires |pat| > 0
    decreases |s|
  {
    if |s| < |pat| then s
    else if s[..|pat|] == pat then rep + ReplaceAll(s[|pat|..], pat, rep)
    else [s[0]] + ReplaceAll(s[1..], pat, rep)
  }

  /** A string lacking one of the pattern's characters has no occurrence and is unchanged. */
  lemma {:induction false} ReplaceAbsent(s: string, pat: string, rep: string, c: char)
    requires |pat| > 0 && c in pat && c !in s
    ensures ReplaceAll(s, pat, rep) == s
    decreases |s|
  {
    if |s| >= |pat| {
      assert s[..|pat|] != pat by {
        var i :| 0 <= i < |pat| && pat[i] == c;
        assert s[..|pat|][i] == s[i];
      }
      ReplaceAbsent(s[1..], pat, rep, c);
      assert s == [s[0]] + s[1..];
    }
  }

  /** A prefix without the pattern's first character is passed through untouched. */
  lemma {:induction false} ReplaceSkipsPrefix(d: string, t: string, pat: string, rep: string)
    requires |pat| > 0 && pat[0] !in d
    ensures ReplaceAll(d + t, pat, rep) == d + ReplaceAll(t, pat, rep)
    decreases |d|
  {
    if d != [] {
      var s := d + t;
      if |s| >= |pat| {
        assert s[..|pat|][0] == d[0] != pat[0];
        assert ReplaceAll(s, pat, rep) == [s[0]] + ReplaceAll(s[1..], pat, rep);
        assert s[1..] == d[1..] + t;
        ReplaceSkipsPrefix(d[1..], t, pat, rep);
        assert s[0] == d[0];
        assert d + ReplaceAll(t, pat, rep) == [d[0]] + (d[1..] + ReplaceAll(t, pat, rep));
      } else {
        assert ReplaceAll(t, pat, rep) == t;
      }
    } else {
      assert d + t == t;
    }
  }

  /** The pattern alone is replaced by the replacement. */
  lemma ReplaceWhole(pat: string, rep: string)
    requires |pat| > 0
    ensures ReplaceAll(pat, pat, rep) == rep
  {
    assert pat[|pat|..] == [];
  }

  /** A leading occurrence is replaced, and the scan continues after it. */
  lemma ReplaceLeading(pat: string, t: string, rep: string)
    requires |pat| > 0
    ensures ReplaceAll(pat + t, pat, rep) == rep + ReplaceAll(t, pat, rep)
  {
    assert (pat + t)[..|pat|] == pat;
    assert (pat + t)[|pat|..] == t;
  }

  predicate IsDigit(c: char)
  {
    '0' <= c <= '9'
  }

  predicate AllDigits(s: string)
  {
    forall i :: 0 <= i < |s| ==> IsDigit(s[i])
  }

  function DigitChar(d: nat): (c: char)
    requires d < 10
    ensures IsDigit(c)
  {
    ('0' as int + d) as char
  }

  /** The decimal digits of `n`, most significant first, without leading zeros. */
  function Digits(n: nat): (r: string)
    ensures |r| > 0 && AllDigits(r)
    ensures |r| > 1 ==> r[0] != '0'
  {
    if n < 10 then [DigitChar(n)] else Digits(n / 10) + [DigitChar(n % 10)]
  }

  /** The value of a string of decimal digits (leading zeros allowed). */
  function DigitsValue(s: string): nat
    requires AllDigits(s)
  {
    if s == [] then 0 else DigitsValue(s[..|s| - 1]) * 10 + (s[|s| - 1] as int - '0' as int)
  }

  lemma {:induction false} DigitsValueOfDigits(n: nat)
    ensures DigitsValue(Digits(n)) == n
  {
    if n >= 10 {
      var r := Digits(n);
      assert r[..|r| - 1] == Digits(n / 10);
      DigitsValueOfDigits(n / 10);
    }
  }

  /** `Integer.toString(v)`. */
  function IntToString(v: int): (r: string)
  {
    if v < 0 then "-" + Digits(-v) else Digits(v)
  }

  /** `Integer.parseInt(s)`: an optional `-` or `+`, then one or more decimal
      digits whose value must fit in a Java `int`; anything else is a
      `NumberFormatException`. */
  function ParseInt(s: string): (r: Result<int, JavaException>)
    ensures r.Err? ==> r.error == NumberFormatException
    ensures r.Ok? ==> IsInt32(r.value)
  {
    if s == [] then Err(NumberFormatException)
    else
      var negative := s[0] == '-';
      var body := if s[0] == '-' || s[0] == '+' then s[1..] else s;
      if body == [] || !AllDigits(body) then Err(NumberFormatException)
      else
        var v: int := if negative then -(DigitsValue(body) as int) else DigitsValue(body);
        if IsInt32(v) then Ok(v) else Err(NumberFormatException)
  }

  /** Parsing what `Integer.toString` printed gives the number back. */
  lemma ParseIntToString(v: int)
    requires IsInt32(v)
    ensures ParseInt(IntToString(v)) == Ok(v)
  {
    if v < 0 {
      var s := IntToString(v);
      assert s[1..] == Digits(-v);
      DigitsValueOfDigits(-v);
    } else {
      DigitsValueOfDigits(v);
    }
  }

  /** Printing a Java `int` is injective. */
  lemma IntToStringInjective(v: int, w: int)
    requires IsInt32(v) && IsInt32(w) && IntToString(v) == IntToString(w)
    ensures v == w
  {
    ParseIntToString(v);
    ParseIntToString(w);
  }

  /** A number ends in a digit: anything else fails to parse. */
  lemma ParseIntNeedsFinalDigit(s: string)
    requires s != [] && !IsDigit(s[|s| - 1])
    ensures ParseInt(s) == Err(NumberFormatException)
  {
    var body := if s[0] == '-' || s[0] == '+' then s[1..] else s;
    if body != [] {
      assert body[|body| - 1] == s[|s| - 1];
    }
  }

  /** `new File(path).getName()`: the part after the last `/`. */
  function LastSegment(path: string): (r: string)
    ensures '/' !in r
    ensures path == r || (|r| < |path| && path[|path| - |r| - 1] == '/')
    ensures path[|path| - |r|..] == r
  {
    if path == [] then []
    else if path[|path| - 1] == '/' then []
    else LastSegment(path[..|path| - 1]) + [path[|path| - 1]]
  }

  lemma {:induction false} LastSegmentAfterSeparator(dir: string, name: string)
    requires '/' !in name
    ensures LastSegment(dir + "/" + name) == name
    decreases |name|
  {
    var p := dir + "/" + name;
    if name == [] {
    } else {
      assert p[..|p| - 1] == dir + "/" + name[..|name| - 1];
      LastSegmentAfterSeparator(dir, name[..|name| - 1]);
      assert name == name[..|name| - 1] + [name[|name| - 1]];
    }
  }
}
