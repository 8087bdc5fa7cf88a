/**
 String operations with the meaning Python gives them in the extractor:
 the `in` operator on two strings, `s.split(sep)[-1]`, `str.strip()`,
 decimal formatting of a non-negative `int`, and `os.path.splitext`.
 */
module Text {
  import opened Wrappers

  /** The two Unicode character classes the extractor consults: `str.isalnum`
      and `str.isspace`. The model is parametric in both. */
  datatype CharClass = CharClass(alnum: char -> bool, space: char -> bool)

  /** `needle` occurs in `hay` starting at offset `i`. */
  ghost predicate OccursAt(hay: string, needle: string, i: int) {
    0 <= i && i + |needle| <= |hay| && hay[i..i + |needle|] == needle
  }

  /** Python's `needle in hay` on strings (the empty string occurs everywhere). */
  predicate Contains(hay: string, needle: string)
    decreases |hay|
  {
    |needle| <= |hay| && (hay[..|needle|] == needle || Contains(hay[1..], needle))
  }

  lemma {:induction false} ContainsIffOccurs(hay: string, needle: string)
    ensures Contains(hay, needle) <==> exists i :: OccursAt(hay, needle, i)
    decreases |hay|
  {
    if |needle| <= |hay| {
      if hay[..|needle|] == needle {
        assert OccursAt(hay, needle, 0);
      } else {
        ContainsIffOccurs(hay[1..], needle);
        if Contains(hay[1..], needle) {
          var i :| OccursAt(hay[1..], needle, i);
          assert hay[1..][i..i + |needle|] == hay[i + 1..i + 1 + |needle|];
          assert OccursAt(hay, needle, i + 1);
        }
        if i :| OccursAt(hay, needle, i) {
          assert i != 0 by {
            assert hay[0..|needle|] == hay[..|needle|];
          }
          assert hay[1..][i - 1..i - 1 + |needle|] == hay[i..i + |needle|];
          assert OccursAt(hay[1..], needle, i - 1);
        }
      }
    }
  }

  /** Python's `s.split(sep)[-1]`: the text after the last `sep`, or all of
      `s` when `sep` does not occur. */
  function AfterLast(s: string, sep: char): (r: string)
    ensures sep !in r
    ensures |r| <= |s| && r == s[|s| - |r|..]
    ensures |r| < |s| ==> s[|s| - |r| - 1] == sep
    decreases |s|
  {
    if |s| == 0 || s[|s| - 1] == sep then []
    else AfterLast(s[..|s| - 1], sep) + [s[|s| - 1]]
  }

  /** Whatever precedes the last separator, the text after it is what
      `AfterLast` returns. */
  lemma {:induction false} AfterLastOfJoin(s: string, sep: char, t: string)
    requires sep !in t
    ensures AfterLast(s + [sep] + t, sep) == t
    decreases |t|
  {
    var u := s + [sep] + t;
    if |t| == 0 {
      assert u[|u| - 1] == sep;
    } else {
      assert u[|u| - 1] == t[|t| - 1];
      assert u[..|u| - 1] == s + [sep] + t[..|t| - 1];
      AfterLastOfJoin(s, sep, t[..|t| - 1]);
      assert t[..|t| - 1] + [t[|t| - 1]] == t;
    }
  }

  /** Python's `str.lstrip()`. */
  function StripStart(cc: CharClass, s: string): (r: string)
    ensures |r| <= |s| && r == s[|s| - |r|..]
    ensures forall i :: 0 <= i < |s| - |r| ==> cc.space(s[i])
    ensures r == [] || !cc.space(r[0])
    decreases |s|
  {
    if |s| > 0 && cc.space(s[0]) then StripStart(cc, s[1..]) else s
  }

  /** Python's `str.rstrip()`. */
  function StripEnd(cc: CharClass, s: string): (r: string)
    ensures |r| <= |s| && r == s[..|r|]
    ensures forall i :: |r| <= i < |s| ==> cc.space(s[i])
    ensures r == [] || !cc.space(r[|r| - 1])
    decreases |s|
  {
    if |s| > 0 && cc.space(s[|s| - 1]) then StripEnd(cc, s[..|s| - 1]) else s
  }

  /** Every character of `s` is whitespace. */
  predicate Blank(cc: CharClass, s: string) {
    forall i :: 0 <= i < |s| ==> cc.space(s[i])
  }

  /** `r` is `s` with the whitespace margins before offset `i` and after
      `i + |r|` cut away. */
  ghost predicate TrimmedAt(cc: CharClass, s: string, r: string, i: int) {
    && 0 <= i && i + |r| <= |s| && r == s[i..i + |r|]
    && (forall k :: 0 <= k < i ==> cc.space(s[k]))
    && (forall k :: i + |r| <= k < |s| ==> cc.space(s[k]))
  }

  /** Python's `str.strip()`: the result is empty exactly when `s` is all
      whitespace, and otherwise starts and ends with a non-whitespace
      character, having lost only whitespace on either side. */
  function Strip(cc: CharClass, s: string): (r: string)
    ensures r == [] <==> Blank(cc, s)
    ensures r != [] ==> !cc.space(r[0]) && !cc.space(r[|r| - 1])
    ensures exists i :: TrimmedAt(cc, s, r, i)
  {
    var t := StripStart(cc, s);
    var r := StripEnd(cc, t);
    StripOfParts(cc, s, t, r);
    r
  }

  /** Cutting a whitespace prefix off `s` to get `t`, which no longer
      starts with whitespace, and then a whitespace suffix off `t` to get
      `r` trims `r` out of `s`; `r` is empty exactly when `s` is blank. */
  lemma StripOfParts(cc: CharClass, s: string, t: string, r: string)
    requires |t| <= |s| && t == s[|s| - |t|..]
    requires forall i :: 0 <= i < |s| - |t| ==> cc.space(s[i])
    requires t == [] || !cc.space(t[0])
    requires |r| <= |t| && r == t[..|r|]
    requires forall i :: |r| <= i < |t| ==> cc.space(t[i])
    ensures TrimmedAt(cc, s, r, |s| - |t|)
    ensures r == [] <==> Blank(cc, s)
  {
    TrimmedOfParts(cc, s, t, r);
    if r == [] {
      assert |t| == 0;
    } else {
      assert s[|s| - |t|] == r[0];
    }
  }

  /** Text that neither starts nor ends with whitespace is left as it is
      by `strip()`. */
  lemma StripUnpadded(cc: CharClass, s: string)
    requires s != [] ==> !cc.space(s[0]) && !cc.space(s[|s| - 1])
    ensures Strip(cc, s) == s
  {
    assert StripStart(cc, s) == s;
    assert StripEnd(cc, s) == s;
  }

  lemma TrimmedOfParts(cc: CharClass, s: string, t: string, r: string)
    requires |t| <= |s| && t == s[|s| - |t|..]
    requires forall i :: 0 <= i < |s| - |t| ==> cc.space(s[i])
    requires |r| <= |t| && r == t[..|r|]
    requires forall i :: |r| <= i < |t| ==> cc.space(t[i])
    ensures TrimmedAt(cc, s, r, |s| - |t|)
  {
    var o := |s| - |t|;
    assert r == s[o..o + |r|];
    forall k | o + |r| <= k < |s|
      ensures cc.space(s[k])
    {
      assert s[k] == t[k - o];
    }
  }

  /** The decimal digit for `d`. */
  function Digit(d: nat): (c: char)
    requires d < 10
    ensures '0' <= c <= '9'
  {
    ('0' as int + d) as char
  }

  /** The numeric value of a decimal digit. */
  function DigitValue(c: char): (d: nat)
    requires '0' <= c <= '9'
    ensures d < 10
  {
    c as int - '0' as int
  }

  predicate IsDecimal(s: string) {
    forall i :: 0 <= i < |s| ==> '0' <= s[i] <= '9'
  }

  /** Python's `f"{n}"` for a non-negative integer: decimal digits without
      leading zeros. */
  function Decimal(n: nat): (s: string)
    ensures |s| > 0 && IsDecimal(s)
    ensures |s| == 1 || s[0] != '0'
    ensures s == "0" <==> n == 0
    decreases n
  {
    if n < 10 then [Digit(n)] else Decimal(n / 10) + [Digit(n % 10)]
  }

  /** The value of a string of decimal digits: Python's `int(s)` when `s`
      is not empty (the empty string has value 0 here, where `int` raises). */
  function ParseDecimal(s: string): nat
    requires IsDecimal(s)
    decreases |s|
  {
    if |s| == 0 then 0
    else 10 * ParseDecimal(s[..|s| - 1]) + DigitValue(s[|s| - 1])
  }

  lemma {:induction false} ParseDecimalInverts(n: nat)
    ensures ParseDecimal(Decimal(n)) == n
    decreases n
  {
    if n >= 10 {
      var s := Decimal(n);
      assert s[..|s| - 1] == Decimal(n / 10);
      ParseDecimalInverts(n / 10);
    }
  }

  /** Distinct numbers format to distinct decimal strings. */
  lemma DecimalInjective(m: nat, n: nat)
    ensures Decimal(m) == Decimal(n) ==> m == n
  {
    ParseDecimalInverts(m);
    ParseDecimalInverts(n);
  }

  /** The position of the last `c` in `s`, if any. */
  function LastIndexOf(s: string, c: char): (r: Option<nat>)
    ensures r.None? <==> c !in s
    ensures r.Some? ==> r.value < |s| && s[r.value] == c
    ensures r.Some? ==> forall k :: r.value < k < |s| ==> s[k] != c
    decreases |s|
  {
    if |s| == 0 then None
    else if s[|s| - 1] == c then Some(|s| - 1)
    else LastIndexOf(s[..|s| - 1], c)
  }

  /** `os.path.splitext` splits `name` at `d`: the last dot, with
      something other than a dot before it. */
  ghost predicate SplitsAt(name: string, d: int) {
    && 0 <= d < |name| && name[d] == '.'
    && (forall k :: d < k < |name| ==> name[k] != '.')
    && (exists k :: 0 <= k < d && name[k] != '.')
  }

  /** Python's `os.path.splitext(name)[0]` for a name without a directory
      part: the name up to its last dot, unless nothing but dots precede
      that dot, in which case the name is returned whole. */
  function SplitExtRoot(name: string): (root: string)
    ensures |root| <= |name| && root == name[..|root|]
    ensures root != name ==> SplitsAt(name, |root|)
    ensures root == name ==> forall d :: !SplitsAt(name, d)
  {
    match LastIndexOf(name, '.')
    case None => name
    case Some(d) =>
      if exists k :: 0 <= k < d && name[k] != '.' then name[..d] else name
  }

  /** Wherever `os.path.splitext` splits a name, the root is the name up to
      that dot. */
  lemma SplitExtRootAt(name: string, d: int)
    requires SplitsAt(name, d)
    ensures SplitExtRoot(name) == name[..d]
  {
    var root := SplitExtRoot(name);
    if root != name {
      assert SplitsAt(name, |root|);
    }
  }
}
