/** The parts of JavaScript's built-in string and number operations that the
    timer component relies on (ECMA-262): `String.prototype.trim`,
    `String.prototype.indexOf`, `String.prototype.replace` with a string
    pattern, and the decimal conversions between numbers and strings.
    Strings are sequences of code points; every string literal of the
    component lies in the Basic Multilingual Plane, so positions agree with
    JavaScript's UTF-16 positions there. */
module JsString {
  import opened Wrappers

  // ---------------------------------------------------------------------
  // trim

  /** The code points `trim` strips: ECMAScript's WhiteSpace (tab, vertical
      tab, form feed, the byte order mark and the Unicode space separators)
      and LineTerminator (line feed, carriage return, line and paragraph
      separators). */
  predicate IsTrimmable(c: char)
  {
    || c == '\t' || c == '\n' || c == '\U{B}' || c == '\U{C}' || c == '\r'
    || c == ' ' || c == '\U{A0}' || c == '\U{1680}'
    || ('\U{2000}' <= c <= '\U{200A}')
    || c == '\U{2028}' || c == '\U{2029}' || c == '\U{202F}' || c == '\U{205F}'
    || c == '\U{3000}' || c == '\U{FEFF}'
  }

  /** Drops the leading trimmable code points: the result is the longest
      suffix of `s` that does not start with one. */
  function TrimStart(s: string): (r: string)
    ensures |r| <= |s| && r == s[|s| - |r|..]
    ensures forall c :: c in s[..|s| - |r|] ==> IsTrimmable(c)
    ensures r != [] ==> !IsTrimmable(r[0])
  {
    if s != [] && IsTrimmable(s[0]) then
      var r := TrimStart(s[1..]);
      DropFirst(s, |s| - |r|);
      r
    else
      assert s[..0] == [];
      s
  }

  /** Drops the trailing trimmable code points: the result is the longest
      prefix of `s` that does not end with one. */
  function TrimEnd(s: string): (r: string)
    ensures |r| <= |s| && r == s[..|r|]
    ensures forall c :: c in s[|r|..] ==> IsTrimmable(c)
    ensures r != [] ==> !IsTrimmable(r[|r| - 1])
  {
    if s != [] && IsTrimmable(s[|s| - 1]) then
      var r := TrimEnd(s[..|s| - 1]);
      DropLast(s, |r|);
      r
    else
      assert s[|s|..] == [];
      s
  }

  /** Splitting `s` at `k >= 1` is splitting its tail at `k - 1`. */
  lemma DropFirst<T>(s: seq<T>, k: nat)
    requires 1 <= k <= |s|
    ensures s[1..][k - 1..] == s[k..]
    ensures s[..k] == [s[0]] + s[1..][..k - 1]
  {
  }

  /** Splitting `s` at `k < |s|` is splitting its front at `k`. */
  lemma DropLast<T>(s: seq<T>, k: nat)
    requires k < |s|
    ensures s[..|s| - 1][..k] == s[..k]
    ensures s[k..] == s[..|s| - 1][k..] + [s[|s| - 1]]
  {
  }

  /** `s.trim()`. */
  function Trim(s: string): string
  {
    TrimEnd(TrimStart(s))
  }

  /** `s.trim()` is truthy, i.e. not the empty string. */
  predicate HasVisibleText(s: string)
  {
    Trim(s) != ""
  }

  /** `s.trim()` is empty exactly when every code point of `s` is trimmable. */
  lemma TrimEmptyIffBlank(s: string)
    ensures !HasVisibleText(s) <==> forall c :: c in s ==> IsTrimmable(c)
  {
  }

  /** The trimmed string is the slice of the original between the leading
      and the trailing trimmable code points. */
  lemma TrimIsSlice(s: string) returns (lo: nat, hi: nat)
    ensures lo <= hi <= |s| && Trim(s) == s[lo..hi]
    ensures forall c :: c in s[..lo] ==> IsTrimmable(c)
    ensures forall c :: c in s[hi..] ==> IsTrimmable(c)
  {
    var t := TrimStart(s);
    var r := TrimEnd(t);
    lo := |s| - |t|;
    hi := lo + |r|;
    SliceOfSuffix(s, lo, |r|);
    assert s[hi..] == t[|r|..];
    forall c | c in s[hi..]
      ensures IsTrimmable(c)
    {
      assert c in t[|r|..];
    }
  }

  lemma SliceOfSuffix<T>(s: seq<T>, lo: nat, n: nat)
    requires lo + n <= |s|
    ensures s[lo..][..n] == s[lo..lo + n]
    ensures s[lo..][n..] == s[lo + n..]
  {
  }

  // ---------------------------------------------------------------------
  // indexOf

  /** `pat` occurs in `s` starting at position `k`. */
  predicate OccursAt(s: string, pat: string, k: nat)
  {
    k + |pat| <= |s| && s[k..k + |pat|] == pat
  }

  /** The first position at or after `from` where `pat` occurs in `s`
      (ECMAScript's StringIndexOf), or None where JavaScript returns -1. */
  function IndexOfFrom(s: string, pat: string, from: nat): (r: Option<nat>)
    ensures r.Some? ==> from <= r.value && OccursAt(s, pat, r.value)
    ensures forall k :: from <= k && (r.None? || k < r.value) ==> !OccursAt(s, pat, k)
    decreases |s| - from
  {
    if from + |pat| > |s| then None
    else if OccursAt(s, pat, from) then Some(from)
    else IndexOfFrom(s, pat, from + 1)
  }

  /** `s.indexOf(pat)`. */
  function IndexOf(s: string, pat: string): Option<nat>
  {
    IndexOfFrom(s, pat, 0)
  }

  /** When the first code point of `pat` does not appear in `head`, the first
      occurrence of `pat` in `head + pat + tail` is the one right after `head`. */
  lemma IndexOfAfterHead(head: string, pat: string, tail: string)
    requires pat != [] && pat[0] !in head
    ensures IndexOf(head + pat + tail, pat) == Some(|head|)
  {
    var s := head + pat + tail;
    assert OccursAt(s, pat, |head|) by {
      assert s[|head|..|head| + |pat|] == pat;
    }
    forall k | 0 <= k < |head|
      ensures !OccursAt(s, pat, k)
    {
      if k + |pat| <= |s| {
        assert s[k..k + |pat|][0] == head[k];
      }
    }
  }

  // ---------------------------------------------------------------------
  // replace

  /** The replacement text of `String.prototype.replace` (ECMAScript's
      GetSubstitution) for a match of `matched` at `position` in `str`,
      where the pattern is a string, so that there are no capture groups:
      `$$` gives `$`, `$&` the matched text, `` $` `` the text before the
      match and `$'` the text after it. Every other code point, including a
      `$` followed by digits or by `<`, is copied as it is. */
  function ExpandReplacement(template: string, matched: string, str: string, position: nat): (r: string)
    requires position + |matched| <= |str|
    ensures '$' !in template ==> r == template
    ensures |template| >= 2 && template[0] == '$' && template[1] == '$' ==>
      r == "$" + ExpandReplacement(template[2..], matched, str, position)
    ensures |template| >= 2 && template[0] == '$' && template[1] == '&' ==>
      r == matched + ExpandReplacement(template[2..], matched, str, position)
    ensures |template| >= 2 && template[0] == '$' && template[1] == '`' ==>
      r == str[..position] + ExpandReplacement(template[2..], matched, str, position)
    ensures |template| >= 2 && template[0] == '$' && template[1] == '\'' ==>
      r == str[position + |matched|..] + ExpandReplacement(template[2..], matched, str, position)
    ensures template != [] && !(|template| >= 2 && template[0] == '$' && template[1] in "$&`'") ==>
      r == [template[0]] + ExpandReplacement(template[1..], matched, str, position)
    decreases |template|
  {
    if template == [] then []
    else if template[0] == '$' && |template| >= 2 && template[1] == '$' then
      "$" + ExpandReplacement(template[2..], matched, str, position)
    else if template[0] == '$' && |template| >= 2 && template[1] == '&' then
      matched + ExpandReplacement(template[2..], matched, str, position)
    else if template[0] == '$' && |template| >= 2 && template[1] == '`' then
      str[..position] + ExpandReplacement(template[2..], matched, str, position)
    else if template[0] == '$' && |template| >= 2 && template[1] == '\'' then
      str[position + |matched|..] + ExpandReplacement(template[2..], matched, str, position)
    else
      [template[0]] + ExpandReplacement(template[1..], matched, str, position)
  }

  /** `s.replace(pat, replacement)` with a string pattern: only the first
      occurrence of `pat` is replaced, and `$` patterns in `replacement` are
      expanded. */
  function Replace(s: string, pat: string, replacement: string): (r: string)
    ensures IndexOf(s, pat).None? ==> r == s
    ensures IndexOf(s, pat).Some? ==>
      var k := IndexOf(s, pat).value;
      var e := ExpandReplacement(replacement, pat, s, k);
      && |r| == |s| - |pat| + |e|
      && r[..k] == s[..k]
      && OccursAt(r, e, k)
      && r[k + |e|..] == s[k + |pat|..]
  {
    match IndexOf(s, pat)
    case None => s
    case Some(k) =>
      var e := ExpandReplacement(replacement, pat, s, k);
      assert (s[..k] + e + s[k + |pat|..])[k..k + |e|] == e;
      s[..k] + e + s[k + |pat|..]
  }

  /** The first occurrence of `pat` in `s` replaced by `replacement` taken
      literally (what `s.replace(pat, () => replacement)` does). */
  function ReplaceLiteral(s: string, pat: string, replacement: string): (r: string)
    ensures IndexOf(s, pat).None? ==> r == s
    ensures IndexOf(s, pat).Some? ==>
      var k := IndexOf(s, pat).value;
      && |r| == |s| - |pat| + |replacement|
      && r[..k] == s[..k]
      && OccursAt(r, replacement, k)
      && r[k + |replacement|..] == s[k + |pat|..]
  {
    match IndexOf(s, pat)
    case None => s
    case Some(k) =>
      assert (s[..k] + replacement + s[k + |pat|..])[k..k + |replacement|] == replacement;
      s[..k] + replacement + s[k + |pat|..]
  }

  /** The two replacements agree whenever the replacement has no `$`. */
  lemma ReplaceWithoutDollar(s: string, pat: string, replacement: string)
    requires '$' !in replacement
    ensures Replace(s, pat, replacement) == ReplaceLiteral(s, pat, replacement)
  {
  }

  /** Replacing a pattern that first occurs right after `head`: the literal
      replacement gives `head + replacement + tail`, and so does `replace`
      when the replacement has no `$`. */
  lemma ReplaceAfterHead(head: string, pat: string, tail: string, replacement: string)
    requires pat != [] && pat[0] !in head
    ensures ReplaceLiteral(head + pat + tail, pat, replacement) == head + replacement + tail
    ensures '$' !in replacement ==> Replace(head + pat + tail, pat, replacement) == head + replacement + tail
  {
    var s := head + pat + tail;
    IndexOfAfterHead(head, pat, tail);
    assert s[..|head|] == head;
    assert s[|head| + |pat|..] == tail;
  }

  // ---------------------------------------------------------------------
  // numbers as decimal strings

  predicate IsDigit(c: char)
  {
    '0' <= c <= '9'
  }

  /** A non-empty string of decimal digits. */
  predicate IsDecimal(s: string)
  {
    s != [] && forall i :: 0 <= i < |s| ==> IsDigit(s[i])
  }

  function DigitChar(d: nat): (c: char)
    requires d < 10
    ensures IsDigit(c)
  {
    (('0' as int) + d) as char
  }

  function DigitValue(c: char): (d: nat)
    requires IsDigit(c)
    ensures d < 10 && DigitChar(d) == c
  {
    (c as int) - ('0' as int)
  }

  /** `n.toString()` for a non-negative integer: its decimal digits, without
      leading zeros. */
  function ToDecimal(n: nat): (r: string)
    ensures IsDecimal(r)
    ensures |r| > 1 ==> r[0] != '0'
  {
    if n < 10 then [DigitChar(n)] else ToDecimal(n / 10) + [DigitChar(n % 10)]
  }

  /** The number that `parseInt` reads from a string of decimal digits; None
      for any other string. */
  function ParseDecimal(s: string): (r: Option<nat>)
    ensures r.Some? <==> IsDecimal(s)
  {
    if s == [] || !IsDigit(s[|s| - 1]) then None
    else if |s| == 1 then Some(DigitValue(s[0]))
    else match ParseDecimal(s[..|s| - 1])
      case None => None
      case Some(v) => Some(10 * v + DigitValue(s[|s| - 1]))
  }

  /** Reading back a written number gives the number. */
  lemma {:induction false} ParseToDecimal(n: nat)
    ensures ParseDecimal(ToDecimal(n)) == Some(n)
  {
    if n >= 10 {
      var t := ToDecimal(n / 10);
      var s := t + [DigitChar(n % 10)];
      assert s[..|s| - 1] == t;
      ParseToDecimal(n / 10);
    }
  }

  /** Writing back a number read from a canonical decimal string (no leading
      zero) gives the string. */
  lemma {:induction false} ToDecimalParse(s: string)
    requires IsDecimal(s) && (|s| > 1 ==> s[0] != '0')
    ensures ToDecimal(ParseDecimal(s).value) == s
  {
    if |s| > 1 {
      var p := s[..|s| - 1];
      assert p[0] == s[0];
      ToDecimalParse(p);
      var v := ParseDecimal(p).value;
      var d := DigitValue(s[|s| - 1]);
      assert ToDecimal(0) == ['0'];
      assert v >= 1;
      assert (10 * v + d) / 10 == v && (10 * v + d) % 10 == d;
      assert s == p + [s[|s| - 1]];
    }
  }
}
