/**
 * The location fragment as the viewer reads and writes it: JavaScript's
 * `String(n)` for the `page=N` text it writes, `split('=')[1]` and the
 * decimal part of `parseInt` for the page number it reads back.
 */
module Fragment {
  import opened Wrappers

  predicate IsDigit(c: char) {
    '0' <= c <= '9'
  }

  predicate AllDigits(s: string) {
    forall i :: 0 <= i < |s| ==> IsDigit(s[i])
  }

  function DigitValue(c: char): (d: nat)
    requires IsDigit(c)
    ensures d < 10
  {
    c as int - '0' as int
  }

  function DigitChar(d: nat): (c: char)
    requires d < 10
    ensures IsDigit(c) && DigitValue(c) == d
  {
    ('0' as int + d) as char
  }

  /** The number a run of decimal digits denotes, most significant digit first. */
  function DigitsValue(s: string): nat
    requires AllDigits(s)
    decreases |s|
  {
    if s == [] then 0 else DigitsValue(s[..|s| - 1]) * 10 + DigitValue(s[|s| - 1])
  }

  /** `String(n)` for a non-negative integer: its shortest decimal spelling. */
  function NatToString(n: nat): (s: string)
    ensures |s| >= 1 && AllDigits(s)
    ensures |s| > 1 ==> s[0] != '0'
    ensures DigitsValue(s) == n
  {
    if n < 10 then [DigitChar(n)]
    else
      var high := NatToString(n / 10);
      var s := high + [DigitChar(n % 10)];
      assert s[..|s| - 1] == high;
      s
  }

  /** `String(i)` (and a template literal `${i}`) for any integer. */
  function IntToString(i: int): (s: string)
    ensures |s| >= 1
    ensures s[0] == '-' <==> i < 0
    ensures '=' !in s
  {
    if i < 0 then "-" + NatToString(-i) else NatToString(i)
  }

  /** The longest prefix of `s` made of decimal digits. */
  function DigitPrefix(s: string): (p: string)
    ensures |p| <= |s| && p == s[..|p|] && AllDigits(p)
    ensures |p| < |s| ==> !IsDigit(s[|p|])
  {
    if s != [] && IsDigit(s[0]) then [s[0]] + DigitPrefix(s[1..]) else []
  }

  /** Length of the optional leading sign `parseInt` accepts. */
  function SignLength(s: string): (k: nat)
    ensures k <= 1 && k <= |s|
  {
    if |s| > 0 && (s[0] == '+' || s[0] == '-') then 1 else 0
  }

  /**
   * `parseInt(s)` restricted to decimal text: an optional sign followed by the
   * longest run of digits; `None` stands for `NaN` (no digit after the sign).
   */
  function ParseInt(s: string): (r: Option<int>)
    ensures r.None? <==> !(SignLength(s) < |s| && IsDigit(s[SignLength(s)]))
    ensures r.Some? && r.value < 0 ==> s[0] == '-'
  {
    var k := SignLength(s);
    var digits := DigitPrefix(s[k..]);
    var magnitude: int := if digits == [] then 0 else DigitsValue(digits);
    if digits == [] then None
    else if k == 1 && s[0] == '-' then Some(-magnitude)
    else Some(magnitude)
  }

  /** `parseInt(String(i))` gives `i` back. */
  lemma ParseIntOfIntToString(i: int)
    ensures ParseInt(IntToString(i)) == Some(i)
  {
    var s := IntToString(i);
    if i < 0 {
      var digits := NatToString(-i);
      assert s[1..] == digits;
      assert DigitPrefix(digits) == digits;
    } else {
      assert DigitPrefix(s) == s;
    }
  }

  /** Index of the first `c` in `s`, or `|s|` when there is none. */
  function FirstIndexOf(s: string, c: char): (i: nat)
    ensures i <= |s| && c !in s[..i]
    ensures i < |s| ==> s[i] == c
  {
    if s == [] || s[0] == c then 0 else 1 + FirstIndexOf(s[1..], c)
  }

  /** The text of `s` up to (not including) its first `=`. */
  function UpToEquals(s: string): (r: string)
    ensures |r| <= |s| && r == s[..|r|] && '=' !in r
    ensures |r| < |s| ==> s[|r|] == '='
  {
    s[..FirstIndexOf(s, '=')]
  }

  /**
   * `h.split('=')[1]`: the field between the first and the second `=`, or
   * `None` (JavaScript's `undefined`) when `h` holds no `=` at all.
   */
  function SecondField(h: string): (r: Option<string>)
    ensures r.None? <==> '=' !in h
    ensures r.Some? ==> '=' !in r.value
  {
    var i := FirstIndexOf(h, '=');
    if i == |h| then
      assert h[..i] == h;
      None
    else Some(UpToEquals(h[i + 1..]))
  }

  /**
   * The page `onHashChange` reads from a fragment:
   * `parseInt(h.split('=')[1]) || 1`. `NaN` and zero both give page 1;
   * nothing else is clamped.
   */
  function HashPage(h: string): (n: int)
    ensures n != 0
  {
    match SecondField(h)
    case None => 1
    case Some(field) =>
      match ParseInt(field)
      case None => 1
      case Some(v) => if v == 0 then 1 else v
  }

  /** What `location.hash` reads after `updateHash(n)` assigned `page=${n}`. */
  function HashFor(n: int): string {
    "#page=" + IntToString(n)
  }

  /** A fragment `pre=v` with no other `=` splits to exactly `v`. */
  lemma {:induction false} SecondFieldOf(pre: string, v: string)
    requires '=' !in pre && '=' !in v
    ensures SecondField(pre + "=" + v) == Some(v)
  {
    var h := pre + "=" + v;
    var i := FirstIndexOf(h, '=');
    assert h[|pre|] == '=';
    assert h[i + 1..] == v;
    assert UpToEquals(v) == v;
  }

  /** The fragment written for page `n` reads back as `n` (zero reads as 1). */
  lemma HashPageOfHashFor(n: int)
    ensures HashPage(HashFor(n)) == if n == 0 then 1 else n
  {
    assert HashFor(n) == "#page" + "=" + IntToString(n);
    SecondFieldOf("#page", IntToString(n));
    ParseIntOfIntToString(n);
  }

  /** A fragment without `=` (for instance an empty one) selects page 1. */
  lemma HashWithoutEqualsIsPageOne(h: string)
    requires '=' !in h
    ensures HashPage(h) == 1
  {
  }

  /**
   * `split('=')[1]` of `pre=rest`, with no `=` in `pre`, is the text of `rest`
   * up to its own first `=`, whatever follows.
   */
  lemma {:induction false} SecondFieldAfterFirstEquals(pre: string, rest: string)
    requires '=' !in pre
    ensures SecondField(pre + "=" + rest) == Some(UpToEquals(rest))
  {
    var h := pre + "=" + rest;
    var i := FirstIndexOf(h, '=');
    assert h[|pre|] == '=';
    assert i == |pre|;
    assert h[i + 1..] == rest;
  }

  /**
   * `parseInt` reads a non-empty run of digits `d` that the text ends with or
   * that a non-digit follows.
   */
  lemma {:induction false} ParseIntOfDigits(d: string, rest: string)
    requires |d| > 0 && AllDigits(d)
    requires rest == [] || !IsDigit(rest[0])
    ensures ParseInt(d + rest) == Some(DigitsValue(d))
  {
    DigitPrefixOfDigits(d, rest);
  }

  /** The same after a `+` sign. */
  lemma {:induction false} ParseIntOfPlusDigits(d: string, rest: string)
    requires |d| > 0 && AllDigits(d)
    requires rest == [] || !IsDigit(rest[0])
    ensures ParseInt("+" + d + rest) == Some(DigitsValue(d))
  {
    DigitPrefixOfDigits(d, rest);
    assert ("+" + d + rest)[1..] == d + rest;
  }

  /** After a `-` sign the number read is negated. */
  lemma {:induction false} ParseIntOfMinusDigits(d: string, rest: string)
    requires |d| > 0 && AllDigits(d)
    requires rest == [] || !IsDigit(rest[0])
    ensures ParseInt("-" + d + rest) == Some(-(DigitsValue(d) as int))
  {
    DigitPrefixOfDigits(d, rest);
    assert ("-" + d + rest)[1..] == d + rest;
  }

  /** The digit run of `d + rest` is exactly `d` when no digit follows it. */
  lemma {:induction false} DigitPrefixOfDigits(d: string, rest: string)
    requires AllDigits(d)
    requires rest == [] || !IsDigit(rest[0])
    ensures DigitPrefix(d + rest) == d
  {
    var s := d + rest;
    var p := DigitPrefix(s);
    assert p == s[..|d|] == d;
  }

  /**
   * A fragment whose field after the first `=` starts with a non-zero number
   * `d` selects that page, leading zeros, trailing text and further `=`
   * included (`#page=03`, `#page=3=4`, `#page=3&x`).
   */
  lemma HashPageReadsNumber(pre: string, d: string, rest: string)
    requires '=' !in pre && '=' !in d
    requires |d| > 0 && AllDigits(d) && DigitsValue(d) != 0
    requires rest == [] || !IsDigit(rest[0])
    ensures HashPage(pre + "=" + d + rest) == DigitsValue(d)
  {
    assert pre + "=" + d + rest == pre + "=" + (d + rest);
    SecondFieldAfterFirstEquals(pre, d + rest);
    UpToEqualsKeepsPrefix(d, rest);
    var cut := UpToEquals(rest);
    assert cut == [] || cut[0] == rest[0];
    ParseIntOfDigits(d, cut);
  }

  /**
   * The same with a sign before the number: `#page=-3x` selects page -3 and
   * `#page=+3` page 3; nothing is clamped.
   */
  lemma {:induction false} HashPageReadsSignedNumber(pre: string, sign: char, d: string, rest: string)
    requires '=' !in pre && '=' !in d
    requires sign == '+' || sign == '-'
    requires |d| > 0 && AllDigits(d) && DigitsValue(d) != 0
    requires rest == [] || !IsDigit(rest[0])
    ensures HashPage(pre + "=" + [sign] + d + rest)
         == if sign == '-' then -(DigitsValue(d) as int) else DigitsValue(d)
  {
    assert pre + "=" + [sign] + d + rest == pre + "=" + ([sign] + d + rest);
    SecondFieldAfterFirstEquals(pre, [sign] + d + rest);
    assert [sign] + d + rest == ([sign] + d) + rest;
    UpToEqualsKeepsPrefix([sign] + d, rest);
    var cut := UpToEquals(rest);
    assert cut == [] || cut[0] == rest[0];
    assert ([sign] + d) + cut == [sign] + d + cut;
    if sign == '-' {
      ParseIntOfMinusDigits(d, cut);
    } else {
      ParseIntOfPlusDigits(d, cut);
    }
  }

  /** Cutting at the first `=` keeps a leading part `d` that has no `=`. */
  lemma {:induction false} UpToEqualsKeepsPrefix(d: string, rest: string)
    requires '=' !in d
    ensures UpToEquals(d + rest) == d + UpToEquals(rest)
  {
    var s := d + rest;
    var j := FirstIndexOf(rest, '=');
    if j < |rest| {
      assert s[|d| + j] == '=';
    }
    assert s[..|d| + j] == d + rest[..j];
    assert FirstIndexOf(s, '=') == |d| + j;
  }

  /**
   * A fragment whose field after the first `=` holds no digit after its
   * optional sign selects page 1, whatever follows a second `=`.
   */
  lemma HashWithoutNumberIsPageOne(pre: string, rest: string)
    requires '=' !in pre
    requires ParseInt(UpToEquals(rest)).None?
    ensures HashPage(pre + "=" + rest) == 1
  {
    SecondFieldAfterFirstEquals(pre, rest);
  }
}
