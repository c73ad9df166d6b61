/**
 * The .NET string operations the controller uses: ordinal `Contains`, the
 * first token of `Split(',')`, `int.ToString()` and `string.Format` with a
 * single `{0}` argument.
 */
module Text {

  /** `sub` occurs in `s` starting at index `i`. */
  ghost predicate OccursAt(s: string, sub: string, i: int)
  {
    0 <= i && i + |sub| <= |s| && s[i..i + |sub|] == sub
  }

  /** `s.Contains(sub)`: ordinal, case-sensitive substring search. */
  function Contains(s: string, sub: string): (r: bool)
    ensures r <==> exists i :: OccursAt(s, sub, i)
    decreases |s|
  {
    if |sub| > |s| then false
    else if s[..|sub|] == sub then (assert OccursAt(s, sub, 0); true)
    else
      var r := Contains(s[1..], sub);
      ShiftOccurrence(s, sub);
      r
  }

  /** Occurrences in the tail of `s` are the occurrences in `s` past index 0. */
  lemma ShiftOccurrence(s: string, sub: string)
    requires s != []
    ensures (exists i :: OccursAt(s[1..], sub, i)) <==> (exists i :: OccursAt(s, sub, i) && i != 0)
  {
    forall i | OccursAt(s[1..], sub, i) ensures OccursAt(s, sub, i + 1) {
      assert s[1..][i..i + |sub|] == s[i + 1..i + 1 + |sub|];
    }
    forall i | OccursAt(s, sub, i) && i != 0 ensures OccursAt(s[1..], sub, i - 1) {
      assert s[1..][i - 1..i - 1 + |sub|] == s[i..i + |sub|];
    }
  }

  /**
   * The first token of splitting `s` at commas: the text before the first comma, or all
   * of `s` when it has none. `Split` always yields at least one token, so
   * the result is never missing (it is "" for an empty `s`).
   */
  function FirstToken(s: string): (r: string)
    ensures r <= s
    ensures ',' !in r
    ensures |r| == |s| || s[|r|] == ','
  {
    if s == [] || s[0] == ',' then [] else [s[0]] + FirstToken(s[1..])
  }

  /** The character for a decimal digit. */
  function DigitChar(d: int): char
    requires 0 <= d < 10
  {
    "0123456789"[d]
  }

  /** The value of a decimal digit character. */
  function DigitValue(c: char): int
    requires '0' <= c <= '9'
  {
    c as int - '0' as int
  }

  /** Each digit character reads back as its digit. */
  lemma DigitRoundTrip(d: int)
    requires 0 <= d < 10
    ensures '0' <= DigitChar(d) <= '9' && DigitValue(DigitChar(d)) == d
  {
  }

  predicate IsDigits(s: string)
  {
    forall i :: 0 <= i < |s| ==> '0' <= s[i] <= '9'
  }

  /** The decimal digits of `n`, most significant first, without leading zeros. */
  function NatToDecimal(n: nat): (r: string)
    ensures |r| >= 1 && IsDigits(r)
    ensures r[0] == '0' ==> n == 0
  {
    if n < 10 then [DigitChar(n)] else NatToDecimal(n / 10) + [DigitChar(n % 10)]
  }

  /** `int.ToString()` for the invariant culture: a minus sign, then the digits. */
  function IntToDecimal(i: int): (r: string)
    ensures |r| >= 1
    ensures r[0] == '-' <==> i < 0
  {
    if i < 0 then "-" + NatToDecimal(-i) else NatToDecimal(i)
  }

  /** Reads a string of decimal digits back into a number. */
  function ParseNat(s: string): nat
    requires IsDigits(s)
  {
    if s == [] then 0 else 10 * ParseNat(s[..|s| - 1]) + DigitValue(s[|s| - 1])
  }

  /** Reads a decimal integer with an optional leading minus sign. */
  function ParseInt(s: string): int
  {
    if s != [] && s[0] == '-' && IsDigits(s[1..]) then -(ParseNat(s[1..]) as int)
    else if IsDigits(s) then ParseNat(s)
    else 0
  }

  /** Decimal rendering loses nothing: parsing it gives back the number. */
  lemma {:induction false} NatDecimalRoundTrip(n: nat)
    ensures ParseNat(NatToDecimal(n)) == n
  {
    if n < 10 {
      DigitRoundTrip(n);
      assert NatToDecimal(n)[..0] == [];
    } else {
      NatDecimalRoundTrip(n / 10);
      DigitRoundTrip(n % 10);
      var r, q := NatToDecimal(n), NatToDecimal(n / 10);
      assert r == q + [DigitChar(n % 10)];
      assert r[..|r| - 1] == q && r[|r| - 1] == DigitChar(n % 10);
      assert ParseNat(r) == 10 * ParseNat(q) + n % 10;
    }
  }

  /** The rendering of an identifier determines it: `ParseInt` inverts `IntToDecimal`. */
  lemma IntDecimalRoundTrip(i: int)
    ensures ParseInt(IntToDecimal(i)) == i
  {
    var r := IntToDecimal(i);
    if i < 0 {
      NatDecimalRoundTrip(-i);
      assert r[1..] == NatToDecimal(-i);
    } else {
      NatDecimalRoundTrip(i);
    }
  }

  /**
   * `string.Format(template, arg)` for a template whose only format item is
   * `{0}`: every `{0}` is replaced by `arg`, everything else is copied.
   */
  function Format(template: string, arg: string): (r: string)
    ensures !Contains(template, "{0}") ==> r == template
    decreases |template|
  {
    if |template| < 3 then template
    else if template[..3] == "{0}" then
      assert OccursAt(template, "{0}", 0);
      arg + Format(template[3..], arg)
    else
      ShiftOccurrence(template, "{0}");
      assert template == [template[0]] + template[1..];
      [template[0]] + Format(template[1..], arg)
  }

  /** A template that has a `{0}` item shows the argument after formatting. */
  lemma {:induction false} FormatShowsArgument(template: string, arg: string)
    requires Contains(template, "{0}")
    ensures Contains(Format(template, arg), arg)
    decreases |template|
  {
    var f := Format(template, arg);
    if template[..3] == "{0}" {
      assert f[0..|arg|] == arg;
      assert OccursAt(f, arg, 0);
    } else {
      var k :| OccursAt(template, "{0}", k);
      assert k != 0;
      ShiftOccurrence(template, "{0}");
      FormatShowsArgument(template[1..], arg);
      var rest := Format(template[1..], arg);
      var j :| OccursAt(rest, arg, j);
      assert f == [template[0]] + rest;
      assert f[j + 1..j + 1 + |arg|] == rest[j..j + |arg|];
      assert OccursAt(f, arg, j + 1);
    }
  }

  /** A template starting with a character other than `{` copies that character. */
  lemma FormatCopiesHead(t: string, arg: string)
    requires t != [] && t[0] != '{'
    ensures Format(t, arg) == [t[0]] + Format(t[1..], arg)
  {
    if |t| >= 3 {
      assert t[..3][0] == t[0];
    } else {
      assert t == [t[0]] + t[1..];
    }
  }

  /** A template starting with the `{0}` item puts the argument first. */
  lemma FormatItemFirst(post: string, arg: string)
    ensures Format("{0}" + post, arg) == arg + Format(post, arg)
  {
    var t := "{0}" + post;
    assert t[..3] == "{0}" && t[3..] == post;
  }

  /** Text without a `{` holds no format item, so formatting copies it unchanged. */
  lemma {:induction false} FormatPlainText(s: string, arg: string)
    requires '{' !in s
    ensures Format(s, arg) == s
    decreases |s|
  {
    if s != [] {
      FormatCopiesHead(s, arg);
      FormatPlainText(s[1..], arg);
      assert s == [s[0]] + s[1..];
    }
  }

  /** Peeling the first character off a template whose plain prefix is not empty. */
  lemma TemplateTail(pre: string, post: string, arg: string)
    requires pre != [] && '{' !in pre
    ensures var t := pre + "{0}" + post;
            && t[0] == pre[0] != '{'
            && t[1..] == pre[1..] + "{0}" + post
            && '{' !in pre[1..]
            && pre + arg + post == [pre[0]] + (pre[1..] + arg + post)
  {
    assert pre[0] in pre;
    assert forall c :: c in pre[1..] ==> c in pre;
    assert pre == [pre[0]] + pre[1..];
  }

  /**
   * Formatting a template made of plain text, one `{0}` item and plain text
   * puts the argument in place of the item and keeps the text around it.
   */
  lemma {:induction false} FormatSubstitutes(pre: string, post: string, arg: string)
    requires '{' !in pre && '{' !in post
    ensures Format(pre + "{0}" + post, arg) == pre + arg + post
    decreases |pre|
  {
    if pre == [] {
      assert pre + "{0}" + post == "{0}" + post;
      FormatItemFirst(post, arg);
      FormatPlainText(post, arg);
    } else {
      TemplateTail(pre, post, arg);
      FormatCopiesHead(pre + "{0}" + post, arg);
      FormatSubstitutes(pre[1..], post, arg);
    }
  }
}
