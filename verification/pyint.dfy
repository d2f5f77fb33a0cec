/** Python's `int(text)` on a `str`, in base 10, and its inverse `str(n)`. */
module PyInt {
  import opened Wrappers
  import opened PyText

  predicate IsDigit(c: char) {
    '0' <= c <= '9'
  }

  function DigitValue(c: char): (d: nat)
    requires IsDigit(c)
    ensures d < 10
  {
    c as int - '0' as int
  }

  function DigitChar(d: nat): (c: char)
    requires d < 10
    ensures IsDigit(c) && DigitValue(c) == d
  {
    (d + '0' as int) as char
  }

  predicate DigitsOrUnderscores(t: string) {
    forall i :: 0 <= i < |t| ==> IsDigit(t[i]) || t[i] == '_'
  }

  /** The unsigned part `int()` accepts: ASCII digits, where a single
      underscore may stand between two digits ("1_000" but not "_1", "1_"
      or "1__0"). */
  predicate IsNumeral(t: string) {
    && |t| > 0
    && IsDigit(t[0])
    && IsDigit(t[|t| - 1])
    && DigitsOrUnderscores(t)
    && (forall i :: 0 <= i < |t| - 1 && t[i] == '_' ==> t[i + 1] != '_')
  }

  /** The number a run of digits denotes, underscores ignored. */
  function NumeralValue(t: string): nat
    requires DigitsOrUnderscores(t)
  {
    if |t| == 0 then 0
    else if t[|t| - 1] == '_' then NumeralValue(t[..|t| - 1])
    else NumeralValue(t[..|t| - 1]) * 10 + DigitValue(t[|t| - 1])
  }

  /** What `int()` reads once whitespace is gone: one optional sign, then
      a numeral. */
  function ReadSigned(t: string): (r: Option<int>)
    ensures r.Some? ==> exists i :: 0 <= i < |t| && IsDigit(t[i])
  {
    if |t| > 0 && (t[0] == '+' || t[0] == '-') then
      var digits := t[1..];
      if IsNumeral(digits) then
        assert t[1] == digits[0];
        var magnitude: int := NumeralValue(digits);
        Some(if t[0] == '-' then -magnitude else magnitude)
      else None
    else if IsNumeral(t) then Some(NumeralValue(t))
    else None
  }

  /** `int(s)`: surrounding whitespace is dropped and the rest must be an
      optionally signed numeral; anything else is a ValueError, here
      `None`. */
  function ParseInt(s: string): Option<int> {
    ReadSigned(Strip(s))
  }

  /** A text with no digit in it never parses: "abc", "" and "-" fail. */
  lemma ParseNeedsDigit(s: string)
    requires forall i :: 0 <= i < |s| ==> !IsDigit(s[i])
    ensures ParseInt(s) == None
  {
    var u := TrimStart(s);
    SuffixNoDigit(s, |s| - |u|);
    var t := TrimEnd(u);
    PrefixNoDigit(u, |t|);
    assert t == Strip(s);
    ReadNeedsDigit(t);
  }

  /** Every suffix of a digit-free text is digit-free. */
  lemma SuffixNoDigit(s: string, k: nat)
    requires k <= |s|
    requires forall i :: 0 <= i < |s| ==> !IsDigit(s[i])
    ensures forall i :: 0 <= i < |s[k..]| ==> !IsDigit(s[k..][i])
  {
    forall i | 0 <= i < |s[k..]|
      ensures !IsDigit(s[k..][i])
    {
      assert s[k..][i] == s[k + i];
    }
  }

  /** Every prefix of a digit-free text is digit-free. */
  lemma PrefixNoDigit(s: string, k: nat)
    requires k <= |s|
    requires forall i :: 0 <= i < |s| ==> !IsDigit(s[i])
    ensures forall i :: 0 <= i < |s[..k]| ==> !IsDigit(s[..k][i])
  {
  }

  lemma ReadNeedsDigit(t: string)
    requires forall i :: 0 <= i < |t| ==> !IsDigit(t[i])
    ensures ReadSigned(t) == None
  {
  }

  /** `str(n)` for a natural number: decimal digits, no leading zero. */
  function ShowNat(n: nat): (s: string)
    ensures |s| > 0
    ensures forall i :: 0 <= i < |s| ==> IsDigit(s[i])
    decreases n
  {
    if n < 10 then [DigitChar(n)] else ShowNat(n / 10) + [DigitChar(n % 10)]
  }

  /** `str(n)`: a minus sign in front of negative numbers. */
  function Show(n: int): (s: string)
    ensures |s| > 0 && IsDigit(s[|s| - 1])
    ensures n < 0 <==> s[0] == '-'
    ensures forall i :: 0 < i < |s| ==> IsDigit(s[i])
  {
    if n < 0 then "-" + ShowNat(-n) else ShowNat(n)
  }

  lemma {:induction false} ShowNatValue(n: nat)
    ensures IsNumeral(ShowNat(n))
    ensures NumeralValue(ShowNat(n)) == n
    decreases n
  {
    var s := ShowNat(n);
    if n < 10 {
      assert s[..0] == [];
    } else {
      ShowNatValue(n / 10);
      assert s[..|s| - 1] == ShowNat(n / 10);
    }
  }

  lemma ReadShow(n: int)
    ensures ReadSigned(Show(n)) == Some(n)
  {
    if n < 0 {
      ShowNatValue(-n);
      ReadNegative(ShowNat(-n));
    } else {
      ShowNatValue(n);
      ReadUnsigned(ShowNat(n));
    }
  }

  /** A numeral without a sign reads as its value. */
  lemma ReadUnsigned(t: string)
    requires IsNumeral(t)
    ensures ReadSigned(t) == Some(NumeralValue(t))
  {
  }

  /** A numeral after a minus sign reads as its value negated. */
  lemma ReadNegative(digits: string)
    requires IsNumeral(digits)
    ensures ReadSigned("-" + digits) == Some(-(NumeralValue(digits) as int))
  {
    assert ("-" + digits)[1..] == digits;
  }

  /** `int()` does not skip the ASCII separators U+001C..U+001F, although
      `str.isspace()` counts them as whitespace: a text that starts with one
      is rejected, whatever follows. */
  lemma LeadingSeparatorRejected(c: char, s: string)
    requires '\U{001C}' <= c <= '\U{001F}'
    ensures ParseInt([c] + s) == None
  {
    var t := [c] + s;
    StripKeepsStart(t);
    ReadNeedsLeadingDigit(Strip(t));
  }

  /** A text that starts with neither a sign nor a digit is not read. */
  lemma ReadNeedsLeadingDigit(t: string)
    requires |t| > 0 && t[0] != '+' && t[0] != '-' && !IsDigit(t[0])
    ensures ReadSigned(t) == None
  {
  }

  /** A text that does not start with whitespace keeps its first character
      through stripping. */
  lemma StripKeepsStart(t: string)
    requires |t| > 0 && !IsSpace(t[0])
    ensures |Strip(t)| > 0 && Strip(t)[0] == t[0]
  {
    assert TrimStart(t) == t;
  }

  /** Round trip: `int(str(n)) == n`, and `int()` tolerates the whitespace
      it skips around the number. */
  lemma ParseShow(pre: string, n: int, post: string)
    requires AllSpace(pre) && AllSpace(post)
    ensures ParseInt(pre + Show(n) + post) == Some(n)
  {
    StripPadded(pre, Show(n), post);
    ReadShow(n);
  }

  /** `int(str(n)) == n` with nothing around the number; `str(n)` has no
      `.` in it. */
  lemma ParseShowPlain(n: int)
    ensures ParseInt(Show(n)) == Some(n)
    ensures '.' !in Show(n)
  {
    var s := Show(n);
    StripTrimmed(s);
    ReadShow(n);
    assert forall i :: 0 <= i < |s| ==> s[i] != '.';
  }
}
