/** The text handling the consumer relies on: `str.partition`, which
    splits the version string, and the whitespace trimming `int()` performs
    before it reads digits. */
module PyText {

  /** The whitespace `int()` skips around a number. Among ASCII characters
      that is only space and `\t \n \v \f \r`: the separators U+001C..U+001F
      count for `str.isspace()` but not for `int()`, which rejects them.
      Among the others it is what `str.isspace()` accepts, the characters of
      bidirectional class WS, B or S or of category Zs. */
  predicate IsSpace(c: char) {
    || ('\U{0009}' <= c <= '\U{000D}')
    || c == ' ' || c == '\U{0085}' || c == '\U{00A0}' || c == '\U{1680}'
    || ('\U{2000}' <= c <= '\U{200A}')
    || c == '\U{2028}' || c == '\U{2029}' || c == '\U{202F}' || c == '\U{205F}'
    || c == '\U{3000}'
  }

  predicate AllSpace(s: string) {
    forall i :: 0 <= i < |s| ==> IsSpace(s[i])
  }

  /** No whitespace at either end. */
  predicate Trimmed(s: string) {
    |s| > 0 ==> !IsSpace(s[0]) && !IsSpace(s[|s| - 1])
  }

  /** The three parts of `s.partition(sep)`; `found` says whether the middle
      part is `sep` or the empty string. */
  datatype Partitioned = Partitioned(head: string, found: bool, tail: string)

  /** `s.partition(sep)`: split at the FIRST occurrence of `sep`; when there
      is none, the whole string is the head and the tail is empty. */
  function Partition(s: string, sep: char): (p: Partitioned)
    ensures sep !in p.head
    ensures p.found ==> s == p.head + [sep] + p.tail
    ensures !p.found ==> p.head == s && p.tail == []
    ensures p.found <==> sep in s
    decreases |s|
  {
    if |s| == 0 then Partitioned([], false, [])
    else if s[0] == sep then Partitioned([], true, s[1..])
    else
      var p := Partition(s[1..], sep);
      assert s == [s[0]] + s[1..];
      Partitioned([s[0]] + p.head, p.found, p.tail)
  }

  /** The split point is the first separator: any decomposition whose head
      avoids `sep` is the one `Partition` returns. */
  lemma {:induction false} PartitionAtFirst(h: string, sep: char, t: string)
    requires sep !in h
    ensures Partition(h + [sep] + t, sep) == Partitioned(h, true, t)
    decreases |h|
  {
    var s := h + [sep] + t;
    if |h| == 0 {
      assert s == [sep] + t;
    } else {
      assert s[0] == h[0];
      assert s[1..] == h[1..] + [sep] + t;
      PartitionAtFirst(h[1..], sep, t);
      assert [h[0]] + h[1..] == h;
    }
  }

  /** Leading whitespace removed. */
  function TrimStart(s: string): (r: string)
    ensures |r| <= |s| && r == s[|s| - |r|..]
    ensures AllSpace(s[..|s| - |r|])
    ensures |r| > 0 ==> !IsSpace(r[0])
  {
    if |s| > 0 && IsSpace(s[0]) then TrimStart(s[1..]) else s
  }

  /** Trailing whitespace removed. */
  function TrimEnd(s: string): (r: string)
    ensures |r| <= |s| && r == s[..|r|]
    ensures AllSpace(s[|r|..])
    ensures |r| > 0 ==> !IsSpace(r[|r| - 1])
  {
    if |s| > 0 && IsSpace(s[|s| - 1]) then TrimEnd(s[..|s| - 1]) else s
  }

  /** Whitespace removed from both ends, as `int()` does before it reads
      digits. */
  function Strip(s: string): (r: string)
    ensures Trimmed(r)
    ensures |r| <= |s|
  {
    var r := TrimEnd(TrimStart(s));
    assert |r| > 0 ==> r[0] == TrimStart(s)[0];
    r
  }

  lemma {:induction false} TrimStartPadded(pre: string, t: string)
    requires AllSpace(pre)
    requires |t| > 0 ==> !IsSpace(t[0])
    ensures TrimStart(pre + t) == t
    decreases |pre|
  {
    if |pre| > 0 {
      assert (pre + t)[1..] == pre[1..] + t;
      TrimStartPadded(pre[1..], t);
    } else {
      assert pre + t == t;
    }
  }

  lemma {:induction false} TrimEndPadded(t: string, post: string)
    requires AllSpace(post)
    requires |t| > 0 ==> !IsSpace(t[|t| - 1])
    ensures TrimEnd(t + post) == t
    decreases |post|
  {
    if |post| > 0 {
      assert (t + post)[..|t + post| - 1] == t + post[..|post| - 1];
      TrimEndPadded(t, post[..|post| - 1]);
    } else {
      assert t + post == t;
    }
  }

  /** `Strip` removes exactly the surrounding whitespace: a trimmed text
      padded with whitespace on both sides strips back to itself. */
  lemma StripPadded(pre: string, t: string, post: string)
    requires AllSpace(pre) && AllSpace(post)
    requires Trimmed(t)
    ensures Strip(pre + t + post) == t
  {
    if |t| == 0 {
      assert pre + t + post == pre + post;
      TrimStartPadded(pre + post, []);
      assert pre + post + [] == pre + post;
      TrimEndPadded([], []);
    } else {
      assert pre + t + post == pre + (t + post);
      TrimStartPadded(pre, t + post);
      TrimEndPadded(t, post);
    }
  }

  /** A text with no whitespace at its ends is left alone by `Strip`. */
  lemma StripTrimmed(t: string)
    requires Trimmed(t)
    ensures Strip(t) == t
  {
    assert [] + t + [] == t;
    StripPadded([], t, []);
  }
}
