/**
 * Python's `str.strip()` with no argument: removes leading and trailing
 * whitespace, where whitespace is what `str.isspace` accepts.
 */
module Trimming {

  /** The characters Python's `str.isspace` accepts, as a fixed table. */
  predicate IsSpace(c: char) {
    || c == ' '
    || ('\t' <= c <= '\r')
    || ('\U{1C}' <= c <= '\U{1F}')
    || c == '\U{85}' || c == '\U{A0}' || c == '\U{1680}'
    || ('\U{2000}' <= c <= '\U{200A}')
    || c == '\U{2028}' || c == '\U{2029}' || c == '\U{202F}' || c == '\U{205F}' || c == '\U{3000}'
  }

  /** Every character of `s` is whitespace (true of the empty string). */
  predicate AllSpace(s: string) {
    s == [] || (IsSpace(s[0]) && AllSpace(s[1..]))
  }

  /** `AllSpace` holds exactly when every position of `s` holds whitespace. */
  lemma {:induction false} AllSpaceAt(s: string)
    ensures AllSpace(s) <==> forall k :: 0 <= k < |s| ==> IsSpace(s[k])
  {
    if s != [] {
      AllSpaceAt(s[1..]);
      assert forall k :: 1 <= k < |s| ==> s[k] == s[1..][k - 1];
    }
  }

  /** Whitespace followed by whitespace is whitespace, and conversely. */
  lemma {:induction false} AllSpaceAppend(a: string, b: string)
    ensures AllSpace(a + b) <==> AllSpace(a) && AllSpace(b)
  {
    if a != [] {
      assert (a + b)[1..] == a[1..] + b;
      AllSpaceAppend(a[1..], b);
    } else {
      assert a + b == b;
    }
  }

  /** `s` has no whitespace at either end. */
  predicate Trimmed(s: string) {
    s == [] || (!IsSpace(s[0]) && !IsSpace(s[|s| - 1]))
  }

  /**
   * `s.strip()`: leading whitespace removed first, then trailing whitespace.
   * The result has no whitespace at either end, is no longer than `s`, and
   * is empty exactly when `s` is all whitespace.
   */
  function Strip(s: string): (r: string)
    ensures Trimmed(r)
    ensures |r| <= |s|
    ensures r == [] <==> AllSpace(s)
  {
    if s != [] && IsSpace(s[0]) then
      Strip(s[1..])
    else if s != [] && IsSpace(s[|s| - 1]) then
      assert s[..|s| - 1][0] == s[0];
      Strip(s[..|s| - 1])
    else
      s
  }

  /** `s` is whitespace, then `r` starting at index `i`, then whitespace. */
  predicate PaddedAt(s: string, r: string, i: int) {
    0 <= i <= |s| - |r| && s[i..i + |r|] == r && AllSpace(s[..i]) && AllSpace(s[i + |r|..])
  }

  /** The whole of the stripped text survives inside `s`, with only whitespace around it. */
  lemma {:induction false} StripIsInfix(s: string)
    ensures exists i :: PaddedAt(s, Strip(s), i)
  {
    var r := Strip(s);
    if s != [] && IsSpace(s[0]) {
      StripIsInfix(s[1..]);
      var i :| PaddedAt(s[1..], r, i);
      PaddedAfterSpace(s, r, i);
    } else if s != [] && IsSpace(s[|s| - 1]) {
      StripIsInfix(s[..|s| - 1]);
      var i :| PaddedAt(s[..|s| - 1], r, i);
      PaddedBeforeSpace(s, r, i);
    } else {
      assert s[0..|r|] == r;
      assert PaddedAt(s, r, 0);
    }
  }

  /** A leading whitespace character extends the padding in front. */
  lemma PaddedAfterSpace(s: string, r: string, i: int)
    requires s != [] && IsSpace(s[0]) && PaddedAt(s[1..], r, i)
    ensures PaddedAt(s, r, i + 1)
  {
    assert s[i + 1..i + 1 + |r|] == s[1..][i..i + |r|];
    assert s[..i + 1][1..] == s[1..][..i];
    assert s[i + 1 + |r|..] == s[1..][i + |r|..];
  }

  /** A trailing whitespace character extends the padding behind. */
  lemma PaddedBeforeSpace(s: string, r: string, i: int)
    requires s != [] && IsSpace(s[|s| - 1]) && PaddedAt(s[..|s| - 1], r, i)
    ensures PaddedAt(s, r, i)
  {
    var t := s[..|s| - 1];
    assert s[i..i + |r|] == t[i..i + |r|];
    assert s[..i] == t[..i];
    assert s[i + |r|..] == t[i + |r|..] + [s[|s| - 1]];
    AllSpaceAppend(t[i + |r|..], [s[|s| - 1]]);
  }

  /** Text with no whitespace at its ends is left unchanged. */
  lemma {:induction false} StripKeepsTrimmed(s: string)
    requires Trimmed(s)
    ensures Strip(s) == s
  {
  }

  /** Stripping twice is the same as stripping once. */
  lemma StripIdempotent(s: string)
    ensures Strip(Strip(s)) == Strip(s)
  {
    StripKeepsTrimmed(Strip(s));
  }
}
