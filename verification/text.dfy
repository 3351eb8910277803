/** Python's `str.strip()` with no arguments, which the handlers apply to
    session names and node titles before storing them. */
module Text {

  /** The characters for which Python's `str.isspace()` holds; `strip()`
      removes exactly these from both ends of a string. */
  predicate IsSpace(c: char) {
    || c == '\t' || c == '\n' || c == '\U{B}' || c == '\U{C}' || c == '\r'
    || ('\U{1C}' <= c <= '\U{1F}')
    || c == ' ' || c == '\U{85}' || c == '\U{A0}' || c == '\U{1680}'
    || ('\U{2000}' <= c <= '\U{200A}')
    || c == '\U{2028}' || c == '\U{2029}' || c == '\U{202F}' || c == '\U{205F}'
    || c == '\U{3000}'
  }

  /** True iff every character of `s` is whitespace (the empty string included). */
  predicate AllSpace(s: string) {
    SpaceBetween(s, 0, |s|)
  }

  /** True iff `s[lo..hi]` is whitespace only. */
  predicate SpaceBetween(s: string, lo: int, hi: int)
    requires 0 <= lo && hi <= |s|
  {
    forall i :: lo <= i < hi ==> IsSpace(s[i])
  }

  /** Removes leading whitespace (see `TrimStartSpec`). */
  function TrimStart(s: string): string {
    if s != [] && IsSpace(s[0]) then TrimStart(s[1..]) else s
  }

  /** Removes trailing whitespace (see `TrimEndSpec`). */
  function TrimEnd(s: string): string {
    if s != [] && IsSpace(s[|s| - 1]) then TrimEnd(s[..|s| - 1]) else s
  }

  /** `s.strip()` (see `StripIsInfix`). */
  function Strip(s: string): string {
    TrimEnd(TrimStart(s))
  }

  /** `TrimStart(s)` is the suffix of `s` that starts at its first
      non-whitespace character: all that it drops is whitespace. */
  lemma {:induction false} TrimStartSpec(s: string)
    ensures |TrimStart(s)| <= |s| && TrimStart(s) == s[|s| - |TrimStart(s)|..]
    ensures SpaceBetween(s, 0, |s| - |TrimStart(s)|)
    ensures TrimStart(s) == [] || !IsSpace(TrimStart(s)[0])
  {
    if s != [] && IsSpace(s[0]) {
      TrimStartSpec(s[1..]);
    }
  }

  /** `TrimEnd(s)` is the prefix of `s` that ends at its last
      non-whitespace character: all that it drops is whitespace. */
  lemma {:induction false} TrimEndSpec(s: string)
    ensures |TrimEnd(s)| <= |s| && TrimEnd(s) == s[..|TrimEnd(s)|]
    ensures SpaceBetween(s, |TrimEnd(s)|, |s|)
    ensures TrimEnd(s) == [] || !IsSpace(TrimEnd(s)[|TrimEnd(s)| - 1])
  {
    if s != [] && IsSpace(s[|s| - 1]) {
      TrimEndSpec(s[..|s| - 1]);
    }
  }

  /** The stripped string is the infix of `s` left between a whitespace-only
      prefix and a whitespace-only suffix, and it neither starts nor ends
      with whitespace. */
  lemma StripIsInfix(s: string) returns (start: nat)
    ensures start + |Strip(s)| <= |s|
    ensures Strip(s) == s[start..start + |Strip(s)|]
    ensures SpaceBetween(s, 0, start) && SpaceBetween(s, start + |Strip(s)|, |s|)
    ensures Strip(s) == [] || (!IsSpace(Strip(s)[0]) && !IsSpace(Strip(s)[|Strip(s)| - 1]))
  {
    var t := TrimStart(s);
    var r := TrimEnd(t);
    TrimStartSpec(s);
    TrimEndSpec(t);
    start := |s| - |t|;
    assert r == s[start..start + |r|] by {
      assert t == s[start..];
      assert r == t[..|r|];
    }
    forall i | start + |r| <= i < |s| ensures IsSpace(s[i]) {
      assert s[i] == t[i - start];
    }
  }

  /** A string strips to nothing exactly when it is whitespace only: the
      condition under which the form handler rejects a session name. */
  lemma {:induction false} StripEmptyIffBlank(s: string)
    ensures Strip(s) == [] <==> AllSpace(s)
  {
    var t := TrimStart(s);
    TrimStartSpec(s);
    TrimEndSpec(t);
    if Strip(s) == [] {
      assert t[0..] == t;
      assert t == [];
      assert s[..|s|] == s;
    }
  }

  /** A string with no whitespace at either end is left as it is. */
  lemma StripFixesTrimmed(s: string)
    requires s == [] || (!IsSpace(s[0]) && !IsSpace(s[|s| - 1]))
    ensures Strip(s) == s
  {
    assert TrimStart(s) == s;
  }

  /** Stripping twice is stripping once, so `create_session` stripping the
      name that `create_session_form` already stripped changes nothing. */
  lemma {:induction false} StripIdempotent(s: string)
    ensures Strip(Strip(s)) == Strip(s)
  {
    var t := TrimStart(s);
    var r := TrimEnd(t);
    TrimStartSpec(s);
    TrimEndSpec(t);
    if r != [] {
      assert r[0] == t[0];
      assert TrimStart(r) == r;
    } else {
      assert TrimStart(r) == r;
    }
  }
}
