/** Python's `str.strip()` with no arguments, as used on every search query and dialog field. */
module Text {

  /** True of exactly the characters for which Python's `str.isspace()` holds:
      the ASCII controls 9..13 and 28..31, the space, and the Unicode white space. */
  predicate IsSpace(c: char) {
    || c == ' '
    || ('\t' <= c <= '\r')
    || ('\U{1C}' <= c <= '\U{1F}')
    || c == '\U{85}' || c == '\U{A0}' || c == '\U{1680}'
    || ('\U{2000}' <= c <= '\U{200A}')
    || c == '\U{2028}' || c == '\U{2029}' || c == '\U{202F}' || c == '\U{205F}' || c == '\U{3000}'
  }

  predicate AllSpace(s: string) {
    forall i :: 0 <= i < |s| ==> IsSpace(s[i])
  }

  /** Neither end of `s` is white space (an empty string qualifies). */
  predicate Trimmed(s: string) {
    s == [] || (!IsSpace(s[0]) && !IsSpace(s[|s| - 1]))
  }

  /** `s` with its leading white space removed. */
  function TrimStart(s: string): string {
    if |s| > 0 && IsSpace(s[0]) then TrimStart(s[1..]) else s
  }

  /** TrimStart removes a prefix of white space and stops at a non-space character. */
  lemma {:induction false} TrimStartRemovesSpace(s: string)
    ensures var r := TrimStart(s);
            && |r| <= |s| && r == s[|s| - |r|..]
            && AllSpace(s[..|s| - |r|])
            && (r == [] || !IsSpace(r[0]))
  {
    if |s| > 0 && IsSpace(s[0]) {
      TrimStartRemovesSpace(s[1..]);
      var r := TrimStart(s[1..]);
      assert s[|s| - |r|..] == s[1..][|s| - 1 - |r|..];
      var u, v := s[..|s| - |r|], s[1..][..|s| - 1 - |r|];
      forall k | 0 <= k < |u| ensures IsSpace(u[k]) {
        if k > 0 {
          assert u[k] == s[k] == v[k - 1];
        }
      }
    }
  }

  /** `s` with its trailing white space removed. */
  function TrimEnd(s: string): string {
    if |s| > 0 && IsSpace(s[|s| - 1]) then TrimEnd(s[..|s| - 1]) else s
  }

  /** TrimEnd removes a suffix of white space and stops at a non-space character. */
  lemma {:induction false} TrimEndRemovesSpace(s: string)
    ensures var r := TrimEnd(s);
            && |r| <= |s| && r == s[..|r|]
            && AllSpace(s[|r|..])
            && (r == [] || !IsSpace(r[|r| - 1]))
  {
    if |s| > 0 && IsSpace(s[|s| - 1]) {
      var t := s[..|s| - 1];
      TrimEndRemovesSpace(t);
      var r := TrimEnd(t);
      assert t[..|r|] == s[..|r|];
      var u, v := s[|r|..], t[|r|..];
      forall k | 0 <= k < |u| ensures IsSpace(u[k]) {
        if k < |v| { assert u[k] == v[k]; }
      }
    }
  }

  /** `str.strip()`: what is left of `s` after removing white space at both ends. */
  function Strip(s: string): (r: string)
    ensures Trimmed(r)
    ensures |r| <= |s|
    ensures StripsTo(s, r)
  {
    TrimBothInfix(s);
    TrimEnd(TrimStart(s))
  }

  /** Trimming both ends leaves a trimmed infix with only white space around it. */
  lemma {:induction false} TrimBothInfix(s: string)
    ensures var r := TrimEnd(TrimStart(s));
            Trimmed(r) && |r| <= |s| && StripsTo(s, r)
  {
    var t := TrimStart(s);
    TrimStartRemovesSpace(s);
    var r := TrimEnd(t);
    TrimEndRemovesSpace(t);
    var i := |s| - |t|;
    assert r == s[i..i + |r|];
    assert r != [] ==> r[0] == t[0];
    assert s[i + |r|..] == t[|r|..];
    assert AllSpace(s[..i]) && AllSpace(s[i + |r|..]);
    assert StripsTo(s, r) by {
      assert 0 <= i <= |s| - |r| && r == s[i..i + |r|] && AllSpace(s[..i]) && AllSpace(s[i + |r|..]);
    }
  }

  /** `r` is an infix of `s` with nothing but white space around it. */
  ghost predicate StripsTo(s: string, r: string) {
    exists i :: 0 <= i <= |s| - |r| && r == s[i..i + |r|] && AllSpace(s[..i]) && AllSpace(s[i + |r|..])
  }

  /** TrimStart is pinned down by where the first non-space character sits. */
  lemma {:induction false} TrimStartUnique(s: string, i: nat)
    requires i <= |s| && AllSpace(s[..i])
    requires i == |s| || !IsSpace(s[i])
    ensures TrimStart(s) == s[i..]
  {
    if i > 0 {
      assert s[..i][0] == s[0];
      assert s[1..][..i - 1] == s[1..i] && s[1..][i - 1..] == s[i..];
      assert forall p | 0 <= p < i - 1 :: s[1..i][p] == s[..i][p + 1];
      TrimStartUnique(s[1..], i - 1);
    }
  }

  /** TrimEnd is pinned down by where the last non-space character sits. */
  lemma {:induction false} TrimEndUnique(s: string, j: nat)
    requires j <= |s| && AllSpace(s[j..])
    requires j == 0 || !IsSpace(s[j - 1])
    ensures TrimEnd(s) == s[..j]
  {
    if j < |s| {
      var t := s[..|s| - 1];
      assert s[j..][|s| - 1 - j] == s[|s| - 1];
      assert t[..j] == s[..j] && t[j..] == s[j..|s| - 1];
      assert forall p | 0 <= p < |s| - 1 - j :: t[j..][p] == s[j..][p];
      TrimEndUnique(t, j);
    } else {
      assert s[..j] == s;
    }
  }

  /** An all-space prefix followed by an all-space suffix make an all-space string. */
  lemma {:induction false} AllSpaceJoin(s: string, i: nat)
    requires i <= |s| && AllSpace(s[..i]) && AllSpace(s[i..])
    ensures AllSpace(s)
  {
    forall p | 0 <= p < |s| ensures IsSpace(s[p]) {
      if p < i { assert s[..i][p] == s[p]; } else { assert s[i..][p - i] == s[p]; }
    }
  }

  /** An all-space string strips to nothing. */
  lemma {:induction false} StripAllSpace(s: string)
    requires AllSpace(s)
    ensures Strip(s) == []
  {
    assert s[..|s|] == s;
    TrimStartUnique(s, |s|);
  }

  /** Strip is pinned down by its contract: any trimmed infix whose surroundings
      are all white space is the stripped string. */
  lemma {:induction false} StripUnique(s: string, i: nat, j: nat)
    requires i <= j <= |s|
    requires AllSpace(s[..i]) && AllSpace(s[j..]) && Trimmed(s[i..j])
    ensures Strip(s) == s[i..j]
  {
    if i == j {
      AllSpaceJoin(s, i);
      StripAllSpace(s);
    } else {
      StripAround(s, i, j);
    }
  }

  /** The non-empty case of StripUnique. */
  lemma {:induction false} StripAround(s: string, i: nat, j: nat)
    requires i < j <= |s|
    requires AllSpace(s[..i]) && AllSpace(s[j..]) && !IsSpace(s[i]) && !IsSpace(s[j - 1])
    ensures Strip(s) == s[i..j]
  {
    TrimBoth(s, i, j);
  }

  /** Trimming the start and then the end leaves exactly the part between the first and
      the last non-space character. */
  lemma {:induction false} TrimBoth(s: string, i: nat, j: nat)
    requires i < j <= |s|
    requires AllSpace(s[..i]) && AllSpace(s[j..]) && !IsSpace(s[i]) && !IsSpace(s[j - 1])
    ensures TrimEnd(TrimStart(s)) == s[i..j]
  {
    TrimStartUnique(s, i);
    var t := s[i..];
    var u, v := t[j - i..], s[j..];
    assert AllSpace(u) by {
      forall k | 0 <= k < |u| ensures IsSpace(u[k]) {
        assert u[k] == v[k];
      }
    }
    assert t[j - i - 1] == s[j - 1];
    TrimEndUnique(t, j - i);
    assert t[..j - i] == s[i..j];
  }

  /** A string is stripped to nothing exactly when it is all white space. */
  lemma {:induction false} StripEmptyIff(s: string)
    ensures Strip(s) == [] <==> AllSpace(s)
  {
    if AllSpace(s) {
      assert s[..0] == [] && s[0..] == s;
      StripUnique(s, 0, 0);
    }
  }

  /** Stripping twice is stripping once. */
  lemma {:induction false} StripIdempotent(s: string)
    ensures Strip(Strip(s)) == Strip(s)
  {
    var r := Strip(s);
    assert r[..0] == [] && r[|r|..] == [] && r[0..|r|] == r;
    StripUnique(r, 0, |r|);
  }
}
