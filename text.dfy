/** Python's `str.strip()` with no argument, as the request handlers apply it to their inputs. */
module PyText {

  /** The characters for which Python's `str.isspace()` holds, which `str.strip()` removes. */
  predicate IsSpace(c: char) {
    || ('\t' <= c <= '\r')                 // tab, line feed, vertical tab, form feed, carriage return
    || ('\U{1C}' <= c <= '\U{1F}')         // file, group, record and unit separators
    || c == ' ' || c == '\U{85}' || c == '\U{A0}' || c == '\U{1680}'
    || ('\U{2000}' <= c <= '\U{200A}')
    || c == '\U{2028}' || c == '\U{2029}' || c == '\U{202F}' || c == '\U{205F}' || c == '\U{3000}'
  }

  /** No whitespace at either end: what `strip()` leaves behind. */
  predicate IsStripped(s: string) {
    s == [] || (!IsSpace(s[0]) && !IsSpace(s[|s| - 1]))
  }

  /** `s.strip()`: drop whitespace from either end until neither end is whitespace. */
  function Strip(s: string): (r: string)
    decreases |s|
    ensures IsStripped(r)
    ensures |r| <= |s|
  {
    if s == [] then []
    else if IsSpace(s[0]) then Strip(s[1..])
    else if IsSpace(s[|s| - 1]) then Strip(s[..|s| - 1])
    else s
  }

  /** The number of whitespace characters at the front of `s`: what `lstrip()` removes. */
  function Leading(s: string): (n: nat)
    ensures n <= |s|
    ensures forall k :: 0 <= k < n ==> IsSpace(s[k])
    ensures n < |s| ==> !IsSpace(s[n])
  {
    if s != [] && IsSpace(s[0]) then 1 + Leading(s[1..]) else 0
  }

  /**
   * What `strip()` returns, said without its recursion: the infix of `s`
   * that starts after the leading whitespace, everything cut off on either
   * side being whitespace.
   */
  lemma {:induction false} StripIsInfix(s: string)
    decreases |s|, 1
    ensures Leading(s) + |Strip(s)| <= |s|
    ensures Strip(s) == s[Leading(s)..Leading(s) + |Strip(s)|]
    ensures forall k :: Leading(s) + |Strip(s)| <= k < |s| ==> IsSpace(s[k])
  {
    if s == [] {
    } else if IsSpace(s[0]) {
      StripIsInfixFront(s);
    } else if IsSpace(s[|s| - 1]) {
      StripIsInfixBack(s);
    } else {
      assert Leading(s) == 0;
    }
  }

  /** The case of `StripIsInfix` where `s` starts with whitespace. */
  lemma {:induction false} StripIsInfixFront(s: string)
    requires s != [] && IsSpace(s[0])
    decreases |s|, 0
    ensures Leading(s) + |Strip(s)| <= |s|
    ensures Strip(s) == s[Leading(s)..Leading(s) + |Strip(s)|]
    ensures forall k :: Leading(s) + |Strip(s)| <= k < |s| ==> IsSpace(s[k])
  {
    var t := s[1..];
    StripIsInfix(t);
    var a, b := Leading(t), Leading(t) + |Strip(t)|;
    assert Leading(s) == a + 1 && Strip(s) == Strip(t);
    assert t[a..b] == s[a + 1..b + 1];
    forall k | b + 1 <= k < |s| ensures IsSpace(s[k]) {
      assert s[k] == t[k - 1];
    }
  }

  /** The case of `StripIsInfix` where `s` starts with a non-space and ends with whitespace. */
  lemma {:induction false} StripIsInfixBack(s: string)
    requires s != [] && !IsSpace(s[0]) && IsSpace(s[|s| - 1])
    decreases |s|, 0
    ensures Leading(s) + |Strip(s)| <= |s|
    ensures Strip(s) == s[Leading(s)..Leading(s) + |Strip(s)|]
    ensures forall k :: Leading(s) + |Strip(s)| <= k < |s| ==> IsSpace(s[k])
  {
    var t := s[..|s| - 1];
    StripIsInfix(t);
    LeadingOfPrefix(s, |s| - 1);
    var a, b := Leading(t), Leading(t) + |Strip(t)|;
    assert Leading(s) == a && Strip(s) == Strip(t);
    assert t[a..b] == s[a..b];
    forall k | b <= k < |s| ensures IsSpace(s[k]) {
      if k < |s| - 1 {
        assert s[k] == t[k];
      }
    }
  }

  /** Cutting off a tail that starts at or after a non-space character does not change the leading count. */
  lemma {:induction false} LeadingOfPrefix(s: string, n: nat)
    requires Leading(s) < n <= |s|
    ensures Leading(s[..n]) == Leading(s)
  {
    if s != [] && IsSpace(s[0]) {
      LeadingOfPrefix(s[1..], n - 1);
      assert s[..n][1..] == s[1..][..n - 1];
    }
  }

  /** `strip()` returns the empty string exactly when the input is all whitespace. */
  lemma StripEmptyIffBlank(s: string)
    ensures Strip(s) == [] <==> forall k :: 0 <= k < |s| ==> IsSpace(s[k])
  {
    StripIsInfix(s);
    if Strip(s) != [] {
      assert s[Leading(s)] == Strip(s)[0];
    }
  }

  /** `strip()` leaves a string without whitespace at its ends as it is, so stripping twice is stripping once. */
  lemma StripIdempotent(s: string)
    ensures Strip(Strip(s)) == Strip(s)
  {
  }
}
