/** Python's `str.strip()` with no argument: removal of whitespace from both
    ends of a string, where "whitespace" is what `str.isspace()` accepts. */
module Text {

  /** The characters Python's `str.isspace()` accepts, which are exactly the
      ones `str.strip()` with no argument removes. */
  predicate IsWhitespace(c: char)
  {
    || ('\U{9}' <= c <= '\U{D}')       // tab, line feed, vertical tab, form feed, carriage return
    || ('\U{1C}' <= c <= '\U{1F}')     // file, group, record and unit separators
    || c == ' '
    || c == '\U{85}'                   // next line
    || c == '\U{A0}'                   // no-break space (an HTML &nbsp;)
    || c == '\U{1680}'                 // ogham space mark
    || ('\U{2000}' <= c <= '\U{200A}') // en quad .. hair space
    || c == '\U{2028}'                 // line separator
    || c == '\U{2029}'                 // paragraph separator
    || c == '\U{202F}'                 // narrow no-break space
    || c == '\U{205F}'                 // medium mathematical space
    || c == '\U{3000}'                 // ideographic space
  }

  ghost predicate AllWhitespace(s: string)
  {
    forall i :: 0 <= i < |s| ==> IsWhitespace(s[i])
  }

  /** A string that `strip()` leaves as it is: empty, or beginning and ending
      with a character that is not whitespace. */
  predicate IsStripped(s: string)
  {
    s == [] || (!IsWhitespace(s[0]) && !IsWhitespace(s[|s| - 1]))
  }

  /** `s.lstrip()`: `s` without its leading whitespace. */
  function StripLeading(s: string): string
  {
    if |s| > 0 && IsWhitespace(s[0]) then StripLeading(s[1..]) else s
  }

  /** `s.rstrip()`: `s` without its trailing whitespace. */
  function StripTrailing(s: string): string
  {
    if |s| > 0 && IsWhitespace(s[|s| - 1]) then StripTrailing(s[..|s| - 1]) else s
  }

  /** `lstrip()` keeps a suffix, cuts only whitespace, and stops at the first
      character that is not whitespace. */
  lemma {:induction false} StripLeadingCuts(s: string)
    ensures |StripLeading(s)| <= |s| && StripLeading(s) == s[|s| - |StripLeading(s)|..]
    ensures AllWhitespace(s[..|s| - |StripLeading(s)|])
    ensures StripLeading(s) == [] || !IsWhitespace(StripLeading(s)[0])
  {
    if |s| > 0 && IsWhitespace(s[0]) {
      StripLeadingCuts(s[1..]);
      var r := StripLeading(s);
      assert s[..|s| - |r|] == [s[0]] + s[1..][..|s| - 1 - |r|];
    }
  }

  /** `rstrip()` keeps a prefix, cuts only whitespace, and stops at the last
      character that is not whitespace. */
  lemma {:induction false} StripTrailingCuts(s: string)
    ensures |StripTrailing(s)| <= |s| && StripTrailing(s) == s[..|StripTrailing(s)|]
    ensures AllWhitespace(s[|StripTrailing(s)|..])
    ensures StripTrailing(s) == [] || !IsWhitespace(StripTrailing(s)[|StripTrailing(s)| - 1])
  {
    if |s| > 0 && IsWhitespace(s[|s| - 1]) {
      var t := s[..|s| - 1];
      StripTrailingCuts(t);
      var r := StripTrailing(s);
      assert s[|r|..] == t[|r|..] + [s[|s| - 1]];
    }
  }

  /** `s.strip()`: `s` without its leading and trailing whitespace. */
  function Strip(s: string): string
  {
    StripTrailing(StripLeading(s))
  }

  /** What `strip()` returns is stripped, and it is a contiguous piece of its
      input with only whitespace cut away on either side; `i` is where the
      piece starts. */
  lemma StripCut(s: string) returns (i: nat)
    ensures IsStripped(Strip(s))
    ensures i + |Strip(s)| <= |s|
    ensures Strip(s) == s[i..i + |Strip(s)|]
    ensures AllWhitespace(s[..i]) && AllWhitespace(s[i + |Strip(s)|..])
  {
    var left := StripLeading(s);
    StripLeadingCuts(s);
    StripTrailingCuts(left);
    var r := StripTrailing(left);
    i := |s| - |left|;
    assert r == s[i..i + |r|];
    assert s[i + |r|..] == left[|r|..];
  }

  /** Leading whitespace in front of a string that does not start with
      whitespace is exactly what `lstrip()` removes. */
  lemma {:induction false} StripLeadingExact(p: string, u: string)
    requires AllWhitespace(p)
    requires u == [] || !IsWhitespace(u[0])
    ensures StripLeading(p + u) == u
  {
    if p != [] {
      assert (p + u)[1..] == p[1..] + u;
      StripLeadingExact(p[1..], u);
    }
  }

  /** Trailing whitespace behind a string that does not end with whitespace is
      exactly what `rstrip()` removes. */
  lemma {:induction false} StripTrailingExact(u: string, q: string)
    requires AllWhitespace(q)
    requires u == [] || !IsWhitespace(u[|u| - 1])
    ensures StripTrailing(u + q) == u
  {
    if q != [] {
      assert (u + q)[..|u + q| - 1] == u + q[..|q| - 1];
      StripTrailingExact(u, q[..|q| - 1]);
    }
  }

  /** `strip()` returns exactly the text between surrounding whitespace,
      however much whitespace the text holds inside it: together with
      StripCut this makes Strip the unique such cut of its input. */
  lemma {:induction false} StripExact(p: string, t: string, q: string)
    requires AllWhitespace(p) && AllWhitespace(q)
    requires IsStripped(t)
    ensures Strip(p + t + q) == t
  {
    if t == [] {
      assert p + t + q == (p + q) + [];
      assert AllWhitespace(p + q) by {
        forall i | 0 <= i < |p + q| ensures IsWhitespace((p + q)[i]) {
          if i >= |p| { assert (p + q)[i] == q[i - |p|]; }
        }
      }
      StripLeadingExact(p + q, []);
    } else {
      assert p + t + q == p + (t + q);
      StripLeadingExact(p, t + q);
      StripTrailingExact(t, q);
    }
  }

  /** Stripping twice is stripping once. */
  lemma StripIdempotent(s: string)
    ensures Strip(Strip(s)) == Strip(s)
  {
    var t := Strip(s);
    var _ := StripCut(s);
    assert [] + t + [] == t;
    StripExact([], t, []);
  }

  /** A cell written as " 1,234,567 " comes out as the text "1,234,567": the
      digit grouping commas stay, nothing is read as a number. */
  lemma StripKeepsNumberText()
    ensures Strip(" 1,234,567 ") == "1,234,567"
  {
  }

  /** Whitespace inside the text survives, whitespace around it does not. */
  lemma StripKeepsInteriorWhitespace()
    ensures Strip("\t Nabil Bank \n") == "Nabil Bank"
  {
    assert "\t Nabil Bank \n" == "\t " + "Nabil Bank" + " \n";
    StripExact("\t ", "Nabil Bank", " \n");
  }
}
