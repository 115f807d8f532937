/**
 * The e-mail test of the contact form: the regular expression
 * `^[^\s@]+@[^\s@]+\.[^\s@]{2,}$`, and an independent description of the
 * strings it accepts, proved to agree with it.
 */
module Email {
  import opened JsText

  /** The class `[^\s@]`: neither white space nor '@'. */
  predicate Plain(c: char) {
    !IsSpace(c) && c != '@'
  }

  predicate AllPlain(s: string) {
    forall i :: 0 <= i < |s| ==> Plain(s[i])
  }

  /** The regular expression read as a split of `s`: a non-empty local part,
      '@' at index `at`, a non-empty domain label, '.' at index `dot`, and a
      closing part of at least two UTF-16 code units, every part drawn from
      `[^\s@]`. Without the `u` flag each class matches one code unit, so
      `{2,}` counts code units; '@' and '.' are single code units, so every
      split falls between characters and the `+` parts need at least one
      character. Because the class contains '.', any '.' of the domain may
      serve as the split point, which is what the backtracking matcher finds. */
  predicate MatchesEmailPattern(s: string) {
    exists at, dot | 0 <= at < |s| && 0 <= dot < |s| :: SplitsAsEmail(s, at, dot)
  }

  /** `s` splits as the pattern demands with the '@' at `at` and the '.' at `dot`. */
  predicate SplitsAsEmail(s: string, at: int, dot: int) {
    && 0 < at && at + 1 < dot < |s|
    && s[at] == '@' && s[dot] == '.'
    && AllPlain(s[..at]) && AllPlain(s[at + 1..dot]) && AllPlain(s[dot + 1..])
    && Utf16Length(s[dot + 1..]) >= 2
  }

  /** The number of UTF-16 code units JavaScript stores for `s`: two for a
      character outside the Basic Multilingual Plane, one for any other. */
  function Utf16Length(s: string): (n: nat)
    ensures |s| <= n <= 2 * |s|
  {
    if s == [] then 0 else (if s[0] > '\U{FFFF}' then 2 else 1) + Utf16Length(s[1..])
  }

  /** Two code units are two characters, or one outside the Basic Multilingual
      Plane. */
  lemma TwoUnits(s: string)
    ensures Utf16Length(s) >= 2 <==> |s| >= 2 || (|s| == 1 && s[0] > '\U{FFFF}')
  {
    if |s| == 1 {
      assert s[1..] == [];
    }
  }

  /** Number of occurrences of `c` in `s`. */
  function Count(s: string, c: char): (n: nat)
    ensures n <= |s|
  {
    if s == [] then 0 else (if s[0] == c then 1 else 0) + Count(s[1..], c)
  }

  lemma {:induction false} CountAppend(a: string, b: string, c: char)
    ensures Count(a + b, c) == Count(a, c) + Count(b, c)
  {
    if a != [] {
      assert (a + b)[0] == a[0] && (a + b)[1..] == a[1..] + b;
      CountAppend(a[1..], b, c);
    } else {
      assert a + b == b;
    }
  }

  lemma {:induction false} CountZero(s: string, c: char)
    ensures Count(s, c) == 0 <==> forall i :: 0 <= i < |s| ==> s[i] != c
  {
    if s != [] {
      CountZero(s[1..], c);
      assert forall i :: 1 <= i < |s| ==> s[i] == s[1..][i - 1];
    }
  }

  /** The domain part holds a '.' with at least one character before it and at
      least two UTF-16 code units after it. */
  predicate DotInside(d: string) {
    exists k | 1 <= k < |d| :: d[k] == '.' && Utf16Length(d[k + 1..]) >= 2
  }

  /** The accepted strings, described field by field: no white space, exactly
      one '@', a non-empty part before it, and a suitably placed '.' after it. */
  predicate IsEmailShape(s: string) {
    && (forall i :: 0 <= i < |s| ==> !IsSpace(s[i]))
    && Count(s, '@') == 1
    && exists at | 0 < at < |s| :: s[at] == '@' && DotInside(s[at + 1..])
  }

  /** Splitting around the '@' at index `at`, the rest of `s` is '@'-free
      exactly when `s` holds one '@'. */
  lemma SplitAt(s: string, at: int)
    requires 0 <= at < |s| && s[at] == '@'
    ensures Count(s, '@') == 1 <==>
      (forall i :: 0 <= i < |s| && i != at ==> s[i] != '@')
  {
    assert s == s[..at] + ([s[at]] + s[at + 1..]);
    CountAppend(s[..at], [s[at]] + s[at + 1..], '@');
    CountAppend([s[at]], s[at + 1..], '@');
    CountZero(s[..at], '@');
    CountZero(s[at + 1..], '@');
    assert forall i :: at < i < |s| ==> s[i] == s[at + 1..][i - at - 1];
  }

  lemma PlainSlice(s: string, lo: int, hi: int)
    requires 0 <= lo <= hi <= |s|
    requires forall i :: lo <= i < hi ==> Plain(s[i])
    ensures AllPlain(s[lo..hi])
  {
    forall j | 0 <= j < hi - lo ensures Plain(s[lo..hi][j]) {
      assert s[lo..hi][j] == s[lo + j];
    }
  }

  lemma PatternToShape(s: string)
    requires MatchesEmailPattern(s)
    ensures IsEmailShape(s)
  {
    var at, dot :| 0 <= at < |s| && 0 <= dot < |s| && SplitsAsEmail(s, at, dot);
    assert 0 < at && at + 1 < dot < |s| && s[at] == '@' && s[dot] == '.';
    forall i | 0 <= i < |s| && i != at && i != dot ensures Plain(s[i]) {
      if i < at {
        assert s[i] == s[..at][i];
      } else if i < dot {
        assert s[i] == s[at + 1..dot][i - at - 1];
      } else {
        assert s[i] == s[dot + 1..][i - dot - 1];
      }
    }
    SplitAt(s, at);
    var d := s[at + 1..];
    assert d[dot - at - 1] == '.';
    assert d[dot - at..] == s[dot + 1..];
    assert DotInside(d);
  }

  /** With no white space and no '@' but the one at `at`, the three parts
      around `at` and `dot` are drawn from `[^\s@]`. */
  lemma PlainParts(s: string, at: int, dot: int)
    requires 0 < at < dot < |s|
    requires forall i :: 0 <= i < |s| ==> !IsSpace(s[i])
    requires forall i :: 0 <= i < |s| && i != at ==> s[i] != '@'
    ensures AllPlain(s[..at]) && AllPlain(s[at + 1..dot]) && AllPlain(s[dot + 1..])
  {
    PlainSlice(s, 0, at);
    PlainSlice(s, at + 1, dot);
    PlainSlice(s, dot + 1, |s|);
    assert s[..at] == s[0..at];
    assert s[dot + 1..] == s[dot + 1..|s|];
  }

  /** A string without white space whose only '@' is at `at`, with a '.' at
      `dot` followed by at least two code units, splits as the pattern demands. */
  lemma SplitFromShape(s: string, at: int, dot: int)
    requires 0 < at && at + 1 < dot < |s| && s[at] == '@' && s[dot] == '.'
    requires forall i :: 0 <= i < |s| ==> !IsSpace(s[i])
    requires Count(s, '@') == 1
    requires Utf16Length(s[dot + 1..]) >= 2
    ensures SplitsAsEmail(s, at, dot)
  {
    SplitAt(s, at);
    PlainParts(s, at, dot);
  }

  /** The '.' that `DotInside` finds after the '@' at `at`, as an index of `s`. */
  lemma DotAfter(s: string, at: int) returns (dot: int)
    requires 0 <= at < |s| && DotInside(s[at + 1..])
    ensures at + 1 < dot < |s| && s[dot] == '.' && Utf16Length(s[dot + 1..]) >= 2
  {
    var d := s[at + 1..];
    var k :| 1 <= k < |d| && d[k] == '.' && Utf16Length(d[k + 1..]) >= 2;
    dot := at + 1 + k;
    assert s[dot] == d[k];
    assert d[k + 1..] == s[dot + 1..];
  }

  lemma ShapeToPattern(s: string)
    requires IsEmailShape(s)
    ensures MatchesEmailPattern(s)
  {
    var at :| 0 < at < |s| && s[at] == '@' && DotInside(s[at + 1..]);
    var dot := DotAfter(s, at);
    SplitFromShape(s, at, dot);
  }

  /** The regular expression accepts exactly the strings of the described shape. */
  lemma PatternIffShape(s: string)
    ensures MatchesEmailPattern(s) <==> IsEmailShape(s)
  {
    if MatchesEmailPattern(s) { PatternToShape(s); }
    if IsEmailShape(s) { ShapeToPattern(s); }
  }

  /** "bad@x" has no '.' after its '@', so it is rejected. */
  lemma RejectsBadAtX()
    ensures !MatchesEmailPattern("bad@x")
  {
    PatternIffShape("bad@x");
  }

  /** "ada@acme.com" is accepted. */
  lemma AcceptsAdaAtAcme()
    ensures MatchesEmailPattern("ada@acme.com")
  {
    var s := "ada@acme.com";
    assert s[3] == '@' && s[8] == '.';
    assert AllPlain(s[..3]) && AllPlain(s[4..8]) && AllPlain(s[9..]);
    assert SplitsAsEmail(s, 3, 8);
  }

  /** "x@y." followed by one emoji is accepted: the emoji is two UTF-16 code
      units, enough for the closing `{2,}`. */
  lemma AcceptsAstralEnding()
    ensures MatchesEmailPattern("x@y.\U{1F600}")
  {
    var s := "x@y.\U{1F600}";
    assert s[1] == '@' && s[3] == '.';
    assert AllPlain(s[..1]) && AllPlain(s[2..3]) && AllPlain(s[4..]);
    TwoUnits(s[4..]);
    assert SplitsAsEmail(s, 1, 3);
  }

  /** "x@y.c" is rejected: its closing part is one code unit. */
  lemma RejectsShortEnding()
    ensures !MatchesEmailPattern("x@y.c")
  {
    PatternIffShape("x@y.c");
  }
}
