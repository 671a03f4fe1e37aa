/**
 * The two Python string operations the hex decoder relies on:
 * `str.strip()` with no argument and `str.startswith(prefix)`.
 */
module Text {

  /** The characters for which Python's `str.isspace()` is true. */
  predicate IsSpace(c: char)
  {
    ('\U{9}' <= c <= '\U{D}') || ('\U{1C}' <= c <= '\U{20}') ||
    c == '\U{85}' || c == '\U{A0}' || c == '\U{1680}' ||
    ('\U{2000}' <= c <= '\U{200A}') || c == '\U{2028}' || c == '\U{2029}' ||
    c == '\U{202F}' || c == '\U{205F}' || c == '\U{3000}'
  }

  predicate AllSpace(s: string)
  {
    forall i | 0 <= i < |s| :: IsSpace(s[i])
  }

  /** `s.lstrip()` */
  function StripLeft(s: string): string
  {
    if |s| > 0 && IsSpace(s[0]) then StripLeft(s[1..]) else s
  }

  /** `s.rstrip()` */
  function StripRight(s: string): string
  {
    if |s| > 0 && IsSpace(s[|s| - 1]) then StripRight(s[..|s| - 1]) else s
  }

  /** `s.strip()`: leading and trailing whitespace removed. */
  function Strip(s: string): string
  {
    StripRight(StripLeft(s))
  }

  /** `s.startswith(p)` */
  predicate StartsWith(s: string, p: string)
  {
    |p| <= |s| && s[..|p|] == p
  }

  lemma {:induction false} StripLeftSpaces(p: string, s: string)
    requires AllSpace(p)
    ensures StripLeft(p + s) == StripLeft(s)
  {
    if p != [] {
      assert IsSpace((p + s)[0]) && (p + s)[1..] == p[1..] + s;
      assert AllSpace(p[1..]) by {
        forall i | 0 <= i < |p[1..]| ensures IsSpace(p[1..][i]) { assert p[1..][i] == p[i + 1]; }
      }
      StripLeftSpaces(p[1..], s);
    } else {
      assert p + s == s;
    }
  }

  lemma {:induction false} StripRightSpaces(s: string, q: string)
    requires AllSpace(q)
    ensures StripRight(s + q) == StripRight(s)
  {
    if q != [] {
      assert IsSpace((s + q)[|s + q| - 1]) && (s + q)[..|s + q| - 1] == s + q[..|q| - 1];
      assert AllSpace(q[..|q| - 1]) by {
        var q' := q[..|q| - 1];
        forall i | 0 <= i < |q'| ensures IsSpace(q'[i]) { assert q'[i] == q[i]; }
      }
      StripRightSpaces(s, q[..|q| - 1]);
    } else {
      assert s + q == s;
    }
  }

  /** Left-stripping stops at the first non-space character, so what follows it is kept. */
  lemma {:induction false} StripLeftAppend(s: string, q: string)
    requires !AllSpace(s)
    ensures StripLeft(s + q) == StripLeft(s) + q
  {
    if IsSpace(s[0]) {
      assert (s + q)[1..] == s[1..] + q;
      assert !AllSpace(s[1..]) by {
        var i :| 0 <= i < |s| && !IsSpace(s[i]);
        assert s[1..][i - 1] == s[i];
      }
      StripLeftAppend(s[1..], q);
    }
  }

  /**
   * Surrounding a line with whitespace does not change what `strip()` returns.
   */
  lemma StripIgnoresPadding(p: string, s: string, q: string)
    requires AllSpace(p) && AllSpace(q)
    ensures Strip(p + s + q) == Strip(s)
  {
    assert p + s + q == p + (s + q);
    StripLeftSpaces(p, s + q);
    if AllSpace(s) {
      assert AllSpace(s + q);
      StripLeftSpaces(s + q, []);
      StripLeftSpaces(s, []);
      assert s + q + [] == s + q && s + [] == s;
    } else {
      StripLeftAppend(s, q);
      StripRightSpaces(StripLeft(s), q);
    }
  }

  /** A string with no whitespace at either end is its own `strip()`. */
  lemma StripUnpadded(t: string)
    requires t != [] && !IsSpace(t[0]) && !IsSpace(t[|t| - 1])
    ensures Strip(t) == t
  {
  }

  /** Right-stripping never removes a non-space character. */
  lemma {:induction false} StripRightKeeps(s: string, i: nat)
    requires i < |s| && !IsSpace(s[i])
    ensures i < |StripRight(s)|
  {
    if |s| > 0 && IsSpace(s[|s| - 1]) {
      StripRightKeeps(s[..|s| - 1], i);
    }
  }

  /** Right-stripping removes characters only at the end. */
  lemma {:induction false} StripRightIsPrefix(s: string)
    ensures |StripRight(s)| <= |s| && StripRight(s) == s[..|StripRight(s)|]
  {
    if |s| > 0 && IsSpace(s[|s| - 1]) {
      StripRightIsPrefix(s[..|s| - 1]);
    }
  }

  /** A prefix with no whitespace at its ends is still a prefix after `strip()`. */
  lemma StartsWithSurvivesStrip(s: string, p: string)
    requires StartsWith(s, p) && p != [] && !IsSpace(p[0]) && !IsSpace(p[|p| - 1])
    ensures StartsWith(Strip(s), p)
  {
    assert s[0] == p[0];
    assert StripLeft(s) == s;
    assert s[|p| - 1] == p[|p| - 1];
    StripRightKeeps(s, |p| - 1);
    StripRightIsPrefix(s);
    var r := StripRight(s);
    assert r[..|p|] == s[..|p|];
  }
}
