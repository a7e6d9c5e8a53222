/** The attachment file-name sanitiser of export_script.py, line 90: keep the
    alphanumeric characters, spaces, dots and underscores, in order, then
    strip trailing whitespace. */
module Sanitize {

  /** ASCII stand-in for Python's `str.isalnum()` on one character. */
  predicate IsAlnum(c: char) {
    'a' <= c <= 'z' || 'A' <= c <= 'Z' || '0' <= c <= '9'
  }

  /** The characters the sanitiser keeps. */
  predicate Allowed(c: char) {
    IsAlnum(c) || c == ' ' || c == '.' || c == '_'
  }

  /** ASCII stand-in for Python's `str.isspace()`, the set `rstrip()` removes. */
  predicate IsSpace(c: char) {
    c == ' ' || 9 <= c as int <= 13 || 28 <= c as int <= 31
  }

  /** The generator of line 90: the allowed characters, in input order. */
  function KeepAllowed(s: string): (r: string)
    ensures forall i :: 0 <= i < |r| ==> Allowed(r[i])
  {
    if s == [] then []
    else KeepAllowed(s[..|s| - 1]) + (if Allowed(s[|s| - 1]) then [s[|s| - 1]] else [])
  }

  /** Python's `str.rstrip()`: drop trailing whitespace. */
  function RStrip(s: string): string {
    if s != [] && IsSpace(s[|s| - 1]) then RStrip(s[..|s| - 1]) else s
  }

  function SanitizeFileName(name: string): string {
    RStrip(KeepAllowed(name))
  }

  /** `sub` can be obtained from `s` by deleting characters. */
  predicate IsSubsequence(sub: string, s: string) {
    if sub == [] then true
    else if s == [] then false
    else if sub[|sub| - 1] == s[|s| - 1] then IsSubsequence(sub[..|sub| - 1], s[..|s| - 1])
    else IsSubsequence(sub, s[..|s| - 1])
  }

  /** The filter distributes over concatenation, and on one character it
      keeps exactly the allowed ones: together these pin it down. */
  lemma {:induction false} KeepAllowedAppend(s: string, t: string)
    decreases |t|
    ensures KeepAllowed(s + t) == KeepAllowed(s) + KeepAllowed(t)
  {
    if t == [] {
      assert s + t == s;
    } else {
      assert (s + t)[..|s + t| - 1] == s + t[..|t| - 1];
      KeepAllowedAppend(s, t[..|t| - 1]);
    }
  }

  lemma KeepAllowedChar(c: char)
    ensures KeepAllowed([c]) == if Allowed(c) then [c] else []
  {
    assert [c][..0] == [];
  }

  /** A string of allowed characters passes the filter unchanged. */
  lemma {:induction false} KeepAllowedIdentity(s: string)
    requires forall i :: 0 <= i < |s| ==> Allowed(s[i])
    ensures KeepAllowed(s) == s
  {
    if s != [] {
      KeepAllowedIdentity(s[..|s| - 1]);
    }
  }

  /** rstrip removes a whitespace-only suffix and nothing else, and leaves no
      trailing whitespace. */
  lemma {:induction false} RStripShape(s: string)
    ensures |RStrip(s)| <= |s| && s[..|RStrip(s)|] == RStrip(s)
    ensures forall i :: |RStrip(s)| <= i < |s| ==> IsSpace(s[i])
    ensures RStrip(s) == [] || !IsSpace(RStrip(s)[|RStrip(s)| - 1])
  {
    if s != [] && IsSpace(s[|s| - 1]) {
      var init := s[..|s| - 1];
      RStripShape(init);
      assert s[..|RStrip(s)|] == init[..|RStrip(init)|];
    }
  }

  lemma {:induction false} KeepAllowedSubsequence(s: string)
    ensures IsSubsequence(KeepAllowed(s), s)
  {
    if s != [] {
      var init, last := s[..|s| - 1], s[|s| - 1];
      assert s == init + [last];
      KeepAllowedSubsequence(init);
      if Allowed(last) {
        var r := KeepAllowed(s);
        assert r[..|r| - 1] == KeepAllowed(init);
      } else {
        assert KeepAllowed(s) == KeepAllowed(init) + [];
        assert KeepAllowed(s) == KeepAllowed(init);
        SubsequenceExtend(KeepAllowed(init), init, last);
        assert IsSubsequence(KeepAllowed(init), s);
      }
    }
  }

  /** A subsequence stays one when the longer string grows. */
  lemma {:induction false} SubsequenceExtend(sub: string, s: string, c: char)
    requires IsSubsequence(sub, s)
    ensures IsSubsequence(sub, s + [c])
    decreases |s|, 1
  {
    if sub != [] {
      assert (s + [c])[..|s + [c]| - 1] == s;
      if sub[|sub| - 1] == c {
        SubsequenceDropLast(sub, s);
      }
    }
  }

  /** Dropping the last character of a subsequence leaves a subsequence. */
  lemma {:induction false} SubsequenceDropLast(sub: string, s: string)
    requires sub != [] && IsSubsequence(sub, s)
    ensures IsSubsequence(sub[..|sub| - 1], s)
    decreases |s|, 0
  {
    var shorter := sub[..|sub| - 1];
    if shorter != [] {
      var init, last := s[..|s| - 1], s[|s| - 1];
      assert init + [last] == s;
      if sub[|sub| - 1] != last {
        SubsequenceDropLast(sub, init);
      }
      SubsequenceExtend(shorter, init, last);
    }
  }

  /** A prefix of a subsequence is a subsequence. */
  lemma {:induction false} SubsequenceOfPrefix(p: string, sub: string, s: string)
    requires IsSubsequence(sub, s) && |p| <= |sub| && sub[..|p|] == p
    ensures IsSubsequence(p, s)
    decreases |sub| - |p|
  {
    if |p| < |sub| {
      var shorter := sub[..|sub| - 1];
      SubsequenceDropLast(sub, s);
      assert shorter[..|p|] == p;
      SubsequenceOfPrefix(p, shorter, s);
    } else {
      assert sub == p;
    }
  }

  /** The sanitised name keeps the input's order (it is the input with some
      characters deleted), holds only allowed characters, and does not end
      in a space. */
  lemma SanitizeFileNameCorrect(name: string)
    ensures IsSubsequence(SanitizeFileName(name), name)
    ensures forall i :: 0 <= i < |SanitizeFileName(name)| ==> Allowed(SanitizeFileName(name)[i])
    ensures SanitizeFileName(name) == [] || SanitizeFileName(name)[|SanitizeFileName(name)| - 1] != ' '
  {
    var kept := KeepAllowed(name);
    RStripShape(kept);
    KeepAllowedSubsequence(name);
    SubsequenceOfPrefix(RStrip(kept), kept, name);
  }

  /** Exactly what is removed: the filter's output is the sanitised name
      followed by spaces only. */
  lemma SanitizeFileNameDropsOnlyTrailingSpaces(name: string)
    ensures |SanitizeFileName(name)| <= |KeepAllowed(name)|
    ensures KeepAllowed(name)[..|SanitizeFileName(name)|] == SanitizeFileName(name)
    ensures forall i :: |SanitizeFileName(name)| <= i < |KeepAllowed(name)| ==> KeepAllowed(name)[i] == ' '
  {
    RStripShape(KeepAllowed(name));
  }

  /** Sanitising a sanitised name gives it back unchanged. */
  lemma SanitizeFileNameIdempotent(name: string)
    ensures SanitizeFileName(SanitizeFileName(name)) == SanitizeFileName(name)
  {
    var r := SanitizeFileName(name);
    SanitizeFileNameCorrect(name);
    RStripShape(KeepAllowed(name));
    KeepAllowedIdentity(r);
  }
}
