/**
 * The string steps that `sanitize_blob_name` chains together on an uploaded
 * file name, each as a function over Python `str` values (sequences of code
 * points):
 *
 *   - `re.sub(r"\.[^.]+$", "", name)`  -> StripExtension
 *   - `.strip()`                       -> Strip
 *   - `.replace(" ", "_")`             -> ReplaceSpaces
 *   - `re.sub(r"[^A-Za-z0-9_\-]", "", base)` -> KeepNameChars
 *
 * together with the lemmas that say how the steps behave on concatenations.
 */
module NameText {

  // ---------------------------------------------------------------------------
  // Character classes
  // ---------------------------------------------------------------------------

  /** Python's `str.isspace()`: the characters that `str.strip()` removes. */
  predicate IsWhitespace(c: char) {
    || ('\t' <= c <= '\r')               // tab, line feed, vertical tab, form feed, carriage return
    || ('\U{1C}' <= c <= '\U{1F}')        // file, group, record and unit separators
    || c == ' '
    || c == '\U{85}'                      // next line
    || c == '\U{A0}'                      // no-break space
    || c == '\U{1680}'                    // ogham space mark
    || ('\U{2000}' <= c <= '\U{200A}')    // en quad .. hair space
    || c == '\U{2028}' || c == '\U{2029}'  // line and paragraph separators
    || c == '\U{202F}' || c == '\U{205F}' || c == '\U{3000}'
  }

  /** The regex class `[A-Za-z0-9_\-]`: the characters the filter keeps. */
  predicate IsNameChar(c: char) {
    || ('A' <= c <= 'Z')
    || ('a' <= c <= 'z')
    || ('0' <= c <= '9')
    || c == '_'
    || c == '-'
  }

  /** A name character is neither whitespace nor a space nor a dot. */
  lemma NameCharIsNotWhitespace(c: char)
    requires IsNameChar(c)
    ensures !IsWhitespace(c) && c != ' ' && c != '.'
  {
  }

  predicate AllWhitespace(s: string) {
    forall i :: 0 <= i < |s| ==> IsWhitespace(s[i])
  }

  predicate AllNameChars(s: string) {
    forall i :: 0 <= i < |s| ==> IsNameChar(s[i])
  }

  predicate NoDots(s: string) {
    forall i :: 0 <= i < |s| ==> s[i] != '.'
  }

  /** `a` can be obtained from `b` by deleting characters. */
  predicate IsSubsequence(a: string, b: string)
    decreases |b|
  {
    if a == [] then true
    else if b == [] then false
    else (a[0] == b[0] && IsSubsequence(a[1..], b[1..])) || IsSubsequence(a, b[1..])
  }

  // ---------------------------------------------------------------------------
  // re.sub(r"\.[^.]+$", "", name)
  // ---------------------------------------------------------------------------

  /**
   * A match of `\.[^.]+$` starts at index i: a dot, then at least one
   * character, none of them a dot, up to the end of the string. (`[^.]`
   * also matches a newline, so the greedy run always reaches the true end
   * and `$`'s alternative position before a final newline adds no match.)
   */
  predicate ExtensionAt(s: string, i: int) {
    && 0 <= i
    && i + 1 < |s|
    && s[i] == '.'
    && forall j :: i < j < |s| ==> s[j] != '.'
  }

  /** The index of the last '.' in s, or -1 when there is none. */
  function LastDot(s: string): (k: int)
    ensures -1 <= k < |s|
    ensures k >= 0 ==> s[k] == '.'
    ensures forall j :: k < j < |s| ==> s[j] != '.'
  {
    if s == [] then -1
    else if s[|s| - 1] == '.' then |s| - 1
    else LastDot(s[..|s| - 1])
  }

  /**
   * Removes the final extension: the text from the last dot to the end,
   * provided at least one character follows that dot. The result is a
   * prefix of s; it is shorter exactly when the pattern matches, and then
   * it ends where the match begins.
   */
  function StripExtension(s: string): (r: string)
    ensures r <= s
    ensures |r| < |s| ==> ExtensionAt(s, |r|)
    ensures |r| == |s| ==> forall i :: !ExtensionAt(s, i)
  {
    var k := LastDot(s);
    if 0 <= k && k + 1 < |s| then s[..k] else s
  }

  /** The pattern matches in at most one place. */
  lemma ExtensionAtUnique(s: string, i: int, j: int)
    requires ExtensionAt(s, i) && ExtensionAt(s, j)
    ensures i == j
  {
  }

  /** Wherever the pattern matches, StripExtension cuts exactly there. */
  lemma StripExtensionAt(s: string, i: int)
    requires ExtensionAt(s, i)
    ensures StripExtension(s) == s[..i]
  {
    var r := StripExtension(s);
    if |r| < |s| {
      ExtensionAtUnique(s, i, |r|);
    }
  }

  /** Only the final extension goes: "a.b.c" keeps "a.b". */
  lemma StripExtensionKeepsInnerDots()
    ensures StripExtension("a.b.c") == "a.b"
  {
    StripExtensionAt("a.b.c", 3);
  }

  /** A trailing dot with nothing after it is not an extension. */
  lemma StripExtensionTrailingDot()
    ensures StripExtension("a.b.") == "a.b."
  {
    var s := "a.b.";
    assert s[3] == '.';
  }

  /** A prefix without dots does not change where the extension is cut. */
  lemma {:induction false} StripExtensionPrefix(p: string, s: string)
    requires NoDots(p)
    ensures StripExtension(p + s) == p + StripExtension(s)
  {
    var r := StripExtension(s);
    if |r| < |s| {
      assert ExtensionAt(p + s, |p| + |r|) by {
        forall j | |p| + |r| < j < |p + s|
          ensures (p + s)[j] != '.'
        {
          assert (p + s)[j] == s[j - |p|];
        }
      }
      StripExtensionAt(p + s, |p| + |r|);
      assert (p + s)[..|p| + |r|] == p + s[..|r|];
    } else {
      assert r == s;
      forall i | 0 <= i
        ensures !ExtensionAt(p + s, i)
      {
        if ExtensionAt(p + s, i) && i >= |p| {
            assert ExtensionAt(s, i - |p|) by {
              forall j | i - |p| < j < |s|
                ensures s[j] != '.'
              {
                assert s[j] == (p + s)[j + |p|];
              }
            }
        }
      }
      assert StripExtension(p + s) == p + s;
    }
  }

  // ---------------------------------------------------------------------------
  // str.strip()
  // ---------------------------------------------------------------------------

  /** The number of whitespace characters at the front of s. */
  function LeadingWhitespace(s: string): (n: nat)
    ensures n <= |s|
    ensures AllWhitespace(s[..n])
    ensures n < |s| ==> !IsWhitespace(s[n])
  {
    if s == [] || !IsWhitespace(s[0]) then 0
    else
      var m := LeadingWhitespace(s[1..]);
      assert s[..1 + m] == [s[0]] + s[1..][..m];
      1 + m
  }

  /** The number of whitespace characters at the back of s. */
  function TrailingWhitespace(s: string): (n: nat)
    ensures n <= |s|
    ensures AllWhitespace(s[|s| - n..])
    ensures n < |s| ==> !IsWhitespace(s[|s| - 1 - n])
  {
    if s == [] || !IsWhitespace(s[|s| - 1]) then 0
    else
      var t := s[..|s| - 1];
      var m := TrailingWhitespace(t);
      assert s[|s| - (1 + m)..] == t[|t| - m..] + [s[|s| - 1]];
      1 + m
  }

  /**
   * r sits in s at index k with only whitespace before it and after it.
   */
  predicate PaddedBy(s: string, r: string, k: int) {
    && 0 <= k <= |s| - |r|
    && s[k..k + |r|] == r
    && AllWhitespace(s[..k])
    && AllWhitespace(s[k + |r|..])
  }

  /**
   * Removes leading and trailing whitespace. What is left starts right
   * after the leading whitespace of s, is followed only by whitespace, and
   * neither of its ends is whitespace.
   */
  function Strip(s: string): (r: string)
    ensures r == [] || (!IsWhitespace(r[0]) && !IsWhitespace(r[|r| - 1]))
    ensures PaddedBy(s, r, LeadingWhitespace(s))
  {
    var a := LeadingWhitespace(s);
    var b := TrailingWhitespace(s[a..]);
    assert s[a + (|s| - b - a)..] == s[a..][|s[a..]| - b..];
    s[a..|s| - b]
  }

  /** Strip is pinned down by its contract: whitespace padding around a
      piece whose ends are not whitespace is removed, and nothing more. */
  lemma StripExact(p: string, t: string, q: string)
    requires AllWhitespace(p) && AllWhitespace(q)
    requires t == [] || (!IsWhitespace(t[0]) && !IsWhitespace(t[|t| - 1]))
    ensures Strip(p + t + q) == t
  {
    var s := p + t + q;
    var a := LeadingWhitespace(s);
    if t == [] {
      assert AllWhitespace(s);
      assert a == |s|;
    } else {
      assert s[|p|] == t[0];
      assert a == |p|;
      var u := s[a..];
      assert u == t + q;
      var b := TrailingWhitespace(u);
      assert u[|u| - 1 - |q|] == t[|t| - 1];
      assert b == |q|;
      assert s[a..|s| - b] == t;
    }
  }

  lemma SplitInThree(s: string, i: int, j: int)
    requires 0 <= i <= j <= |s|
    ensures s == s[..i] + s[i..j] + s[j..]
  {
  }

  lemma Regroup(a: string, b: string, c: string, d: string, e: string)
    ensures a + (b + c + d) + e == (a + b) + c + (d + e)
  {
  }

  lemma WhitespaceAppend(x: string, y: string)
    requires AllWhitespace(x) && AllWhitespace(y)
    ensures AllWhitespace(x + y)
  {
    forall i | 0 <= i < |x + y|
      ensures IsWhitespace((x + y)[i])
    {
      if i < |x| {
        assert (x + y)[i] == x[i];
      } else {
        assert (x + y)[i] == y[i - |x|];
      }
    }
  }

  /** A string without whitespace at either end is its own Strip. */
  lemma StripTrimmed(t: string)
    requires t == [] || (!IsWhitespace(t[0]) && !IsWhitespace(t[|t| - 1]))
    ensures Strip(t) == t
  {
    assert [] + t + [] == t;
    StripExact([], t, []);
  }

  /** Leading whitespace alone never survives Strip. */
  lemma LeadingWhitespaceIgnoredByStrip(p: string, t: string)
    requires AllWhitespace(p)
    ensures Strip(p + t) == Strip(t)
  {
    assert p + t + [] == p + t;
    assert [] + t + [] == t;
    StripPadding(p, t, []);
  }

  /** Whitespace added around a string never survives Strip. */
  lemma StripPadding(p: string, t: string, q: string)
    requires AllWhitespace(p) && AllWhitespace(q)
    ensures Strip(p + t + q) == Strip(t)
  {
    var r := Strip(t);
    var k := LeadingWhitespace(t);
    var before, after := t[..k], t[k + |r|..];
    SplitInThree(t, k, k + |r|);
    WhitespaceAppend(p, before);
    WhitespaceAppend(after, q);
    Regroup(p, before, r, after, q);
    StripExact(p + before, r, after + q);
  }

  // ---------------------------------------------------------------------------
  // .replace(" ", "_")
  // ---------------------------------------------------------------------------

  /** Every space becomes '_'; every other character stays where it is. */
  function ReplaceSpaces(s: string): (r: string)
    ensures |r| == |s|
    ensures ' ' !in r
    ensures forall i :: 0 <= i < |s| ==> r[i] == s[i] || (s[i] == ' ' && r[i] == '_')
  {
    seq(|s|, i requires 0 <= i < |s| => if s[i] == ' ' then '_' else s[i])
  }

  // ---------------------------------------------------------------------------
  // re.sub(r"[^A-Za-z0-9_\-]", "", base)
  // ---------------------------------------------------------------------------

  /**
   * Deletes every character outside [A-Za-z0-9_-]: what is left holds only
   * name characters and is no longer than s.
   */
  function KeepNameChars(s: string): (r: string)
    ensures |r| <= |s|
    ensures AllNameChars(r)
  {
    if s == [] then []
    else if IsNameChar(s[0]) then [s[0]] + KeepNameChars(s[1..])
    else KeepNameChars(s[1..])
  }

  /** The filter only deletes: it never reorders or inserts characters. */
  lemma {:induction false} KeepNameCharsSubsequence(s: string)
    ensures IsSubsequence(KeepNameChars(s), s)
  {
    if s != [] {
      var rest := KeepNameChars(s[1..]);
      KeepNameCharsSubsequence(s[1..]);
      if IsNameChar(s[0]) {
        assert KeepNameChars(s)[1..] == rest;
      }
    }
  }

  /** The filter keeps every name character, as often as it occurs in s,
      and no other character. */
  lemma {:induction false} KeepNameCharsCounts(s: string, c: char)
    ensures multiset(KeepNameChars(s))[c] == if IsNameChar(c) then multiset(s)[c] else 0
  {
    if s != [] {
      KeepNameCharsCounts(s[1..], c);
      assert s == [s[0]] + s[1..];
      assert multiset(s) == multiset{s[0]} + multiset(s[1..]);
    }
  }

  /** The filter works character by character, so it splits over '+'. */
  lemma {:induction false} KeepNameCharsAppend(a: string, b: string)
    ensures KeepNameChars(a + b) == KeepNameChars(a) + KeepNameChars(b)
  {
    if a != [] {
      assert (a + b)[1..] == a[1..] + b;
      KeepNameCharsAppend(a[1..], b);
    } else {
      assert a + b == b;
    }
  }

  /** A string of name characters passes the filter unchanged. */
  lemma {:induction false} KeepNameCharsClean(s: string)
    requires AllNameChars(s)
    ensures KeepNameChars(s) == s
  {
    if s != [] {
      KeepNameCharsClean(s[1..]);
    }
  }

  /** The filter is idempotent. */
  lemma {:induction false} KeepNameCharsIdempotent(s: string)
    ensures KeepNameChars(KeepNameChars(s)) == KeepNameChars(s)
  {
    KeepNameCharsClean(KeepNameChars(s));
  }

  /** Space replacement also splits over '+'. */
  lemma ReplaceSpacesAppend(a: string, b: string)
    ensures ReplaceSpaces(a + b) == ReplaceSpaces(a) + ReplaceSpaces(b)
  {
  }

  /** An interior space turns into exactly one '_' in the filtered text. */
  lemma InteriorSpaceBecomesUnderscore(a: string, b: string)
    ensures KeepNameChars(ReplaceSpaces(a + " " + b))
         == KeepNameChars(ReplaceSpaces(a)) + "_" + KeepNameChars(ReplaceSpaces(b))
  {
    ReplaceSpacesAppend(a + " ", b);
    ReplaceSpacesAppend(a, " ");
    assert ReplaceSpaces(" ") == "_";
    KeepNameCharsAppend(ReplaceSpaces(a) + "_", ReplaceSpaces(b));
    KeepNameCharsAppend(ReplaceSpaces(a), "_");
    assert KeepNameChars("_") == "_";
  }

  /** Any other interior whitespace (tab, newline, ...) just disappears. */
  lemma InteriorWhitespaceDropped(a: string, c: char, b: string)
    requires IsWhitespace(c) && c != ' '
    ensures KeepNameChars(ReplaceSpaces(a + [c] + b))
         == KeepNameChars(ReplaceSpaces(a)) + KeepNameChars(ReplaceSpaces(b))
  {
    ReplaceSpacesAppend(a + [c], b);
    ReplaceSpacesAppend(a, [c]);
    assert ReplaceSpaces([c]) == [c];
    KeepNameCharsAppend(ReplaceSpaces(a) + [c], ReplaceSpaces(b));
    KeepNameCharsAppend(ReplaceSpaces(a), [c]);
    assert KeepNameChars([c]) == [];
  }
}
