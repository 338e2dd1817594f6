/**
 * `sanitize_blob_name`: turns the name of an uploaded file into the name of
 * the blob it is stored under. The extension is dropped, the stem is
 * stripped of surrounding whitespace, its spaces become '_', everything but
 * [A-Za-z0-9_-] is deleted, and "_", eight hex digits of a fresh UUID4 and
 * ".png" are appended.
 *
 * The UUID is random in the program; here its eight-digit fragment is a
 * parameter, which makes the function deterministic.
 */
module BlobName {
  import opened NameText

  /** A digit of `uuid.UUID.hex`, which is lowercase. */
  predicate IsLowerHexDigit(c: char) {
    ('0' <= c <= '9') || ('a' <= c <= 'f')
  }

  /** `uuid.uuid4().hex[:8]`: eight lowercase hexadecimal digits. */
  predicate IsUuidFragment(fragment: string) {
    |fragment| == 8 && forall i :: 0 <= i < |fragment| ==> IsLowerHexDigit(fragment[i])
  }

  /** Length of the fixed tail "_" + fragment + ".png". */
  const SuffixLength: nat := 13

  /** The stem the filter runs on: extension dropped, surrounding whitespace
      stripped, spaces turned into '_'. It is never longer than the name and
      holds no space. */
  function Stem(name: string): (stem: string)
    ensures |stem| <= |name|
    ensures ' ' !in stem
  {
    ReplaceSpaces(Strip(StripExtension(name)))
  }

  /** The part of the blob name that comes from the file name. */
  function Base(name: string): (base: string)
    ensures AllNameChars(base)
    ensures |base| <= |name|
  {
    KeepNameChars(Stem(name))
  }

  /**
   * The blob name: only name characters up to the fixed 13-character tail
   * "_" + fragment + ".png", never more than 13 characters longer than the
   * file name, its only dot the one of ".png", and its base obtained from
   * the stem by deleting characters alone.
   */
  function SanitizeBlobName(name: string, fragment: string): (blob: string)
    requires IsUuidFragment(fragment)
    ensures |blob| == |Base(name)| + SuffixLength
    ensures blob[..|blob| - SuffixLength] == Base(name)
    ensures |blob| <= |name| + SuffixLength
    ensures blob[|blob| - SuffixLength..] == "_" + fragment + ".png"
    ensures AllNameChars(blob[..|blob| - SuffixLength])
    ensures IsSubsequence(blob[..|blob| - SuffixLength], Stem(name))
    ensures forall i :: 0 <= i < |blob| && blob[i] == '.' ==> i == |blob| - 4
  {
    var base := Base(name);
    var tail := "_" + fragment + ".png";
    var blob := base + tail;
    KeepNameCharsSubsequence(Stem(name));
    TailHasOneDot(fragment);
    assert blob[..|base|] == base;
    forall i | 0 <= i < |blob| && blob[i] == '.'
      ensures i == |blob| - 4
    {
      if i >= |base| {
        assert blob[i] == tail[i - |base|];
      }
    }
    blob
  }

  /** The tail appended to every blob name has its only dot before "png". */
  lemma TailHasOneDot(fragment: string)
    requires IsUuidFragment(fragment)
    ensures var tail := "_" + fragment + ".png";
      && |tail| == SuffixLength
      && forall j :: 0 <= j < |tail| && tail[j] == '.' ==> j == 9
  {
    var tail := "_" + fragment + ".png";
    assert forall j :: 1 <= j < 9 ==> tail[j] == fragment[j - 1];
    assert tail[10..] == "png";
  }

  /** A string of name characters comes through strip, replace and the
      filter untouched. */
  lemma CleanTextUnchanged(x: string)
    requires AllNameChars(x)
    ensures Strip(x) == x
    ensures ReplaceSpaces(x) == x
    ensures KeepNameChars(ReplaceSpaces(Strip(x))) == x
  {
    if x != [] {
      NameCharIsNotWhitespace(x[0]);
      NameCharIsNotWhitespace(x[|x| - 1]);
    }
    StripTrimmed(x);
    forall i | 0 <= i < |x|
      ensures ReplaceSpaces(x)[i] == x[i]
    {
      NameCharIsNotWhitespace(x[i]);
    }
    KeepNameCharsClean(x);
  }

  /** A base that is already clean (and so has no extension) is its own
      base: sanitizing it again changes nothing before the tail. */
  lemma CleanBaseFixed(b: string)
    requires AllNameChars(b)
    ensures Base(b) == b
  {
    StripExtensionPrefix(b, []);
    assert b + [] == b;
    CleanTextUnchanged(b);
  }

  /** Computing the base is idempotent. */
  lemma BaseIdempotent(name: string)
    ensures Base(Base(name)) == Base(name)
  {
    CleanBaseFixed(Base(name));
  }

  /** Name characters joined to name characters are name characters; a
      UUID fragment consists of name characters. */
  lemma NameCharsAppend(a: string, b: string)
    requires AllNameChars(a)
    requires AllNameChars(b) || IsUuidFragment(b)
    ensures AllNameChars(a + b)
  {
    forall i | 0 <= i < |a + b|
      ensures IsNameChar((a + b)[i])
    {
      if i >= |a| {
        assert (a + b)[i] == b[i - |a|];
      }
    }
  }

  lemma RegroupTail(base: string, fragment: string)
    ensures base + ("_" + fragment + ".png") == (base + "_" + fragment) + ".png"
  {
  }

  /** A clean text followed by an extension has that text as its base. */
  lemma CleanTextWithExtension(x: string, ext: string)
    requires AllNameChars(x) && NoDots(ext) && ext != []
    ensures Base(x + "." + ext) == x
  {
    var name := x + "." + ext;
    assert ExtensionAt(name, |x|) by {
      forall j | |x| < j < |name|
        ensures name[j] != '.'
      {
        assert name[j] == ext[j - |x| - 1];
      }
    }
    StripExtensionAt(name, |x|);
    assert name[..|x|] == x;
    CleanTextUnchanged(x);
  }

  /** A clean text followed by ".png" has that text as its base. */
  lemma CleanTextWithPng(x: string)
    requires AllNameChars(x)
    ensures Base(x + ".png") == x
  {
    assert x + ".png" == x + "." + "png";
    CleanTextWithExtension(x, "png");
  }

  /** Sanitizing a blob name a second time keeps its whole base and old
      fragment and only appends a new fragment: ".png" is the one
      extension removed. */
  lemma ResanitizeKeepsFragment(name: string, fragment: string)
    requires IsUuidFragment(fragment)
    ensures Base(SanitizeBlobName(name, fragment)) == Base(name) + "_" + fragment
  {
    var base := Base(name);
    var x := base + "_" + fragment;
    NameCharsAppend(base, "_");
    NameCharsAppend(base + "_", fragment);
    var blob := SanitizeBlobName(name, fragment);
    assert blob == base + ("_" + fragment + ".png") by {
      assert blob[..|blob| - SuffixLength] + blob[|blob| - SuffixLength..] == blob;
    }
    RegroupTail(base, fragment);
    CleanTextWithPng(x);
  }

  /** Whitespace in front of the file name never reaches the blob name. */
  lemma LeadingWhitespaceIgnored(p: string, name: string)
    requires AllWhitespace(p)
    ensures Base(p + name) == Base(name)
  {
    StripExtensionPrefix(p, name);
    assert p + StripExtension(name) + [] == p + StripExtension(name);
    assert [] + StripExtension(name) + [] == StripExtension(name);
    StripPadding(p, StripExtension(name), []);
  }

  /** Whitespace on either side of the stem, as in "  my photo  .png",
      becomes neither '_' nor anything else. */
  lemma WhitespaceAroundStemIgnored(p: string, t: string, q: string, ext: string)
    requires AllWhitespace(p) && AllWhitespace(q)
    requires NoDots(ext) && ext != []
    ensures Base(p + t + q + "." + ext) == KeepNameChars(ReplaceSpaces(Strip(t)))
  {
    var name := p + t + q + "." + ext;
    var cut := |p + t + q|;
    assert ExtensionAt(name, cut) by {
      forall j | cut < j < |name|
        ensures name[j] != '.'
      {
        assert name[j] == ext[j - cut - 1];
      }
    }
    StripExtensionAt(name, cut);
    assert name[..cut] == p + t + q;
    StripPadding(p, t, q);
  }

  /** Without a dot in the name, nothing is cut before strip and replace. */
  lemma BaseWithoutDots(s: string)
    requires NoDots(s)
    ensures Base(s) == KeepNameChars(ReplaceSpaces(Strip(s)))
  {
    StripExtensionPrefix(s, []);
    assert s + [] == s;
  }

  /** A name with no extension, as "my photo  ": whitespace on either side
      of its text still becomes neither '_' nor anything else. */
  lemma WhitespaceAroundDotlessNameIgnored(p: string, t: string, q: string)
    requires AllWhitespace(p) && AllWhitespace(q) && NoDots(t)
    ensures Base(p + t + q) == KeepNameChars(ReplaceSpaces(Strip(t)))
  {
    assert NoDots(p + t + q) by {
      forall i | 0 <= i < |p + t + q|
        ensures (p + t + q)[i] != '.'
      {
        if i < |p| {
          assert (p + t + q)[i] == p[i];
        } else if i < |p + t| {
          assert (p + t + q)[i] == t[i - |p|];
        } else {
          assert (p + t + q)[i] == q[i - |p + t|];
        }
      }
    }
    BaseWithoutDots(p + t + q);
    StripPadding(p, t, q);
  }

  /** In a dot-free name, a space between two non-whitespace ends of the
      text is interior: it reaches the base as exactly one '_', and any other
      whitespace character there vanishes. */
  lemma InteriorWhitespaceOfBase(a: string, c: char, b: string)
    requires NoDots(a) && NoDots(b) && IsWhitespace(c)
    requires a != [] && !IsWhitespace(a[0])
    requires b != [] && !IsWhitespace(b[|b| - 1])
    ensures c == ' ' ==>
      Base(a + [c] + b) == KeepNameChars(ReplaceSpaces(a)) + "_" + KeepNameChars(ReplaceSpaces(b))
    ensures c != ' ' ==>
      Base(a + [c] + b) == KeepNameChars(ReplaceSpaces(a)) + KeepNameChars(ReplaceSpaces(b))
  {
    var s := a + [c] + b;
    assert NoDots(s) by {
      forall i | 0 <= i < |s|
        ensures s[i] != '.'
      {
        if i < |a| {
          assert s[i] == a[i];
        } else if i > |a| {
          assert s[i] == b[i - |a| - 1];
        }
      }
    }
    BaseWithoutDots(s);
    assert s[0] == a[0] && s[|s| - 1] == b[|b| - 1];
    StripTrimmed(s);
    if c == ' ' {
      assert a + [c] + b == a + " " + b;
      InteriorSpaceBecomesUnderscore(a, b);
    } else {
      InteriorWhitespaceDropped(a, c, b);
    }
  }

  /** Worked example: before a final dot that starts no extension, the
      whitespace is interior, so "a  ." has the base "a__". */
  lemma ExampleSpacesBeforeFinalDot()
    ensures Base("a  .") == "a__"
  {
    assert NoDots("a  ") && "a  ." == "a  " + ".";
    assert StripExtension("a  .") == "a  ." by {
      StripExtensionPrefix("a  ", ".");
    }
    StripTrimmed("a  .");
    assert ReplaceSpaces("a  .") == "a__.";
    assert KeepNameChars("a__.") == "a__";
  }

  /** When the cut leaves a text without a space or whitespace at its ends,
      that text is the stem. */
  lemma StemOfTrimmedCut(name: string, s: string)
    requires StripExtension(name) == s && ' ' !in s
    requires s != [] ==> !IsWhitespace(s[0]) && !IsWhitespace(s[|s| - 1])
    ensures Stem(name) == s
  {
    StripTrimmed(s);
    forall i | 0 <= i < |s|
      ensures ReplaceSpaces(s)[i] == s[i]
    {
    }
  }

  /** "a.b.c" loses only its last extension: its stem is "a.b". */
  lemma ExampleInnerDotsStem()
    ensures Stem("a.b.c") == "a.b"
  {
    StripExtensionKeepsInnerDots();
    StemOfTrimmedCut("a.b.c", "a.b");
  }

  /** Worked example: after the last extension is dropped, the filter
      removes the remaining dot, so the base of "a.b.c" is "ab". */
  lemma ExampleInnerDots()
    ensures Base("a.b.c") == "ab"
  {
    ExampleInnerDotsStem();
    assert KeepNameChars("a.b") == "ab";
  }

  /** Worked example: with the fragment "0123abcd", "a.b.c" is stored as
      "ab_0123abcd.png". */
  lemma ExampleInnerDotsBlob()
    ensures SanitizeBlobName("a.b.c", "0123abcd") == "ab_0123abcd.png"
  {
    ExampleInnerDots();
  }
}
