/**
 * The pure rules of the downloader (index.js): how a title becomes a file
 * name, how a link becomes an address to visit, and how the random draws of
 * `Math.random()` become a device choice and waiting times.
 */
module Naming {
  import opened JsText

  /** The nine characters the class `[<>:"/\\|?*]` of `sanitizeFileName` matches. */
  predicate IsIllegal(c: char)
  {
    || c == '<' || c == '>' || c == ':' || c == '"' || c == '/'
    || c == '\\' || c == '|' || c == '?' || c == '*'
  }

  /** `fileName.replace(/[<>:"/\\|?*]/g, '_')`: a 1:1 map, character by character. */
  function ReplaceIllegal(s: string): (r: string)
    ensures |r| == |s|
    ensures forall i :: 0 <= i < |s| ==> r[i] == (if IsIllegal(s[i]) then '_' else s[i])
  {
    if s == [] then []
    else [if IsIllegal(s[0]) then '_' else s[0]] + ReplaceIllegal(s[1..])
  }

  /** A string without any of the nine illegal characters. */
  predicate IsLegal(s: string)
  {
    forall i :: 0 <= i < |s| ==> !IsIllegal(s[i])
  }

  /**
   * `sanitizeFileName`: replace, then trim. The result holds no illegal
   * character and no white space at either end, and is never longer than the title.
   */
  function SanitizeFileName(fileName: string): (r: string)
    ensures IsLegal(r)
    ensures NoOuterWhiteSpace(r)
    ensures |r| <= |fileName|
  {
    var replaced := ReplaceIllegal(fileName);
    var lo := LeadingSpaceCount(replaced);
    assert forall i :: 0 <= i < |Trim(replaced)| ==> Trim(replaced)[i] == replaced[lo + i];
    Trim(replaced)
  }

  /**
   * Each character of the sanitized name is the title's character at the same
   * offset past the trimmed prefix, replaced by `_` exactly when it is illegal.
   */
  lemma SanitizeIsReplacedSlice(fileName: string)
    ensures var lo, r := LeadingSpaceCount(ReplaceIllegal(fileName)), SanitizeFileName(fileName);
            && lo + |r| <= |fileName|
            && forall i :: 0 <= i < |r| ==> r[i] == (if IsIllegal(fileName[lo + i]) then '_' else fileName[lo + i])
  {
    var replaced := ReplaceIllegal(fileName);
    SliceOfReplaced(fileName, replaced, LeadingSpaceCount(replaced), Trim(replaced));
  }

  /** A slice of the replaced string is the replacement of the same slice of the original. */
  lemma SliceOfReplaced(fileName: string, replaced: string, lo: nat, r: string)
    requires |replaced| == |fileName|
    requires forall i :: 0 <= i < |fileName| ==> replaced[i] == (if IsIllegal(fileName[i]) then '_' else fileName[i])
    requires lo + |r| <= |replaced| && r == replaced[lo..lo + |r|]
    ensures forall i :: 0 <= i < |r| ==> r[i] == (if IsIllegal(fileName[lo + i]) then '_' else fileName[lo + i])
  {
    forall i | 0 <= i < |r| ensures r[i] == (if IsIllegal(fileName[lo + i]) then '_' else fileName[lo + i]) {
      assert r[i] == replaced[lo + i];
    }
  }

  /** Only white space of the title itself is trimmed away, on either side. */
  lemma SanitizeTrimsOnlyWhiteSpace(fileName: string)
    ensures var lo, r := LeadingSpaceCount(ReplaceIllegal(fileName)), SanitizeFileName(fileName);
            && (forall i :: 0 <= i < lo ==> IsWhiteSpace(fileName[i]))
            && (forall i :: lo + |r| <= i < |fileName| ==> IsWhiteSpace(fileName[i]))
  {
    var replaced := ReplaceIllegal(fileName);
    var lo := LeadingSpaceCount(replaced);
    var r := Trim(replaced);
    forall i | 0 <= i < |fileName| && IsWhiteSpace(replaced[i]) ensures IsWhiteSpace(fileName[i]) {
      WhiteSpaceIsNotReplaced(fileName[i]);
    }
  }

  /** `_` is not white space, so replacing never creates white space. */
  lemma WhiteSpaceIsNotReplaced(c: char)
    ensures IsWhiteSpace(if IsIllegal(c) then '_' else c) ==> IsWhiteSpace(c)
  {
  }

  /** A legal string is left unchanged by the replacement. */
  lemma {:induction false} ReplaceKeepsLegal(s: string)
    requires IsLegal(s)
    ensures ReplaceIllegal(s) == s
  {
    if s != [] {
      ReplaceKeepsLegal(s[1..]);
    }
  }

  /** Sanitizing twice is sanitizing once. */
  lemma SanitizeIdempotent(fileName: string)
    ensures SanitizeFileName(SanitizeFileName(fileName)) == SanitizeFileName(fileName)
  {
    var once := SanitizeFileName(fileName);
    ReplaceKeepsLegal(once);
    TrimKeepsTrimmed(once);
  }

  /** The worked example: `A/B:C` becomes `A_B_C`. */
  lemma SanitizeExample()
    ensures SanitizeFileName("A/B:C") == "A_B_C"
  {
    var r := ReplaceIllegal("A/B:C");
    assert r[0] == 'A' && r[1] == '_' && r[2] == 'B' && r[3] == '_' && r[4] == 'C';
    assert r == "A_B_C";
    TrimKeepsTrimmed(r);
  }

  const VideoExtension: string := ".mp4"

  /** The target file name `sanitizeFileName(fileName) + '.mp4'` of downloadVideo. */
  function TargetName(title: string): (r: string)
    ensures IsLegal(r)
    ensures |r| >= |VideoExtension| && r[|r| - |VideoExtension|..] == VideoExtension
    ensures r[..|r| - |VideoExtension|] == SanitizeFileName(title)
  {
    var name := SanitizeFileName(title);
    var r := name + VideoExtension;
    assert IsLegal(VideoExtension);
    assert forall i :: 0 <= i < |r| ==> r[i] == if i < |name| then name[i] else VideoExtension[i - |name|];
    r
  }

  /** Two titles share a target file exactly when they sanitize to the same name. */
  lemma TargetNameCollision(a: string, b: string)
    ensures TargetName(a) == TargetName(b) <==> SanitizeFileName(a) == SanitizeFileName(b)
  {
    if TargetName(a) == TargetName(b) {
      assert SanitizeFileName(a) == TargetName(a)[..|TargetName(a)| - |VideoExtension|];
    }
  }

  /**
   * The address rule of getVideoUrl, line 111, as intended: an address that
   * starts with `http` is kept, any other gets `https://` in front.
   */
  function FullUrl(url: string): (r: string)
    ensures StartsWith(r, "http")
    ensures StartsWith(url, "http") ==> r == url
    ensures !StartsWith(url, "http") ==> r == "https://" + url
  {
    if StartsWith(url, "http") then url else "https://" + url
  }

  /** The rule never prefixes twice. */
  lemma FullUrlIdempotent(url: string)
    ensures FullUrl(FullUrl(url)) == FullUrl(url)
  {
  }

  /** A scheme-less link, as the extractor produces them, gets exactly the prefix. */
  lemma FullUrlExample()
    ensures FullUrl("www.x.com/v") == "https://www.x.com/v"
    ensures FullUrl("http://x") == "http://x"
  {
    assert "www.x.com/v"[0] != "http"[0];
    assert "http://x"[..4] == "http";
  }

  /** A value of `Math.random()`: a number in [0, 1). */
  type Fraction = x: real | 0.0 <= x < 1.0

  /** The device catalog of getVideoUrl. */
  const MobileDevices: seq<string> := [
    "iPhone 12", "iPhone 12 Pro", "iPhone 13", "iPhone 13 Pro", "iPhone 14",
    "iPhone 14 Pro", "iPhone SE", "Galaxy S III", "Galaxy S5", "Galaxy Note 3",
    "Galaxy Note II", "JioPhone 2", "Pixel 5", "Pixel 4", "Pixel 3"
  ]

  /** `Math.floor(Math.random() * mobileDevices.length)`: always a valid index. */
  function DeviceIndex(x: Fraction): (k: nat)
    ensures k < |MobileDevices|
  {
    assert |MobileDevices| == 15;
    (x * 15.0).Floor
  }

  /** Every device of the catalog is drawn by some value of `Math.random()`. */
  lemma DeviceIndexCovers(k: nat)
    requires k < |MobileDevices|
    ensures DeviceIndex(k as real / 15.0) == k
  {
  }

  /** The pause after navigation, line 119: `Math.floor(Math.random() * 3000) + 2000`. */
  function PageWaitMs(x: Fraction): (ms: int)
    ensures 2000 <= ms < 5000
  {
    (x * 3000.0).Floor + 2000
  }

  /** Every whole number of milliseconds from 2000 to 4999 is drawn by some value. */
  lemma PageWaitCovers(ms: int)
    requires 2000 <= ms < 5000
    ensures PageWaitMs((ms - 2000) as real / 3000.0) == ms
  {
  }

  /**
   * The pause between items, line 296: `Math.floor(Math.random() * 5000) + 30000`,
   * so 30000 to 34999 ms.
   */
  function InterItemDelayMs(x: Fraction): (ms: int)
    ensures 30000 <= ms < 35000
  {
    (x * 5000.0).Floor + 30000
  }

  /** Every whole number of milliseconds from 30000 to 34999 is drawn by some value. */
  lemma InterItemDelayCovers(ms: int)
    requires 30000 <= ms < 35000
    ensures InterItemDelayMs((ms - 30000) as real / 5000.0) == ms
  {
  }
}
