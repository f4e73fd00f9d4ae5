/** The two filename helpers of the image downloader: the category folder an image is filed under,
    and the safe file name it is saved as (with the numbered fallback for a manifest entry without one). */
module Downloader {
  import opened Text
  import opened Html

  datatype ImageCategory = People | Research | Covers | Gallery | Misc

  /** The category patterns in the order they are tried; every pattern is a literal substring. */
  const CategoryPatterns: seq<(ImageCategory, seq<string>)> := [
    (People, ["member", "student", "alumni", "pi", "photo", "portrait"]),
    (Research, ["highlight", "research", "figure", "diagram"]),
    (Covers, ["cover", "banner", "hero"]),
    (Gallery, ["lab", "group", "event", "阮雪芬"])]

  /** The text the patterns are searched in: the file name, a space and the URL, lower-cased. */
  function Combined(filename: string, url: string): string {
    Lower(filename + " " + url)
  }

  lemma MiscIsNoPatternCategory()
    ensures forall k :: 0 <= k < |CategoryPatterns| ==> CategoryPatterns[k].0 != Misc
  { }

  /** The category of an image: the first group, in table order, with a pattern occurring in the
      combined text, and Misc exactly when no pattern occurs at all. */
  function DetectCategory(filename: string, url: string): (c: ImageCategory)
    ensures c == Misc <==> forall k :: 0 <= k < |CategoryPatterns| ==> !ContainsAny(Combined(filename, url), CategoryPatterns[k].1)
    ensures c != Misc ==> exists k :: (0 <= k < |CategoryPatterns| && c == CategoryPatterns[k].0
      && ContainsAny(Combined(filename, url), CategoryPatterns[k].1)
      && forall j :: 0 <= j < k ==> !ContainsAny(Combined(filename, url), CategoryPatterns[j].1))
  {
    MiscIsNoPatternCategory();
    match FirstGroup(CategoryPatterns, Combined(filename, url))
    case None => Misc
    case Some(c) => c
  }

  /** The search with early return over the groups and their patterns. */
  method FindCategory(filename: string, url: string) returns (category: ImageCategory)
    ensures category == DetectCategory(filename, url)
  {
    var found := FindGroup(CategoryPatterns, Combined(filename, url));
    category := if found.Some? then found.value else Misc;
  }

  /** A pattern in a part of a text is in the text. */
  lemma {:induction false} ContainsInParts(a: string, b: string, pat: string)
    requires Contains(a, pat) || Contains(b, pat)
    ensures Contains(a + b, pat)
  {
    if Contains(a, pat) {
      var j := IndexOf(a, pat).value;
      assert (a + b)[j..j + |pat|] == a[j..j + |pat|];
      ContainsAt(a + b, pat, j);
    } else {
      var j := IndexOf(b, pat).value;
      assert (a + b)[|a| + j..|a| + j + |pat|] == b[j..j + |pat|];
      ContainsAt(a + b, pat, |a| + j);
    }
  }

  /** A pattern found in the lower-cased file name or URL is found in the combined text. */
  lemma {:induction false} CombinedContains(filename: string, url: string, pat: string)
    requires Contains(Lower(filename), pat) || Contains(Lower(url), pat)
    ensures Contains(Combined(filename, url), pat)
  {
    LowerConcat(filename + " ", url);
    LowerConcat(filename, " ");
    assert Lower(filename + " ") == Lower(filename) + " ";
    if Contains(Lower(filename), pat) {
      ContainsInParts(Lower(filename), " ", pat);
    }
    ContainsInParts(Lower(filename + " "), Lower(url), pat);
  }

  /** The people patterns come first and "pi" is one of them, so any name or URL containing "pi"
      (a "pi_highlight.png", a "topic.png") is filed under people, whatever else it contains. */
  lemma {:induction false} PiMeansPeople(filename: string, url: string)
    requires Contains(Lower(filename), "pi") || Contains(Lower(url), "pi")
    ensures DetectCategory(filename, url) == People
  {
    CombinedContains(filename, url, "pi");
    assert CategoryPatterns[0].1[3] == "pi";
  }

  /** "lab" is a gallery pattern, so an image whose URL contains "lab" (as the lab's own site
      address does) is never filed under misc. */
  lemma {:induction false} LabNeverMisc(filename: string, url: string)
    requires Contains(Lower(url), "lab")
    ensures DetectCategory(filename, url) != Misc
  {
    CombinedContains(filename, url, "lab");
    assert CategoryPatterns[3].1[0] == "lab";
  }

  // ---------------------------------------------------------------------------
  // File names
  // ---------------------------------------------------------------------------

  /** The characters replaced by '_': < > : " / \ | ? * */
  predicate IsReserved(c: char) {
    c == '<' || c == '>' || c == ':' || c == '"' || c == '/' || c == '\\' || c == '|' || c == '?' || c == '*'
  }

  /** A character allowed in a sanitized name: neither reserved nor whitespace. */
  predicate IsSafe(c: char) { !IsReserved(c) && !IsSpace(c) }

  predicate AllSafe(s: string) {
    forall i :: 0 <= i < |s| ==> IsSafe(s[i])
  }

  /** The suffixes accepted as an image extension, compared on the lower-cased name. */
  const ImageExtensions: seq<string> := [".jpg", ".jpeg", ".png", ".gif", ".webp", ".svg"]

  predicate HasImageExtension(name: string) {
    EndsWithAny(Lower(name), ImageExtensions)
  }

  /** A text free of a character does not contain it as a one-character pattern, and back. */
  lemma {:induction false} CharNotContained(s: string, c: char)
    ensures c !in s <==> !Contains(s, [c])
  {
    if c !in s {
      NotContainsByChar(s, [c], 0);
    } else {
      var i :| 0 <= i < |s| && s[i] == c;
      assert s[i..i + 1] == [c];
      ContainsAt(s, [c], i);
    }
  }

  /** The last path component with its query removed: the part after the last '/' and before the
      first '?' that follows it. */
  function BaseName(name: string): (r: string)
    ensures '/' !in r && '?' !in r
    ensures StartsWith(AfterLast(name, "/"), r) && EndsWith(name, AfterLast(name, "/"))
    ensures '?' in AfterLast(name, "/") ==> StartsWith(AfterLast(name, "/"), r + "?")
    ensures '?' !in AfterLast(name, "/") ==> r == AfterLast(name, "/")
    ensures '/' !in name && '?' !in name ==> r == name
  {
    var tail := AfterLast(name, "/");
    var r := BeforeFirst(tail, "?");
    AfterLastIsTail(name, "/");
    BeforeFirstIsHead(tail, "?");
    assert Contains(tail, "?") ==> StartsWith(tail, r + "?") by {
      if Contains(tail, "?") { BeforeFirstCut(tail, "?"); }
    }
    CharNotContained(tail, '/');
    CharNotContained(r, '/');
    CharNotContained(r, '?');
    CharNotContained(name, '/');
    CharNotContained(tail, '?');
    r
  }

  /** Every reserved character replaced by '_', the others kept. */
  function ReplaceReserved(s: string): (r: string)
    ensures |r| == |s|
    ensures forall i :: 0 <= i < |s| ==> r[i] == if IsReserved(s[i]) then '_' else s[i]
  {
    seq(|s|, i requires 0 <= i < |s| => if IsReserved(s[i]) then '_' else s[i])
  }

  /** The name without its extension check: base name, reserved characters and whitespace runs
      replaced by '_'. */
  function Cleaned(name: string): (r: string)
    ensures AllSafe(r)
    ensures |r| <= |BaseName(name)|
  {
    var replaced := ReplaceReserved(BaseName(name));
    UnderscoreRunsSafe(replaced);
    ReplaceRuns(replaced, IsSpace, '_')
  }

  /** Whitespace runs replaced by '_' in a text without reserved characters leave it all safe. */
  lemma {:induction false} UnderscoreRunsSafe(s: string)
    requires forall i :: 0 <= i < |s| ==> !IsReserved(s[i])
    ensures AllSafe(ReplaceRuns(s, IsSpace, '_'))
  {
    var safe := c => IsSafe(c);
    assert forall i :: 0 <= i < |s| && !IsSpace(s[i]) ==> safe(s[i]);
    ReplaceRunsKeeps(s, IsSpace, '_', safe);
    var r := ReplaceRuns(s, IsSpace, '_');
    assert forall i :: 0 <= i < |r| ==> safe(r[i]);
  }

  /** Each whitespace run becomes exactly one '_': a run between a part that does not end in
      whitespace and a part that does not start with it is replaced by a single '_'. */
  lemma {:induction false} CleanedRunIsOneUnderscore(name: string, x: string, w: string, y: string)
    requires ReplaceReserved(BaseName(name)) == x + w + y
    requires |w| > 0 && forall i :: 0 <= i < |w| ==> IsSpace(w[i])
    requires x == [] || !IsSpace(x[|x| - 1])
    requires y == [] || !IsSpace(y[0])
    ensures Cleaned(name) == ReplaceRuns(x, IsSpace, '_') + "_" + ReplaceRuns(y, IsSpace, '_')
  {
    ReplaceRunsSplice(x, w, y, IsSpace, '_');
  }

  predicate IsSpaceOrUnderscore(c: char) { IsSpace(c) || c == '_' }

  /** Only whitespace and '_' differ between the base name with '_' for reserved characters and the
      cleaned name: every other character is kept, in order. */
  lemma {:induction false} CleanedKeepsOthers(name: string)
    ensures Without(Cleaned(name), IsSpaceOrUnderscore) == Without(ReplaceReserved(BaseName(name)), IsSpaceOrUnderscore)
  {
    ReplaceRunsKeepsOthers(ReplaceReserved(BaseName(name)), IsSpace, '_', IsSpaceOrUnderscore);
  }

  /** Everything sanitizing does after percent-decoding. */
  function Tidy(name: string): (r: string)
    ensures AllSafe(r) && HasImageExtension(r)
    ensures StartsWith(r, Cleaned(name)) && |r| <= |Cleaned(name)| + 4
    ensures r == Cleaned(name) <==> HasImageExtension(Cleaned(name))
    ensures !HasImageExtension(Cleaned(name)) ==> r == Cleaned(name) + ".png"
  {
    var c := Cleaned(name);
    if HasImageExtension(c) then c
    else
      PngAppended(c);
      c + ".png"
  }

  /** Appending ".png" gives an image extension and keeps the name safe. */
  lemma {:induction false} PngAppended(c: string)
    requires AllSafe(c)
    ensures AllSafe(c + ".png") && HasImageExtension(c + ".png")
  {
    var r := c + ".png";
    forall i | 0 <= i < |r| ensures IsSafe(r[i]) {
      if i < |c| { assert r[i] == c[i]; }
    }
    PngSuffix(c);
  }

  lemma {:induction false} PngSuffix(c: string)
    ensures HasImageExtension(c + ".png")
  {
    var l := Lower(c + ".png");
    LowerConcat(c, ".png");
    assert Lower(".png") == ".png";
    assert l == Lower(c) + ".png";
    assert l[|l| - 4..] == ".png";
    assert EndsWith(l, ImageExtensions[2]);
  }

  /** sanitize_filename: the decoded name's base name, with reserved characters and whitespace runs
      replaced by '_', and ".png" appended when it lacks an image extension. */
  function SanitizeFilename(ext: Externals, filename: string): (r: string)
    ensures AllSafe(r) && HasImageExtension(r)
    ensures StartsWith(r, Cleaned(ext.unquote(filename)))
    ensures r == Cleaned(ext.unquote(filename)) <==> HasImageExtension(Cleaned(ext.unquote(filename)))
    ensures !HasImageExtension(Cleaned(ext.unquote(filename))) ==> r == Cleaned(ext.unquote(filename)) + ".png"
  {
    Tidy(ext.unquote(filename))
  }

  /** A safe name is its own base name and is left alone by both replacements. */
  lemma {:induction false} CleanedSafe(name: string)
    requires AllSafe(name)
    ensures Cleaned(name) == name
  {
    forall i | 0 <= i < |name| ensures name[i] != '/' && name[i] != '?' {
      assert IsSafe(name[i]);
    }
    assert ReplaceReserved(name) == name;
    ReplaceRunsNone(name, IsSpace, '_');
  }

  /** Sanitizing after decoding is idempotent. */
  lemma {:induction false} TidyIdempotent(name: string)
    ensures Tidy(Tidy(name)) == Tidy(name)
  {
    CleanedSafe(Tidy(name));
  }

  /** A sanitized name that decoding leaves as it is comes back unchanged from a second sanitizing. */
  lemma {:induction false} SanitizeStable(ext: Externals, filename: string)
    requires ext.unquote(SanitizeFilename(ext, filename)) == SanitizeFilename(ext, filename)
    ensures SanitizeFilename(ext, SanitizeFilename(ext, filename)) == SanitizeFilename(ext, filename)
  {
    TidyIdempotent(ext.unquote(filename));
  }

  /** The file name for a manifest entry without one: "image_", its 1-based position, ".png". */
  function FallbackName(i: nat): (r: string)
    ensures AllSafe(r) && HasImageExtension(r)
    ensures |r| > 10 && StartsWith(r, "image_") && EndsWith(r, ".png")
    ensures AllDigits(r[6..|r| - 4]) && DigitsValue(r[6..|r| - 4]) == i
  {
    var d := DecimalString(i);
    var r := "image_" + d + ".png";
    assert r[6..|r| - 4] == d && r[..6] == "image_" && r[|r| - 4..] == ".png";
    DecimalRoundTrip(i);
    assert AllSafe(r) by {
      forall k | 0 <= k < |r| ensures IsSafe(r[k]) {
        if 6 <= k < 6 + |d| {
          assert r[k] == d[k - 6];
        }
      }
    }
    PngAppended("image_" + d);
    r
  }

  /** Different positions give different fallback names. */
  lemma {:induction false} FallbackNamesDistinct(i: nat, j: nat)
    requires FallbackName(i) == FallbackName(j)
    ensures i == j
  {
    var di, dj := DecimalString(i), DecimalString(j);
    assert |di| == |dj|;
    assert FallbackName(i)[6..6 + |di|] == di;
    assert FallbackName(j)[6..6 + |dj|] == dj;
    DecimalStringInjective(i, j);
  }

  /** The name an image of the manifest is saved as: its sanitized file name, or the fallback for
      the i-th entry when it has none. */
  function ManifestName(ext: Externals, filename: string, i: nat): (r: string)
    ensures AllSafe(r) && HasImageExtension(r)
    ensures filename == "" ==> r == FallbackName(i)
    ensures filename != "" ==> r == SanitizeFilename(ext, filename)
  {
    if filename != "" then SanitizeFilename(ext, filename) else FallbackName(i)
  }
}
