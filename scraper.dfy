/** The scraper's shared utilities: whitespace cleaning, URL resolution, the image
    manifest collected from each page and its de-duplication by URL. */
module Scraper {
  import opened Text
  import opened Html

  // ---------------------------------------------------------------------------
  // Text cleaning
  // ---------------------------------------------------------------------------

  /** Collapsing whitespace runs to one space and stripping the ends yields clean text. */
  lemma {:induction false} StripCollapsedIsClean(c: string)
    requires forall i :: 0 <= i < |c| && IsSpace(c[i]) ==> c[i] == ' '
    requires forall i :: 0 <= i < |c| - 1 ==> !(c[i] == ' ' && c[i + 1] == ' ')
    ensures IsClean(Strip(c))
  {
    var a := LeadingCount(c, IsSpace);
    var r := Strip(c);
    forall i | 0 <= i < |r| ensures r[i] == c[a + i] { }
  }

  /** NFKC-normalise, collapse every whitespace run to one space, strip; no text gives "". */
  function CleanText(ext: Externals, text: Option<string>): (r: string)
    ensures text == None || text == Some("") ==> r == ""
    ensures IsClean(r)
    ensures text.Some? && text.value != "" ==> Without(r, IsSpace) == Without(ext.nfkc(text.value), IsSpace)
    ensures text.Some? && text.value != "" ==> Words(r) == Words(ext.nfkc(text.value))
  {
    if text.None? || text.value == "" then ""
    else
      var collapsed := ReplaceRuns(ext.nfkc(text.value), IsSpace, ' ');
      ReplaceRunsKeepsOthers(ext.nfkc(text.value), IsSpace, ' ', IsSpace);
      StripKeepsOthers(collapsed, IsSpace, IsSpace);
      WordsReplaceRuns(ext.nfkc(text.value));
      WordsStrip(collapsed);
      StripCollapsedIsClean(collapsed);
      Strip(collapsed)
  }

  /** The cleaned text is the words of the normalised text joined by single spaces. */
  lemma {:induction false} CleanTextJoinsWords(ext: Externals, text: string)
    requires text != ""
    ensures CleanText(ext, Some(text)) == Join(Words(ext.nfkc(text)), " ")
  {
    CleanIsJoinedWords(CleanText(ext, Some(text)));
  }

  /** The cleaned text of an element. */
  function TextOf(ext: Externals, e: Element): string {
    CleanText(ext, Some(e.text))
  }

  /** Cleaning is idempotent when normalisation leaves clean text unchanged. */
  lemma {:induction false} CleanTextIdempotent(ext: Externals, t: string)
    requires IsClean(t) && ext.nfkc(t) == t
    ensures CleanText(ext, Some(CleanText(ext, Some(t)))) == CleanText(ext, Some(t))
  {
    CleanCollapseIsIdentity(t);
    assert CleanText(ext, Some(t)) == t;
  }

  /** On clean text, collapsing and stripping change nothing. */
  lemma {:induction false} CleanCollapseIsIdentity(t: string)
    requires IsClean(t)
    ensures Strip(ReplaceRuns(t, IsSpace, ' ')) == t
  {
    ReplaceRunsOfSingles(t);
    if |t| > 0 {
      assert LeadingCount(t, IsSpace) == 0;
      assert TrailingCount(t, IsSpace) == 0;
    }
  }

  /** Where no two whitespace characters are adjacent and all are spaces, collapsing is the identity. */
  lemma {:induction false} ReplaceRunsOfSingles(t: string)
    requires forall i :: 0 <= i < |t| && IsSpace(t[i]) ==> t[i] == ' '
    requires forall i :: 0 <= i < |t| - 1 ==> !(t[i] == ' ' && t[i + 1] == ' ')
    ensures ReplaceRuns(t, IsSpace, ' ') == t
    decreases |t|
  {
    if t == [] {
    } else {
      if IsSpace(t[0]) {
        assert LeadingCount(t, IsSpace) == 1 by {
          assert |t| == 1 || !IsSpace(t[1]);
        }
      }
      ReplaceRunsOfSingles(t[1..]);
    }
  }

  // ---------------------------------------------------------------------------
  // URLs
  // ---------------------------------------------------------------------------

  /** Relative links are resolved against the site root; "" stays "", absolute links are kept. */
  function MakeAbsoluteUrl(ext: Externals, href: string): (r: string)
    ensures href == "" ==> r == ""
    ensures StartsWith(href, "http") ==> r == href
    ensures href != "" && !StartsWith(href, "http") ==> r == ext.urljoin(BaseUrl + "/", href)
  {
    if href == "" then ""
    else if StartsWith(href, "http") then href
    else ext.urljoin(BaseUrl + "/", href)
  }

  // ---------------------------------------------------------------------------
  // Image manifest
  // ---------------------------------------------------------------------------

  datatype ImageRef = ImageRef(url: string, filename: string, alt: string)

  const ImageSuffixes: seq<string> := [".jpg", ".jpeg", ".png", ".gif", ".webp"]

  /** An img is collected when its src goes through the wiki's media fetcher or ends in an image suffix. */
  predicate IsPageImage(src: string) {
    Contains(src, "/lib/exe/fetch.php") || EndsWithAny(src, ImageSuffixes)
  }

  /** The media name of an image URL: the "media=" parameter when present, else the last path segment
      without its query, percent-decoded. */
  function MediaName(ext: Externals, url: string): (name: string)
    ensures Contains(url, "media=") ==> exists tail ::
      name == ext.unquote(tail) && EndsWith(url, "media=" + tail) && !Contains(tail, "media=")
    ensures !Contains(url, "media=") ==> exists seg ::
      name == ext.unquote(BeforeFirst(seg, "?")) && EndsWith(url, seg) && !Contains(seg, "/")
      && (Contains(url, "/") ==> EndsWith(url, "/" + seg))
    ensures !Contains(url, "media=") && !Contains(url, "/") ==> name == ext.unquote(BeforeFirst(url, "?"))
  {
    if Contains(url, "media=") then
      AfterLastIsTail(url, "media=");
      ext.unquote(AfterLast(url, "media="))
    else
      AfterLastIsTail(url, "/");
      ext.unquote(BeforeFirst(AfterLast(url, "/"), "?"))
  }

  /** The manifest entry for one collected img: its absolute URL, media name and alt text. */
  function ImageRefOf(ext: Externals, img: Element): (r: ImageRef)
    ensures StartsWith(img.src, "http") ==> r.url == img.src
    ensures !StartsWith(img.src, "http") ==> r.url == ext.urljoin(BaseUrl, img.src)
    ensures r.filename == MediaName(ext, r.url) && r.alt == img.alt
  {
    var url := if StartsWith(img.src, "http") then img.src else ext.urljoin(BaseUrl, img.src);
    ImageRef(url, MediaName(ext, url), img.alt)
  }

  /** The manifest entries one element contributes. */
  function ImagesOf(ext: Externals, e: Element): seq<ImageRef> {
    if e.tag == Img && IsPageImage(e.src) then [ImageRefOf(ext, e)] else []
  }

  /** Specification of the image collection: the entries of the collected imgs, in document order. */
  function PageImages(ext: Externals, soup: seq<Element>): seq<ImageRef>
    decreases |soup|
  {
    if soup == [] then [] else PageImages(ext, soup[..|soup| - 1]) + ImagesOf(ext, soup[|soup| - 1])
  }

  /** The images of a page are the images of its parts, part after part. */
  lemma {:induction false} PageImagesConcat(ext: Externals, a: seq<Element>, b: seq<Element>)
    ensures PageImages(ext, a + b) == PageImages(ext, a) + PageImages(ext, b)
    decreases |b|
  {
    if b == [] {
      assert a + b == a;
    } else {
      assert (a + b)[..|a + b| - 1] == a + b[..|b| - 1];
      PageImagesConcat(ext, a, b[..|b| - 1]);
    }
  }

  /** Every collected img of the page gives a manifest entry. */
  lemma {:induction false} PageImagesComplete(ext: Externals, soup: seq<Element>, j: nat)
    requires j < |soup| && soup[j].tag == Img && IsPageImage(soup[j].src)
    ensures ImageRefOf(ext, soup[j]) in PageImages(ext, soup)
  {
    assert soup == soup[..j] + [soup[j]] + soup[j + 1..];
    PageImagesConcat(ext, soup[..j] + [soup[j]], soup[j + 1..]);
    PageImagesConcat(ext, soup[..j], [soup[j]]);
    assert PageImages(ext, [soup[j]]) == [ImageRefOf(ext, soup[j])] by {
      assert [soup[j]][..0] == [];
    }
  }

  /** Every manifest entry comes from a collected img of the page. */
  lemma {:induction false} PageImagesSound(ext: Externals, soup: seq<Element>, r: ImageRef)
    requires r in PageImages(ext, soup)
    ensures exists j :: 0 <= j < |soup| && soup[j].tag == Img && IsPageImage(soup[j].src) && r == ImageRefOf(ext, soup[j])
    decreases |soup|
  {
    var init := soup[..|soup| - 1];
    if r in PageImages(ext, init) {
      PageImagesSound(ext, init, r);
      var j :| 0 <= j < |init| && init[j].tag == Img && IsPageImage(init[j].src) && r == ImageRefOf(ext, init[j]);
      assert soup[j] == init[j];
    } else {
      assert r == ImageRefOf(ext, soup[|soup| - 1]);
    }
  }

  /** extract_image_urls: scans every img of the page in document order. */
  method ExtractImageUrls(ext: Externals, soup: seq<Element>) returns (images: seq<ImageRef>)
    ensures images == PageImages(ext, soup)
  {
    images := [];
    for i := 0 to |soup|
      invariant images == PageImages(ext, soup[..i])
    {
      assert soup[..i + 1][..i] == soup[..i];
      var img := soup[i];
      if img.tag == Img {
        var src := img.src;
        if Contains(src, "/lib/exe/fetch.php") || EndsWithAny(src, ImageSuffixes) {
          if !StartsWith(src, "http") {
            src := ext.urljoin(BaseUrl, src);
          }
          var filename := "";
          if Contains(src, "media=") {
            filename := ext.unquote(AfterLast(src, "media="));
          } else {
            filename := ext.unquote(BeforeFirst(AfterLast(src, "/"), "?"));
          }
          images := images + [ImageRef(src, filename, img.alt)];
        }
      }
    }
    assert soup[..|soup|] == soup;
  }

  // ---------------------------------------------------------------------------
  // De-duplication of the manifest
  // ---------------------------------------------------------------------------

  function Urls(s: seq<ImageRef>): set<string> {
    set i | 0 <= i < |s| :: s[i].url
  }

  /** Specification of the de-duplication: each entry whose URL has not been seen before, in order. */
  function FirstOccurrences(s: seq<ImageRef>): seq<ImageRef>
    decreases |s|
  {
    if s == [] then []
    else
      var kept := FirstOccurrences(s[..|s| - 1]);
      if s[|s| - 1].url in Urls(kept) then kept else kept + [s[|s| - 1]]
  }

  /** The de-duplication loop of the scraper's main routine. */
  method DedupImages(all: seq<ImageRef>) returns (unique: seq<ImageRef>)
    ensures unique == FirstOccurrences(all)
  {
    var seen: set<string> := {};
    unique := [];
    for i := 0 to |all|
      invariant unique == FirstOccurrences(all[..i])
      invariant seen == Urls(unique)
    {
      assert all[..i + 1][..i] == all[..i];
      var img := all[i];
      if img.url !in seen {
        UrlsAppend(unique, img);
        seen := seen + {img.url};
        unique := unique + [img];
      }
    }
    assert all[..|all|] == all;
  }

  /** The first index of `s` holding each URL. */
  predicate IsFirstOccurrence(s: seq<ImageRef>, j: int) {
    0 <= j < |s| && forall i :: 0 <= i < j ==> s[i].url != s[j].url
  }

  /** A URL that no entry carries is not among the URLs. */
  lemma UrlAbsent(s: seq<ImageRef>, url: string)
    requires forall i :: 0 <= i < |s| ==> s[i].url != url
    ensures url !in Urls(s)
  { }

  /** Adding one entry adds its URL and nothing else. */
  lemma {:induction false} UrlsAppend(s: seq<ImageRef>, x: ImageRef)
    ensures Urls(s + [x]) == Urls(s) + {x.url}
  {
    assert forall k :: 0 <= k < |s| ==> (s + [x])[k] == s[k];
    assert (s + [x])[|s|] == x;
  }

  /** After de-duplication no URL appears twice. */
  lemma {:induction false} DedupDistinct(s: seq<ImageRef>)
    ensures forall i, j :: 0 <= i < j < |FirstOccurrences(s)| ==> FirstOccurrences(s)[i].url != FirstOccurrences(s)[j].url
    decreases |s|
  {
    if s != [] {
      var init := s[..|s| - 1];
      var kept := FirstOccurrences(init);
      DedupDistinct(init);
      var x := s[|s| - 1];
      if x.url !in Urls(kept) {
        var r := kept + [x];
        forall i, j | 0 <= i < j < |r| ensures r[i].url != r[j].url {
          if j == |kept| {
            assert r[i].url in Urls(kept) by { assert r[i] == kept[i]; }
          } else {
            assert r[i] == kept[i] && r[j] == kept[j];
          }
        }
      }
    }
  }

  /** De-duplication keeps exactly the URLs of the input: none is lost, none is invented. */
  lemma {:induction false} DedupSameUrls(s: seq<ImageRef>)
    ensures Urls(FirstOccurrences(s)) == Urls(s)
    decreases |s|
  {
    if s != [] {
      var init := s[..|s| - 1];
      var x := s[|s| - 1];
      DedupSameUrls(init);
      assert s == init + [x];
      UrlsAppend(init, x);
      UrlsAppend(FirstOccurrences(init), x);
    }
  }

  /** The first input entry for each URL is kept. */
  lemma {:induction false} DedupKeepsFirst(s: seq<ImageRef>)
    ensures forall j :: IsFirstOccurrence(s, j) ==> s[j] in FirstOccurrences(s)
    decreases |s|
  {
    if s != [] {
      var init := s[..|s| - 1];
      DedupKeepsFirst(init);
      DedupGrows(s);
      forall j | IsFirstOccurrence(s, j)
        ensures s[j] in FirstOccurrences(s)
      {
        if j < |s| - 1 {
          FirstOccurrenceOfPrefix(s, j);
        } else {
          LastFirstOccurrenceKept(s);
        }
      }
    }
  }

  /** De-duplicating one more entry keeps everything kept before. */
  lemma DedupGrows(s: seq<ImageRef>)
    requires s != []
    ensures forall e :: e in FirstOccurrences(s[..|s| - 1]) ==> e in FirstOccurrences(s)
  { }

  /** A first occurrence before the last entry is a first occurrence of the prefix without it. */
  lemma FirstOccurrenceOfPrefix(s: seq<ImageRef>, j: nat)
    requires IsFirstOccurrence(s, j) && j < |s| - 1
    ensures IsFirstOccurrence(s[..|s| - 1], j) && s[..|s| - 1][j] == s[j]
  { }

  /** A last entry whose URL is new is kept. */
  lemma {:induction false} LastFirstOccurrenceKept(s: seq<ImageRef>)
    requires s != [] && IsFirstOccurrence(s, |s| - 1)
    ensures s[|s| - 1] in FirstOccurrences(s)
  {
    var init, x := s[..|s| - 1], s[|s| - 1];
    forall i | 0 <= i < |init| ensures init[i].url != x.url {
      assert s[i] == init[i];
    }
    UrlAbsent(init, x.url);
    DedupSameUrls(init);
    assert FirstOccurrences(s) == FirstOccurrences(init) + [x];
  }

  /** De-duplication only removes entries; the survivors keep their input order. */
  lemma {:induction false} DedupIsSubsequence(s: seq<ImageRef>)
    ensures IsSubsequence(FirstOccurrences(s), s)
    decreases |s|
  {
    if s != [] {
      var init := s[..|s| - 1];
      DedupIsSubsequence(init);
      SubsequenceExtend(FirstOccurrences(init), init, s[|s| - 1]);
      assert s == init + [s[|s| - 1]];
    }
  }

  /** `u` is a subsequence of `s`: `s` with some entries removed. */
  predicate IsSubsequence<T(==)>(u: seq<T>, s: seq<T>)
    decreases |s|
  {
    if u == [] then true
    else if s == [] then false
    else (u[|u| - 1] == s[|s| - 1] && IsSubsequence(u[..|u| - 1], s[..|s| - 1])) || IsSubsequence(u, s[..|s| - 1])
  }

  /** A subsequence stays one after the same entry is appended to both, or to the larger sequence only. */
  lemma {:induction false} SubsequenceExtend<T>(u: seq<T>, s: seq<T>, x: T)
    requires IsSubsequence(u, s)
    ensures IsSubsequence(u + [x], s + [x])
    ensures IsSubsequence(u, s + [x])
  {
    assert (u + [x])[..|u|] == u;
    assert (s + [x])[..|s|] == s;
  }
}
