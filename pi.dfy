/** The principal investigator's profile. The identity fields are fixed; the page contributes the
    photo (the first image whose address names the investigator), a biography from the long
    paragraphs, and the list items under the education, positions, awards and societies headers. */
module Pi {
  import opened Text
  import opened Html
  import opened Scraper
  import opened Patterns

  datatype Section = Education | Positions | Awards | Societies

  datatype PiInfo = PiInfo(
    nameZh: string,
    nameEn: string,
    title: string,
    department: string,
    institution: string,
    email: string,
    email2: string,
    phone: string,
    fax: string,
    address: string,
    photo: Option<string>,
    bio: string,
    education: seq<string>,
    positions: seq<string>,
    awards: seq<string>,
    societies: seq<string>)

  /** The profile before the page is read: the fixed identity, no photo, no biography, empty lists. */
  const DefaultPi: PiInfo := PiInfo(
    "阮雪芬", "Hsueh-Fen Juan", "Distinguished Professor", "Department of Life Science",
    "National Taiwan University", "yukijuan@ntu.edu.tw", "yukijuan@gmail.com",
    "+886-2-3366-4536", "+886-2-2367-3374",
    "Rm. 1105, Life Science Building, National Taiwan University, No. 1 Sec. 4 Roosevelt Road, Taipei 106, Taiwan",
    None, "", [], [], [], [])

  /** The fields the page never changes. */
  predicate SameIdentity(a: PiInfo, b: PiInfo) {
    a.nameZh == b.nameZh && a.nameEn == b.nameEn && a.title == b.title && a.department == b.department
    && a.institution == b.institution && a.email == b.email && a.email2 == b.email2
    && a.phone == b.phone && a.fax == b.fax && a.address == b.address
  }

  // ---------------------------------------------------------------------------
  // Photo
  // ---------------------------------------------------------------------------

  /** An image whose lower-cased address mentions "juan" or "pi". */
  predicate IsPiPhoto(e: Element) {
    e.tag == Img && (Contains(Lower(e.src), "juan") || Contains(Lower(e.src), "pi"))
  }

  /** The first such image's address, made absolute. */
  function FirstPhoto(ext: Externals, doc: seq<Element>): (r: Option<string>)
    ensures r.None? <==> forall j :: 0 <= j < |doc| ==> !IsPiPhoto(doc[j])
    ensures r.Some? ==> exists j :: 0 <= j < |doc| && IsPiPhoto(doc[j]) && r.value == MakeAbsoluteUrl(ext, doc[j].src)
                          && forall i :: 0 <= i < j ==> !IsPiPhoto(doc[i])
    decreases |doc|
  {
    if doc == [] then None
    else if IsPiPhoto(doc[0]) then Some(MakeAbsoluteUrl(ext, doc[0].src))
    else
      assert forall j :: 0 < j < |doc| ==> doc[j] == doc[1..][j - 1];
      FirstPhoto(ext, doc[1..])
  }

  /** The loop over the images that stops at the first match. */
  method FindPhoto(ext: Externals, doc: seq<Element>) returns (photo: Option<string>)
    ensures photo == FirstPhoto(ext, doc)
  {
    photo := None;
    var k := 0;
    while k < |doc|
      invariant 0 <= k <= |doc|
      invariant FirstPhoto(ext, doc) == FirstPhoto(ext, doc[k..])
      decreases |doc| - k
    {
      var img := doc[k];
      if img.tag == Img {
        var src := Lower(img.src);
        if Contains(src, "juan") || Contains(src, "pi") {
          photo := Some(MakeAbsoluteUrl(ext, img.src));
          return;
        }
      }
      assert doc[k..][1..] == doc[k + 1..];
      k := k + 1;
    }
  }

  // ---------------------------------------------------------------------------
  // Biography
  // ---------------------------------------------------------------------------

  /** A paragraph that counts for the biography: more than 100 characters once cleaned. */
  function BioParagraph(ext: Externals, e: Element): (r: Option<string>)
    ensures r.Some? ==> e.tag == P && |r.value| > 100 && NoNewline(r.value)
    ensures e.tag == P && |TextOf(ext, e)| > 100 ==> r == Some(TextOf(ext, e))
  {
    var text := TextOf(ext, e);
    if e.tag == P && |text| > 100 then
      CleanHasNoNewline(text);
      Some(text)
    else None
  }

  function BioParagraphs(ext: Externals, doc: seq<Element>): seq<string> {
    FilterMap(e => BioParagraph(ext, e), doc)
  }

  /** The biography: the first three qualifying paragraphs, or fewer, joined by blank lines. */
  function Bio(paragraphs: seq<string>): string {
    if paragraphs == [] then "" else Join(if |paragraphs| > 3 then paragraphs[..3] else paragraphs, "\n\n")
  }

  /** Splitting the biography at its blank lines gives back the first three qualifying paragraphs,
      and it is empty exactly when no paragraph qualifies. */
  lemma {:induction false} BioParts(ext: Externals, doc: seq<Element>)
    ensures var ps := BioParagraphs(ext, doc);
      ps != [] ==> Split(Bio(ps), "\n\n") == (if |ps| > 3 then ps[..3] else ps)
    ensures var ps := BioParagraphs(ext, doc); Bio(ps) == "" <==> ps == []
  {
    var ps := BioParagraphs(ext, doc);
    if ps != [] {
      var used := if |ps| > 3 then ps[..3] else ps;
      forall k | 0 <= k < |used| ensures '\n' !in used[k] && |used[k]| > 100 {
        assert used[k] == ps[k];
        FilterMapSound(e => BioParagraph(ext, e), doc, ps[k]);
        var j :| 0 <= j < |doc| && BioParagraph(ext, doc[j]) == Some(ps[k]);
      }
      JoinSplit(used, "\n\n");
      assert Split("", "\n\n") == [""];
    }
  }

  /** The loop that gathers the qualifying paragraphs. */
  method CollectParagraphs(ext: Externals, doc: seq<Element>) returns (paragraphs: seq<string>)
    ensures paragraphs == BioParagraphs(ext, doc)
  {
    paragraphs := [];
    for i := 0 to |doc|
      invariant paragraphs == BioParagraphs(ext, doc[..i])
    {
      assert doc[..i + 1][..i] == doc[..i];
      var p := doc[i];
      if p.tag == P {
        var text := TextOf(ext, p);
        if |text| > 100 {
          paragraphs := paragraphs + [text];
        }
      }
    }
    assert doc[..|doc|] == doc;
  }

  // ---------------------------------------------------------------------------
  // Sections
  // ---------------------------------------------------------------------------

  /** The section keywords in the order they are tried; the first one found decides. */
  const SectionKeywords: seq<(string, Section)> := [
    ("education", Education), ("學歷", Education), ("position", Positions), ("經歷", Positions),
    ("award", Awards), ("榮譽", Awards), ("honor", Awards), ("society", Societies), ("學會", Societies)]

  /** The section an h2–h4 header chooses: the one of the first keyword in its lower-cased text. */
  function HeaderSection(ext: Externals, e: Element): (r: Option<Section>)
    ensures r.Some? ==> IsH2To4(e.tag)
  {
    if IsH2To4(e.tag) then FirstMatch(SectionKeywords, Lower(TextOf(ext, e))) else None
  }

  /** The section after an element: a header with a keyword replaces it, any other element keeps it. */
  function SectionStep(ext: Externals, current: Option<Section>, e: Element): (r: Option<Section>)
    ensures HeaderSection(ext, e).None? ==> r == current
    ensures current.Some? ==> r.Some?
  {
    if HeaderSection(ext, e).Some? then HeaderSection(ext, e) else current
  }

  function SectionAfter(ext: Externals, doc: seq<Element>): Option<Section>
    decreases |doc|
  {
    if doc == [] then None else SectionStep(ext, SectionAfter(ext, doc[..|doc| - 1]), doc[|doc| - 1])
  }

  /** The section is the one chosen by the last header with a keyword, and none before the first. */
  lemma {:induction false} SectionIsLastHeader(ext: Externals, doc: seq<Element>)
    ensures var chosen := FilterMap(e => HeaderSection(ext, e), doc);
      SectionAfter(ext, doc) == if chosen == [] then None else Some(chosen[|chosen| - 1])
    decreases |doc|
  {
    if doc != [] {
      SectionIsLastHeader(ext, doc[..|doc| - 1]);
    }
  }

  /** The profile with one more item in a section's list. */
  function AddItem(pi: PiInfo, s: Section, text: string): (r: PiInfo)
    ensures SameIdentity(r, pi) && r.photo == pi.photo && r.bio == pi.bio
    ensures r.education == pi.education + (if s == Education then [text] else [])
    ensures r.positions == pi.positions + (if s == Positions then [text] else [])
    ensures r.awards == pi.awards + (if s == Awards then [text] else [])
    ensures r.societies == pi.societies + (if s == Societies then [text] else [])
  {
    match s
    case Education => pi.(education := pi.education + [text])
    case Positions => pi.(positions := pi.positions + [text])
    case Awards => pi.(awards := pi.awards + [text])
    case Societies => pi.(societies := pi.societies + [text])
  }

  /** The item an element adds, given the section before it: a non-empty list item under a section. */
  function ItemAt(ext: Externals, current: Option<Section>, e: Element): (r: Option<(Section, string)>)
    ensures r.Some? <==> e.tag == Li && current.Some? && TextOf(ext, e) != ""
    ensures r.Some? ==> r.value == (current.value, TextOf(ext, e))
  {
    if e.tag == Li && current.Some? && TextOf(ext, e) != "" then Some((current.value, TextOf(ext, e))) else None
  }

  /** The profile after the list items of `doc` are filed, starting from `base`. */
  function ItemsIn(ext: Externals, base: PiInfo, doc: seq<Element>): PiInfo
    decreases |doc|
  {
    if doc == [] then base
    else
      var init := doc[..|doc| - 1];
      var prev := ItemsIn(ext, base, init);
      match ItemAt(ext, SectionAfter(ext, init), doc[|doc| - 1])
      case None => prev
      case Some((s, text)) => AddItem(prev, s, text)
  }

  function ItemCount(pi: PiInfo): nat {
    |pi.education| + |pi.positions| + |pi.awards| + |pi.societies|
  }

  /** Filing items changes only the four lists, adds at most one item per list item of the page,
      and adds nothing before the first header with a keyword. */
  lemma {:induction false} ItemsInGrowth(ext: Externals, base: PiInfo, doc: seq<Element>)
    ensures var r := ItemsIn(ext, base, doc); SameIdentity(r, base) && r.photo == base.photo && r.bio == base.bio
    ensures ItemCount(ItemsIn(ext, base, doc)) <= ItemCount(base) + |FilterMap(ListItem, doc)|
    ensures SectionAfter(ext, doc).None? ==> ItemsIn(ext, base, doc) == base
    decreases |doc|
  {
    if doc != [] {
      ItemsInGrowth(ext, base, doc[..|doc| - 1]);
    }
  }

  function ListItem(e: Element): Option<Element> {
    if e.tag == Li then Some(e) else None
  }

  /** Every filed item is the non-empty cleaned text of a list item of the page. */
  lemma {:induction false} ItemsAreListTexts(ext: Externals, doc: seq<Element>, x: string)
    requires var r := ItemsIn(ext, DefaultPi, doc); x in r.education || x in r.positions || x in r.awards || x in r.societies
    ensures x != "" && exists j :: 0 <= j < |doc| && doc[j].tag == Li && TextOf(ext, doc[j]) == x
    decreases |doc|
  {
    var init := doc[..|doc| - 1];
    var prev := ItemsIn(ext, DefaultPi, init);
    if x in prev.education || x in prev.positions || x in prev.awards || x in prev.societies {
      ItemsAreListTexts(ext, init, x);
      var j :| 0 <= j < |init| && init[j].tag == Li && TextOf(ext, init[j]) == x;
      assert doc[j] == init[j];
    }
  }

  // ---------------------------------------------------------------------------
  // The extractor
  // ---------------------------------------------------------------------------

  /** Specification of the extractor: the fixed profile when the page has no content root. */
  function PiOf(ext: Externals, content: Option<seq<Element>>): (r: PiInfo)
    ensures SameIdentity(r, DefaultPi)
    ensures content.None? ==> r == DefaultPi
    ensures content.Some? ==> r.photo == FirstPhoto(ext, content.value)
    ensures content.Some? ==> r.bio == Bio(BioParagraphs(ext, content.value))
  {
    if content.None? then DefaultPi
    else
      var doc := content.value;
      var base := DefaultPi.(photo := FirstPhoto(ext, doc), bio := Bio(BioParagraphs(ext, doc)));
      ItemsInGrowth(ext, base, doc);
      ItemsIn(ext, base, doc)
  }

  /** One more element: how the section and the profile after a prefix of the page grow. */
  lemma {:induction false} ScanStep(ext: Externals, base: PiInfo, doc: seq<Element>, i: nat)
    requires i < |doc|
    ensures SectionAfter(ext, doc[..i + 1]) == SectionStep(ext, SectionAfter(ext, doc[..i]), doc[i])
    ensures var r, prev := ItemAt(ext, SectionAfter(ext, doc[..i]), doc[i]), ItemsIn(ext, base, doc[..i]);
      ItemsIn(ext, base, doc[..i + 1]) == if r.None? then prev else AddItem(prev, r.value.0, r.value.1)
  {
    assert doc[..i + 1][..i] == doc[..i];
  }

  /** The loop body: the section after an element, and the profile with its item filed. */
  method VisitElement(ext: Externals, current: Option<Section>, pi: PiInfo, element: Element)
    returns (next: Option<Section>, filed: PiInfo)
    ensures next == SectionStep(ext, current, element)
    ensures var r := ItemAt(ext, current, element); filed == if r.None? then pi else AddItem(pi, r.value.0, r.value.1)
  {
    next, filed := current, pi;
    var text := TextOf(ext, element);
    if IsH2To4(element.tag) {
      var found := FindFirst(SectionKeywords, Lower(text));
      if found.Some? {
        next := found;
      }
    }
    if element.tag == Li && current.Some? && text != "" {
      filed := AddItem(pi, current.value, text);
    }
  }

  /** The scan over the page's list items, filing each under the section its header chose. */
  method FileItems(ext: Externals, base: PiInfo, doc: seq<Element>) returns (pi: PiInfo)
    ensures pi == ItemsIn(ext, base, doc)
  {
    pi := base;
    var current: Option<Section> := None;
    for i := 0 to |doc|
      invariant current == SectionAfter(ext, doc[..i])
      invariant pi == ItemsIn(ext, base, doc[..i])
    {
      ScanStep(ext, base, doc, i);
      current, pi := VisitElement(ext, current, pi, doc[i]);
    }
    assert doc[..|doc|] == doc;
  }

  method ExtractPiInfo(ext: Externals, content: Option<seq<Element>>) returns (pi: PiInfo)
    ensures pi == PiOf(ext, content)
  {
    pi := DefaultPi;
    if content.None? {
      return;
    }
    var doc := content.value;
    var photo := FindPhoto(ext, doc);
    pi := pi.(photo := photo);
    var paragraphs := CollectParagraphs(ext, doc);
    if paragraphs != [] {
      pi := pi.(bio := Join(if |paragraphs| > 3 then paragraphs[..3] else paragraphs, "\n\n"));
    }
    pi := FileItems(ext, pi, doc);
  }
}
