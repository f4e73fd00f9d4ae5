/** The research highlight of the start page. The extractor keeps one open highlight record: it is
    opened by the first qualifying section header and is then only ever extended, by long
    paragraphs and by research images, until it is emitted at the end of the page. */
module Highlights {
  import opened Text
  import opened Html
  import opened Scraper

  datatype Highlight = Highlight(
    id: string,
    titleZh: string,
    titleEn: string,
    description: seq<string>,
    image: Option<string>,
    publications: seq<string>)

  const OpeningKeywords: seq<string> := ["ATP", "生醫大數據", "Ectopic", "Big Data"]

  predicate IsSlugChar(c: char) { 'a' <= c <= 'z' || '0' <= c <= '9' }

  predicate NotSlugChar(c: char) { !IsSlugChar(c) }

  predicate IsDash(c: char) { c == '-' }

  /** The id of a header: lower-cased, every run of characters other than a–z and 0–9 turned into
      one '-', and the dashes at either end removed. */
  function Slug(text: string): (id: string)
    ensures forall i :: 0 <= i < |id| ==> IsSlugChar(id[i]) || id[i] == '-'
    ensures |id| > 0 ==> id[0] != '-' && id[|id| - 1] != '-'
    ensures forall i :: 0 <= i < |id| - 1 ==> !(id[i] == '-' && id[i + 1] == '-')
    ensures Without(id, NotSlugChar) == Without(Lower(text), NotSlugChar)
  {
    var dashed := ReplaceRuns(Lower(text), NotSlugChar, '-');
    var id := StripWhere(dashed, IsDash);
    assert Without(id, NotSlugChar) == Without(Lower(text), NotSlugChar) by {
      ReplaceRunsKeepsOthers(Lower(text), NotSlugChar, '-', NotSlugChar);
      StripKeepsOthers(dashed, IsDash, NotSlugChar);
    }
    var a := LeadingCount(dashed, IsDash);
    assert forall i :: 0 <= i < |id| ==> id[i] == dashed[a + i];
    id
  }

  /** A non-empty run of characters the slug keeps. */
  predicate SlugWord(w: string) {
    |w| > 0 && forall i :: 0 <= i < |w| ==> IsSlugChar(w[i])
  }

  /** Words the slug keeps, separated by runs of other characters, come out separated by one '-'
      each. */
  lemma {:induction false} DashesBetweenWords(ws: seq<string>, sep: string)
    requires |ws| > 0 && |sep| > 0
    requires forall k :: 0 <= k < |ws| ==> SlugWord(ws[k])
    requires forall i :: 0 <= i < |sep| ==> NotSlugChar(sep[i])
    ensures ReplaceRuns(Join(ws, sep), NotSlugChar, '-') == Join(ws, "-")
    decreases |ws|
  {
    ReplaceRunsNone(ws[0], NotSlugChar, '-');
    if |ws| > 1 {
      var rest := Join(ws[1..], sep);
      assert rest[0] == ws[1][0];
      ReplaceRunsSplice(ws[0], sep, rest, NotSlugChar, '-');
      DashesBetweenWords(ws[1..], sep);
    }
  }

  /** Where the dashes go: a text made of words of a–z and 0–9 separated by a non-empty separator
      that has no letter or digit even once lower-cased has exactly those words joined by single
      dashes as its slug. */
  lemma {:induction false} SlugOfJoin(ws: seq<string>, sep: string)
    requires |ws| > 0 && |sep| > 0
    requires forall k :: 0 <= k < |ws| ==> SlugWord(ws[k])
    requires forall i :: 0 <= i < |sep| ==> NotSlugChar(LowerChar(sep[i]))
    ensures Slug(Join(ws, sep)) == Join(ws, "-")
  {
    LowerJoin(ws, sep);
    DashesBetweenWords(ws, Lower(sep));
    var s := Join(ws, "-");
    var last := ws[|ws| - 1];
    JoinEndsWithLast(ws, "-");
    assert s[|s| - |last|..][|last| - 1] == s[|s| - 1];
    StripNothing(s, IsDash);
  }

  /** A header that opens a highlight: an h1–h3 that is not the section's own title and names one of
      the highlight topics. */
  predicate Opens(ext: Externals, e: Element) {
    var text := CleanText(ext, Some(e.text));
    IsH1To3(e.tag) && !Contains(text, "Research Highlight") && ContainsAny(text, OpeningKeywords)
  }

  /** A fresh highlight for a header text: the text is the Chinese title when it has a CJK
      character and the English title otherwise. */
  function NewHighlight(text: string): (h: Highlight)
    ensures h.id == Slug(text) && h.description == [] && h.image.None? && h.publications == []
    ensures HasCjk(text) ==> h.titleZh == text && h.titleEn == ""
    ensures !HasCjk(text) ==> h.titleZh == "" && h.titleEn == text
  {
    Highlight(Slug(text), if HasCjk(text) then text else "", if HasCjk(text) then "" else text, [], None, [])
  }

  /** The paragraph an element adds to the open highlight's description: a p of more than 50
      characters once cleaned. */
  function LongParagraph(ext: Externals, e: Element): (r: Option<string>)
    ensures r.Some? ==> e.tag == P && |r.value| > 50
    ensures r.Some? <==> e.tag == P && |CleanText(ext, Some(e.text))| > 50
    ensures r.Some? ==> r.value == CleanText(ext, Some(e.text))
  {
    var text := CleanText(ext, Some(e.text));
    if e.tag == P && |text| > 50 then Some(text) else None
  }

  /** The image an element sets on the open highlight: an a wrapping an img whose lower-cased src
      mentions "highlight" or "research", made absolute. */
  function ResearchImage(ext: Externals, e: Element): (r: Option<string>)
    ensures r.Some? ==> e.tag == A && e.innerImg.Some? && r.value == MakeAbsoluteUrl(ext, e.innerImg.value)
    ensures r.Some? <==> (e.tag == A && e.innerImg.Some?
                          && (Contains(Lower(e.innerImg.value), "highlight") || Contains(Lower(e.innerImg.value), "research")))
  {
    if e.tag == A && e.innerImg.Some?
       && (Contains(Lower(e.innerImg.value), "highlight") || Contains(Lower(e.innerImg.value), "research"))
    then Some(MakeAbsoluteUrl(ext, e.innerImg.value))
    else None
  }

  /** How the open highlight changes at an element. */
  function Extend(ext: Externals, h: Highlight, e: Element): Highlight {
    var h1 := if ResearchImage(ext, e).Some? then h.(image := ResearchImage(ext, e)) else h;
    if LongParagraph(ext, e).Some? then h1.(description := h1.description + [LongParagraph(ext, e).value]) else h1
  }

  /** One step of the extractor: before a highlight is open only an opening header matters; once
      one is open, no header can replace it. */
  function Step(ext: Externals, current: Option<Highlight>, e: Element): Option<Highlight> {
    if current.None? then
      if Opens(ext, e) then Some(NewHighlight(CleanText(ext, Some(e.text)))) else None
    else
      Some(Extend(ext, current.value, e))
  }

  /** The open highlight after the steps for the elements of `s`, starting from `current`. */
  function Run(ext: Externals, current: Option<Highlight>, s: seq<Element>): Option<Highlight>
    decreases |s|
  {
    if s == [] then current else Step(ext, Run(ext, current, s[..|s| - 1]), s[|s| - 1])
  }

  /** The open highlight after the elements of `doc`, in order. */
  function Current(ext: Externals, doc: seq<Element>): Option<Highlight> {
    Run(ext, None, doc)
  }

  /** An open highlight after the elements of `s`, each applied in turn. */
  function ExtendAll(ext: Externals, h: Highlight, s: seq<Element>): Highlight
    decreases |s|
  {
    if s == [] then h else Extend(ext, ExtendAll(ext, h, s[..|s| - 1]), s[|s| - 1])
  }

  lemma {:induction false} RunConcat(ext: Externals, current: Option<Highlight>, a: seq<Element>, b: seq<Element>)
    ensures Run(ext, current, a + b) == Run(ext, Run(ext, current, a), b)
    decreases |b|
  {
    if b == [] {
      assert a + b == a;
    } else {
      assert (a + b)[..|a + b| - 1] == a + b[..|b| - 1];
      RunConcat(ext, current, a, b[..|b| - 1]);
    }
  }

  /** Once a highlight is open, the steps only extend it. */
  lemma {:induction false} RunFromOpen(ext: Externals, h: Highlight, s: seq<Element>)
    ensures Run(ext, Some(h), s) == Some(ExtendAll(ext, h, s))
    decreases |s|
  {
    if s != [] {
      RunFromOpen(ext, h, s[..|s| - 1]);
    }
  }

  /** Without an opening header nothing is ever opened. */
  lemma {:induction false} RunStaysClosed(ext: Externals, s: seq<Element>)
    requires forall i :: 0 <= i < |s| ==> !Opens(ext, s[i])
    ensures Run(ext, None, s) == None
    decreases |s|
  {
    if s != [] {
      RunStaysClosed(ext, s[..|s| - 1]);
    }
  }

  /** A highlight is returned exactly when some element opens one. */
  lemma {:induction false} HighlightIffOpening(ext: Externals, doc: seq<Element>)
    ensures Current(ext, doc).Some? <==> exists j :: 0 <= j < |doc| && Opens(ext, doc[j])
  {
    if exists j :: 0 <= j < |doc| && Opens(ext, doc[j]) {
      var j :| 0 <= j < |doc| && Opens(ext, doc[j]);
      var k := FirstOpening(ext, doc, j);
      OpenedAtFirst(ext, doc, k);
    } else {
      RunStaysClosed(ext, doc);
    }
  }

  /** The first opening header, at or before a given one. */
  lemma {:induction false} FirstOpening(ext: Externals, doc: seq<Element>, j: nat) returns (k: nat)
    requires j < |doc| && Opens(ext, doc[j])
    ensures k <= j && Opens(ext, doc[k]) && forall i :: 0 <= i < k ==> !Opens(ext, doc[i])
    decreases j
  {
    if exists i :: 0 <= i < j && Opens(ext, doc[i]) {
      var i :| 0 <= i < j && Opens(ext, doc[i]);
      k := FirstOpening(ext, doc, i);
    } else {
      k := j;
    }
  }

  /** The highlight is opened by the first opening header and then extended by everything after it;
      later opening headers do not replace it. */
  lemma {:induction false} OpenedAtFirst(ext: Externals, doc: seq<Element>, j: nat)
    requires j < |doc| && Opens(ext, doc[j]) && forall i :: 0 <= i < j ==> !Opens(ext, doc[i])
    ensures Current(ext, doc) ==
      Some(ExtendAll(ext, NewHighlight(CleanText(ext, Some(doc[j].text))), doc[j + 1..]))
  {
    var h := NewHighlight(CleanText(ext, Some(doc[j].text)));
    var pre, post := doc[..j + 1], doc[j + 1..];
    OpensAtFirst(ext, doc, j);
    SplitAt(doc, j + 1);
    RunConcat(ext, None, pre, post);
    RunFromOpen(ext, h, post);
  }

  /** The first opening header opens the highlight. */
  lemma {:induction false} OpensAtFirst(ext: Externals, doc: seq<Element>, j: nat)
    requires j < |doc| && Opens(ext, doc[j]) && forall i :: 0 <= i < j ==> !Opens(ext, doc[i])
    ensures Run(ext, None, doc[..j + 1]) == Some(NewHighlight(CleanText(ext, Some(doc[j].text))))
  {
    var pre, before := doc[..j + 1], doc[..j];
    forall i | 0 <= i < |before| ensures !Opens(ext, before[i]) {
      assert before[i] == doc[i];
    }
    RunStaysClosed(ext, before);
    assert pre[..|pre| - 1] == before && pre[|pre| - 1] == doc[j];
  }

  /** Extending keeps the id and the titles and never adds publications. */
  lemma {:induction false} ExtendAllKeepsTitles(ext: Externals, h: Highlight, s: seq<Element>)
    ensures var r := ExtendAll(ext, h, s);
      r.id == h.id && r.titleZh == h.titleZh && r.titleEn == h.titleEn && r.publications == h.publications
    decreases |s|
  {
    if s != [] {
      ExtendAllKeepsTitles(ext, h, s[..|s| - 1]);
    }
  }

  /** Extending adds the long paragraphs, in order, and nothing else to the description. */
  lemma {:induction false} ExtendAllDescription(ext: Externals, h: Highlight, s: seq<Element>)
    ensures ExtendAll(ext, h, s).description == h.description + FilterMap(e => LongParagraph(ext, e), s)
    decreases |s|
  {
    if s != [] {
      ExtendAllDescription(ext, h, s[..|s| - 1]);
    }
  }

  /** Extending sets the image to the last research image seen, if any. */
  lemma {:induction false} ExtendAllImage(ext: Externals, h: Highlight, s: seq<Element>)
    ensures var images := FilterMap(e => ResearchImage(ext, e), s);
      ExtendAll(ext, h, s).image == if images == [] then h.image else Some(images[|images| - 1])
    decreases |s|
  {
    if s != [] {
      ExtendAllImage(ext, h, s[..|s| - 1]);
    }
  }

  /** Specification of the extractor: the open highlight, if any, emitted at the end. */
  function HighlightsOf(ext: Externals, content: Option<seq<Element>>): (r: seq<Highlight>)
    ensures |r| <= 1
  {
    if content.None? then []
    else match Current(ext, content.value)
      case None => []
      case Some(h) => [h]
  }

  /** The loop body: the open highlight after one more element. */
  method VisitElement(ext: Externals, current: Option<Highlight>, element: Element) returns (next: Option<Highlight>)
    ensures next == Step(ext, current, element)
  {
    next := current;
    var text := CleanText(ext, Some(element.text));
    if IsH1To3(element.tag) && !Contains(text, "Research Highlight") {
      if next.None? && ContainsAny(text, OpeningKeywords) {
        next := Some(NewHighlight(text));
      }
    }
    if next.Some? {
      var image := ResearchImage(ext, element);
      if image.Some? {
        next := Some(next.value.(image := image));
      }
      var para := LongParagraph(ext, element);
      if para.Some? {
        next := Some(next.value.(description := next.value.description + [para.value]));
      }
    }
  }

  method ExtractResearchHighlights(ext: Externals, content: Option<seq<Element>>) returns (highlights: seq<Highlight>)
    ensures highlights == HighlightsOf(ext, content)
  {
    highlights := [];
    if content.None? {
      return;
    }
    var doc := content.value;
    var current: Option<Highlight> := None;
    for i := 0 to |doc|
      invariant current == Run(ext, None, doc[..i])
    {
      assert doc[..i + 1][..i] == doc[..i];
      current := VisitElement(ext, current, doc[i]);
    }
    assert doc[..|doc|] == doc;
    if current.Some? {
      highlights := highlights + [current.value];
    }
  }
}
