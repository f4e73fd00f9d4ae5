/** The research projects of the start page. A section flag is switched on by a "Research Project"
    header and off by the next top-level header; inside the section every element whose text is a
    numbered title becomes a project, its title split into a Chinese and an English part. */
module Projects {
  import opened Text
  import opened Html
  import opened Scraper
  import opened Patterns

  datatype Project = Project(id: string, number: nat, titleZh: string, titleEn: string, description: string)

  /** The elements the extractor visits. */
  predicate Visited(t: Tag) { t == H1 || t == H2 || t == H3 || t == P || t == Li }

  /** A header that opens the projects section (it is not itself a project). */
  predicate StartsSection(ext: Externals, e: Element) {
    var text := CleanText(ext, Some(e.text));
    IsH1To3(e.tag) && (Contains(text, "Research Project") || Contains(text, "研究計畫"))
  }

  /** A top-level header that closes the section; an h3 never does. */
  predicate EndsSection(ext: Externals, e: Element) {
    (e.tag == H1 || e.tag == H2) && !StartsSection(ext, e)
  }

  /** What an element does to the section flag. */
  datatype Mark = Opener | Closer | Neutral

  function MarkOf(ext: Externals, e: Element): (m: Mark)
    ensures m == Opener <==> StartsSection(ext, e)
    ensures m == Closer <==> EndsSection(ext, e)
  {
    if StartsSection(ext, e) then Opener
    else if e.tag == H1 || e.tag == H2 then Closer
    else Neutral
  }

  /** The section flag after an element: an opener sets it, a closer clears it, anything else
      leaves it. */
  function NextFlag(inSection: bool, m: Mark): bool {
    match m
    case Opener => true
    case Closer => false
    case Neutral => inSection
  }

  /** The section flag after a run of marks, starting closed. */
  function FlagOf(marks: seq<Mark>): bool
    decreases |marks|
  {
    if marks == [] then false else NextFlag(FlagOf(marks[..|marks| - 1]), marks[|marks| - 1])
  }

  /** The section is open exactly when an opener has been seen and no closer has come after the
      last one. */
  lemma {:induction false} FlagOfIff(marks: seq<Mark>)
    ensures FlagOf(marks) <==>
      exists j :: 0 <= j < |marks| && marks[j] == Opener && forall k :: j < k < |marks| ==> marks[k] != Closer
    decreases |marks|
  {
    if marks != [] {
      var init, m := marks[..|marks| - 1], marks[|marks| - 1];
      FlagOfIff(init);
      if FlagOf(marks) {
        if m != Opener {
          var j :| 0 <= j < |init| && init[j] == Opener && forall k :: j < k < |init| ==> init[k] != Closer;
          assert marks[j] == init[j];
          forall k | j < k < |marks| ensures marks[k] != Closer {
            if k < |init| { assert marks[k] == init[k]; }
          }
        }
      } else {
        forall j | 0 <= j < |marks| && marks[j] == Opener
          ensures exists k :: j < k < |marks| && marks[k] == Closer
        {
          if j < |init| {
            assert init[j] == marks[j];
            if m != Closer {
              var k :| j < k < |init| && init[k] == Closer;
              assert marks[k] == init[k];
            }
          }
        }
      }
    }
  }

  /** The marks of the elements of `doc`, in order. */
  function Marks(ext: Externals, doc: seq<Element>): (r: seq<Mark>)
    ensures |r| == |doc| && forall j :: 0 <= j < |doc| ==> r[j] == MarkOf(ext, doc[j])
  {
    seq(|doc|, j requires 0 <= j < |doc| => MarkOf(ext, doc[j]))
  }

  // ---------------------------------------------------------------------------
  // Titles
  // ---------------------------------------------------------------------------

  /** A line of a multi-line element that names the project: non-empty once cleaned and not
      starting with a digit. */
  function TitlePart(ext: Externals, part: string): (r: Option<string>)
    ensures r.Some? ==> |r.value| > 0 && !IsDigit(r.value[0]) && r.value == CleanText(ext, Some(part))
  {
    var c := CleanText(ext, Some(part));
    if c != "" && !IsDigit(c[0]) then Some(c) else None
  }

  function ZhPart(ext: Externals, part: string): Option<string> {
    if TitlePart(ext, part).Some? && HasCjk(TitlePart(ext, part).value) then TitlePart(ext, part) else None
  }

  function EnPart(ext: Externals, part: string): Option<string> {
    if TitlePart(ext, part).Some? && !HasCjk(TitlePart(ext, part).value) then TitlePart(ext, part) else None
  }

  /** The titles a sequence of lines gives, line by line: a line with a CJK character replaces the
      Chinese title, any other title line the English one. */
  function SplitTitles(ext: Externals, parts: seq<string>): (r: (string, string))
    decreases |parts|
  {
    if parts == [] then ("", "")
    else
      var (zh, en) := SplitTitles(ext, parts[..|parts| - 1]);
      match TitlePart(ext, parts[|parts| - 1])
      case None => (zh, en)
      case Some(c) => if HasCjk(c) then (c, en) else (zh, c)
  }

  function LastOr(s: seq<string>, default: string): string {
    if s == [] then default else s[|s| - 1]
  }

  /** The last value a filter-map yields comes from the last element if that yields one. */
  lemma LastOfFilterMap(f: string -> Option<string>, s: seq<string>)
    requires s != []
    ensures LastOr(FilterMap(f, s), "") ==
      if f(s[|s| - 1]).Some? then f(s[|s| - 1]).value else LastOr(FilterMap(f, s[..|s| - 1]), "")
  { }

  /** The last line wins: the Chinese title is the last title line with a CJK character, the English
      title the last one without, and "" when there is none. */
  lemma {:induction false} SplitTitlesLastWins(ext: Externals, parts: seq<string>)
    ensures SplitTitles(ext, parts).0 == LastOr(FilterMap(p => ZhPart(ext, p), parts), "")
    ensures SplitTitles(ext, parts).1 == LastOr(FilterMap(p => EnPart(ext, p), parts), "")
    decreases |parts|
  {
    if parts != [] {
      var init, last := parts[..|parts| - 1], parts[|parts| - 1];
      SplitTitlesLastWins(ext, init);
      LastOfFilterMap(p => ZhPart(ext, p), parts);
      LastOfFilterMap(p => EnPart(ext, p), parts);
    }
  }

  /** Chinese and English titles of an element whose text is the numbered title `title`. */
  function Titles(ext: Externals, e: Element, title: string): (r: (string, string))
    ensures !('\n' in e.text) && HasCjk(title) ==> r == (title, "")
    ensures !('\n' in e.text) && !HasCjk(title) ==> r == ("", title)
  {
    if '\n' in e.text then SplitTitles(ext, Split(Strip(e.text), "\n"))
    else if HasCjk(title) then (title, "") else ("", title)
  }

  /** The project record of an element inside the section, if its text is a numbered title. */
  function ProjectOf(ext: Externals, e: Element): (r: Option<Project>)
    ensures r.Some? <==> ProjectLine(CleanText(ext, Some(e.text))).Some?
  {
    var text := CleanText(ext, Some(e.text));
    match ProjectLine(text)
    case None => None
    case Some(f) =>
      ProjectLineParts(text);
      var (zh, en) := Titles(ext, e, f.title);
      Some(Project("project-" + f.number, DigitsValue(f.number), zh, en, ""))
  }

  /** A record's id is "project-" and the digits as written, leading zeros kept; its number is their
      value; its description is empty. */
  lemma {:induction false} ProjectOfFields(ext: Externals, e: Element)
    requires ProjectOf(ext, e).Some?
    ensures var f, p := ProjectLine(CleanText(ext, Some(e.text))).value, ProjectOf(ext, e).value;
      AllDigits(f.number) && p.id == "project-" + f.number && p.number == DigitsValue(f.number)
    ensures var f, p := ProjectLine(CleanText(ext, Some(e.text))).value, ProjectOf(ext, e).value;
      p.description == "" && (p.titleZh, p.titleEn) == Titles(ext, e, f.title)
  {
    ProjectLineParts(CleanText(ext, Some(e.text)));
  }

  // ---------------------------------------------------------------------------
  // The scan
  // ---------------------------------------------------------------------------

  /** The record an element contributes, given the flag before it: visited, not a section header,
      inside the section after it, and a numbered title. */
  function RecordAt(ext: Externals, inSection: bool, e: Element): (r: Option<Project>)
    ensures r.Some? ==> Visited(e.tag) && MarkOf(ext, e) == Neutral && inSection
    ensures Visited(e.tag) && MarkOf(ext, e) == Neutral && inSection ==> r == ProjectOf(ext, e)
  {
    if Visited(e.tag) && MarkOf(ext, e) == Neutral && inSection then ProjectOf(ext, e) else None
  }

  /** The section flag after the elements of `doc`. */
  function FlagAfter(ext: Externals, doc: seq<Element>): bool {
    FlagOf(Marks(ext, doc))
  }

  /** The records of the elements of `doc`, in order. */
  function ProjectsIn(ext: Externals, doc: seq<Element>): seq<Project>
    decreases |doc|
  {
    if doc == [] then []
    else
      var init, e := doc[..|doc| - 1], doc[|doc| - 1];
      var r := RecordAt(ext, FlagAfter(ext, init), e);
      ProjectsIn(ext, init) + (if r.Some? then [r.value] else [])
  }

  /** Specification of the extractor. */
  function ProjectsOf(ext: Externals, content: Option<seq<Element>>): seq<Project> {
    if content.None? then [] else ProjectsIn(ext, content.value)
  }

  /** The section is open after `doc` exactly when a section header has been seen and no top-level
      header without the keywords has come after the last one; an h3 never closes it. */
  lemma {:induction false} FlagAfterIff(ext: Externals, doc: seq<Element>)
    ensures FlagAfter(ext, doc) <==>
      exists j :: 0 <= j < |doc| && MarkOf(ext, doc[j]) == Opener
        && forall k :: j < k < |doc| ==> MarkOf(ext, doc[k]) != Closer
  {
    FlagOfIff(Marks(ext, doc));
  }

  /** The loop over the lines of a multi-line project title. */
  method TitlesFromLines(ext: Externals, parts: seq<string>) returns (zh: string, en: string)
    ensures (zh, en) == SplitTitles(ext, parts)
  {
    zh, en := "", "";
    for k := 0 to |parts|
      invariant (zh, en) == SplitTitles(ext, parts[..k])
    {
      assert parts[..k + 1][..k] == parts[..k];
      var part := CleanText(ext, Some(parts[k]));
      if part != "" && !IsDigit(part[0]) {
        if HasCjk(part) {
          zh := part;
        } else {
          en := part;
        }
      }
    }
    assert parts[..|parts|] == parts;
  }

  /** One pass of the extractor's loop: the new section flag and the record the element gives. */
  method VisitElement(ext: Externals, inSection: bool, element: Element) returns (next: bool, project: Option<Project>)
    ensures next == NextFlag(inSection, MarkOf(ext, element))
    ensures project == RecordAt(ext, inSection, element)
  {
    next, project := inSection, None;
    if !Visited(element.tag) {
      return;
    }
    var text := CleanText(ext, Some(element.text));
    if IsH1To3(element.tag) {
      if Contains(text, "Research Project") || Contains(text, "研究計畫") {
        next := true;
        return;
      } else if inSection && (element.tag == H1 || element.tag == H2) {
        next := false;
      }
    }
    if next {
      assert MarkOf(ext, element) == Neutral;
      project := RecordOf(ext, element, text);
    }
  }

  /** The record of an element inside the section whose cleaned text is `text`. */
  method RecordOf(ext: Externals, element: Element, text: string) returns (project: Option<Project>)
    requires text == CleanText(ext, Some(element.text))
    ensures project == ProjectOf(ext, element)
  {
    project := None;
    var m := ProjectLine(text);
    if m.Some? {
      var f := m.value;
      ProjectLineParts(text);
      var zh, en := "", "";
      if '\n' in element.text {
        zh, en := TitlesFromLines(ext, Split(Strip(element.text), "\n"));
      } else if HasCjk(f.title) {
        zh := f.title;
      } else {
        en := f.title;
      }
      project := Some(Project("project-" + f.number, DigitsValue(f.number), zh, en, ""));
    }
  }

  method ExtractResearchProjects(ext: Externals, content: Option<seq<Element>>) returns (projects: seq<Project>)
    ensures projects == ProjectsOf(ext, content)
  {
    projects := [];
    if content.None? {
      return;
    }
    var doc := content.value;
    var inSection := false;
    for i := 0 to |doc|
      invariant inSection == FlagAfter(ext, doc[..i])
      invariant projects == ProjectsIn(ext, doc[..i])
    {
      assert doc[..i + 1][..i] == doc[..i];
      assert Marks(ext, doc[..i + 1]) == Marks(ext, doc[..i]) + [MarkOf(ext, doc[i])];
      var project;
      inSection, project := VisitElement(ext, inSection, doc[i]);
      if project.Some? {
        projects := projects + [project.value];
      }
    }
    assert doc[..|doc|] == doc;
  }
}
