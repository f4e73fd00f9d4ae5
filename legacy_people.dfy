/** The members page, as the older extractor reads it: the category is whatever the last header with
    a keyword chose, with no alumni override, and only list items of the strict form
    "name (YY-DEPT) research" become people. */
module LegacyPeople {
  import opened Text
  import opened Html
  import opened Scraper
  import opened Patterns
  import opened Roster

  /** The elements the extractor visits; paragraphs are visited but never hold a person. */
  predicate Visited(t: Tag) { IsH1To4(t) || t == Li || t == P }

  /** The category a header chooses: the one of the first keyword its lower-cased text contains. */
  function HeaderCategory(ext: Externals, e: Element): (r: Option<Category>)
    ensures r.Some? ==> IsH1To4(e.tag)
  {
    if IsH1To4(e.tag) then FirstMatch(CategoryKeywords, Lower(TextOf(ext, e))) else None
  }

  /** The category after an element: a header with a keyword replaces it, whatever it was. */
  function ElementStep(ext: Externals, category: Option<Category>, e: Element): (r: Option<Category>)
    ensures HeaderCategory(ext, e).None? ==> r == category
    ensures category.Some? ==> r.Some?
  {
    if HeaderCategory(ext, e).Some? then HeaderCategory(ext, e) else category
  }

  /** No alumni override: what a header with a keyword chooses does not depend on the category before. */
  lemma NoAlumniOverride(ext: Externals, c1: Option<Category>, c2: Option<Category>, e: Element)
    requires HeaderCategory(ext, e).Some?
    ensures ElementStep(ext, c1, e) == ElementStep(ext, c2, e) == HeaderCategory(ext, e)
  { }

  /** The category after the elements of `doc`, from none. */
  function CategoryAfter(ext: Externals, doc: seq<Element>): Option<Category>
    decreases |doc|
  {
    if doc == [] then None else ElementStep(ext, CategoryAfter(ext, doc[..|doc| - 1]), doc[|doc| - 1])
  }

  /** The category is the one chosen by the last header with a keyword, and none before the first. */
  lemma {:induction false} CategoryIsLastHeader(ext: Externals, doc: seq<Element>)
    ensures var chosen := FilterMap(e => HeaderCategory(ext, e), doc);
      CategoryAfter(ext, doc) == if chosen == [] then None else Some(chosen[|chosen| - 1])
    decreases |doc|
  {
    if doc != [] {
      CategoryIsLastHeader(ext, doc[..|doc| - 1]);
    }
  }

  /** The record of a list item of the strict form. */
  function PersonOf(ext: Externals, e: Element): (r: Option<Person>)
    ensures r.Some? <==> StrictMemberEntry(TextOf(ext, e)).Some?
  {
    var text := TextOf(ext, e);
    match StrictMemberEntry(text)
    case None => None
    case Some(m) =>
      StrictMemberEntryFields(text);
      TwoDigitsBelow100(m.yy);
      var (zh, en) := SplitName(m.name);
      var research := if m.research != "" then ResearchAreas(m.research) else [];
      Some(Person(zh, en, CenturyYear(DigitsValue(m.yy)), m.dept, research, PhotoOf(ext, e), EmailOf(e)))
  }

  /** A strict entry's record: the year digits by the century rule, the department as matched, the
      name split, and the comma-separated research pieces, stripped, without empty ones. */
  lemma {:induction false} PersonOfFields(ext: Externals, e: Element)
    requires PersonOf(ext, e).Some?
    ensures var m, p := StrictMemberEntry(TextOf(ext, e)).value, PersonOf(ext, e).value;
      AllDigits(m.yy) && DigitsValue(m.yy) < 100 &&
      p.yearStart == CenturyYear(DigitsValue(m.yy)) && 1950 <= p.yearStart <= 2049 && p.department == m.dept
    ensures var m, p := StrictMemberEntry(TextOf(ext, e)).value, PersonOf(ext, e).value;
      (p.nameZh, p.nameEn) == SplitName(m.name) && p.research == ResearchAreas(m.research)
    ensures var p := PersonOf(ext, e).value;
      p.photo == PhotoOf(ext, e) && p.email == EmailOf(e)
  {
    var m := StrictMemberEntry(TextOf(ext, e)).value;
    StrictMemberEntryFields(TextOf(ext, e));
    TwoDigitsBelow100(m.yy);
    ResearchAreasOfEmpty();
  }

  /** An empty research text has no areas, so the guard around the split changes nothing. */
  lemma {:induction false} ResearchAreasOfEmpty()
    ensures ResearchAreas("") == []
  {
    assert Split("", ",") == [""];
    assert FilterMap(StrippedPiece, [""]) == [];
  }

  /** A text without digits is never a strict entry: the year digits are compulsory, so "Name (LS)"
      gives no record, and there is no fallback. */
  lemma {:induction false} NoDigitsNoEntry(t: string)
    requires forall i :: 0 <= i < |t| ==> !IsDigit(t[i])
    ensures StrictMemberEntry(t).None?
  {
    if StrictMemberEntry(t).Some? {
      StrictMemberEntryParts(t);
    }
  }

  lemma {:induction false} NameWithoutYear()
    ensures StrictMemberEntry("Name (LS)").None?
  {
    NoDigitsNoEntry("Name (LS)");
  }

  /** The category and person an element adds: a list item of the strict form, under a category. */
  function RecordAt(ext: Externals, category: Option<Category>, e: Element): (r: Option<(Category, Person)>)
    ensures r.Some? <==> e.tag == Li && category.Some? && PersonOf(ext, e).Some?
    ensures r.Some? ==> r.value == (category.value, PersonOf(ext, e).value)
  {
    if e.tag == Li && category.Some? && PersonOf(ext, e).Some? then Some((category.value, PersonOf(ext, e).value))
    else None
  }

  /** The roster after the elements of `doc`. */
  function PeopleIn(ext: Externals, doc: seq<Element>): (r: People)
    ensures Complete(r)
    decreases |doc|
  {
    if doc == [] then
      EmptyPeopleComplete();
      EmptyPeople
    else
      var init := doc[..|doc| - 1];
      var prev := PeopleIn(ext, init);
      var r := RecordAt(ext, CategoryAfter(ext, init), doc[|doc| - 1]);
      if r.None? then prev
      else
        Add(prev, r.value.0, r.value.1)
  }

  /** Specification of the extractor: the empty roster when the page has no content root. */
  function PeopleOf(ext: Externals, content: Option<seq<Element>>): (r: People)
    ensures Complete(r)
    ensures content.None? ==> r == EmptyPeople
  {
    EmptyPeopleComplete();
    if content.None? then EmptyPeople else PeopleIn(ext, content.value)
  }

  /** List items before the first header with a keyword are ignored. */
  lemma {:induction false} NothingBeforeCategory(ext: Externals, doc: seq<Element>)
    requires CategoryAfter(ext, doc).None?
    ensures PeopleIn(ext, doc) == EmptyPeople
    decreases |doc|
  {
    if doc != [] {
      NothingBeforeCategory(ext, doc[..|doc| - 1]);
    }
  }

  /** Only list items add people: the roster grows by at most the number of list items. */
  lemma {:induction false} PeopleFromListItems(ext: Externals, doc: seq<Element>)
    ensures |PeopleIn(ext, doc)[PhdStudents]| + |PeopleIn(ext, doc)[MastersStudents]|
          + |PeopleIn(ext, doc)[Undergrads]| + |PeopleIn(ext, doc)[Visiting]|
          + |PeopleIn(ext, doc)[Alumni]| + |PeopleIn(ext, doc)[Postdocs]| <= |FilterMap(ListItem, doc)|
    decreases |doc|
  {
    if doc != [] {
      PeopleFromListItems(ext, doc[..|doc| - 1]);
    }
  }

  function ListItem(e: Element): Option<Element> {
    if e.tag == Li then Some(e) else None
  }

  /** One more element: how the category and the roster after a prefix of the page grow. */
  lemma {:induction false} ScanStep(ext: Externals, doc: seq<Element>, i: nat)
    requires i < |doc|
    ensures CategoryAfter(ext, doc[..i + 1]) == ElementStep(ext, CategoryAfter(ext, doc[..i]), doc[i])
    ensures var r, prev := RecordAt(ext, CategoryAfter(ext, doc[..i]), doc[i]), PeopleIn(ext, doc[..i]);
      PeopleIn(ext, doc[..i + 1]) == if r.None? then prev else prev[r.value.0 := prev[r.value.0] + [r.value.1]]
  {
    assert doc[..i + 1][..i] == doc[..i];
  }

  /** The loop body: the new category and the record an element gives. */
  method VisitElement(ext: Externals, category: Option<Category>, element: Element)
    returns (next: Option<Category>, record: Option<(Category, Person)>)
    ensures next == ElementStep(ext, category, element)
    ensures record == RecordAt(ext, category, element)
  {
    next, record := category, None;
    if !Visited(element.tag) {
      return;
    }
    var text := TextOf(ext, element);
    var low := Lower(text);
    if IsH1To4(element.tag) {
      var found := FindFirst(CategoryKeywords, low);
      if found.Some? {
        next := found;
      }
    }
    if element.tag == Li && category.Some? {
      var person := PersonOf(ext, element);
      if person.Some? {
        record := Some((category.value, person.value));
      }
    }
  }

  method ExtractPeople(ext: Externals, content: Option<seq<Element>>) returns (people: People)
    ensures people == PeopleOf(ext, content)
  {
    people := EmptyPeople;
    if content.None? {
      return;
    }
    var doc := content.value;
    var category: Option<Category> := None;
    for i := 0 to |doc|
      invariant category == CategoryAfter(ext, doc[..i])
      invariant people == PeopleIn(ext, doc[..i])
    {
      var next, record := VisitElement(ext, category, doc[i]);
      ScanStep(ext, doc, i);
      if record.Some? {
        var (c, person) := record.value;
        people := people[c := people[c] + [person]];
      }
      category := next;
    }
    assert doc[..|doc|] == doc;
  }
}
