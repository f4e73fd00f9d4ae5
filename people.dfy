/** The members page, as the alumni-aware extractor reads it. A scan over headers and entries keeps
    the current category and an alumni flag: a header naming alumni sets the flag for good, and from
    then on the student and postdoc headers file their people as alumni. Every entry under a category
    becomes a person, either parsed from "name (info) rest" or, failing that, a name-only record. */
module People {
  import opened Text
  import opened Html
  import opened Scraper
  import opened Patterns
  import opened Roster

  /** The elements the extractor visits. */
  predicate Visited(t: Tag) { IsH1To4(t) || t == Li || t == P || t == Tr }

  /** The elements that can hold a person. */
  predicate IsEntry(t: Tag) { t == Li || t == P || t == Tr }

  /** The roles that an alumni section files as alumni; visiting keeps its own list. */
  predicate IsStudentRole(c: Category) {
    c == PhdStudents || c == MastersStudents || c == Undergrads || c == Postdocs
  }

  /** The scan's state: the category entries go to, if one has been chosen, and the alumni flag. */
  datatype State = State(category: Option<Category>, alumni: bool)

  const Start: State := State(None, false)

  /** Once the alumni flag is set, entries go to alumni or to visiting. */
  predicate AlumniFiling(st: State) {
    st.alumni ==> st.category == Some(Alumni) || st.category == Some(Visiting)
  }

  // ---------------------------------------------------------------------------
  // Headers
  // ---------------------------------------------------------------------------

  /** What a header with lower-cased text `low` does to the state. */
  function HeaderStep(st: State, low: string): (r: State)
    ensures Contains(low, "alumni") ==> r == State(Some(Alumni), true)
    ensures r.alumni <==> st.alumni || Contains(low, "alumni")
    ensures !Contains(low, "alumni") && FirstMatch(CategoryKeywords, low).None? ==> r == st
    ensures st.category.Some? ==> r.category.Some?
    ensures AlumniFiling(st) ==> AlumniFiling(r)
  {
    if Contains(low, "alumni") then State(Some(Alumni), true)
    else match FirstMatch(CategoryKeywords, low)
      case None => st
      case Some(c) => st.(category := Some(if st.alumni && IsStudentRole(c) then Alumni else c))
  }

  /** A header without "alumni" files under the first keyword it contains, in table order, except
      that with the flag set a student or postdoc keyword files under alumni. */
  lemma {:induction false} HeaderKeyword(st: State, low: string, k: nat)
    requires !Contains(low, "alumni") && k < |CategoryKeywords| && Contains(low, CategoryKeywords[k].0)
    requires forall j :: 0 <= j < k ==> !Contains(low, CategoryKeywords[j].0)
    ensures var c := CategoryKeywords[k].1;
      HeaderStep(st, low) == st.(category := Some(if st.alumni && IsStudentRole(c) then Alumni else c))
  {
    var r := FirstMatch(CategoryKeywords, low);
    var i :| 0 <= i < |CategoryKeywords| && Contains(low, CategoryKeywords[i].0) && r == Some(CategoryKeywords[i].1)
             && forall j :: 0 <= j < i ==> !Contains(low, CategoryKeywords[j].0);
    assert i == k;
  }

  // ---------------------------------------------------------------------------
  // The state machine
  // ---------------------------------------------------------------------------

  /** A header whose text names alumni. */
  predicate AlumniHeader(ext: Externals, e: Element) {
    IsH1To4(e.tag) && Contains(Lower(TextOf(ext, e)), "alumni")
  }

  /** The state after an element: only headers with text change it. */
  function ElementStep(ext: Externals, st: State, e: Element): (r: State)
    ensures !IsH1To4(e.tag) ==> r == st
    ensures r.alumni <==> st.alumni || AlumniHeader(ext, e)
    ensures st.category.Some? ==> r.category.Some?
    ensures AlumniFiling(st) ==> AlumniFiling(r)
  {
    var text := TextOf(ext, e);
    if IsH1To4(e.tag) && text != "" then HeaderStep(st, Lower(text))
    else
      assert !AlumniHeader(ext, e) by {
        if text == "" {
          assert Lower(text) == "";
        }
      }
      st
  }

  /** The state after the elements of `doc`, from the start. */
  function StateAfter(ext: Externals, doc: seq<Element>): State
    decreases |doc|
  {
    if doc == [] then Start else ElementStep(ext, StateAfter(ext, doc[..|doc| - 1]), doc[|doc| - 1])
  }

  /** The alumni flag is set exactly when some header so far names alumni; it is never cleared. */
  lemma {:induction false} AlumniFlagIff(ext: Externals, doc: seq<Element>)
    ensures StateAfter(ext, doc).alumni <==> exists j :: 0 <= j < |doc| && AlumniHeader(ext, doc[j])
    decreases |doc|
  {
    if doc != [] {
      var init, last := doc[..|doc| - 1], doc[|doc| - 1];
      AlumniFlagIff(ext, init);
      assert StateAfter(ext, doc).alumni <==> StateAfter(ext, init).alumni || AlumniHeader(ext, last);
      if StateAfter(ext, doc).alumni {
        if StateAfter(ext, init).alumni {
          var j :| 0 <= j < |init| && AlumniHeader(ext, init[j]);
          assert doc[j] == init[j];
        } else {
          assert AlumniHeader(ext, doc[|doc| - 1]);
        }
      } else {
        assert !AlumniHeader(ext, last);
        forall j | 0 <= j < |doc| ensures !AlumniHeader(ext, doc[j]) {
          if j < |init| {
            assert doc[j] == init[j];
          } else {
            assert j == |init|;
          }
        }
      }
    }
  }

  /** Every state of the scan files entries to alumni or visiting once the flag is set. */
  lemma {:induction false} StateAfterFiling(ext: Externals, doc: seq<Element>)
    ensures AlumniFiling(StateAfter(ext, doc))
    decreases |doc|
  {
    if doc != [] {
      StateAfterFiling(ext, doc[..|doc| - 1]);
    }
  }

  // ---------------------------------------------------------------------------
  // Member records
  // ---------------------------------------------------------------------------

  predicate IsDeptTrim(c: char) { c == ' ' || c == '-' || c == ';' || c == ',' }

  /** The start year and the department of an info text: the first two consecutive digits give the
      year by the century rule, and the department is the info without them, trimmed of " -;,".
      Without two digits the year defaults to 2024 and the department is the whole info. */
  function YearAndDept(info: string): (r: (nat, string))
    ensures FirstDigitPair(info).None? ==> r == (2024, info)
    ensures FirstDigitPair(info).Some? ==>
      var i := FirstDigitPair(info).value;
      AllDigits(info[i..i + 2]) && DigitsValue(info[i..i + 2]) < 100 &&
      r.0 == CenturyYear(DigitsValue(info[i..i + 2])) && 1950 <= r.0 <= 2049 &&
      r.1 == StripWhere(info[..i] + info[i + 2..], IsDeptTrim)
  {
    match FirstDigitPair(info)
    case None => (2024, info)
    case Some(i) =>
      var yStr := info[i..i + 2];
      TwoDigits(yStr, info[i], info[i + 1]);
      TwoDigitsBelow100(yStr);
      RemoveFirstAtPair(info, i);
      (CenturyYear(DigitsValue(yStr)), StripWhere(RemoveFirst(info, yStr), IsDeptTrim))
  }

  /** The first occurrence of the first digit pair is where it was found. */
  lemma {:induction false} RemoveFirstAtPair(info: string, i: nat)
    requires FirstDigitPair(info) == Some(i)
    ensures RemoveFirst(info, info[i..i + 2]) == info[..i] + info[i + 2..]
  {
    var yStr := info[i..i + 2];
    assert OccursAt(info, yStr, i);
    forall j | 0 <= j < i ensures !OccursAt(info, yStr, j) {
      assert !(IsDigit(info[j]) && IsDigit(info[j + 1]));
    }
    assert IndexOf(info, yStr) == Some(i);
  }

  /** The record of an entry that matches "name (info) rest". */
  function MemberOf(ext: Externals, e: Element, m: MemberFields): (p: Person)
    ensures (p.nameZh, p.nameEn) == SplitName(Strip(m.name))
    ensures (p.yearStart, p.department) == YearAndDept(Strip(m.info))
    ensures p.research == ResearchAreas(Strip(m.rest))
    ensures p.photo == PhotoOf(ext, e) && p.email == EmailOf(e)
  {
    var (zh, en) := SplitName(Strip(m.name));
    var (year, dept) := YearAndDept(Strip(m.info));
    Person(zh, en, year, dept, ResearchAreas(Strip(m.rest)), PhotoOf(ext, e), EmailOf(e))
  }

  /** The name-only record of an unmatched entry: the whole text is the Chinese name when it has a
      CJK character and the English name otherwise. */
  function FallbackOf(ext: Externals, e: Element, name: string): (p: Person)
    ensures HasCjk(name) ==> p.nameZh == name && p.nameEn == ""
    ensures !HasCjk(name) ==> p.nameZh == "" && p.nameEn == name
    ensures p.yearStart == 2024 && p.department == "" && p.research == []
    ensures p.photo == PhotoOf(ext, e) && p.email.None?
  {
    Person(if HasCjk(name) then name else "", if HasCjk(name) then "" else name, 2024, "", [], PhotoOf(ext, e), None)
  }

  /** The person an entry holds, whatever the category: a parsed member, or for unmatched text of
      2 to 49 characters a name-only record. */
  function PersonOf(ext: Externals, e: Element, text: string): (r: Option<Person>)
    ensures MemberEntry(text).Some? ==> r == Some(MemberOf(ext, e, MemberEntry(text).value))
    ensures MemberEntry(text).None? ==>
      (r.Some? <==> 1 < |Strip(text)| < 50) && (r.Some? ==> r.value == FallbackOf(ext, e, Strip(text)))
  {
    match MemberEntry(text)
    case Some(m) => Some(MemberOf(ext, e, m))
    case None =>
      var clean := Strip(text);
      if 1 < |clean| < 50 then Some(FallbackOf(ext, e, clean)) else None
  }

  /** The category and person an element adds, given the state before it: an entry with at least two
      characters of text, under a category. */
  function RecordAt(ext: Externals, st: State, e: Element): (r: Option<(Category, Person)>)
    ensures r.Some? <==> IsEntry(e.tag) && st.category.Some? && |TextOf(ext, e)| >= 2
                         && PersonOf(ext, e, TextOf(ext, e)).Some?
    ensures r.Some? ==> r.value == (st.category.value, PersonOf(ext, e, TextOf(ext, e)).value)
  {
    var text := TextOf(ext, e);
    if IsEntry(e.tag) && st.category.Some? && |text| >= 2 then
      match PersonOf(ext, e, text)
      case None => None
      case Some(p) => Some((st.category.value, p))
    else None
  }

  /** Under the alumni flag nobody is filed as a PhD, master's, undergraduate student or postdoc. */
  lemma {:induction false} RecordUnderAlumni(ext: Externals, doc: seq<Element>, j: nat)
    requires j < |doc| && exists k :: 0 <= k < j && AlumniHeader(ext, doc[k])
    ensures var r := RecordAt(ext, StateAfter(ext, doc[..j]), doc[j]);
      r.Some? ==> r.value.0 == Alumni || r.value.0 == Visiting
  {
    var k :| 0 <= k < j && AlumniHeader(ext, doc[k]);
    assert doc[..j][k] == doc[k];
    AlumniFlagIff(ext, doc[..j]);
    StateAfterFiling(ext, doc[..j]);
  }

  /** The roster after the elements of `doc`. */
  function PeopleIn(ext: Externals, doc: seq<Element>): (r: People)
    ensures Complete(r)
    decreases |doc|
  {
    if doc == [] then
      EmptyPeopleComplete();
      EmptyPeople
    else
      var init := doc[..|doc| - 1];
      var prev := PeopleIn(ext, init);
      var r := RecordAt(ext, StateAfter(ext, init), doc[|doc| - 1]);
      if r.None? then prev
      else
        Add(prev, r.value.0, r.value.1)
  }

  /** Specification of the extractor: the empty roster when the page has no content root. */
  function PeopleOf(ext: Externals, content: Option<seq<Element>>): (r: People)
    ensures Complete(r)
    ensures content.None? ==> r == EmptyPeople
  {
    EmptyPeopleComplete();
    if content.None? then EmptyPeople else PeopleIn(ext, content.value)
  }

  /** Until a header chooses a category, nothing is recorded. */
  lemma {:induction false} NothingBeforeCategory(ext: Externals, doc: seq<Element>)
    requires StateAfter(ext, doc).category.None?
    ensures PeopleIn(ext, doc) == EmptyPeople
    decreases |doc|
  {
    if doc != [] {
      NothingBeforeCategory(ext, doc[..|doc| - 1]);
    }
  }

  /** Each element adds at most one person, to one category. */
  lemma {:induction false} PeopleCount(ext: Externals, doc: seq<Element>)
    ensures |PeopleIn(ext, doc)[PhdStudents]| + |PeopleIn(ext, doc)[MastersStudents]|
          + |PeopleIn(ext, doc)[Undergrads]| + |PeopleIn(ext, doc)[Visiting]|
          + |PeopleIn(ext, doc)[Alumni]| + |PeopleIn(ext, doc)[Postdocs]| <= |doc|
    decreases |doc|
  {
    if doc != [] {
      PeopleCount(ext, doc[..|doc| - 1]);
    }
  }

  // ---------------------------------------------------------------------------
  // The extractor
  // ---------------------------------------------------------------------------

  /** One more element: how the state and the roster after a prefix of the page grow. */
  lemma {:induction false} ScanStep(ext: Externals, doc: seq<Element>, i: nat)
    requires i < |doc|
    ensures StateAfter(ext, doc[..i + 1]) == ElementStep(ext, StateAfter(ext, doc[..i]), doc[i])
    ensures var r, prev := RecordAt(ext, StateAfter(ext, doc[..i]), doc[i]), PeopleIn(ext, doc[..i]);
      PeopleIn(ext, doc[..i + 1]) == if r.None? then prev else prev[r.value.0 := prev[r.value.0] + [r.value.1]]
  {
    assert doc[..i + 1][..i] == doc[..i];
  }

  /** The loop body: the new state and the record an element gives. */
  method VisitElement(ext: Externals, st: State, element: Element) returns (next: State, record: Option<(Category, Person)>)
    ensures next == ElementStep(ext, st, element)
    ensures record == RecordAt(ext, st, element)
  {
    next, record := st, None;
    if !Visited(element.tag) {
      return;
    }
    var text := TextOf(ext, element);
    if text == "" {
      return;
    }
    var low := Lower(text);
    if IsH1To4(element.tag) {
      next := VisitHeader(st, low);
      return;
    }
    if st.category.None? || |text| < 2 {
      return;
    }
    var person := PersonOf(ext, element, text);
    if person.Some? {
      record := Some((st.category.value, person.value));
    }
  }

  /** A header's effect on the state, given its lower-cased text. */
  method VisitHeader(st: State, low: string) returns (next: State)
    ensures next == HeaderStep(st, low)
  {
    next := st;
    if Contains(low, "alumni") {
      next := State(Some(Alumni), true);
      return;
    }
    var found := FindFirst(CategoryKeywords, low);
    if found.Some? {
      var category := found.value;
      if st.alumni && IsStudentRole(category) {
        next := next.(category := Some(Alumni));
      } else {
        next := next.(category := Some(category));
      }
    }
  }

  method ExtractPeople(ext: Externals, content: Option<seq<Element>>) returns (people: People)
    ensures people == PeopleOf(ext, content)
  {
    people := EmptyPeople;
    if content.None? {
      return;
    }
    var doc := content.value;
    var st := Start;
    for i := 0 to |doc|
      invariant st == StateAfter(ext, doc[..i])
      invariant people == PeopleIn(ext, doc[..i])
    {
      var next, record := VisitElement(ext, st, doc[i]);
      ScanStep(ext, doc, i);
      if record.Some? {
        var (category, person) := record.value;
        people := people[category := people[category] + [person]];
      }
      st := next;
    }
    assert doc[..|doc|] == doc;
  }
}
