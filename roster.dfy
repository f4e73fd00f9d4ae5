/** The lab roster both versions of the members-page extractor fill in: six categories of people,
    the category keywords, and the parts of a member record the two versions compute alike
    (the name split, the research areas, the photo and the e-mail address). */
module Roster {
  import opened Text
  import opened Html
  import opened Scraper

  datatype Category = PhdStudents | MastersStudents | Undergrads | Visiting | Alumni | Postdocs

  datatype Person = Person(
    nameZh: string,
    nameEn: string,
    yearStart: nat,
    department: string,
    research: seq<string>,
    photo: Option<string>,
    email: Option<string>)

  type People = map<Category, seq<Person>>

  /** The roster the extractors start from: every category present and empty. */
  const EmptyPeople: People := map[
    PhdStudents := [], MastersStudents := [], Undergrads := [],
    Visiting := [], Alumni := [], Postdocs := []]

  /** A roster with a list for every category. */
  predicate Complete(people: People) {
    forall c: Category :: c in people
  }

  lemma {:induction false} EmptyPeopleComplete()
    ensures Complete(EmptyPeople) && forall c: Category :: EmptyPeople[c] == []
  {
    forall c: Category ensures c in EmptyPeople && EmptyPeople[c] == [] {
      match c
      case PhdStudents =>
      case MastersStudents =>
      case Undergrads =>
      case Visiting =>
      case Alumni =>
      case Postdocs =>
    }
  }

  /** The header keywords in the order they are tried; the first one found decides. */
  const CategoryKeywords: seq<(string, Category)> := [
    ("phd", PhdStudents), ("ph.d", PhdStudents), ("博士", PhdStudents), ("doctoral", PhdStudents),
    ("master", MastersStudents), ("碩士", MastersStudents), ("ms student", MastersStudents),
    ("undergrad", Undergrads), ("大專", Undergrads), ("大學部", Undergrads),
    ("visiting", Visiting), ("exchange", Visiting), ("訪問", Visiting),
    ("alumni", Alumni), ("畢業", Alumni), ("former", Alumni),
    ("postdoc", Postdocs), ("博士後", Postdocs)]

  /** Appends a person to one category, leaving the others alone. */
  function Add(people: People, c: Category, p: Person): (r: People)
    requires c in people
    ensures r.Keys == people.Keys
    ensures r[c] == people[c] + [p]
    ensures forall d :: d in people && d != c ==> r[d] == people[d]
  {
    people[c := people[c] + [p]]
  }

  // ---------------------------------------------------------------------------
  // Names
  // ---------------------------------------------------------------------------

  /** The name split of a sequence of tokens, token by token: a token with a CJK character replaces
      the Chinese name, any other is appended to the English name after a space, the result stripped. */
  function SplitNameTokens(tokens: seq<string>): (r: (string, string))
    decreases |tokens|
  {
    if tokens == [] then ("", "")
    else
      var (zh, en) := SplitNameTokens(tokens[..|tokens| - 1]);
      var part := tokens[|tokens| - 1];
      if HasCjk(part) then (part, en) else (zh, Strip(en + " " + part))
  }

  /** The Chinese and English names of a name text. */
  function SplitName(name: string): (string, string) {
    SplitNameTokens(Words(Strip(name)))
  }

  function CjkToken(w: string): Option<string> {
    if HasCjk(w) then Some(w) else None
  }

  function LatinToken(w: string): Option<string> {
    if HasCjk(w) then None else Some(w)
  }

  /** One token more: a CJK token replaces the Chinese name, any other is appended to the English one. */
  lemma SplitNameTokensStep(tokens: seq<string>)
    requires tokens != []
    ensures var prev, part := SplitNameTokens(tokens[..|tokens| - 1]), tokens[|tokens| - 1];
      SplitNameTokens(tokens) == if HasCjk(part) then (part, prev.1) else (prev.0, Strip(prev.1 + " " + part))
  { }

  /** The Chinese name is the last token with a CJK character, or "" when there is none. */
  lemma {:induction false} SplitNameTokensZh(tokens: seq<string>)
    ensures var zhs := FilterMap(CjkToken, tokens);
      SplitNameTokens(tokens).0 == if zhs == [] then "" else zhs[|zhs| - 1]
    decreases |tokens|
  {
    if tokens != [] {
      SplitNameTokensZh(tokens[..|tokens| - 1]);
      SplitNameTokensStep(tokens);
    }
  }

  /** The English name is all tokens without a CJK character, in order, joined by single spaces. */
  lemma {:induction false} SplitNameTokensEn(tokens: seq<string>)
    requires forall k :: 0 <= k < |tokens| ==> |tokens[k]| > 0 && NoSpace(tokens[k])
    ensures SplitNameTokens(tokens).1 == Join(FilterMap(LatinToken, tokens), " ")
    decreases |tokens|
  {
    if tokens != [] {
      var init, part := tokens[..|tokens| - 1], tokens[|tokens| - 1];
      assert forall k :: 0 <= k < |init| ==> init[k] == tokens[k];
      SplitNameTokensEn(init);
      SplitNameTokensStep(tokens);
      var ens := FilterMap(LatinToken, init);
      var en := SplitNameTokens(init).1;
      assert en == Join(ens, " ");
      if HasCjk(part) {
        assert FilterMap(LatinToken, tokens) == ens;
      } else {
        assert (en == "" <==> ens == []) && (|en| > 0 ==> !IsSpace(en[0]) && !IsSpace(en[|en| - 1])) by {
          forall k | 0 <= k < |ens| ensures |ens[k]| > 0 && NoSpace(ens[k]) {
            FilterMapSound(LatinToken, init, ens[k]);
          }
          JoinLatinSpaced(ens);
        }
        AppendWord(en, part);
        JoinSnoc(ens, part, " ");
        assert FilterMap(LatinToken, tokens) == ens + [part];
      }
    }
  }

  /** Tokens joined by spaces do not start or end with whitespace. */
  lemma {:induction false} JoinLatinSpaced(ws: seq<string>)
    requires forall k :: 0 <= k < |ws| ==> |ws[k]| > 0 && NoSpace(ws[k])
    ensures var j := Join(ws, " "); (|j| > 0 <==> ws != []) && (|j| > 0 ==> !IsSpace(j[0]) && !IsSpace(j[|j| - 1]))
    decreases |ws|
  {
    if |ws| > 1 {
      JoinLatinSpaced(ws[1..]);
      assert Join(ws, " ") == ws[0] + " " + Join(ws[1..], " ");
    }
  }

  /** Appending a space and a word to a text without whitespace at its ends, then stripping, is
      plain concatenation with one space (or just the word when the text is empty). */
  lemma {:induction false} AppendWord(en: string, w: string)
    requires |w| > 0 && NoSpace(w)
    requires |en| > 0 ==> !IsSpace(en[0]) && !IsSpace(en[|en| - 1])
    ensures Strip(en + " " + w) == if en == "" then w else en + " " + w
  {
    var s := en + " " + w;
    if en == "" {
      assert s[1..] == w;
      assert LeadingCount(s[1..], IsSpace) == 0;
      assert LeadingCount(s, IsSpace) == 1;
      assert TrailingCount(w, IsSpace) == 0;
    } else {
      assert LeadingCount(s, IsSpace) == 0;
      assert TrailingCount(s, IsSpace) == 0;
      assert s[0..] == s;
    }
  }

  /** Joining one more part. */
  lemma {:induction false} JoinSnoc(ps: seq<string>, w: string, sep: string)
    ensures Join(ps + [w], sep) == if ps == [] then w else Join(ps, sep) + sep + w
    decreases |ps|
  {
    if |ps| == 1 {
      assert ps + [w] == [ps[0], w];
      assert [ps[0], w][1..] == [w];
    } else if |ps| > 1 {
      JoinSnoc(ps[1..], w, sep);
      assert (ps + [w])[1..] == ps[1..] + [w];
    }
  }

  /** The loop over the tokens of a name. */
  method SplitNameLoop(name: string) returns (nameZh: string, nameEn: string)
    ensures (nameZh, nameEn) == SplitName(name)
  {
    var parts := Words(Strip(name));
    nameZh, nameEn := "", "";
    for k := 0 to |parts|
      invariant (nameZh, nameEn) == SplitNameTokens(parts[..k])
    {
      assert parts[..k + 1][..k] == parts[..k];
      var part := parts[k];
      if HasCjk(part) {
        nameZh := part;
      } else {
        nameEn := Strip(nameEn + " " + part);
      }
    }
    assert parts[..|parts|] == parts;
  }

  // ---------------------------------------------------------------------------
  // Research areas, photo, e-mail
  // ---------------------------------------------------------------------------

  function StrippedPiece(piece: string): (r: Option<string>)
    ensures r.Some? ==> r.value == Strip(piece) && r.value != ""
  {
    if Strip(piece) != "" then Some(Strip(piece)) else None
  }

  /** The research areas of a text: its comma-separated pieces, stripped, the empty ones dropped. */
  function ResearchAreas(rest: string): (areas: seq<string>)
    ensures forall k :: 0 <= k < |areas| ==> areas[k] != "" && !Contains(areas[k], ",")
  {
    var pieces := Split(rest, ",");
    var areas := FilterMap(StrippedPiece, pieces);
    forall k | 0 <= k < |areas| ensures areas[k] != "" && !Contains(areas[k], ",") {
      FilterMapSound(StrippedPiece, pieces, areas[k]);
      var j :| 0 <= j < |pieces| && StrippedPiece(pieces[j]) == Some(areas[k]);
      SplitPiecesLackSeparator(rest, ",");
      StripLacks(pieces[j], ",");
    }
    areas
  }

  /** Joining pieces with commas and reading the research areas back gives the stripped pieces
      in order, the blank ones dropped. */
  lemma {:induction false} ResearchAreasOfJoin(pieces: seq<string>)
    requires |pieces| > 0 && forall k :: 0 <= k < |pieces| ==> ',' !in pieces[k]
    ensures ResearchAreas(Join(pieces, ",")) == FilterMap(StrippedPiece, pieces)
  {
    JoinSplit(pieces, ",");
  }

  /** Areas that are already stripped and non-blank come back as they were. */
  lemma {:induction false} ResearchAreasRoundTrip(areas: seq<string>)
    requires |areas| > 0
    requires forall k :: 0 <= k < |areas| ==> ',' !in areas[k] && areas[k] != "" && Strip(areas[k]) == areas[k]
    ensures ResearchAreas(Join(areas, ",")) == areas
  {
    ResearchAreasOfJoin(areas);
    FilterMapIdentity(StrippedPiece, areas);
  }

  /** Two areas written with a space after the comma, as the roster pages write them, are read
      back as they were. */
  lemma {:induction false} ResearchAreasCommaSpace(a: string, b: string)
    requires a != [] && !IsSpace(a[0]) && !IsSpace(a[|a| - 1]) && ',' !in a
    requires b != [] && !IsSpace(b[0]) && !IsSpace(b[|b| - 1]) && ',' !in b
    ensures ResearchAreas(a + ", " + b) == [a, b]
  {
    var pieces := [a, " " + b];
    assert Join(pieces, ",") == a + ", " + b;
    assert ResearchAreas(a + ", " + b) == FilterMap(StrippedPiece, pieces) by {
      assert ',' !in " " + b;
      ResearchAreasOfJoin(pieces);
    }
    assert StrippedPiece(a) == Some(a) by { StripTrimmed(a); }
    assert StrippedPiece(" " + b) == Some(b) by { StripAfterSpace(b); }
    FilterMapPair(StrippedPiece, a, " " + b);
  }

  /** An example with a space after the comma. */
  lemma {:induction false} ResearchAreasExample(t: string, a: string, b: string)
    requires a == "systems biology" && b == "genomics" && t == a + ", " + b
    ensures ResearchAreas(t) == [a, b]
  {
    ResearchAreasCommaSpace(a, b);
  }

  /** One leading space is stripped from a text that is otherwise trimmed. */
  lemma {:induction false} StripAfterSpace(b: string)
    requires b != [] && !IsSpace(b[0]) && !IsSpace(b[|b| - 1])
    ensures Strip(" " + b) == b
  {
    assert LeadingCount(" " + b, IsSpace) == 1 by {
      assert (" " + b)[1..] == b;
    }
    assert (" " + b)[1..] == b;
    StripTrimmed(b);
  }

  /** A text without whitespace at either end is its own strip. */
  lemma {:induction false} StripTrimmed(s: string)
    requires s != [] && !IsSpace(s[0]) && !IsSpace(s[|s| - 1])
    ensures Strip(s) == s
  {
    assert LeadingCount(s, IsSpace) == 0 && TrailingCount(s, IsSpace) == 0;
    assert s[0..] == s && s[..|s|] == s;
  }

  /** Stripping whitespace keeps a text free of a pattern. */
  lemma {:induction false} StripLacks(s: string, pat: string)
    requires !Contains(s, pat)
    ensures !Contains(Strip(s), pat)
  {
    var a := LeadingCount(s, IsSpace);
    SliceLacksPattern(s, a, a + |Strip(s)|, pat);
  }

  /** The photo of an entry: its first img's src made absolute, when it holds an img. */
  function PhotoOf(ext: Externals, e: Element): (r: Option<string>)
    ensures r.None? <==> e.innerImg.None?
    ensures r.Some? ==> r.value == MakeAbsoluteUrl(ext, e.innerImg.value)
    ensures e.innerImg == Some("") ==> r == Some("")
  {
    if e.innerImg.Some? then Some(MakeAbsoluteUrl(ext, e.innerImg.value)) else None
  }

  /** The e-mail of an entry: its first mailto link with every "mailto:" removed. */
  function EmailOf(e: Element): (r: Option<string>)
    ensures r.None? <==> e.innerMailto.None?
    ensures forall a :: e.innerMailto == Some("mailto:" + a) && !Contains(a, "mailto:") ==> r == Some(a)
  {
    if e.innerMailto.Some? then
      var href := e.innerMailto.value;
      forall a | href == "mailto:" + a && !Contains(a, "mailto:") ensures RemoveAll(href, "mailto:") == a {
        MailtoPrefix(a);
      }
      Some(RemoveAll(href, "mailto:"))
    else None
  }

  /** Removing "mailto:" from a link "mailto:" + a, where a has none, leaves the address. */
  lemma {:induction false} MailtoPrefix(a: string)
    requires !Contains(a, "mailto:")
    ensures RemoveAll("mailto:" + a, "mailto:") == a
  {
    var s := "mailto:" + a;
    assert StartsWith(s, "mailto:");
    assert s[|"mailto:"|..] == a;
    RemoveAllAbsent(a, "mailto:");
  }
}
