/** The news list of the start page: every list item of the form "YY.MM title" becomes a dated,
    classified news item, and the items are ordered newest first. */
module News {
  import opened Text
  import opened Html
  import opened Scraper
  import opened Patterns

  datatype Category = Award | Publication | Recruitment | General

  datatype NewsItem = NewsItem(
    date: string,           // "YYYY-MM": the four-digit year, '-', the month digits as written
    year: nat,
    month: nat,
    title: string,
    link: Option<string>,
    category: Category)

  const AwardKeywords: seq<string> := ["獎", "award", "榮獲", "得獎"]
  const PublicationKeywords: seq<string> := ["發表", "paper", "publish", "journal"]
  const RecruitmentKeywords: seq<string> := ["徵", "recruit", "聘"]

  /** The keyword tests on the lower-cased title, in their order: award, publication, recruitment. */
  function Classify(title: string): (c: Category)
    ensures c == Award <==> ContainsAny(Lower(title), AwardKeywords)
    ensures c == Publication <==>
      !ContainsAny(Lower(title), AwardKeywords) && ContainsAny(Lower(title), PublicationKeywords)
    ensures c == Recruitment <==>
      !ContainsAny(Lower(title), AwardKeywords) && !ContainsAny(Lower(title), PublicationKeywords)
      && ContainsAny(Lower(title), RecruitmentKeywords)
  {
    var l := Lower(title);
    if ContainsAny(l, AwardKeywords) then Award
    else if ContainsAny(l, PublicationKeywords) then Publication
    else if ContainsAny(l, RecruitmentKeywords) then Recruitment
    else General
  }

  /** A link is kept only when the item holds an anchor with a non-empty href. */
  function NewsLink(ext: Externals, href: Option<string>): (link: Option<string>)
    ensures link.None? <==> href.None? || href.value == ""
    ensures link.Some? ==> link.value == MakeAbsoluteUrl(ext, href.value)
  {
    if href.Some? && href.value != "" then Some(MakeAbsoluteUrl(ext, href.value)) else None
  }

  /** The news item an element contributes, if it is a list item whose cleaned text is a news line. */
  function NewsItemOf(ext: Externals, e: Element): (r: Option<NewsItem>)
    ensures r.Some? <==> e.tag == Li && NewsLine(CleanText(ext, Some(e.text))).Some?
  {
    if e.tag != Li then None
    else
      var t := CleanText(ext, Some(e.text));
      match NewsLine(t)
      case None => None
      case Some(f) =>
        NewsLineFields(t);
        TwoDigitsBelow100(f.yy);
        var year := CenturyYear(DigitsValue(f.yy));
        Some(NewsItem(DecimalString(year) + "-" + f.mm, year, DigitsValue(f.mm), f.title,
                      NewsLink(ext, e.innerHref), Classify(f.title)))
  }

  /** What a matched list item's record holds, stated on its cleaned text: the text starts with
      "YY.MM ", the year follows the century rule, the date keeps the month digits verbatim and the
      month is their value, not range-checked. */
  lemma {:induction false} NewsItemFields(ext: Externals, e: Element)
    requires NewsItemOf(ext, e).Some?
    ensures var t, n := CleanText(ext, Some(e.text)), NewsItemOf(ext, e).value;
      |t| >= 7 && n.title == t[6..] && AllDigits(t[..2]) && AllDigits(t[3..5])
    ensures var t, n := CleanText(ext, Some(e.text)), NewsItemOf(ext, e).value;
      n.year == CenturyYear(DigitsValue(t[..2])) && 1950 <= n.year <= 2049
    ensures var t, n := CleanText(ext, Some(e.text)), NewsItemOf(ext, e).value;
      n.date == DecimalString(n.year) + "-" + t[3..5] && n.month == DigitsValue(t[3..5]) && n.month < 100
    ensures var n := NewsItemOf(ext, e).value;
      n.category == Classify(n.title) && n.link == NewsLink(ext, e.innerHref)
  {
    var t := CleanText(ext, Some(e.text));
    NewsLineOnCleanText(t);
    NewsLineFields(t);
    TwoDigitsBelow100(t[3..5]);
  }

  /** Which list items are news: exactly those whose cleaned text is two digits, '.', two digits,
      a space and a non-empty title. */
  lemma {:induction false} NewsItemIff(ext: Externals, e: Element)
    ensures var t := CleanText(ext, Some(e.text));
      NewsItemOf(ext, e).Some? <==>
        e.tag == Li && |t| >= 7 && IsDigit(t[0]) && IsDigit(t[1]) && t[2] == '.'
        && IsDigit(t[3]) && IsDigit(t[4]) && t[5] == ' '
  {
    NewsLineOnCleanText(CleanText(ext, Some(e.text)));
  }

  /** The items of the matched list items, in document order, before sorting. */
  function MatchedNews(ext: Externals, doc: seq<Element>): seq<NewsItem> {
    FilterMap(e => NewsItemOf(ext, e), doc)
  }

  /** Every matched list item contributes its record, and every record comes from one. */
  lemma {:induction false} MatchedNewsMembers(ext: Externals, doc: seq<Element>, n: NewsItem)
    ensures n in MatchedNews(ext, doc) <==> exists j :: 0 <= j < |doc| && NewsItemOf(ext, doc[j]) == Some(n)
  {
    var f := e => NewsItemOf(ext, e);
    if n in MatchedNews(ext, doc) {
      FilterMapSound(f, doc, n);
      var j :| 0 <= j < |doc| && f(doc[j]) == Some(n);
    }
    if exists j :: 0 <= j < |doc| && NewsItemOf(ext, doc[j]) == Some(n) {
      var j :| 0 <= j < |doc| && NewsItemOf(ext, doc[j]) == Some(n);
      FilterMapComplete(f, doc, j);
    }
  }

  // ---------------------------------------------------------------------------
  // Newest first: a stable sort on (year, month), descending
  // ---------------------------------------------------------------------------

  function Key(n: NewsItem): (nat, nat) { (n.year, n.month) }

  /** Strictly older: the (year, month) pair compares lower. */
  predicate Older(a: NewsItem, b: NewsItem) {
    a.year < b.year || (a.year == b.year && a.month < b.month)
  }

  /** Newest first: no item is older than one after it. */
  predicate NewestFirst(s: seq<NewsItem>) {
    forall i, j :: 0 <= i < j < |s| ==> !Older(s[i], s[j])
  }

  /** The items with a given (year, month), in their order. */
  function WithKey(s: seq<NewsItem>, k: (nat, nat)): (r: seq<NewsItem>)
    ensures |r| <= |s|
    decreases |s|
  {
    if s == [] then []
    else (if Key(s[0]) == k then [s[0]] else []) + WithKey(s[1..], k)
  }

  lemma {:induction false} WithKeyAppend(a: seq<NewsItem>, b: seq<NewsItem>, k: (nat, nat))
    ensures WithKey(a + b, k) == WithKey(a, k) + WithKey(b, k)
    decreases |a|
  {
    if a == [] {
      assert a + b == b;
    } else {
      assert (a + b)[0] == a[0] && (a + b)[1..] == a[1..] + b;
      WithKeyAppend(a[1..], b, k);
    }
  }

  /** Inserts `x` behind every item at least as new, which keeps items of equal date in arrival order. */
  function Insert(x: NewsItem, s: seq<NewsItem>): (r: seq<NewsItem>)
    ensures multiset(r) == multiset(s) + multiset{x}
    decreases |s|
  {
    if s == [] then [x]
    else if Older(s[0], x) then [x] + s
    else
      assert s == [s[0]] + s[1..];
      [s[0]] + Insert(x, s[1..])
  }

  /** Newest first, as a stable sort: the reverse flag of Python's sort keeps equal keys in order. */
  function SortNewestFirst(s: seq<NewsItem>): (r: seq<NewsItem>)
    decreases |s|
  {
    if s == [] then [] else Insert(s[|s| - 1], SortNewestFirst(s[..|s| - 1]))
  }

  lemma {:induction false} InsertNewestFirst(x: NewsItem, s: seq<NewsItem>)
    requires NewestFirst(s)
    ensures NewestFirst(Insert(x, s))
    decreases |s|
  {
    if s != [] && !Older(s[0], x) {
      InsertNewestFirst(x, s[1..]);
      var r := Insert(x, s);
      assert r == [s[0]] + Insert(x, s[1..]);
      forall j | 0 < j < |r| ensures !Older(r[0], r[j]) {
        assert r[j] in multiset(Insert(x, s[1..]));
        assert r[j] == x || r[j] in multiset(s[1..]);
        if r[j] != x {
          assert r[j] in s[1..];
          var m :| 0 <= m < |s[1..]| && s[1..][m] == r[j];
          assert s[m + 1] == r[j];
        }
      }
    }
  }

  /** Inserting adds `x` at the end of its own date's group and leaves the other groups alone. */
  lemma {:induction false} InsertWithKey(x: NewsItem, s: seq<NewsItem>, k: (nat, nat))
    requires NewestFirst(s)
    ensures WithKey(Insert(x, s), k) == WithKey(s, k) + (if Key(x) == k then [x] else [])
    decreases |s|
  {
    var own := if Key(x) == k then [x] else [];
    if s == [] {
      assert Insert(x, s) == [x];
      assert WithKey([x], k) == own + WithKey([], k);
    } else if Older(s[0], x) {
      if Key(x) == k {
        WithKeyOlder(s, x);
      }
      assert Insert(x, s) == [x] + s;
      WithKeyAppend([x], s, k);
      assert WithKey([x], k) == own + WithKey([], k);
    } else {
      assert NewestFirst(s[1..]) by {
        forall i, j | 0 <= i < j < |s[1..]| ensures !Older(s[1..][i], s[1..][j]) {
          assert s[1..][i] == s[i + 1] && s[1..][j] == s[j + 1];
        }
      }
      InsertWithKey(x, s[1..], k);
      InsertBehind(x, s, k);
    }
  }

  /** When `x` goes behind the head, the head's group keeps the head in front. */
  lemma {:induction false} InsertBehind(x: NewsItem, s: seq<NewsItem>, k: (nat, nat))
    requires s != [] && !Older(s[0], x)
    requires WithKey(Insert(x, s[1..]), k) == WithKey(s[1..], k) + (if Key(x) == k then [x] else [])
    ensures WithKey(Insert(x, s), k) == WithKey(s, k) + (if Key(x) == k then [x] else [])
  {
    var head := if Key(s[0]) == k then [s[0]] else [];
    var own := if Key(x) == k then [x] else [];
    var rest := Insert(x, s[1..]);
    var t := Insert(x, s);
    assert t == [s[0]] + rest;
    assert t != [] && t[0] == s[0] && t[1..] == rest;
    calc {
      WithKey(t, k);
      head + WithKey(rest, k);
      head + (WithKey(s[1..], k) + own);
      { AppendAssoc(head, WithKey(s[1..], k), own); }
      (head + WithKey(s[1..], k)) + own;
      WithKey(s, k) + own;
    }
  }

  /** No item of a newest-first list headed by something older than `x` shares x's date. */
  lemma {:induction false} WithKeyOlder(s: seq<NewsItem>, x: NewsItem)
    requires NewestFirst(s) && s != [] && Older(s[0], x)
    ensures WithKey(s, Key(x)) == []
    decreases |s|
  {
    if |s| > 1 {
      assert !Older(s[0], s[1]);
      WithKeyOlder(s[1..], x);
    }
  }

  /** The sort puts the newest first. */
  lemma {:induction false} SortNewestFirstSorted(s: seq<NewsItem>)
    ensures NewestFirst(SortNewestFirst(s))
    decreases |s|
  {
    if s != [] {
      SortNewestFirstSorted(s[..|s| - 1]);
      InsertNewestFirst(s[|s| - 1], SortNewestFirst(s[..|s| - 1]));
    }
  }

  /** The sort keeps every item, and only those. */
  lemma {:induction false} SortNewestFirstPermutes(s: seq<NewsItem>)
    ensures multiset(SortNewestFirst(s)) == multiset(s)
    decreases |s|
  {
    if s != [] {
      SortNewestFirstPermutes(s[..|s| - 1]);
      assert s == s[..|s| - 1] + [s[|s| - 1]];
    }
  }

  /** The sort is stable: the items of each date stay in their original order. */
  lemma {:induction false} SortNewestFirstStable(s: seq<NewsItem>, k: (nat, nat))
    ensures WithKey(SortNewestFirst(s), k) == WithKey(s, k)
    decreases |s|
  {
    if s != [] {
      var init, x := s[..|s| - 1], s[|s| - 1];
      SortNewestFirstStable(init, k);
      SortNewestFirstSorted(init);
      InsertWithKey(x, SortNewestFirst(init), k);
      SplitLast(s);
      WithKeyAppend(init, [x], k);
      assert WithKey([x], k) == (if Key(x) == k then [x] else []) by {
        assert [x][1..] == [];
      }
    }
  }

  /** Specification of the news extractor: the matched items, newest first; nothing without a
      content area. */
  function NewsOf(ext: Externals, content: Option<seq<Element>>): seq<NewsItem> {
    if content.None? then [] else SortNewestFirst(MatchedNews(ext, content.value))
  }

  method ExtractNews(ext: Externals, content: Option<seq<Element>>) returns (items: seq<NewsItem>)
    ensures items == NewsOf(ext, content)
  {
    if content.None? {
      return [];
    }
    var doc := content.value;
    items := [];
    for i := 0 to |doc|
      invariant items == MatchedNews(ext, doc[..i])
    {
      assert doc[..i + 1][..i] == doc[..i];
      var item := NewsItemOf(ext, doc[i]);
      if item.Some? {
        items := items + [item.value];
      }
    }
    assert doc[..|doc|] == doc;
    items := SortNewestFirst(items);
  }

  /** What the extractor returns, as promised: newest first, exactly the matched items, and items
      of the same month in document order. */
  lemma {:induction false} ExtractedNewsOrder(ext: Externals, content: Option<seq<Element>>)
    requires content.Some?
    ensures NewestFirst(NewsOf(ext, content))
    ensures multiset(NewsOf(ext, content)) == multiset(MatchedNews(ext, content.value))
    ensures forall k :: WithKey(NewsOf(ext, content), k) == WithKey(MatchedNews(ext, content.value), k)
  {
    var m := MatchedNews(ext, content.value);
    SortNewestFirstSorted(m);
    SortNewestFirstPermutes(m);
    forall k ensures WithKey(NewsOf(ext, content), k) == WithKey(m, k) {
      SortNewestFirstStable(m, k);
    }
  }
}
