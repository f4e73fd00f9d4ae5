/** The regular expressions of the scraper, each written out as a matcher over strings with the
    backtracking behaviour of Python's `re.match` made explicit. The matchers work on positions in
    the text and cut the groups out at the end. */
module Patterns {
  import opened Text

  // ---------------------------------------------------------------------------
  // Building blocks
  // ---------------------------------------------------------------------------

  /** `(.*)$` (allowEmpty) or `(.+)$` from position `from`: the group runs to the first line break,
      and `$` accepts the end of the text or a line break that ends it. Yields where the group ends. */
  function LineTail(t: string, from: nat, allowEmpty: bool): (e: Option<nat>)
    requires from <= |t|
    ensures e.Some? ==> from <= e.value <= |t| && (allowEmpty || from < e.value)
    ensures e.Some? ==> forall i :: from <= i < e.value ==> t[i] != '\n'
    ensures e.Some? ==> e.value == |t| || (e.value == |t| - 1 && t[e.value] == '\n')
  {
    var n := FindChar(t, '\n', from);
    if n + 1 >= |t| && (allowEmpty || from < n) then Some(n) else None
  }

  /** On a single line LineTail takes everything, provided it may. */
  lemma LineTailSingleLine(t: string, from: nat, allowEmpty: bool)
    requires from <= |t| && forall i :: from <= i < |t| ==> t[i] != '\n'
    requires allowEmpty || from < |t|
    ensures LineTail(t, from, allowEmpty) == Some(|t|)
  { }

  /** The greedy choice of how much whitespace `\s{lo-from,}` takes before LineTail: the largest
      start, from `k` down to `lo`, at which LineTail matches. */
  function GreedyStart(t: string, lo: nat, k: nat, allowEmpty: bool): (r: Option<nat>)
    requires lo <= k <= |t|
    ensures r.Some? ==> lo <= r.value <= k && LineTail(t, r.value, allowEmpty).Some?
    decreases k
  {
    if LineTail(t, k, allowEmpty).Some? then Some(k)
    else if k == lo then None
    else GreedyStart(t, lo, k - 1, allowEmpty)
  }

  /** GreedyStart gives characters back one at a time: every later start fails, and it fails only
      when every start fails. */
  lemma {:induction false} GreedyStartIsLargest(t: string, lo: nat, k: nat, allowEmpty: bool)
    requires lo <= k <= |t|
    ensures var r := GreedyStart(t, lo, k, allowEmpty);
      r.Some? ==> forall i :: r.value < i <= k ==> LineTail(t, i, allowEmpty).None?
    ensures GreedyStart(t, lo, k, allowEmpty).None? ==>
      forall i :: lo <= i <= k ==> LineTail(t, i, allowEmpty).None?
    decreases k
  {
    if LineTail(t, k, allowEmpty).None? && k > lo {
      GreedyStartIsLargest(t, lo, k - 1, allowEmpty);
      GreedyStartStep(t, lo, k, allowEmpty);
    }
  }

  /** One step back: when LineTail fails at `k`, what holds below `k` holds up to `k`. */
  lemma {:induction false} GreedyStartStep(t: string, lo: nat, k: nat, allowEmpty: bool)
    requires lo < k <= |t| && LineTail(t, k, allowEmpty).None?
    requires var r := GreedyStart(t, lo, k - 1, allowEmpty);
      r.Some? ==> forall i :: r.value < i <= k - 1 ==> LineTail(t, i, allowEmpty).None?
    requires GreedyStart(t, lo, k - 1, allowEmpty).None? ==>
      forall i :: lo <= i <= k - 1 ==> LineTail(t, i, allowEmpty).None?
    ensures var r := GreedyStart(t, lo, k, allowEmpty);
      r.Some? ==> forall i :: r.value < i <= k ==> LineTail(t, i, allowEmpty).None?
    ensures GreedyStart(t, lo, k, allowEmpty).None? ==>
      forall i :: lo <= i <= k ==> LineTail(t, i, allowEmpty).None?
  {
    assert GreedyStart(t, lo, k, allowEmpty) == GreedyStart(t, lo, k - 1, allowEmpty);
  }

  /** `\s{minWs,}(.*)$` (or `(.+)$`) from position `from`, the whitespace taken greedily.
      Yields where the final group starts and ends. */
  function WsLineTail(t: string, from: nat, minWs: nat, allowEmpty: bool): (r: Option<(nat, nat)>)
    requires from <= |t|
    ensures r.Some? ==> from + minWs <= r.value.0 <= r.value.1 <= |t|
    ensures r.Some? ==> forall i :: from <= i < r.value.0 ==> IsSpace(t[i])
    ensures r.Some? ==> LineTail(t, r.value.0, allowEmpty) == Some(r.value.1)
  {
    var w := SkipWhile(t, from, IsSpace);
    if w < from + minWs then None
    else
      match GreedyStart(t, from + minWs, w, allowEmpty)
      case None => None
      case Some(k) => Some((k, LineTail(t, k, allowEmpty).value))
  }

  /** Fewer than `minWs` whitespace characters and the pattern fails. */
  lemma WsLineTailNeedsWs(t: string, from: nat, minWs: nat, allowEmpty: bool)
    requires from <= |t| && SkipWhile(t, from, IsSpace) < from + minWs
    ensures WsLineTail(t, from, minWs, allowEmpty).None?
  { }

  /** On a single line, the whitespace run is taken whole whenever the group after it can match. */
  lemma {:induction false} WsLineTailSingleLine(t: string, from: nat, minWs: nat, allowEmpty: bool)
    requires from <= |t| && forall i :: from <= i < |t| ==> t[i] != '\n'
    requires from + minWs <= SkipWhile(t, from, IsSpace)
    requires allowEmpty || SkipWhile(t, from, IsSpace) < |t|
    ensures WsLineTail(t, from, minWs, allowEmpty) == Some((SkipWhile(t, from, IsSpace), |t|))
  {
    LineTailSingleLine(t, SkipWhile(t, from, IsSpace), allowEmpty);
  }

  /** A stretch without line breaks cuts out a single-line string. */
  lemma SliceNoNewline(t: string, a: nat, b: nat)
    requires a <= b <= |t| && forall i :: a <= i < b ==> t[i] != '\n'
    ensures NoNewline(t[a..b])
  { }

  /** Clean text has no line break. */
  lemma {:induction false} CleanHasNoNewline(t: string)
    requires IsClean(t)
    ensures NoNewline(t)
  {
    forall i | 0 <= i < |t| ensures t[i] != '\n' {
      assert IsSpace('\n');
    }
  }

  predicate IsStar(c: char) { c == '*' }

  /** A two-digit year with the scraper's century rule: below 50 is this century, otherwise the last. */
  function CenturyYear(yy: nat): (year: nat)
    requires yy < 100
    ensures 1950 <= year <= 2049
    ensures year % 100 == yy
    ensures yy < 50 <==> year >= 2000
  {
    if yy < 50 then 2000 + yy else 1900 + yy
  }

  /** The value of two digits is below 100. */
  lemma {:induction false} TwoDigitsBelow100(s: string)
    requires |s| == 2 && AllDigits(s)
    ensures DigitsValue(s) < 100
  {
    assert s[..1][..0] == [];
    assert DigitsValue(s[..1]) == s[0] as int - '0' as int;
  }

  /** A string of two digits is all digits. */
  lemma TwoDigits(s: string, c: char, d: char)
    requires s == [c, d] && IsDigit(c) && IsDigit(d)
    ensures AllDigits(s)
  { }

  /** Two digits in a row cut out a string of digits. */
  lemma {:induction false} SliceTwoDigits(t: string, a: nat)
    requires a + 2 <= |t| && IsDigit(t[a]) && IsDigit(t[a + 1])
    ensures AllDigits(t[a..a + 2])
  {
    assert t[a..a + 2][0] == t[a] && t[a..a + 2][1] == t[a + 1];
  }

  /** The first position, at or after `from`, of two consecutive digits: what `re.search(r'(\d{2})', s)`
      finds when it starts at `from`. */
  function DigitPairFrom(s: string, from: nat): (r: Option<nat>)
    ensures r.Some? ==> from <= r.value && r.value + 2 <= |s|
    ensures r.Some? ==> IsDigit(s[r.value]) && IsDigit(s[r.value + 1])
    ensures r.Some? ==> forall i :: from <= i < r.value ==> !(IsDigit(s[i]) && IsDigit(s[i + 1]))
    ensures r.None? ==> forall i :: from <= i < |s| - 1 ==> !(IsDigit(s[i]) && IsDigit(s[i + 1]))
    decreases |s| - from
  {
    if from + 2 > |s| then None
    else if IsDigit(s[from]) && IsDigit(s[from + 1]) then Some(from)
    else DigitPairFrom(s, from + 1)
  }

  /** The first position of two consecutive digits in `s`. */
  function FirstDigitPair(s: string): (r: Option<nat>)
    ensures r.Some? ==> r.value + 2 <= |s| && IsDigit(s[r.value]) && IsDigit(s[r.value + 1])
    ensures r.Some? ==> forall i :: 0 <= i < r.value ==> !(IsDigit(s[i]) && IsDigit(s[i + 1]))
    ensures r.None? ==> forall i :: 0 <= i < |s| - 1 ==> !(IsDigit(s[i]) && IsDigit(s[i + 1]))
  {
    DigitPairFrom(s, 0)
  }

  // ---------------------------------------------------------------------------
  // News lines: ^(\d{2})\.(\d{2})\s+(.+)$
  // ---------------------------------------------------------------------------

  datatype NewsFields = NewsFields(yy: string, mm: string, title: string)

  function NewsLine(t: string): (r: Option<NewsFields>)
    ensures r.Some? ==> |t| >= 7 && r.value.yy == t[..2] && r.value.mm == t[3..5]
  {
    if |t| >= 5 && IsDigit(t[0]) && IsDigit(t[1]) && t[2] == '.' && IsDigit(t[3]) && IsDigit(t[4]) then
      match WsLineTail(t, 5, 1, false)
      case None => None
      case Some(g) => Some(NewsFields(t[..2], t[3..5], t[g.0..g.1]))
    else
      None
  }

  /** The groups of a news line: two digits, '.', two digits, then a non-empty single-line title. */
  lemma {:induction false} NewsLineFields(t: string)
    requires NewsLine(t).Some?
    ensures var m := NewsLine(t).value;
      t[2] == '.' && |m.yy| == 2 && AllDigits(m.yy) && |m.mm| == 2 && AllDigits(m.mm)
    ensures var m := NewsLine(t).value; |m.title| > 0 && NoNewline(m.title)
  {
    var g := WsLineTail(t, 5, 1, false).value;
    TwoDigits(t[..2], t[0], t[1]);
    TwoDigits(t[3..5], t[3], t[4]);
    SliceNoNewline(t, g.0, g.1);
  }

  /** On cleaned text the news pattern is simple: "DD.DD " followed by the title. */
  lemma {:induction false} NewsLineOnCleanText(t: string)
    requires IsClean(t)
    ensures NewsLine(t).Some? <==>
      |t| >= 7 && IsDigit(t[0]) && IsDigit(t[1]) && t[2] == '.' && IsDigit(t[3]) && IsDigit(t[4]) && t[5] == ' '
    ensures NewsLine(t).Some? ==> NewsLine(t).value.title == t[6..]
  {
    CleanHasNoNewline(t);
    if |t| >= 6 && IsDigit(t[0]) && IsDigit(t[1]) && t[2] == '.' && IsDigit(t[3]) && IsDigit(t[4]) {
      if t[5] == ' ' {
        assert |t| > 6 && !IsSpace(t[6]);
        assert SkipWhile(t, 6, IsSpace) == 6;
        assert SkipWhile(t, 5, IsSpace) == 6;
        WsLineTailSingleLine(t, 5, 1, false);
      } else {
        assert !IsSpace(t[5]);
        WsLineTailNeedsWs(t, 5, 1, false);
      }
    }
  }

  // ---------------------------------------------------------------------------
  // Project titles: ^\*?\*?\s*(\d+)\.\s*(.+)$
  // ---------------------------------------------------------------------------

  datatype ProjectFields = ProjectFields(number: string, title: string)

  /** Where the digits of a project title may start: after at most two stars and the whitespace
      after them. Each of these parts is taken greedily and none can give characters back, since a
      star is neither whitespace nor a digit and whitespace is not a digit. */
  function ProjectNumberStart(t: string): (a: nat)
    ensures a <= |t|
    ensures forall i :: 0 <= i < a ==> IsStar(t[i]) || IsSpace(t[i])
  {
    var stars := SkipWhile(t, 0, IsStar);
    SkipWhile(t, if stars < 2 then stars else 2, IsSpace)
  }

  /** Where a project title's groups are cut from, if the pattern matches: the digits from `a` to the
      '.' at `e`, and the title from `s` to `f`. */
  function ProjectCut(t: string): (r: Option<(nat, nat, nat, nat)>)
    ensures r.Some? ==> var (a, e, s, f) := r.value;
      a == ProjectNumberStart(t) && a < e && e + 1 <= s < f <= |t| && t[e] == '.'
    ensures r.Some? ==> var (a, e, s, f) := r.value;
      (forall i :: a <= i < e ==> IsDigit(t[i])) && forall i :: s <= i < f ==> t[i] != '\n'
  {
    var a := ProjectNumberStart(t);
    var e := SkipWhile(t, a, IsDigit);
    if e == a || e >= |t| || t[e] != '.' then None
    else
      match WsLineTail(t, e + 1, 0, false)
      case None => None
      case Some(g) => Some((a, e, g.0, g.1))
  }

  function ProjectLine(t: string): (r: Option<ProjectFields>)
    ensures r.Some? ==> |r.value.number| > 0
  {
    var cut := ProjectCut(t);
    if cut.None? then None else Some(ProjectFields(t[cut.value.0..cut.value.1], t[cut.value.2..cut.value.3]))
  }

  /** The groups of a project title: a digit run that follows only stars and whitespace and is
      followed by '.', then a non-empty single-line title. */
  lemma {:induction false} ProjectLineParts(t: string)
    requires ProjectLine(t).Some?
    ensures var a, n := ProjectNumberStart(t), ProjectLine(t).value.number;
      a + |n| < |t| && t[a..a + |n|] == n && t[a + |n|] == '.' && AllDigits(n)
    ensures var title := ProjectLine(t).value.title; |title| > 0 && NoNewline(title)
  {
    var cut := ProjectCut(t).value;
    assert ProjectLine(t).value == ProjectFields(t[cut.0..cut.1], t[cut.2..cut.3]);
    ProjectPartsAt(t, cut);
  }

  lemma {:induction false} ProjectPartsAt(t: string, cut: (nat, nat, nat, nat))
    requires cut.0 < cut.1 && cut.1 + 1 <= cut.2 < cut.3 <= |t| && t[cut.1] == '.'
    requires (forall i :: cut.0 <= i < cut.1 ==> IsDigit(t[i])) && forall i :: cut.2 <= i < cut.3 ==> t[i] != '\n'
    ensures var n := t[cut.0..cut.1]; cut.0 + |n| < |t| && t[cut.0..cut.0 + |n|] == n && t[cut.0 + |n|] == '.' && AllDigits(n)
    ensures var title := t[cut.2..cut.3]; |title| > 0 && NoNewline(title)
  {
    SliceNoNewline(t, cut.2, cut.3);
  }

  /** Where the text after a mark at `k` starts in clean text: past the mark and the single space
      that may follow it. */
  function AfterMark(t: string, k: nat): (n: nat)
    ensures n == k + 1 || n == k + 2
  {
    if k + 1 < |t| && t[k + 1] == ' ' then k + 2 else k + 1
  }

  /** In clean text the whitespace after a mark is at most one space. */
  lemma {:induction false} AfterMarkOnCleanText(t: string, k: nat)
    requires IsClean(t) && k < |t|
    ensures AfterMark(t, k) == SkipWhile(t, k + 1, IsSpace)
  {
    if k + 1 < |t| {
      var w := SpaceAfter(t, k + 1);
    }
  }

  /** The project pattern on a single line that does not end in whitespace, in positions: it
      matches exactly when digits after the leading stars and whitespace are followed by a '.' and
      at least one more character; the title then runs from the first non-space to the end. */
  lemma {:induction false} ProjectCutOnSingleLine(t: string)
    requires forall i :: 0 <= i < |t| ==> t[i] != '\n'
    requires |t| > 0 ==> !IsSpace(t[|t| - 1])
    ensures var a := ProjectNumberStart(t); var e := SkipWhile(t, a, IsDigit);
      ProjectCut(t).Some? <==> (a < e && e + 1 < |t| && t[e] == '.')
    ensures ProjectCut(t).Some? ==> var cut := ProjectCut(t).value;
      cut.2 == SkipWhile(t, cut.1 + 1, IsSpace) && cut.3 == |t|
  {
    var a: nat := ProjectNumberStart(t);
    var e: nat := SkipWhile(t, a, IsDigit);
    if a < e && e < |t| && t[e] == '.' {
      if e + 1 < |t| {
        var w := SkipWhile(t, e + 1, IsSpace);
        assert w < |t|;
        WsLineTailSingleLine(t, e + 1, 0, false);
      } else {
        assert LineTail(t, |t|, false).None?;
        assert GreedyStart(t, |t|, |t|, false).None?;
        assert WsLineTail(t, e + 1, 0, false).None?;
      }
    }
  }

  /** On cleaned text the project pattern is simple: the digits after the leading stars and space,
      a '.', and at least one more character; the title is what follows the '.' and its space. */
  lemma {:induction false} ProjectLineOnCleanText(t: string)
    requires IsClean(t)
    ensures var a := ProjectNumberStart(t); var e := SkipWhile(t, a, IsDigit);
      ProjectLine(t).Some? <==> (a < e && e + 1 < |t| && t[e] == '.')
    ensures ProjectLine(t).Some? ==> var a := ProjectNumberStart(t); var e := SkipWhile(t, a, IsDigit);
      e < |t| && ProjectLine(t).value == ProjectFields(t[a..e], t[AfterMark(t, e)..])
  {
    CleanHasNoNewline(t);
    ProjectCutOnSingleLine(t);
    if ProjectCut(t).Some? {
      var cut := ProjectCut(t).value;
      var a := ProjectNumberStart(t);
      var e := SkipWhile(t, a, IsDigit);
      assert cut.0 == a && cut.1 == e;
      AfterMarkOnCleanText(t, e);
      assert cut.2 == AfterMark(t, e) && cut.3 == |t|;
      assert ProjectLine(t).value == ProjectFields(t[cut.0..cut.1], t[cut.2..cut.3]);
    }
  }

  /** In clean text, the whitespace run that starts at a position inside the text is at most one
      space and is followed by a character. */
  lemma {:induction false} SpaceAfter(t: string, k: nat) returns (w: nat)
    requires IsClean(t) && k < |t|
    ensures w == SkipWhile(t, k, IsSpace) && w < |t|
    ensures w == if t[k] == ' ' then k + 1 else k
  {
    w := SkipWhile(t, k, IsSpace);
    if t[k] == ' ' {
      assert k + 1 < |t| && !(t[k] == ' ' && t[k + 1] == ' ');
      assert !IsSpace(t[k + 1]);
    } else {
      assert !IsSpace(t[k]);
    }
  }

  /** A numbered project title is recognised. */
  lemma {:induction false} ProjectLineExample(t: string)
    requires t == "1. Cancer"
    ensures ProjectLine(t) == Some(ProjectFields("1", "Cancer"))
  {
    assert IsClean(t);
    assert ProjectNumberStart(t) == 0;
    assert SkipWhile(t, 0, IsDigit) == 1;
    ProjectLineOnCleanText(t);
    assert t[0..1] == "1";
    assert t[3..] == "Cancer";
  }

  // ---------------------------------------------------------------------------
  // Member entries, alumni-aware scraper: ^([^\(]+?)\s*\(([^)]+)\)(.*)$
  // ---------------------------------------------------------------------------

  datatype MemberFields = MemberFields(name: string, info: string, rest: string)

  /** Where the lazy first group `([^\(]+?)\s*` ends when the '(' is at `p`: as early as possible,
      after at least one character, so that only whitespace separates it from the '('. */
  function LazyNameEnd(t: string, p: nat): (n: nat)
    requires 1 <= p <= |t|
    ensures 1 <= n <= p
    ensures forall i :: n <= i < p ==> IsSpace(t[i])
    ensures n > 1 ==> !IsSpace(t[n - 1])
    decreases p
  {
    if p == 1 || !IsSpace(t[p - 1]) then p else LazyNameEnd(t, p - 1)
  }

  /** Where a member entry's groups are cut from, if the pattern matches: the first '(' at `p`, the
      first ')' after it at `q`, and the end `e` of the rest. The first group cannot pass a '(', so the
      '(' of the pattern is the first one of the text and the info runs to the first ')' after it;
      nothing can backtrack. */
  function MemberCut(t: string): (r: Option<(nat, nat, nat)>)
    ensures '(' !in t ==> r.None?
    ensures r.Some? ==> var (p, q, e) := r.value;
      p == FindChar(t, '(', 0) && q == FindChar(t, ')', p + 1) && 1 <= p && p + 1 < q && q + 1 <= e <= |t|
    ensures r.Some? ==> var (p, q, e) := r.value;
      (forall i :: 0 <= i < p ==> t[i] != '(') && t[p] == '(' && t[q] == ')'
    ensures r.Some? ==> var (p, q, e) := r.value; forall i :: p + 1 <= i < q ==> t[i] != ')'
    ensures r.Some? ==> var (p, q, e) := r.value;
      (forall i :: q + 1 <= i < e ==> t[i] != '\n') && (e == |t| || (e == |t| - 1 && t[e] == '\n'))
  {
    var p := FindChar(t, '(', 0);
    if p == |t| || p == 0 then None
    else
      var q := FindChar(t, ')', p + 1);
      if q == |t| || q == p + 1 then None
      else
        match LineTail(t, q + 1, true)
        case None => None
        case Some(e) => Some((p, q, e))
  }

  /** The groups cut at the positions a member-entry match finds. */
  function MemberFieldsOf(t: string, cut: (nat, nat, nat)): MemberFields
    requires 1 <= cut.0 < cut.1 && cut.1 + 1 <= cut.2 <= |t|
  {
    MemberFields(t[..LazyNameEnd(t, cut.0)], t[cut.0 + 1..cut.1], t[cut.1 + 1..cut.2])
  }

  function MemberEntry(t: string): (r: Option<MemberFields>)
    ensures '(' !in t ==> r.None?
  {
    var cut := MemberCut(t);
    if cut.None? then None else Some(MemberFieldsOf(t, cut.value))
  }

  /** The groups of a member entry: a non-empty name without '(', a non-empty info without ')',
      and a rest on one line. */
  lemma {:induction false} MemberEntryFields(t: string)
    requires MemberEntry(t).Some?
    ensures var m := MemberEntry(t).value; |m.name| > 0 && '(' !in m.name
    ensures var m := MemberEntry(t).value; |m.info| > 0 && ')' !in m.info && NoNewline(m.rest)
  {
    var cut := MemberCut(t).value;
    assert MemberEntry(t).value == MemberFieldsOf(t, cut);
    MemberFieldsAt(t, cut);
  }

  lemma {:induction false} MemberFieldsAt(t: string, cut: (nat, nat, nat))
    requires 1 <= cut.0 && cut.0 + 1 < cut.1 && cut.1 + 1 <= cut.2 <= |t|
    requires forall i :: 0 <= i < cut.0 ==> t[i] != '('
    requires forall i :: cut.0 + 1 <= i < cut.1 ==> t[i] != ')'
    requires forall i :: cut.1 + 1 <= i < cut.2 ==> t[i] != '\n'
    ensures var m := MemberFieldsOf(t, cut); |m.name| > 0 && '(' !in m.name
    ensures var m := MemberFieldsOf(t, cut); |m.info| > 0 && ')' !in m.info && NoNewline(m.rest)
  {
    PrefixLacks(t, cut.0, LazyNameEnd(t, cut.0), '(');
    SliceLacks(t, cut.0 + 1, cut.1, ')');
    SliceNoNewline(t, cut.1 + 1, cut.2);
  }

  /** Where the groups sit: around the first '(' and the first ')' after it. The name opens the text,
      only whitespace separates it from the '(', the info fills the parentheses and the rest runs to
      the end, less an optional final line break. */
  lemma {:induction false} MemberEntryPositions(t: string) returns (p: nat, q: nat)
    requires MemberEntry(t).Some?
    ensures p == FindChar(t, '(', 0) && p < q < |t| && q == FindChar(t, ')', p + 1)
    ensures var m := MemberEntry(t).value; |m.name| <= p && t[..|m.name|] == m.name
    ensures var m := MemberEntry(t).value; forall i :: |m.name| <= i < p ==> IsSpace(t[i])
    ensures var m := MemberEntry(t).value; t[p + 1..q] == m.info
    ensures var m := MemberEntry(t).value; t[q + 1..] == m.rest || t[q + 1..] == m.rest + "\n"
  {
    var cut := MemberCut(t).value;
    p, q := cut.0, cut.1;
    assert MemberEntry(t).value == MemberFieldsOf(t, cut);
    MemberPositionsAt(t, cut);
  }

  lemma {:induction false} MemberPositionsAt(t: string, cut: (nat, nat, nat))
    requires 1 <= cut.0 < cut.1 && cut.1 + 1 <= cut.2 <= |t|
    requires cut.2 == |t| || (cut.2 == |t| - 1 && t[cut.2] == '\n')
    ensures var m := MemberFieldsOf(t, cut); |m.name| <= cut.0 && t[..|m.name|] == m.name
    ensures var m := MemberFieldsOf(t, cut); forall i :: |m.name| <= i < cut.0 ==> IsSpace(t[i])
    ensures var m := MemberFieldsOf(t, cut); t[cut.0 + 1..cut.1] == m.info
    ensures var m := MemberFieldsOf(t, cut); t[cut.1 + 1..] == m.rest || t[cut.1 + 1..] == m.rest + "\n"
  {
    var q, e := cut.1, cut.2;
    assert e == |t| || t[q + 1..] == t[q + 1..e] + "\n";
  }

  /** A matched member entry is its name, some whitespace, the parenthesised info and the rest, and
      nothing else. */
  lemma {:induction false} MemberEntryParts(t: string) returns (ws: string)
    requires MemberEntry(t).Some?
    ensures forall i :: 0 <= i < |ws| ==> IsSpace(ws[i])
    ensures var m := MemberEntry(t).value;
      t == m.name + ws + "(" + m.info + ")" + m.rest || t == m.name + ws + "(" + m.info + ")" + m.rest + "\n"
  {
    var cut := MemberCut(t).value;
    assert MemberEntry(t).value == MemberFieldsOf(t, cut);
    ws := MemberPartsAt(t, cut);
  }

  lemma {:induction false} MemberPartsAt(t: string, cut: (nat, nat, nat)) returns (ws: string)
    requires 1 <= cut.0 < cut.1 && cut.1 + 1 <= cut.2 <= |t| && t[cut.0] == '(' && t[cut.1] == ')'
    requires cut.2 == |t| || (cut.2 == |t| - 1 && t[cut.2] == '\n')
    ensures forall i :: 0 <= i < |ws| ==> IsSpace(ws[i])
    ensures var m := MemberFieldsOf(t, cut);
      t == m.name + ws + "(" + m.info + ")" + m.rest || t == m.name + ws + "(" + m.info + ")" + m.rest + "\n"
  {
    var p, q := cut.0, cut.1;
    MemberPositionsAt(t, cut);
    var m := MemberFieldsOf(t, cut);
    var n := |m.name|;
    ws := t[n..p];
    Reassemble(t, n, p, q);
    var front := m.name + ws + "(" + m.info + ")";
    assert t == front + t[q + 1..];
    if t[q + 1..] != m.rest {
      AppendAssoc(front, m.rest, "\n");
    }
  }

  /** The second parenthesis a member entry needs: the first ')' after the '(' at `p`, or the end. */
  function CloseAfter(t: string, p: nat): (q: nat)
    ensures q <= |t|
  {
    if p < |t| then FindChar(t, ')', p + 1) else |t|
  }

  /** Where a name before a '(' at `p` ends in clean text: at the single space before the '(', if
      there is one, or at the '('. */
  function NameEnd(t: string, p: nat): (n: nat)
    requires 1 <= p <= |t|
    ensures n <= p && forall i :: n <= i < p ==> t[i] == ' '
  {
    if t[p - 1] == ' ' then p - 1 else p
  }

  /** In clean text the lazy name ends at the '(' or at the single space before it. */
  lemma {:induction false} LazyNameEndOnCleanText(t: string, p: nat)
    requires IsClean(t) && 1 <= p < |t|
    ensures LazyNameEnd(t, p) == NameEnd(t, p)
  {
    if t[p - 1] == ' ' {
      assert p >= 2;
      assert t[p - 2] != ' ';
      assert !IsSpace(t[p - 2]);
    } else {
      assert !IsSpace(t[p - 1]);
    }
  }

  /** On cleaned text the member pattern is simple: a '(' that is not the first character, and a
      ')' after it with at least one character between. The name is the text before the '(' less
      the space there, the info fills the parentheses and the rest is everything after them. */
  lemma {:induction false} MemberEntryOnCleanText(t: string)
    requires IsClean(t)
    ensures var p := FindChar(t, '(', 0); var q := CloseAfter(t, p);
      MemberEntry(t).Some? <==> 1 <= p && p + 1 < q < |t|
    ensures var p := FindChar(t, '(', 0); var q := CloseAfter(t, p);
      MemberEntry(t).Some? ==> (1 <= p < q < |t| &&
        MemberEntry(t).value == MemberFields(t[..NameEnd(t, p)], t[p + 1..q], t[q + 1..]))
  {
    var p: nat := FindChar(t, '(', 0);
    var q: nat := CloseAfter(t, p);
    CleanHasNoNewline(t);
    if 1 <= p && p + 1 < q < |t| {
      var f: nat := |t|;
      LineTailSingleLine(t, q + 1, true);
      assert MemberCut(t) == Some((p, q, f));
      LazyNameEndOnCleanText(t, p);
    }
  }

  /** A member entry with a parenthesised degree is recognised. */
  lemma {:induction false} MemberEntryExample(t: string)
    requires t == "Wang (PhD) x"
    ensures MemberEntry(t) == Some(MemberFields("Wang", "PhD", " x"))
  {
    assert IsClean(t);
    assert FindChar(t, '(', 5) == 5;
    assert FindChar(t, '(', 0) == 5;
    assert FindChar(t, ')', 9) == 9;
    assert FindChar(t, ')', 6) == 9;
    MemberEntryOnCleanText(t);
    assert t[..4] == "Wang" && t[6..9] == "PhD" && t[10..] == " x";
  }

  /** A prefix of the text before the first occurrence of a character lacks it. */
  lemma PrefixLacks(t: string, p: nat, n: nat, c: char)
    requires n <= p <= |t| && forall i :: 0 <= i < p ==> t[i] != c
    ensures c !in t[..n]
  { }

  /** A stretch of the text without a character cuts out a string without it. */
  lemma SliceLacks(t: string, a: nat, b: nat, c: char)
    requires a <= b <= |t| && forall i :: a <= i < b ==> t[i] != c
    ensures c !in t[a..b]
  { }

  /** A text is the concatenation of its pieces around two positions. */
  lemma {:induction false} Reassemble(t: string, n: nat, p: nat, q: nat)
    requires n <= p < q < |t| && t[p] == '(' && t[q] == ')'
    ensures t == t[..n] + t[n..p] + "(" + t[p + 1..q] + ")" + t[q + 1..]
  {
    assert [t[p]] == "(" && [t[q]] == ")";
  }

  // ---------------------------------------------------------------------------
  // Member entries, older scraper: ^([^\(]+?)\s*\((\d{2})-?\s*(\w*)\)\s*(.*)$
  // ---------------------------------------------------------------------------

  datatype StrictFields = StrictFields(name: string, yy: string, dept: string, research: string)

  /** The end of the run of word characters (`\w*`) that starts at `from`. */
  function SkipWordChars(s: string, from: nat): (n: nat)
    requires from <= |s|
    ensures from <= n <= |s|
    ensures forall i :: from <= i < n ==> IsWordChar(s[i])
    ensures n < |s| ==> !IsWordChar(s[n])
    decreases |s| - from
  {
    if from == |s| || !IsWordChar(s[from]) then from else SkipWordChars(s, from + 1)
  }

  /** Where the department may start after `-?\s*` from position `from`: past an optional '-' and
      the maximal whitespace run after it. */
  function DeptStart(t: string, from: nat): (b: nat)
    requires from <= |t|
    ensures from <= b <= |t|
  {
    SkipWhile(t, if from < |t| && t[from] == '-' then from + 1 else from, IsSpace)
  }

  /** Where a strict entry's groups are cut from: the first '(' at `open`, two digits right after
      it, a department of word characters from `dept` to the ')' at `close` and a single-line
      research text from `research` to `end`. */
  datatype StrictSpans = StrictSpans(open: nat, dept: nat, close: nat, research: nat, end: nat)

  /** The strict entry's spans, if the pattern matches. The first group cannot pass a '(' and the
      digits must follow one, so the '(' is the first one. After the digits come `-?\s*(\w*)\)`: an
      optional '-', the maximal whitespace run, the maximal word-character run and ')'. A shorter
      choice at any of these steps leaves a character that the next step cannot take, so only the
      whitespace before the last group, `\s*(.*)$`, backtracks. */
  function StrictCut(t: string): (r: Option<StrictSpans>)
    ensures '(' !in t ==> r.None?
    ensures r.Some? ==> var x := r.value;
      x.open == FindChar(t, '(', 0) && 1 <= x.open && x.open + 3 <= x.dept <= x.close < x.research <= x.end <= |t|
    ensures r.Some? ==> IsDigit(t[r.value.open + 1]) && IsDigit(t[r.value.open + 2])
    ensures r.Some? ==> var x := r.value;
      x.dept == DeptStart(t, x.open + 3) && x.close == SkipWordChars(t, x.dept) && t[x.close] == ')'
    ensures r.Some? ==> forall i :: 0 <= i < r.value.open ==> t[i] != '('
    ensures r.Some? ==> forall i :: r.value.dept <= i < r.value.close ==> IsWordChar(t[i])
    ensures r.Some? ==> forall i :: r.value.research <= i < r.value.end ==> t[i] != '\n'
  {
    var p := FindChar(t, '(', 0);
    if p == |t| || p == 0 || p + 3 > |t| || !IsDigit(t[p + 1]) || !IsDigit(t[p + 2]) then None
    else
      var b := DeptStart(t, p + 3);
      var c := SkipWordChars(t, b);
      if c >= |t| || t[c] != ')' then None
      else
        match WsLineTail(t, c + 1, 0, true)
        case None => None
        case Some(g) => Some(StrictSpans(p, b, c, g.0, g.1))
  }

  /** The name is the lazy group before the first '(', and two digits must follow that '('. */
  function StrictMemberEntry(t: string): (r: Option<StrictFields>)
    ensures '(' !in t ==> r.None?
  {
    var cut := StrictCut(t);
    if cut.None? then None else Some(StrictFieldsOf(t, cut.value))
  }

  /** The fields of a strict entry: a non-empty name without '(', two year digits, a department of
      word characters and a single-line research text. */
  lemma {:induction false} StrictMemberEntryFields(t: string)
    requires StrictMemberEntry(t).Some?
    ensures var m := StrictMemberEntry(t).value; |m.name| > 0 && '(' !in m.name
    ensures var m := StrictMemberEntry(t).value; |m.yy| == 2 && AllDigits(m.yy)
    ensures var m := StrictMemberEntry(t).value;
      (forall i :: 0 <= i < |m.dept| ==> IsWordChar(m.dept[i])) && NoNewline(m.research)
  {
    var cut := StrictCut(t).value;
    assert StrictMemberEntry(t).value == StrictFieldsOf(t, cut);
    StrictFieldsAt(t, cut);
  }

  /** The fields cut at the positions a strict match finds. */
  function StrictFieldsOf(t: string, x: StrictSpans): StrictFields
    requires 1 <= x.open && x.open + 3 <= x.dept <= x.close <= x.research <= x.end <= |t|
  {
    StrictFields(t[..LazyNameEnd(t, x.open)], t[x.open + 1..x.open + 3], t[x.dept..x.close], t[x.research..x.end])
  }

  /** The fields cut from the positions a strict match finds have the shapes the pattern demands. */
  lemma {:induction false} StrictFieldsAt(t: string, x: StrictSpans)
    requires 1 <= x.open && x.open + 3 <= x.dept <= x.close <= x.research <= x.end <= |t|
    requires IsDigit(t[x.open + 1]) && IsDigit(t[x.open + 2]) && forall i :: 0 <= i < x.open ==> t[i] != '('
    requires forall i :: x.dept <= i < x.close ==> IsWordChar(t[i])
    requires forall i :: x.research <= i < x.end ==> t[i] != '\n'
    ensures var m := StrictFieldsOf(t, x);
      |m.name| > 0 && '(' !in m.name && |m.yy| == 2 && AllDigits(m.yy)
      && (forall i :: 0 <= i < |m.dept| ==> IsWordChar(m.dept[i])) && NoNewline(m.research)
  {
    var p := x.open;
    PrefixLacks(t, p, LazyNameEnd(t, p), '(');
    SliceTwoDigits(t, p + 1);
    SliceWordChars(t, x.dept, x.close);
    SliceNoNewline(t, x.research, x.end);
  }

  /** The shape the strict pattern asks of cleaned text: two digits right after the first '(',
      which is not the first character, then word characters after an optional '-' and an optional
      space, up to a ')'. */
  predicate StrictShape(t: string) {
    var p := FindChar(t, '(', 0);
    && 1 <= p && p + 3 <= |t| && IsDigit(t[p + 1]) && IsDigit(t[p + 2])
    && var c := SkipWordChars(t, DeptStart(t, p + 3)); c < |t| && t[c] == ')'
  }

  /** The strict pattern on a single line matches exactly when the text has the strict shape,
      and the research then runs from the first non-space after the ')' to the end. */
  lemma {:induction false} StrictCutOnSingleLine(t: string)
    requires forall i :: 0 <= i < |t| ==> t[i] != '\n'
    ensures StrictCut(t).Some? <==> StrictShape(t)
    ensures StrictCut(t).Some? ==> var x := StrictCut(t).value;
      x.research == SkipWhile(t, x.close + 1, IsSpace) && x.end == |t|
  {
    var p: nat := FindChar(t, '(', 0);
    if 1 <= p && p + 3 <= |t| && IsDigit(t[p + 1]) && IsDigit(t[p + 2]) {
      var c := SkipWordChars(t, DeptStart(t, p + 3));
      if c < |t| && t[c] == ')' {
        WsLineTailSingleLine(t, c + 1, 0, true);
      }
    }
  }

  /** The strict pattern on cleaned text: as on any single line, with at most one space before
      the research. */
  lemma {:induction false} StrictCutOnCleanText(t: string)
    requires IsClean(t)
    ensures StrictCut(t).Some? <==> StrictShape(t)
    ensures StrictCut(t).Some? ==> var x := StrictCut(t).value;
      x.dept == DeptStart(t, x.open + 3) && x.close == SkipWordChars(t, x.dept) && x.research == AfterMark(t, x.close) && x.end == |t|
  {
    CleanHasNoNewline(t);
    StrictCutOnSingleLine(t);
    if StrictCut(t).Some? {
      AfterMarkOnCleanText(t, StrictCut(t).value.close);
    }
  }

  /** On cleaned text the strict pattern is simple: two digits right after the first '(', which is
      not the first character, then an optional '-', an optional space and word characters up to
      a ')'. The name is the text before the '(' less the space there, and the research is
      everything after the ')' and its space. */
  lemma {:induction false} StrictMemberEntryOnCleanText(t: string)
    requires IsClean(t)
    ensures StrictMemberEntry(t).Some? <==> StrictShape(t)
    ensures StrictShape(t) ==>
      var p := FindChar(t, '(', 0); var b := DeptStart(t, p + 3); var c := SkipWordChars(t, b);
      StrictMemberEntry(t).value == StrictFields(t[..NameEnd(t, p)], t[p + 1..p + 3], t[b..c], t[AfterMark(t, c)..])
  {
    StrictCutOnCleanText(t);
    if StrictCut(t).Some? {
      StrictFieldsOnCleanText(t, StrictCut(t).value);
    }
  }

  /** The fields cut from spans placed as on cleaned text. */
  lemma {:induction false} StrictFieldsOnCleanText(t: string, x: StrictSpans)
    requires IsClean(t) && 1 <= x.open && x.open + 3 <= x.dept <= x.close < x.research <= x.end <= |t|
    requires x.open == FindChar(t, '(', 0) && x.dept == DeptStart(t, x.open + 3) && x.close == SkipWordChars(t, x.dept)
    requires x.research == AfterMark(t, x.close) && x.end == |t|
    ensures StrictFieldsOf(t, x) == StrictFields(t[..NameEnd(t, x.open)], t[x.open + 1..x.open + 3], t[x.dept..x.close], t[AfterMark(t, x.close)..])
  {
    LazyNameEndOnCleanText(t, x.open);
  }

  /** A strict entry with year and department is recognised. */
  lemma {:induction false} StrictMemberEntryExample(t: string)
    requires t == "Li (07-LS) AI"
    ensures StrictMemberEntry(t) == Some(StrictFields("Li", "07", "LS", "AI"))
  {
    StrictExamplePositions(t);
    StrictMemberEntryOnCleanText(t);
    assert t[..2] == "Li" && t[4..6] == "07" && t[7..9] == "LS" && t[11..] == "AI" by {
      StrictExampleSlices(t);
    }
  }

  lemma {:induction false} StrictExampleSlices(t: string)
    requires t == "Li (07-LS) AI"
    ensures t[..2] == "Li" && t[4..6] == "07" && t[7..9] == "LS" && t[11..] == "AI"
  {
    assert t[..2] == "Li" && t[4..6] == "07";
  }

  /** Where the strict pattern finds the parts of the example entry. */
  lemma {:induction false} StrictExamplePositions(t: string)
    requires t == "Li (07-LS) AI"
    ensures IsClean(t) && StrictShape(t) && FindChar(t, '(', 0) == 3
    ensures DeptStart(t, 6) == 7 && SkipWordChars(t, 7) == 9 && NameEnd(t, 3) == 2 && AfterMark(t, 9) == 11
  {
    assert FindChar(t, '(', 0) == 3 by {
      assert FindChar(t, '(', 3) == 3;
    }
    assert SkipWordChars(t, 7) == 9 by {
      assert SkipWordChars(t, 9) == 9;
    }
    assert DeptStart(t, 6) == 7;
    assert IsClean(t);
  }

  /** A stretch of word characters cuts out a string of word characters. */
  lemma SliceWordChars(t: string, a: nat, b: nat)
    requires a <= b <= |t| && forall i :: a <= i < b ==> IsWordChar(t[i])
    ensures forall i :: 0 <= i < b - a ==> IsWordChar(t[a..b][i])
  { }

  /** Where the fields of a strict entry sit: the name opens the text, only whitespace separates it
      from the first '(', and the year digits follow that '(' directly. */
  lemma StrictMemberEntryParts(t: string)
    requires StrictMemberEntry(t).Some?
    ensures var m, p := StrictMemberEntry(t).value, FindChar(t, '(', 0);
      |m.name| <= p && p + 3 <= |t| && t[p] == '(' && t[p + 1..p + 3] == m.yy
    ensures var m, p := StrictMemberEntry(t).value, FindChar(t, '(', 0);
      t[..|m.name|] == m.name && (forall i :: |m.name| <= i < p ==> IsSpace(t[i]))
  { }
}
