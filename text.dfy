/** String operations of the scraper's host language, written out over `seq<char>`.
    Character classes are restricted to ASCII plus the CJK Unified Ideographs block. */
module Text {

  datatype Option<T> = None | Some(value: T)

  // ---------------------------------------------------------------------------
  // Character classes
  // ---------------------------------------------------------------------------

  /** Whitespace as the host language sees it within ASCII: \t \n \v \f \r, \x1c-\x1f and space. */
  predicate IsSpace(c: char) {
    c == ' ' || ('\t' <= c <= '\r') || ('\U{1C}' <= c <= '\U{1F}')
  }

  predicate NotSpace(c: char) { !IsSpace(c) }

  predicate IsDigit(c: char) { '0' <= c <= '9' }

  /** A code point of the CJK Unified Ideographs block, U+4E00 to U+9FFF. */
  predicate IsCjk(c: char) { '\U{4E00}' <= c <= '\U{9FFF}' }

  /** The word characters of a regular expression, restricted to ASCII letters, digits, '_' and CJK. */
  predicate IsWordChar(c: char) {
    ('a' <= c <= 'z') || ('A' <= c <= 'Z') || IsDigit(c) || c == '_' || IsCjk(c)
  }

  predicate NotNewline(c: char) { c != '\n' }

  predicate HasCjk(s: string) {
    exists i :: 0 <= i < |s| && IsCjk(s[i])
  }

  predicate AllDigits(s: string) {
    forall i :: 0 <= i < |s| ==> IsDigit(s[i])
  }

  predicate NoSpace(s: string) {
    forall i :: 0 <= i < |s| ==> !IsSpace(s[i])
  }

  predicate NoNewline(s: string) {
    forall i :: 0 <= i < |s| ==> s[i] != '\n'
  }

  function LowerChar(c: char): (d: char)
    ensures 'A' <= c <= 'Z' ==> 'a' <= d <= 'z'
    ensures !('A' <= c <= 'Z') ==> d == c
  {
    if 'A' <= c <= 'Z' then (c as int - 'A' as int + 'a' as int) as char else c
  }

  /** lower(), ASCII letters only. */
  function Lower(s: string): (r: string)
    ensures |r| == |s|
    ensures forall i :: 0 <= i < |s| ==> r[i] == LowerChar(s[i])
  {
    seq(|s|, i requires 0 <= i < |s| => LowerChar(s[i]))
  }

  /** Lower-casing works character by character, so it distributes over concatenation. */
  lemma {:induction false} LowerConcat(a: string, b: string)
    ensures Lower(a + b) == Lower(a) + Lower(b)
  {
    assert forall i :: 0 <= i < |a + b| ==> (a + b)[i] == if i < |a| then a[i] else b[i - |a|];
  }

  /** Lower-casing a joined list lower-cases the separator and leaves words without capitals alone. */
  lemma {:induction false} LowerJoin(ws: seq<string>, sep: string)
    requires forall k, i :: 0 <= k < |ws| && 0 <= i < |ws[k]| ==> !('A' <= ws[k][i] <= 'Z')
    ensures Lower(Join(ws, sep)) == Join(ws, Lower(sep))
    decreases |ws|
  {
    if |ws| > 1 {
      var rest := Join(ws[1..], sep);
      LowerConcat(ws[0] + sep, rest);
      LowerConcat(ws[0], sep);
      assert Lower(ws[0]) == ws[0];
      LowerJoin(ws[1..], sep);
    } else if |ws| == 1 {
      assert Lower(ws[0]) == ws[0];
    }
  }

  /** A string that has been through whitespace collapsing and stripping:
      no whitespace at either end, every whitespace character a plain space, no two spaces in a row. */
  predicate IsClean(s: string) {
    && (|s| > 0 ==> !IsSpace(s[0]) && !IsSpace(s[|s| - 1]))
    && (forall i :: 0 <= i < |s| && IsSpace(s[i]) ==> s[i] == ' ')
    && (forall i :: 0 <= i < |s| - 1 ==> !(s[i] == ' ' && s[i + 1] == ' '))
  }

  // ---------------------------------------------------------------------------
  // Searching
  // ---------------------------------------------------------------------------

  predicate OccursAt(s: string, pat: string, i: nat) {
    i + |pat| <= |s| && s[i..i + |pat|] == pat
  }

  predicate StartsWith(s: string, prefix: string) {
    |prefix| <= |s| && s[..|prefix|] == prefix
  }

  predicate EndsWith(s: string, suffix: string) {
    |suffix| <= |s| && s[|s| - |suffix|..] == suffix
  }

  /** str.find: the first position at which `pat` occurs. */
  function IndexOf(s: string, pat: string): (r: Option<nat>)
    ensures r.Some? ==> OccursAt(s, pat, r.value)
    ensures r.Some? ==> forall j :: 0 <= j < r.value ==> !OccursAt(s, pat, j)
    ensures r.None? ==> forall j :: 0 <= j <= |s| ==> !OccursAt(s, pat, j)
    decreases |s|
  {
    if StartsWith(s, pat) then Some(0)
    else if |s| <= |pat| then None
    else
      OccursShift(s, pat);
      match IndexOf(s[1..], pat)
      case None => None
      case Some(k) => Some(k + 1)
  }

  lemma {:induction false} OccursShift(s: string, pat: string)
    requires |s| > 0
    ensures forall j: nat :: 1 <= j ==> (OccursAt(s, pat, j) <==> OccursAt(s[1..], pat, j - 1))
    ensures StartsWith(s, pat) <==> OccursAt(s, pat, 0)
  {
    forall j: nat | 1 <= j ensures OccursAt(s, pat, j) <==> OccursAt(s[1..], pat, j - 1) {
      if j - 1 + |pat| <= |s[1..]| { assert s[1..][j - 1..j - 1 + |pat|] == s[j..j + |pat|]; }
    }
  }

  /** The `in` operator on strings. */
  predicate Contains(s: string, pat: string) {
    IndexOf(s, pat).Some?
  }

  lemma {:induction false} ContainsAt(s: string, pat: string, i: nat)
    requires OccursAt(s, pat, i)
    ensures Contains(s, pat)
  {
  }

  /** A piece of a text that lacks a pattern lacks it too. */
  lemma {:induction false} SliceLacksPattern(s: string, a: nat, b: nat, pat: string)
    requires a <= b <= |s| && !Contains(s, pat)
    ensures !Contains(s[a..b], pat)
  {
    var r := s[a..b];
    if Contains(r, pat) {
      var j := IndexOf(r, pat).value;
      assert OccursAt(r, pat, j);
      assert forall k :: j <= k < j + |pat| ==> r[k] == s[a + k];
      assert r[j..j + |pat|] == s[a + j..a + j + |pat|];
      ContainsAt(s, pat, a + j);
    }
  }

  /** any(kw in s for kw in kws) */
  predicate ContainsAny(s: string, kws: seq<string>) {
    exists k :: 0 <= k < |kws| && Contains(s, kws[k])
  }

  /** str.endswith with a tuple of suffixes. */
  predicate EndsWithAny(s: string, suffixes: seq<string>) {
    exists k :: 0 <= k < |suffixes| && EndsWith(s, suffixes[k])
  }

  /** The first entry of an ordered keyword table whose keyword occurs in `s` decides the tag. */
  function FirstMatch<T>(table: seq<(string, T)>, s: string): (r: Option<T>)
    ensures r.None? <==> forall k :: 0 <= k < |table| ==> !Contains(s, table[k].0)
    ensures r.Some? ==> exists k :: 0 <= k < |table| && Contains(s, table[k].0) && r == Some(table[k].1)
                                    && forall j :: 0 <= j < k ==> !Contains(s, table[j].0)
  {
    if table == [] then None
    else if Contains(s, table[0].0) then Some(table[0].1)
    else
      assert forall k :: 0 < k < |table| ==> table[k] == table[1..][k - 1];
      FirstMatch(table[1..], s)
  }

  /** The loop over an ordered keyword table that stops at the first keyword found. */
  method FindFirst<T>(table: seq<(string, T)>, s: string) returns (found: Option<T>)
    ensures found == FirstMatch(table, s)
  {
    found := None;
    var k := 0;
    while k < |table|
      invariant 0 <= k <= |table|
      invariant FirstMatch(table, s) == FirstMatch(table[k..], s)
      decreases |table| - k
    {
      var (keyword, tag) := table[k];
      if Contains(s, keyword) {
        found := Some(tag);
        return;
      }
      assert table[k..][1..] == table[k + 1..];
      k := k + 1;
    }
  }

  /** The nested loop over an ordered table of keyword groups that stops at the first keyword found. */
  method FindGroup<T>(groups: seq<(T, seq<string>)>, s: string) returns (found: Option<T>)
    ensures found == FirstGroup(groups, s)
  {
    var g := 0;
    while g < |groups|
      invariant 0 <= g <= |groups|
      invariant FirstGroup(groups, s) == FirstGroup(groups[g..], s)
      decreases |groups| - g
    {
      var (tag, keywords) := groups[g];
      var k := 0;
      while k < |keywords|
        invariant 0 <= k <= |keywords|
        invariant forall j :: 0 <= j < k ==> !Contains(s, keywords[j])
        decreases |keywords| - k
      {
        if Contains(s, keywords[k]) {
          assert groups[g..][0] == (tag, keywords);
          return Some(tag);
        }
        k := k + 1;
      }
      assert groups[g..][1..] == groups[g + 1..];
      g := g + 1;
    }
    return None;
  }

  /** The first group of an ordered table of (tag, keywords) that has a keyword occurring in `s`. */
  function FirstGroup<T>(groups: seq<(T, seq<string>)>, s: string): (r: Option<T>)
    ensures r.None? <==> forall k :: 0 <= k < |groups| ==> !ContainsAny(s, groups[k].1)
    ensures r.Some? ==> exists k :: 0 <= k < |groups| && ContainsAny(s, groups[k].1) && r == Some(groups[k].0)
                                    && forall j :: 0 <= j < k ==> !ContainsAny(s, groups[j].1)
  {
    if groups == [] then None
    else if ContainsAny(s, groups[0].1) then Some(groups[0].0)
    else
      assert forall k :: 0 < k < |groups| ==> groups[k] == groups[1..][k - 1];
      FirstGroup(groups[1..], s)
  }

  // ---------------------------------------------------------------------------
  // Runs, stripping, rewriting
  // ---------------------------------------------------------------------------

  /** The length of the longest prefix of `s` whose characters all satisfy `p`. */
  function LeadingCount(s: string, p: char -> bool): (n: nat)
    ensures n <= |s|
    ensures forall i :: 0 <= i < n ==> p(s[i])
    ensures n < |s| ==> !p(s[n])
    decreases |s|
  {
    if s == [] || !p(s[0]) then 0 else 1 + LeadingCount(s[1..], p)
  }

  /** The end of the run of characters satisfying `p` that starts at `from`. */
  function SkipWhile(s: string, from: nat, p: char -> bool): (n: nat)
    requires from <= |s|
    ensures from <= n <= |s|
    ensures forall i :: from <= i < n ==> p(s[i])
    ensures n < |s| ==> !p(s[n])
    decreases |s| - from
  {
    if from == |s| || !p(s[from]) then from else SkipWhile(s, from + 1, p)
  }

  /** The first position at or after `from` holding `c`, or |s| when there is none. */
  function FindChar(s: string, c: char, from: nat): (n: nat)
    requires from <= |s|
    ensures from <= n <= |s|
    ensures forall i :: from <= i < n ==> s[i] != c
    ensures n < |s| ==> s[n] == c
    decreases |s| - from
  {
    if from == |s| || s[from] == c then from else FindChar(s, c, from + 1)
  }

  /** A run of at least `k` leading characters satisfying `p` is counted. */
  lemma {:induction false} LeadingCountAtLeast(s: string, p: char -> bool, k: nat)
    requires k <= |s| && forall i :: 0 <= i < k ==> p(s[i])
    ensures LeadingCount(s, p) >= k
    decreases k
  {
    if k > 0 { LeadingCountAtLeast(s[1..], p, k - 1); }
  }

  /** The length of the longest suffix of `s` whose characters all satisfy `p`. */
  function TrailingCount(s: string, p: char -> bool): (n: nat)
    ensures n <= |s|
    ensures forall i :: |s| - n <= i < |s| ==> p(s[i])
    ensures n < |s| ==> !p(s[|s| - 1 - n])
    decreases |s|
  {
    if s == [] || !p(s[|s| - 1]) then 0 else 1 + TrailingCount(s[..|s| - 1], p)
  }

  /** str.strip(chars): drop the characters satisfying `p` from both ends. */
  function StripWhere(s: string, p: char -> bool): (r: string)
    ensures LeadingCount(s, p) + |r| <= |s|
    ensures r == s[LeadingCount(s, p)..LeadingCount(s, p) + |r|]
    ensures |r| > 0 ==> !p(r[0]) && !p(r[|r| - 1])
    ensures forall i :: 0 <= i < LeadingCount(s, p) ==> p(s[i])
    ensures forall i :: LeadingCount(s, p) + |r| <= i < |s| ==> p(s[i])
  {
    var a := LeadingCount(s, p);
    var t := s[a..];
    var b := TrailingCount(t, p);
    t[..|t| - b]
  }

  /** Stripping a string that neither starts nor ends with the class leaves it alone. */
  lemma {:induction false} StripNothing(s: string, p: char -> bool)
    requires |s| > 0 && !p(s[0]) && !p(s[|s| - 1])
    ensures StripWhere(s, p) == s
  {
    var r := StripWhere(s, p);
    assert LeadingCount(s, p) == 0;
  }

  /** str.strip() */
  function Strip(s: string): string {
    StripWhere(s, IsSpace)
  }

  /** re.sub(CLASS + "+", rep, s): every maximal run of characters satisfying `p` becomes one `rep`. */
  function ReplaceRuns(s: string, p: char -> bool, rep: char): (r: string)
    ensures |r| <= |s|
    ensures |r| == 0 <==> |s| == 0
    ensures |s| > 0 ==> (p(s[0]) ==> r[0] == rep) && (!p(s[0]) ==> r[0] == s[0])
    ensures forall i :: 0 <= i < |r| && p(r[i]) ==> r[i] == rep
    ensures p(rep) ==> forall i :: 0 <= i < |r| - 1 ==> !(r[i] == rep && r[i + 1] == rep)
    decreases |s|
  {
    if s == [] then []
    else if p(s[0]) then
      var n := LeadingCount(s, p);
      var tail := ReplaceRuns(s[n..], p, rep);
      [rep] + tail
    else
      [s[0]] + ReplaceRuns(s[1..], p, rep)
  }

  /** The leading run of a concatenation stops inside the first part, or runs through it into the second. */
  lemma {:induction false} LeadingCountAppend(a: string, b: string, p: char -> bool)
    ensures LeadingCount(a + b, p) == if LeadingCount(a, p) < |a| then LeadingCount(a, p) else |a| + LeadingCount(b, p)
    decreases |a|
  {
    if a == [] {
      assert a + b == b;
    } else if p(a[0]) {
      assert (a + b)[0] == a[0] && (a + b)[1..] == a[1..] + b;
      LeadingCountAppend(a[1..], b, p);
    } else {
      assert (a + b)[0] == a[0];
    }
  }

  /** A non-empty run of the class becomes a single `rep`. */
  lemma {:induction false} ReplaceRunsOfRun(w: string, p: char -> bool, rep: char)
    requires |w| > 0 && forall i :: 0 <= i < |w| ==> p(w[i])
    ensures ReplaceRuns(w, p, rep) == [rep]
  {
    LeadingCountAtLeast(w, p, |w|);
    assert w[|w|..] == [];
  }

  /** Replacing runs works piece by piece when no run straddles the boundary between the pieces. */
  lemma {:induction false} ReplaceRunsAppend(a: string, b: string, p: char -> bool, rep: char)
    requires a == [] || b == [] || !p(a[|a| - 1]) || !p(b[0])
    ensures ReplaceRuns(a + b, p, rep) == ReplaceRuns(a, p, rep) + ReplaceRuns(b, p, rep)
    decreases |a|
  {
    if a == [] {
      assert a + b == b;
    } else if b == [] {
      assert a + b == a;
    } else if p(a[0]) {
      var n := LeadingCount(a, p);
      LeadingCountAppend(a, b, p);
      if n < |a| {
        assert (a + b)[n..] == a[n..] + b;
        assert a[n..][|a[n..]| - 1] == a[|a| - 1];
        ReplaceRunsAppend(a[n..], b, p, rep);
        AppendAssoc([rep], ReplaceRuns(a[n..], p, rep), ReplaceRuns(b, p, rep));
      } else {
        assert LeadingCount(b, p) == 0;
        assert (a + b)[n..] == b;
        assert a[n..] == [];
      }
    } else {
      assert (a + b)[0] == a[0] && (a + b)[1..] == a[1..] + b;
      assert a[1..] == [] || a[1..][|a[1..]| - 1] == a[|a| - 1];
      ReplaceRunsAppend(a[1..], b, p, rep);
      AppendAssoc([a[0]], ReplaceRuns(a[1..], p, rep), ReplaceRuns(b, p, rep));
    }
  }

  /** Each maximal run becomes exactly one `rep`: a run `w` between a part `x` that does not end in
      the class and a part `y` that does not start with it is replaced by a single `rep`. */
  lemma {:induction false} ReplaceRunsSplice(x: string, w: string, y: string, p: char -> bool, rep: char)
    requires |w| > 0 && forall i :: 0 <= i < |w| ==> p(w[i])
    requires x == [] || !p(x[|x| - 1])
    requires y == [] || !p(y[0])
    ensures ReplaceRuns(x + w + y, p, rep) == ReplaceRuns(x, p, rep) + [rep] + ReplaceRuns(y, p, rep)
  {
    AppendAssoc(x, w, y);
    ReplaceRunsAppend(x, w + y, p, rep);
    assert (w + y)[0] == w[0];
    ReplaceRunsAppend(w, y, p, rep);
    ReplaceRunsOfRun(w, p, rep);
    AppendAssoc(ReplaceRuns(x, p, rep), [rep], ReplaceRuns(y, p, rep));
  }

  /** Every character of the result is `rep` or a character of `s` outside the class, so a property
      shared by `rep` and those characters holds of the whole result. */
  lemma {:induction false} ReplaceRunsKeeps(s: string, p: char -> bool, rep: char, q: char -> bool)
    requires q(rep) && forall i :: 0 <= i < |s| && !p(s[i]) ==> q(s[i])
    ensures forall i :: 0 <= i < |ReplaceRuns(s, p, rep)| ==> q(ReplaceRuns(s, p, rep)[i])
    decreases |s|
  {
    if s != [] {
      var r := ReplaceRuns(s, p, rep);
      var rest := if p(s[0]) then s[LeadingCount(s, p)..] else s[1..];
      assert forall i :: 0 <= i < |rest| ==> rest[i] == s[|s| - |rest| + i];
      ReplaceRunsKeeps(rest, p, rep, q);
      var tail := ReplaceRuns(rest, p, rep);
      assert r == [r[0]] + tail;
      assert q(r[0]);
      forall i | 0 <= i < |r| ensures q(r[i]) {
        if i > 0 {
          assert r[i] == tail[i - 1] && q(tail[i - 1]);
        }
      }
    }
  }

  /** A text without characters of the class is left as it is. */
  lemma {:induction false} ReplaceRunsNone(s: string, p: char -> bool, rep: char)
    requires forall i :: 0 <= i < |s| ==> !p(s[i])
    ensures ReplaceRuns(s, p, rep) == s
    decreases |s|
  {
    if s != [] {
      ReplaceRunsNone(s[1..], p, rep);
    }
  }

  /** The characters of `s` that do not satisfy `p`, in order. */
  function Without(s: string, p: char -> bool): (r: string)
    ensures forall i :: 0 <= i < |r| ==> !p(r[i])
    decreases |s|
  {
    if s == [] then [] else (if p(s[0]) then [] else [s[0]]) + Without(s[1..], p)
  }

  lemma {:induction false} WithoutAppend(a: string, b: string, p: char -> bool)
    ensures Without(a + b, p) == Without(a, p) + Without(b, p)
    decreases |a|
  {
    if a == [] {
      assert a + b == b;
    } else {
      assert (a + b)[0] == a[0];
      assert (a + b)[1..] == a[1..] + b;
      WithoutAppend(a[1..], b, p);
    }
  }

  lemma {:induction false} WithoutAll(s: string, p: char -> bool)
    requires forall i :: 0 <= i < |s| ==> p(s[i])
    ensures Without(s, p) == []
    decreases |s|
  {
    if s != [] { WithoutAll(s[1..], p); }
  }

  /** Replacing runs keeps, in order, every character outside a class `q` that covers both the
      replaced class and the replacement. */
  lemma {:induction false} ReplaceRunsKeepsOthers(s: string, p: char -> bool, rep: char, q: char -> bool)
    requires q(rep) && forall c :: p(c) ==> q(c)
    ensures Without(ReplaceRuns(s, p, rep), q) == Without(s, q)
    decreases |s|
  {
    if s == [] {
    } else if p(s[0]) {
      var n := LeadingCount(s, p);
      var tail := ReplaceRuns(s[n..], p, rep);
      ReplaceRunsKeepsOthers(s[n..], p, rep, q);
      calc {
        Without(ReplaceRuns(s, p, rep), q);
        { WithoutAppend([rep], tail, q); }
        Without(tail, q);
        Without(s[n..], q);
        { WithoutAll(s[..n], q); WithoutAppend(s[..n], s[n..], q); assert s == s[..n] + s[n..]; }
        Without(s, q);
      }
    } else {
      var tail := ReplaceRuns(s[1..], p, rep);
      ReplaceRunsKeepsOthers(s[1..], p, rep, q);
      WithoutAppend([s[0]], tail, q);
      WithoutAppend([s[0]], s[1..], q);
      assert s == [s[0]] + s[1..];
    }
  }

  /** Stripping removes only characters of the stripped class, so it keeps, in order, every
      character outside any class `q` that covers the stripped one. */
  lemma {:induction false} StripKeepsOthers(s: string, p: char -> bool, q: char -> bool)
    requires forall c :: p(c) ==> q(c)
    ensures Without(StripWhere(s, p), q) == Without(s, q)
  {
    var a := LeadingCount(s, p);
    var r := StripWhere(s, p);
    assert s == s[..a] + r + s[a + |r|..];
    WithoutAll(s[..a], q);
    WithoutAll(s[a + |r|..], q);
    WithoutAppend(s[..a], r, q);
    WithoutAppend(s[..a] + r, s[a + |r|..], q);
  }

  /** str.replace(pat, "") — every non-overlapping occurrence, scanned from the left. */
  function RemoveAll(s: string, pat: string): (r: string)
    requires |pat| > 0
    ensures |r| <= |s|
    decreases |s|
  {
    if |s| == 0 then []
    else if StartsWith(s, pat) then RemoveAll(s[|pat|..], pat)
    else [s[0]] + RemoveAll(s[1..], pat)
  }

  lemma {:induction false} RemoveAllAbsent(s: string, pat: string)
    requires |pat| > 0 && !Contains(s, pat)
    ensures RemoveAll(s, pat) == s
    decreases |s|
  {
    if |s| > 0 {
      assert !OccursAt(s, pat, 0);
      assert !Contains(s[1..], pat) by {
        forall j | 0 <= j <= |s[1..]| ensures !OccursAt(s[1..], pat, j) {
          assert !OccursAt(s, pat, j + 1);
          if j + |pat| <= |s[1..]| { assert s[1..][j..j + |pat|] == s[j + 1..j + 1 + |pat|]; }
        }
      }
      RemoveAllAbsent(s[1..], pat);
    }
  }

  /** str.replace(pat, "", 1) */
  function RemoveFirst(s: string, pat: string): (r: string)
  {
    match IndexOf(s, pat)
    case None => s
    case Some(i) => s[..i] + s[i + |pat|..]
  }

  // ---------------------------------------------------------------------------
  // Splitting and joining
  // ---------------------------------------------------------------------------

  /** sep.join(parts) */
  function Join(parts: seq<string>, sep: string): string
    decreases |parts|
  {
    if parts == [] then ""
    else if |parts| == 1 then parts[0]
    else parts[0] + sep + Join(parts[1..], sep)
  }

  /** str.split(sep) with a non-empty separator: non-overlapping occurrences, from the left. */
  function Split(s: string, sep: string): (r: seq<string>)
    requires |sep| > 0
    ensures |r| >= 1
    ensures Contains(s, sep) <==> |r| >= 2
    decreases |s|
  {
    match IndexOf(s, sep)
    case None => [s]
    case Some(i) => [s[..i]] + Split(s[i + |sep|..], sep)
  }

  /** No piece of a split contains the separator. */
  lemma {:induction false} SplitPiecesLackSeparator(s: string, sep: string)
    requires |sep| > 0
    ensures forall k :: 0 <= k < |Split(s, sep)| ==> !Contains(Split(s, sep)[k], sep)
    decreases |s|
  {
    match IndexOf(s, sep)
    case None =>
    case Some(i) =>
      PrefixBeforeFirst(s, sep, i);
      SplitPiecesLackSeparator(s[i + |sep|..], sep);
      var r := Split(s, sep);
      var rest := Split(s[i + |sep|..], sep);
      assert r == [s[..i]] + rest;
      forall k | 0 < k < |r| ensures !Contains(r[k], sep) { assert r[k] == rest[k - 1]; }
  }

  lemma {:induction false} PrefixBeforeFirst(s: string, sep: string, i: nat)
    requires |sep| > 0 && IndexOf(s, sep) == Some(i)
    ensures !Contains(s[..i], sep)
  {
    forall j | 0 <= j <= i ensures !OccursAt(s[..i], sep, j) {
      if j + |sep| <= i {
        assert s[..i][j..j + |sep|] == s[j..j + |sep|];
        assert !OccursAt(s, sep, j);
      }
    }
  }

  /** Splitting and joining with the same separator gives back the text. */
  lemma {:induction false} SplitJoin(s: string, sep: string)
    requires |sep| > 0
    ensures Join(Split(s, sep), sep) == s
    decreases |s|
  {
    match IndexOf(s, sep)
    case None =>
    case Some(i) =>
      SplitJoin(s[i + |sep|..], sep);
      var rest := Split(s[i + |sep|..], sep);
      assert Split(s, sep) == [s[..i]] + rest;
      assert s == s[..i] + sep + s[i + |sep|..];
  }

  /** Joining pieces that lack the separator's first character and splitting again gives the pieces. */
  lemma {:induction false} JoinSplit(parts: seq<string>, sep: string)
    requires |sep| > 0 && |parts| > 0
    requires forall k :: 0 <= k < |parts| ==> sep[0] !in parts[k]
    ensures Split(Join(parts, sep), sep) == parts
    decreases |parts|
  {
    var p0 := parts[0];
    NotContainsByChar(p0, sep, 0);
    if |parts| > 1 {
      var rest := Join(parts[1..], sep);
      var s := p0 + sep + rest;
      assert s == Join(parts, sep);
      assert OccursAt(s, sep, |p0|) by {
        assert s[|p0|..|p0| + |sep|] == sep;
      }
      forall j | 0 <= j < |p0| ensures !OccursAt(s, sep, j) {
        assert s[j] == p0[j];
      }
      assert IndexOf(s, sep) == Some(|p0|);
      assert s[..|p0|] == p0 && s[|p0| + |sep|..] == rest;
      JoinSplit(parts[1..], sep);
    }
  }

  lemma {:induction false} JoinEndsWithLast(parts: seq<string>, sep: string)
    requires |parts| >= 1
    ensures EndsWith(Join(parts, sep), parts[|parts| - 1])
    ensures |parts| >= 2 ==> EndsWith(Join(parts, sep), sep + parts[|parts| - 1])
    decreases |parts|
  {
    var last := parts[|parts| - 1];
    if |parts| == 1 {
      assert Join(parts, sep)[|Join(parts, sep)| - |last|..] == last;
    } else {
      var rest := Join(parts[1..], sep);
      JoinEndsWithLast(parts[1..], sep);
      assert parts[1..][|parts[1..]| - 1] == last;
      assert Join(parts, sep) == (parts[0] + sep) + rest;
      if |parts| == 2 {
        assert rest == last;
        SuffixOfConcat(parts[0], sep + last);
        assert parts[0] + sep + last == parts[0] + (sep + last);
      } else {
        EndsWithConcat(parts[0] + sep, rest, sep + last);
      }
      EndsWithConcat(parts[0] + sep, rest, last);
    }
  }

  lemma {:induction false} SuffixOfConcat(a: string, b: string)
    ensures EndsWith(a + b, b)
  {
    assert (a + b)[|a + b| - |b|..] == b;
  }

  lemma {:induction false} EndsWithConcat(a: string, b: string, c: string)
    requires EndsWith(b, c)
    ensures EndsWith(a + b, c)
  {
    assert (a + b)[|a + b| - |c|..] == b[|b| - |c|..];
  }

  /** The last piece of a split is a suffix of the text, preceded by the separator when there are several pieces. */
  lemma {:induction false} LastPieceIsSuffix(s: string, sep: string)
    requires |sep| > 0
    ensures EndsWith(s, Split(s, sep)[|Split(s, sep)| - 1])
    ensures |Split(s, sep)| >= 2 ==> EndsWith(s, sep + Split(s, sep)[|Split(s, sep)| - 1])
  {
    SplitJoin(s, sep);
    JoinEndsWithLast(Split(s, sep), sep);
  }

  /** s.split(sep)[-1]: the text after the last occurrence of `sep` (all of `s` when there is none). */
  function AfterLast(s: string, sep: string): string
    requires |sep| > 0
  {
    var r := Split(s, sep); r[|r| - 1]
  }

  /** s.split(sep)[0]: the text before the first occurrence of `sep` (all of `s` when there is none). */
  function BeforeFirst(s: string, sep: string): string
    requires |sep| > 0
  {
    Split(s, sep)[0]
  }

  /** What AfterLast keeps: a suffix of the text without the separator, preceded by it when the separator occurs. */
  lemma {:induction false} AfterLastIsTail(s: string, sep: string)
    requires |sep| > 0
    ensures EndsWith(s, AfterLast(s, sep))
    ensures !Contains(AfterLast(s, sep), sep)
    ensures Contains(s, sep) ==> EndsWith(s, sep + AfterLast(s, sep))
    ensures !Contains(s, sep) ==> AfterLast(s, sep) == s
  {
    LastPieceIsSuffix(s, sep);
    SplitPiecesLackSeparator(s, sep);
  }

  /** What BeforeFirst keeps: a prefix of the text without the separator, all of it when the separator is absent. */
  lemma {:induction false} BeforeFirstIsHead(s: string, sep: string)
    requires |sep| > 0
    ensures StartsWith(s, BeforeFirst(s, sep))
    ensures !Contains(BeforeFirst(s, sep), sep)
    ensures !Contains(s, sep) ==> BeforeFirst(s, sep) == s
  {
    SplitPiecesLackSeparator(s, sep);
  }

  /** When the separator occurs, the first piece is followed by it. */
  lemma {:induction false} BeforeFirstCut(s: string, sep: string)
    requires |sep| > 0 && Contains(s, sep)
    ensures StartsWith(s, BeforeFirst(s, sep) + sep)
  {
    var i := IndexOf(s, sep).value;
    assert BeforeFirst(s, sep) == s[..i];
    assert s[..i + |sep|] == s[..i] + s[i..i + |sep|];
  }

  /** A pattern absent from a text is absent from each of its prefixes. */
  lemma {:induction false} NotContainsPrefix(s: string, n: nat, pat: string)
    requires n <= |s| && !Contains(s, pat)
    ensures !Contains(s[..n], pat)
  {
    if Contains(s[..n], pat) {
      var j := IndexOf(s[..n], pat).value;
      assert s[..n][j..j + |pat|] == s[j..j + |pat|];
      ContainsAt(s, pat, j);
    }
  }

  /** The text before the first occurrence of a pattern does not contain it. */
  lemma {:induction false} BeforeFirstLacks(t: string, pat: string, p: nat)
    requires |pat| > 0 && IndexOf(t, pat) == Some(p)
    ensures !Contains(t[..p], pat)
  {
    forall j: nat | j + |pat| <= p ensures !OccursAt(t[..p], pat, j) {
      assert !OccursAt(t, pat, j);
      assert t[..p][j..j + |pat|] == t[j..j + |pat|];
    }
  }

  /** A pattern with a character that never appears in the text does not occur in it. */
  lemma {:induction false} NotContainsByChar(s: string, pat: string, k: nat)
    requires k < |pat| && pat[k] !in s
    ensures !Contains(s, pat)
  {
    forall j: nat | j + |pat| <= |s|
      ensures !OccursAt(s, pat, j)
    {
      assert s[j..j + |pat|][k] == s[j + k] != pat[k];
    }
  }

  /** The first piece of a split is a prefix of the text. */
  lemma {:induction false} FirstPieceIsPrefix(s: string, sep: string)
    requires |sep| > 0
    ensures StartsWith(s, Split(s, sep)[0])
  {
  }

  /** str.split(): the maximal runs of non-whitespace characters, in order. */
  function Words(s: string): (r: seq<string>)
    ensures forall k :: 0 <= k < |r| ==> |r[k]| > 0 && NoSpace(r[k])
    decreases |s|
  {
    if s == [] then []
    else if IsSpace(s[0]) then Words(s[1..])
    else
      var n := LeadingCount(s, NotSpace);
      LeadingWord(s);
      [s[..n]] + Words(s[n..])
  }

  /** A text that does not open with whitespace opens with a non-empty word. */
  lemma {:induction false} LeadingWord(t: string)
    requires t != [] && !IsSpace(t[0])
    ensures var n := LeadingCount(t, NotSpace); n > 0 && NoSpace(t[..n])
  {
    var n := LeadingCount(t, NotSpace);
    forall i | 0 <= i < n ensures !IsSpace(t[..n][i]) {
      assert NotSpace(t[i]);
    }
  }

  /** Leading whitespace does not change the words. */
  lemma {:induction false} WordsSkip(s: string, k: nat)
    requires k <= |s| && forall i :: 0 <= i < k ==> IsSpace(s[i])
    ensures Words(s) == Words(s[k..])
    decreases k
  {
    if k > 0 {
      WordsSkip(s[1..], k - 1);
      assert s[1..][k - 1..] == s[k..];
    }
  }

  /** A non-space character put in front starts a word of its own, or joins the first word. */
  lemma {:induction false} WordsCons(c: char, x: string)
    requires !IsSpace(c)
    ensures x == [] || IsSpace(x[0]) ==> Words([c] + x) == [[c]] + Words(x)
    ensures x != [] && !IsSpace(x[0]) ==> |Words(x)| > 0 && Words([c] + x) == [[c] + Words(x)[0]] + Words(x)[1..]
  {
    var s := [c] + x;
    assert s[0] == c && s[1..] == x;
    var m := LeadingCount(x, NotSpace);
    assert LeadingCount(s, NotSpace) == 1 + m;
    assert s[..1 + m] == [c] + x[..m] && s[1 + m..] == x[m..];
  }

  /** Trailing whitespace does not change the words. */
  lemma {:induction false} WordsAppendSpaces(x: string, w: string)
    requires forall i :: 0 <= i < |w| ==> IsSpace(w[i])
    ensures Words(x + w) == Words(x)
    decreases |x|
  {
    if x == [] {
      assert x + w == w;
      WordsSkip(w, |w|);
      assert w[|w|..] == [];
    } else if IsSpace(x[0]) {
      assert (x + w)[0] == x[0] && (x + w)[1..] == x[1..] + w;
      WordsAppendSpaces(x[1..], w);
    } else {
      var n := LeadingCount(x, NotSpace);
      assert (x + w)[0] == x[0];
      LeadingCountAppend(x, w, NotSpace);
      assert w == [] || !NotSpace(w[0]);
      assert (x + w)[..n] == x[..n] && (x + w)[n..] == x[n..] + w;
      WordsAppendSpaces(x[n..], w);
    }
  }

  /** Collapsing each whitespace run to one space keeps the words. */
  lemma {:induction false} WordsReplaceRuns(s: string)
    ensures Words(ReplaceRuns(s, IsSpace, ' ')) == Words(s)
    decreases |s|
  {
    if s != [] {
      var r := ReplaceRuns(s, IsSpace, ' ');
      if IsSpace(s[0]) {
        var n := LeadingCount(s, IsSpace);
        var tail := ReplaceRuns(s[n..], IsSpace, ' ');
        assert r == [' '] + tail && r[1..] == tail;
        WordsSkip(r, 1);
        WordsSkip(s, n);
        WordsReplaceRuns(s[n..]);
      } else {
        var tail := ReplaceRuns(s[1..], IsSpace, ' ');
        assert r == [s[0]] + tail;
        assert s == [s[0]] + s[1..];
        WordsCons(s[0], tail);
        WordsCons(s[0], s[1..]);
        WordsReplaceRuns(s[1..]);
      }
    }
  }

  /** Whitespace from position `k` on does not change the words. */
  lemma {:induction false} WordsDropTrailing(t: string, k: nat)
    requires k <= |t| && forall i :: k <= i < |t| ==> IsSpace(t[i])
    ensures Words(t) == Words(t[..k])
  {
    var w := t[k..];
    forall i | 0 <= i < |w| ensures IsSpace(w[i]) {
      assert w[i] == t[k + i];
    }
    assert t == t[..k] + w;
    WordsAppendSpaces(t[..k], w);
  }

  /** Whitespace at either end does not change the words. */
  lemma {:induction false} WordsAround(s: string, a: nat, b: nat)
    requires a <= b <= |s|
    requires forall i :: 0 <= i < a ==> IsSpace(s[i])
    requires forall i :: b <= i < |s| ==> IsSpace(s[i])
    ensures Words(s) == Words(s[a..b])
  {
    WordsSkip(s, a);
    var t := s[a..];
    forall i | b - a <= i < |t| ensures IsSpace(t[i]) {
      assert t[i] == s[a + i];
    }
    WordsDropTrailing(t, b - a);
    assert t[..b - a] == s[a..b];
  }

  /** Stripping keeps the words. */
  lemma {:induction false} WordsStrip(s: string)
    ensures Words(Strip(s)) == Words(s)
  {
    var a := LeadingCount(s, IsSpace);
    var r := StripWhere(s, IsSpace);
    assert r == s[a..a + |r|];
    WordsAround(s, a, a + |r|);
    assert Words(r) == Words(s);
  }

  /** Clean text is its words joined by single spaces. */
  lemma {:induction false} CleanIsJoinedWords(s: string)
    requires IsClean(s)
    ensures s == Join(Words(s), " ")
    ensures s != [] ==> |Words(s)| > 0
    decreases |s|
  {
    if s != [] {
      var n := FirstWord(s);
      if n < |s| {
        var rest := s[n + 1..];
        CleanAfterSpace(s, n);
        assert Words(s[n..]) == Words(rest) by {
          WordsSkip(s[n..], 1);
          assert s[n..][1..] == rest;
        }
        CleanIsJoinedWords(rest);
        JoinCons(s[..n], Words(rest), " ");
        SplitAround(s, n);
      } else {
        assert s[n..] == [] && s[..n] == s;
      }
    }
  }

  /** A text that opens with a non-space character opens with its first word. */
  lemma {:induction false} FirstWord(s: string) returns (n: nat)
    requires s != [] && !IsSpace(s[0])
    ensures n == LeadingCount(s, NotSpace) && 0 < n <= |s|
    ensures Words(s) == [s[..n]] + Words(s[n..])
  {
    n := LeadingCount(s, NotSpace);
  }

  /** A sequence is what comes before a position, the element there and what comes after. */
  lemma SplitAround<T>(s: seq<T>, n: nat)
    requires n < |s|
    ensures s == s[..n] + [s[n]] + s[n + 1..]
  { }

  lemma {:induction false} JoinCons(x: string, w: seq<string>, sep: string)
    requires |w| > 0
    ensures Join([x] + w, sep) == x + sep + Join(w, sep)
  {
    assert ([x] + w)[1..] == w;
  }

  /** What follows a space inside clean text is clean and not empty. */
  lemma {:induction false} CleanAfterSpace(s: string, n: nat)
    requires IsClean(s) && n < |s| && IsSpace(s[n])
    ensures s[n] == ' ' && n + 1 < |s| && IsClean(s[n + 1..])
  {
    var rest := s[n + 1..];
    assert forall i :: 0 <= i < |rest| ==> rest[i] == s[n + 1 + i];
  }

  // ---------------------------------------------------------------------------
  // Decimal numbers
  // ---------------------------------------------------------------------------

  function DigitChar(d: nat): (c: char)
    requires d < 10
    ensures IsDigit(c)
  {
    ('0' as int + d) as char
  }

  /** int(s) for a string of decimal digits. */
  function DigitsValue(s: string): nat
    requires AllDigits(s)
    decreases |s|
  {
    if s == [] then 0 else 10 * DigitsValue(s[..|s| - 1]) + (s[|s| - 1] as int - '0' as int)
  }

  /** str(n) */
  function DecimalString(n: nat): (r: string)
    ensures |r| > 0 && AllDigits(r)
    decreases n
  {
    if n < 10 then [DigitChar(n)] else DecimalString(n / 10) + [DigitChar(n % 10)]
  }

  /** Reading back the decimal text of a number gives the number. */
  lemma {:induction false} DecimalRoundTrip(n: nat)
    ensures DigitsValue(DecimalString(n)) == n
    decreases n
  {
    if n >= 10 {
      DecimalRoundTrip(n / 10);
      var s := DecimalString(n);
      assert s[..|s| - 1] == DecimalString(n / 10);
    }
  }

  lemma {:induction false} DecimalStringInjective(a: nat, b: nat)
    requires DecimalString(a) == DecimalString(b)
    ensures a == b
  {
    DecimalRoundTrip(a);
    DecimalRoundTrip(b);
  }

  /** A sequence is its two halves around any cut. */
  lemma SplitAt<T>(s: seq<T>, k: nat)
    requires k <= |s|
    ensures s == s[..k] + s[k..]
  { }

  lemma AppendAssoc<T>(a: seq<T>, b: seq<T>, c: seq<T>)
    ensures a + (b + c) == (a + b) + c
  { }

  /** A non-empty sequence is its front followed by its last element. */
  lemma SplitLast<T>(s: seq<T>)
    requires s != []
    ensures s == s[..|s| - 1] + [s[|s| - 1]]
  { }

  // ---------------------------------------------------------------------------
  // Keeping the results of a partial map, in order
  // ---------------------------------------------------------------------------

  /** The values `f` yields on the elements of `s`, in order; elements it yields nothing for are skipped. */
  function FilterMap<E, T>(f: E -> Option<T>, s: seq<E>): seq<T>
    decreases |s|
  {
    if s == [] then [] else FilterMap(f, s[..|s| - 1]) + (if f(s[|s| - 1]).Some? then [f(s[|s| - 1]).value] else [])
  }

  lemma {:induction false} FilterMapConcat<E, T>(f: E -> Option<T>, a: seq<E>, b: seq<E>)
    ensures FilterMap(f, a + b) == FilterMap(f, a) + FilterMap(f, b)
    decreases |b|
  {
    if b == [] {
      assert a + b == a;
    } else {
      assert (a + b)[..|a + b| - 1] == a + b[..|b| - 1];
      FilterMapConcat(f, a, b[..|b| - 1]);
    }
  }

  /** When `f` yields every element back, nothing is skipped or changed. */
  lemma {:induction false} FilterMapIdentity<T>(f: T -> Option<T>, s: seq<T>)
    requires forall k :: 0 <= k < |s| ==> f(s[k]) == Some(s[k])
    ensures FilterMap(f, s) == s
    decreases |s|
  {
    if s != [] {
      var init := s[..|s| - 1];
      assert forall k :: 0 <= k < |init| ==> init[k] == s[k];
      FilterMapIdentity(f, init);
      SplitLast(s);
    }
  }

  lemma {:induction false} FilterMapPair<E, T>(f: E -> Option<T>, x: E, y: E)
    ensures FilterMap(f, [x, y]) == (if f(x).Some? then [f(x).value] else []) + (if f(y).Some? then [f(y).value] else [])
  {
    var xy := [x, y];
    assert xy[..|xy| - 1] == [x] && xy[|xy| - 1] == y;
    assert FilterMap(f, [x]) == FilterMap(f, []) + (if f(x).Some? then [f(x).value] else []) by {
      assert [x][..0] == [] && [x][0] == x;
    }
  }

  /** Every value `f` yields on an element is kept. */
  lemma {:induction false} FilterMapComplete<E, T>(f: E -> Option<T>, s: seq<E>, j: nat)
    requires j < |s| && f(s[j]).Some?
    ensures f(s[j]).value in FilterMap(f, s)
  {
    var pre := s[..j + 1];
    assert s == pre + s[j + 1..];
    FilterMapConcat(f, pre, s[j + 1..]);
    assert pre[..|pre| - 1] == s[..j] && pre[|pre| - 1] == s[j];
  }

  /** Every kept value is what `f` yields on some element. */
  lemma {:induction false} FilterMapSound<E, T>(f: E -> Option<T>, s: seq<E>, x: T)
    requires x in FilterMap(f, s)
    ensures exists j :: 0 <= j < |s| && f(s[j]) == Some(x)
    decreases |s|
  {
    var init := s[..|s| - 1];
    if x in FilterMap(f, init) {
      FilterMapSound(f, init, x);
      var j :| 0 <= j < |init| && f(init[j]) == Some(x);
      assert s[j] == init[j];
    }
  }
}
