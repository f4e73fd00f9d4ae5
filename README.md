# Juan Lab site scraper — a Dafny model of the extraction engine

The lab's website generator scrapes a DokuWiki site and turns loosely formatted HTML into typed
records: news items, research highlights, research projects, the people roster and the principal
investigator's profile. It then downloads the images the pages mention into category folders.
This project models the heuristic core of that pipeline and proves what it guarantees:

- **text clean-up**: NFKC normalisation (opaque), whitespace collapsing and stripping;
- **the regular expressions**: the news line, the numbered project title, the two member-entry
  patterns. Each is modelled with its greedy and lazy backtracking. The scraper only matches
  cleaned text, and on cleaned text each pattern is proved to match exactly when a short condition
  on the text holds, with its groups given as slices of the text;
- **the five extractors**: each is a single in-order pass over the page's elements that keeps a
  small state (category, section, open highlight, section flag);
- **the image manifest**: image collection and URL de-duplication;
- **the two downloader helpers**: the category folder an image is filed under, and its sanitized
  file name.

A parsed page is a sequence of `Html.Element` values in document order; the extractors read
`tag`, `text`, their own attributes and their first nested image or link. Library functions the
scraper calls but whose behaviour is not modelled are passed in as values of
`Html.Externals`: Unicode NFKC normalisation, `urljoin` and percent-decoding.

Every extractor is a `method` with the source's loop, proved equal to a specification
function. That function is a left fold of a per-element step. The properties the source promises
are lemmas about that function.

Behaviour of the code worth knowing (the model follows the code):

- At most one research highlight is ever produced. A highlight opens only while none is open,
  so later topic headers never close it (`Highlights.HighlightsOf`).
- A news month is the value of two digits. It is not checked to lie in 1–12.
- The alumni override in the newer members extractor is set only by a header containing
  "alumni". "畢業" and "former" headers file under alumni without setting it. Under the
  override, visiting headers still file under visiting.
- The year of an unmatched short member entry is always 2024. The year search the code runs
  for it never changes the record.

## Model

| member | source | states |
|---|---|---|
| Scraper.CleanText | juanlab-astro/scripts/scrape_juanlab.py:57-66 | no text or "" gives ""; the result is clean (no whitespace at either end, only single spaces); the non-whitespace characters of the normalised text are kept in order, and so are its words (its maximal non-whitespace runs) |
| Scraper.CleanTextJoinsWords | juanlab-astro/scripts/scrape_juanlab.py:57-66 | the cleaned text is exactly the words of the normalised text joined by single spaces |
| Scraper.CleanTextIdempotent | juanlab-astro/scripts/scrape_juanlab.py:57-66 | cleaning clean text that normalisation leaves alone changes nothing |
| Scraper.CleanCollapseIsIdentity | juanlab-astro/scripts/scrape_juanlab.py:64-66 | collapsing whitespace runs and stripping is the identity on clean text |
| Scraper.MakeAbsoluteUrl | juanlab-astro/scripts/scrape_juanlab.py:124-130 | "" stays "", links starting with "http" are kept, anything else is joined to the site root plus "/" |
| Scraper.MediaName | juanlab-astro/scripts/scrape_juanlab.py:109-113 | the decoded text after the last "media=" when the URL has one; otherwise the decoded last path segment (the text after the last '/'), cut before its first '?'; a URL with neither "media=" nor '/' gives the decoded text before its first '?' |
| Scraper.ImageRefOf | juanlab-astro/scripts/scrape_juanlab.py:102-119 | an absolute src is kept, a relative one is joined to the site root; the file name is the media name of that URL; the alt text is copied |
| Scraper.PageImagesConcat | juanlab-astro/scripts/scrape_juanlab.py:101-121 | the images of a page are the images of its parts, part after part |
| Scraper.PageImagesComplete | juanlab-astro/scripts/scrape_juanlab.py:101-103 | every img whose src contains the fetcher path or ends in an image suffix gives an entry |
| Scraper.PageImagesSound | juanlab-astro/scripts/scrape_juanlab.py:101-103 | every entry comes from such an img |
| Scraper.ExtractImageUrls | juanlab-astro/scripts/scrape_juanlab.py:97-121 | the loop returns the entries of the collected imgs in document order |
| Scraper.DedupImages | juanlab-astro/scripts/scrape_juanlab.py:714-719 | the loop with its seen-set returns each entry whose URL has not been seen before, in order |
| Scraper.DedupDistinct | juanlab-astro/scripts/scrape_juanlab.py:714-719 | no URL appears twice after de-duplication |
| Scraper.DedupSameUrls | juanlab-astro/scripts/scrape_juanlab.py:714-719 | de-duplication keeps exactly the set of URLs of its input |
| Scraper.DedupKeepsFirst | juanlab-astro/scripts/scrape_juanlab.py:717-719 | the first entry for each URL is kept |
| Scraper.DedupIsSubsequence | juanlab-astro/scripts/scrape_juanlab.py:716-719 | entries are only removed, and the survivors keep their order |
| Patterns.LineTail | juanlab-astro/scripts/scrape_juanlab.py:155 | `(.+)$` runs to the first line break and ends at the text's end or at a final line break |
| Patterns.GreedyStartIsLargest | juanlab-astro/scripts/scrape_juanlab.py:155 | greedy `\s+` gives characters back one at a time: it takes the largest run after which the rest can match, and fails only when no choice works |
| Patterns.WsLineTail | juanlab-astro/scripts/scrape_juanlab.py:155 | `\s+(.+)$`: the whitespace before the group, the group's bounds, and the line-tail rule for the group |
| Patterns.WsLineTailSingleLine | juanlab-astro/scripts/scrape_juanlab.py:155 | on a single line the whole whitespace run is taken and the group runs to the end |
| Patterns.CenturyYear | juanlab-astro/scripts/scrape_juanlab.py:166-167 | a two-digit year below 50 is 20YY, otherwise 19YY; the result lies in 1950–2049 and keeps its last two digits |
| Patterns.FirstDigitPair | juanlab-astro/scripts/scrape_juanlab.py:431 | the first position of two consecutive digits, and none when no two digits are adjacent |
| Patterns.NewsLineFields | juanlab-astro/scripts/scrape_juanlab.py:155 | a news line is two digits, '.', two digits and a non-empty single-line title |
| Patterns.NewsLineOnCleanText | juanlab-astro/scripts/scrape_juanlab.py:155-160 | on cleaned text the pattern matches exactly "DD.DD " followed by at least one character, and the title is everything after the space |
| Patterns.ProjectLineParts | juanlab-astro/scripts/scrape_juanlab.py:270 | a project title is at most two stars and whitespace, a digit run, '.', then a non-empty single-line title |
| Patterns.ProjectCut | juanlab-astro/scripts/scrape_juanlab.py:270 | where a project title's groups are cut: a digit run starting after the stars and whitespace, the '.' after it, and a non-empty title without line breaks |
| Patterns.ProjectCutOnSingleLine | juanlab-astro/scripts/scrape_juanlab.py:270 | on a single line not ending in whitespace, the pattern matches iff digits after the stars and whitespace are followed by '.' and at least one more character; the title runs from the first non-space after the '.' to the end |
| Patterns.ProjectLineOnCleanText | juanlab-astro/scripts/scrape_juanlab.py:270 | on cleaned text, a match iff the digits are followed by '.' and one more character; the number is the digits, the title is everything after the '.' and its space |
| Patterns.ProjectLineExample | juanlab-astro/scripts/scrape_juanlab.py:270 | "1. Cancer" gives number "1" and title "Cancer" |
| Patterns.LazyNameEnd | juanlab-astro/scripts/scrape_juanlab.py:370 | the lazy name group ends as early as possible, so only whitespace separates it from the '(' |
| Patterns.MemberEntryFields | juanlab-astro/scripts/scrape_juanlab.py:370 | a matched entry has a non-empty name without '(', a non-empty info without ')' and a single-line rest |
| Patterns.MemberCut | juanlab-astro/scripts/scrape_juanlab.py:370 | where a member entry's groups are cut: the first '(' (not at the start), the first ')' after it with something between, and a rest to the end less an optional final line break; no '(' means no match |
| Patterns.MemberEntryPositions | juanlab-astro/scripts/scrape_juanlab.py:370 | the groups sit around the first '(' and the first ')' after it |
| Patterns.MemberEntryParts | juanlab-astro/scripts/scrape_juanlab.py:370 | a matched entry is the name, whitespace, "(" info ")" and the rest, with at most a final line break more |
| Patterns.MemberEntryOnCleanText | juanlab-astro/scripts/scrape_juanlab.py:370 | on cleaned text, a match iff the first '(' is not the first character and a ')' follows it with at least one character between; the name is the text before the '(' less the space there, the info fills the parentheses, the rest is everything after the ')' |
| Patterns.MemberEntryExample | juanlab-astro/scripts/scrape_juanlab.py:370 | "Wang (PhD) x" gives name "Wang", info "PhD" and rest " x" |
| Patterns.StrictCut | scripts/scrape_juanlab.py:368-370 | where a strict entry's groups are cut: the first '(' with two digits right after it, a department of word characters and a single-line research text; no '(' means no match |
| Patterns.StrictMemberEntryFields | scripts/scrape_juanlab.py:368-370 | the name is non-empty without '('; the year is two digits; the department is word characters; the research has no line break |
| Patterns.StrictMemberEntryParts | scripts/scrape_juanlab.py:368-370 | the name opens the text, only whitespace separates it from the first '(', and the year digits follow that '(' directly |
| Patterns.StrictCutOnSingleLine | scripts/scrape_juanlab.py:368-370 | on a single line the pattern matches iff two digits follow the first '(' (not the first character) and the word characters after an optional '-' and whitespace reach a ')'; the research then runs from the first non-space after the ')' to the end |
| Patterns.StrictCutOnCleanText | scripts/scrape_juanlab.py:368-370 | the same on cleaned text, where the research starts after the ')' and the single space that may follow it |
| Patterns.StrictMemberEntryOnCleanText | scripts/scrape_juanlab.py:368-370 | on cleaned text, a match iff the text has that shape; the name is the text before the '(' less the space there, the year the two digits, the department the word characters, the research everything after the ')' and its space |
| Patterns.StrictMemberEntryExample | scripts/scrape_juanlab.py:368-370 | "Li (07-LS) AI" gives name "Li", year "07", department "LS" and research "AI" |
| News.Classify | juanlab-astro/scripts/scrape_juanlab.py:176-183 | award iff an award keyword is in the lower-cased title; publication iff no award keyword but a publication keyword; recruitment likewise; otherwise general |
| News.NewsLink | juanlab-astro/scripts/scrape_juanlab.py:170-173 | a link exists iff the item has an anchor with a non-empty href, and is that href made absolute |
| News.NewsItemOf | juanlab-astro/scripts/scrape_juanlab.py:158-162 | an element gives an item iff it is a list item whose cleaned text matches the news pattern |
| News.NewsItemFields | juanlab-astro/scripts/scrape_juanlab.py:163-192 | title = text after "YY.MM "; year by the century rule; date = year, '-', the month digits as written; month = their value; category and link as above |
| News.NewsItemIff | juanlab-astro/scripts/scrape_juanlab.py:158-162 | the list items that are news are exactly those whose cleaned text is "DD.DD " and at least one more character |
| News.MatchedNewsMembers | juanlab-astro/scripts/scrape_juanlab.py:158-192 | an item is matched iff some element of the page gives it |
| News.Insert | juanlab-astro/scripts/scrape_juanlab.py:195 | inserting adds exactly one item (multiset) |
| News.InsertNewestFirst | juanlab-astro/scripts/scrape_juanlab.py:195 | inserting into a newest-first list keeps it newest first |
| News.InsertWithKey | juanlab-astro/scripts/scrape_juanlab.py:195 | the inserted item goes to the end of its own month's group, and the other groups are unchanged |
| News.SortNewestFirstSorted | juanlab-astro/scripts/scrape_juanlab.py:195 | the sort's result is non-increasing in (year, month) |
| News.SortNewestFirstPermutes | juanlab-astro/scripts/scrape_juanlab.py:195 | the sort's result is a permutation of its input |
| News.SortNewestFirstStable | juanlab-astro/scripts/scrape_juanlab.py:195 | items of the same (year, month) keep their input order |
| News.ExtractNews | juanlab-astro/scripts/scrape_juanlab.py:137-197 | the loop then the sort return the specification's list; nothing without a content area |
| News.ExtractedNewsOrder | juanlab-astro/scripts/scrape_juanlab.py:194-195 | the result is newest first, is a permutation of the matched items, and keeps document order within a month |
| Highlights.Slug | juanlab-astro/scripts/scrape_juanlab.py:233 | the id has only a–z, 0–9 and '-', neither starts nor ends with '-', and has no two '-' in a row; its letters and digits are exactly those of the lower-cased text, in order |
| Highlights.SlugOfJoin | juanlab-astro/scripts/scrape_juanlab.py:233 | words of a–z and 0–9 separated by runs with no letter or digit (even once lower-cased) give those words joined by exactly one '-' each, with none at either end |
| Highlights.NewHighlight | juanlab-astro/scripts/scrape_juanlab.py:232-239 | the id is the slug; the text is the Chinese title iff it has a CJK character, else the English one; everything else starts empty |
| Highlights.LongParagraph | juanlab-astro/scripts/scrape_juanlab.py:250-253 | a paragraph is added iff the element is a p whose cleaned text has more than 50 characters, and what is added is that cleaned text |
| Highlights.ResearchImage | juanlab-astro/scripts/scrape_juanlab.py:242-247 | the image is set iff the element is an a wrapping an img whose lower-cased src contains "highlight" or "research", and it is that src made absolute |
| Highlights.RunFromOpen | juanlab-astro/scripts/scrape_juanlab.py:228 | once a highlight is open, the remaining steps only extend it |
| Highlights.RunStaysClosed | juanlab-astro/scripts/scrape_juanlab.py:228 | without an opening header nothing is opened |
| Highlights.HighlightIffOpening | juanlab-astro/scripts/scrape_juanlab.py:228-256 | a highlight is returned iff some h1–h3 names a topic marker |
| Highlights.OpenedAtFirst | juanlab-astro/scripts/scrape_juanlab.py:228-239 | the first opening header opens the highlight, everything after it extends it, and later opening headers do not replace it |
| Highlights.ExtendAllKeepsTitles | juanlab-astro/scripts/scrape_juanlab.py:241-253 | extending never changes the id or titles and never adds publications |
| Highlights.ExtendAllDescription | juanlab-astro/scripts/scrape_juanlab.py:250-253 | the description is the long paragraphs after the opening, in order |
| Highlights.ExtendAllImage | juanlab-astro/scripts/scrape_juanlab.py:242-247 | the image is the last research image seen, if any |
| Highlights.HighlightsOf | juanlab-astro/scripts/scrape_juanlab.py:255-258 | at most one highlight is emitted |
| Highlights.ExtractResearchHighlights | juanlab-astro/scripts/scrape_juanlab.py:200-258 | the loop returns the specification's list |
| Highlights.VisitElement | juanlab-astro/scripts/scrape_juanlab.py:219-253 | one loop pass gives the open highlight that the specification's step gives |
| Projects.MarkOf | juanlab-astro/scripts/scrape_juanlab.py:277-283 | an h1–h3 naming the projects opens the section; an h1 or h2 without the keywords closes it |
| Projects.FlagOfIff | juanlab-astro/scripts/scrape_juanlab.py:272-283 | the section is open iff an opener has been seen and no closer came after the last one |
| Projects.FlagAfterIff | juanlab-astro/scripts/scrape_juanlab.py:272-283 | the same, stated on the page's elements: an h3 never closes the section |
| Projects.TitlePart | juanlab-astro/scripts/scrape_juanlab.py:299-300 | a title line is the non-empty cleaned line, not starting with a digit |
| Projects.SplitTitlesLastWins | juanlab-astro/scripts/scrape_juanlab.py:296-304 | the Chinese title is the last title line with a CJK character and the English title the last one without, "" when none |
| Projects.Titles | juanlab-astro/scripts/scrape_juanlab.py:305-310 | a single-line element's title is Chinese iff it has a CJK character, else English |
| Projects.ProjectOf | juanlab-astro/scripts/scrape_juanlab.py:287-288 | a record exists iff the cleaned text is a numbered project title |
| Projects.ProjectOfFields | juanlab-astro/scripts/scrape_juanlab.py:289-318 | the id is "project-" and the digits as written; the number is their value; the description is empty |
| Projects.RecordAt | juanlab-astro/scripts/scrape_juanlab.py:277-288 | a record comes only from a visited element inside the section that is not itself a section header, and every such element gives its project record, if its text is a project title |
| Projects.TitlesFromLines | juanlab-astro/scripts/scrape_juanlab.py:297-304 | the loop over the lines computes the specification's titles |
| Projects.VisitElement | juanlab-astro/scripts/scrape_juanlab.py:275-318 | one loop pass computes the next flag and the element's record |
| Projects.RecordOf | juanlab-astro/scripts/scrape_juanlab.py:286-318 | the record built inside the section is the specification's record of the element |
| Projects.ExtractResearchProjects | juanlab-astro/scripts/scrape_juanlab.py:261-320 | the loop returns the specification's list |
| Roster.EmptyPeopleComplete | juanlab-astro/scripts/scrape_juanlab.py:329-336 | the starting roster has all six categories, each empty |
| Roster.Add | juanlab-astro/scripts/scrape_juanlab.py:480 | appending a person changes only that category's list, at its end |
| Roster.SplitNameTokensZh | juanlab-astro/scripts/scrape_juanlab.py:445-453 | the Chinese name is the last token with a CJK character, "" when none |
| Roster.SplitNameTokensEn | juanlab-astro/scripts/scrape_juanlab.py:445-453 | the English name is the other tokens, in order, joined by single spaces |
| Roster.SplitNameLoop | juanlab-astro/scripts/scrape_juanlab.py:445-453 | the loop over the tokens computes the specification's split |
| Roster.ResearchAreas | juanlab-astro/scripts/scrape_juanlab.py:456 | every research area is non-empty and has no comma |
| Roster.ResearchAreasOfJoin | juanlab-astro/scripts/scrape_juanlab.py:456 | comma-joined pieces give back the stripped non-empty pieces, in order |
| Roster.ResearchAreasRoundTrip | juanlab-astro/scripts/scrape_juanlab.py:456 | areas that are non-empty, stripped and comma-free come back unchanged from their comma-joined text |
| Roster.ResearchAreasExample | juanlab-astro/scripts/scrape_juanlab.py:456 | "systems biology, genomics" gives the two areas |
| Roster.ResearchAreasCommaSpace | juanlab-astro/scripts/scrape_juanlab.py:456 | two trimmed, comma-free areas written as "a, b" are read back as [a, b] |
| Roster.PhotoOf | juanlab-astro/scripts/scrape_juanlab.py:459-462 | a photo exists iff the entry holds an img, and it is that img's src made absolute; a missing src gives "" |
| Roster.EmailOf | juanlab-astro/scripts/scrape_juanlab.py:465-468 | an e-mail exists iff the entry holds a mailto link; "mailto:" + a gives a, for an address a without "mailto:" in it |
| People.HeaderStep | juanlab-astro/scripts/scrape_juanlab.py:380-403 | "alumni" files under alumni and sets the flag; the flag is set iff it was or the header names alumni; a header without keywords changes nothing; a category is never unset |
| People.HeaderKeyword | juanlab-astro/scripts/scrape_juanlab.py:390-403 | the first keyword in table order decides, and under the flag a student or postdoc keyword files under alumni |
| People.ElementStep | juanlab-astro/scripts/scrape_juanlab.py:372-406 | only headers change the state; the flag is set iff it was or the header names alumni |
| People.AlumniFlagIff | juanlab-astro/scripts/scrape_juanlab.py:366-385 | the flag is set iff some header so far names alumni, and it is never cleared |
| People.StateAfterFiling | juanlab-astro/scripts/scrape_juanlab.py:394-400 | once the flag is set, entries are filed under alumni or visiting only |
| People.YearAndDept | juanlab-astro/scripts/scrape_juanlab.py:426-442 | without two adjacent digits: 2024 and the whole info; otherwise the century year of the first pair, and the info without that pair, trimmed of " -;," |
| People.MemberOf | juanlab-astro/scripts/scrape_juanlab.py:419-478 | the record of a matched entry: name split of the stripped name, year and department of the stripped info, research areas of the stripped rest, photo and e-mail |
| People.FallbackOf | juanlab-astro/scripts/scrape_juanlab.py:484-518 | the name-only record: the text is the Chinese name iff it has a CJK character; the year is 2024; department and research are empty; the photo is kept and there is no e-mail |
| People.PersonOf | juanlab-astro/scripts/scrape_juanlab.py:419-522 | a matched entry gives its record; unmatched text gives a name-only record iff its stripped length is 2 to 49 |
| People.RecordAt | juanlab-astro/scripts/scrape_juanlab.py:409-420 | an element records a person iff it is an li, p or tr with at least two characters, under a category, and gives a person |
| People.RecordUnderAlumni | juanlab-astro/scripts/scrape_juanlab.py:394-400 | after an alumni header nobody is filed as PhD, master's, undergraduate or postdoc |
| People.PeopleOf | juanlab-astro/scripts/scrape_juanlab.py:329-340 | all six categories are always present, and without a content root all are empty |
| People.NothingBeforeCategory | juanlab-astro/scripts/scrape_juanlab.py:409 | entries before the first category header are ignored |
| People.PeopleCount | juanlab-astro/scripts/scrape_juanlab.py:372-480 | each element adds at most one person |
| People.VisitElement | juanlab-astro/scripts/scrape_juanlab.py:373-480 | one loop pass computes the next state and the element's record |
| People.VisitHeader | juanlab-astro/scripts/scrape_juanlab.py:380-403 | a header's pass gives the state the specification's header step gives |
| People.ExtractPeople | juanlab-astro/scripts/scrape_juanlab.py:323-524 | the loop returns the specification's roster |
| LegacyPeople.HeaderCategory | scripts/scrape_juanlab.py:377-381 | only an h1–h4 chooses a category: the one of the first keyword its lower-cased text contains |
| LegacyPeople.ElementStep | scripts/scrape_juanlab.py:377-381 | a header without a keyword keeps the category, and a category is never unset |
| LegacyPeople.NoAlumniOverride | scripts/scrape_juanlab.py:377-381 | what a header chooses does not depend on what came before |
| LegacyPeople.CategoryIsLastHeader | scripts/scrape_juanlab.py:342-381 | the category is the one chosen by the last header with a keyword, none before the first |
| LegacyPeople.PersonOf | scripts/scrape_juanlab.py:386-388 | a list item gives a person iff its cleaned text matches the strict entry pattern |
| LegacyPeople.PersonOfFields | scripts/scrape_juanlab.py:388-424 | the year digits by the century rule; the department as matched; the name split; the research areas; the photo and e-mail |
| LegacyPeople.ResearchAreasOfEmpty | scripts/scrape_juanlab.py:402 | the guard around the research split changes nothing: "" has no areas |
| LegacyPeople.NoDigitsNoEntry | scripts/scrape_juanlab.py:368-370 | a text without digits never matches, and there is no fallback |
| LegacyPeople.NameWithoutYear | scripts/scrape_juanlab.py:368-370 | "Name (LS)" gives no record |
| LegacyPeople.RecordAt | scripts/scrape_juanlab.py:384-388 | a person is recorded iff the element is an li, a category is chosen and the text matches |
| LegacyPeople.PeopleOf | scripts/scrape_juanlab.py:329-340 | all six categories are always present, and without a content root all are empty |
| LegacyPeople.NothingBeforeCategory | scripts/scrape_juanlab.py:384 | list items before the first category header are ignored |
| LegacyPeople.PeopleFromListItems | scripts/scrape_juanlab.py:384-426 | the roster has at most as many people as the page has list items |
| LegacyPeople.VisitElement | scripts/scrape_juanlab.py:373-426 | one loop pass computes the next category and the element's record |
| LegacyPeople.ExtractPeople | scripts/scrape_juanlab.py:323-428 | the loop returns the specification's roster |
| Pi.FirstPhoto | juanlab-astro/scripts/scrape_juanlab.py:553-557 | no photo iff no img's lower-cased src has "juan" or "pi"; otherwise the first such src, made absolute |
| Pi.FindPhoto | juanlab-astro/scripts/scrape_juanlab.py:553-557 | the loop with its break computes the first such photo |
| Pi.BioParagraph | juanlab-astro/scripts/scrape_juanlab.py:561-564 | a bio paragraph is a p of more than 100 cleaned characters, with no line break, and every such p gives its cleaned text |
| Pi.BioParts | juanlab-astro/scripts/scrape_juanlab.py:566-567 | splitting the bio at its blank lines gives back the first three qualifying paragraphs; the bio is "" iff none qualifies |
| Pi.CollectParagraphs | juanlab-astro/scripts/scrape_juanlab.py:560-564 | the loop gathers exactly the qualifying paragraphs, in order |
| Pi.VisitElement | juanlab-astro/scripts/scrape_juanlab.py:583-594 | one pass of the section loop gives the specification's next section and filed profile |
| Pi.FileItems | juanlab-astro/scripts/scrape_juanlab.py:583-594 | the section loop files exactly the specification's items, starting from the given profile |
| Pi.HeaderSection | juanlab-astro/scripts/scrape_juanlab.py:587-591 | only an h2–h4 chooses a section |
| Pi.SectionStep | juanlab-astro/scripts/scrape_juanlab.py:587-591 | a header without a keyword keeps the section, and a section is never unset |
| Pi.SectionIsLastHeader | juanlab-astro/scripts/scrape_juanlab.py:570-591 | the section is the one chosen by the last header with a keyword, none before the first |
| Pi.AddItem | juanlab-astro/scripts/scrape_juanlab.py:594 | an item is appended to exactly one of the four lists, and nothing else changes |
| Pi.ItemAt | juanlab-astro/scripts/scrape_juanlab.py:593-594 | an item is filed iff the element is an li with non-empty text under a section |
| Pi.ItemsInGrowth | juanlab-astro/scripts/scrape_juanlab.py:583-594 | filing keeps identity, photo and bio; it adds at most one item per list item; nothing is filed before the first section header |
| Pi.ItemsAreListTexts | juanlab-astro/scripts/scrape_juanlab.py:593-594 | every filed item is the non-empty cleaned text of a list item of the page |
| Pi.PiOf | juanlab-astro/scripts/scrape_juanlab.py:529-596 | the identity fields are the constants; without a content root the profile is the default; the photo and bio are as above |
| Pi.ExtractPiInfo | juanlab-astro/scripts/scrape_juanlab.py:527-596 | the three loops return the specification's profile |
| Downloader.DetectCategory | juanlab-astro/scripts/download_images.py:48-68 | misc iff no pattern occurs in the lower-cased filename + " " + url; otherwise the first category, in table order, with a pattern that occurs |
| Downloader.FindCategory | juanlab-astro/scripts/download_images.py:59-68 | the nested loop with early return computes that category |
| Downloader.PiMeansPeople | juanlab-astro/scripts/download_images.py:49-66 | a name or URL containing "pi" is filed under people, even if it also contains "highlight" |
| Downloader.LabNeverMisc | juanlab-astro/scripts/download_images.py:52-68 | a URL containing "lab" is never filed under misc |
| Downloader.BaseName | juanlab-astro/scripts/download_images.py:76-80 | the part after the last '/', cut just before its first '?' when it has one and kept whole otherwise; the result has neither character |
| Downloader.Cleaned | juanlab-astro/scripts/download_images.py:82-84 | after both replacements no reserved character and no whitespace is left, and the name is no longer than the base name |
| Downloader.CleanedRunIsOneUnderscore | juanlab-astro/scripts/download_images.py:84 | a maximal whitespace run becomes exactly one '_', and the text on either side is cleaned on its own |
| Downloader.CleanedKeepsOthers | juanlab-astro/scripts/download_images.py:84 | the whitespace replacement keeps every character other than whitespace and '_', in order |
| Downloader.SanitizeFilename | juanlab-astro/scripts/download_images.py:71-90 | the result has no reserved character and no whitespace, and ends case-insensitively with an image extension; it is the cleaned name if that already has an extension, and the cleaned name + ".png" otherwise |
| Downloader.TidyIdempotent | juanlab-astro/scripts/download_images.py:76-90 | sanitizing after decoding is idempotent |
| Downloader.SanitizeStable | juanlab-astro/scripts/download_images.py:71-90 | a sanitized name that decoding leaves alone is unchanged by a second sanitizing |
| Downloader.FallbackName | juanlab-astro/scripts/download_images.py:170 | the fallback name is "image_", then decimal digits whose value is the position, then ".png"; it is safe |
| Downloader.FallbackNamesDistinct | juanlab-astro/scripts/download_images.py:164-170 | different positions give different fallback names |
| Downloader.ManifestName | juanlab-astro/scripts/download_images.py:164-170 | an empty manifest file name gets the fallback for its position, any other the sanitized name |

## Left out

- Fetching pages and images, retries, delays, file writes, directory creation, the JSON output
  and the console messages are I/O and are not modelled. The download routine is left out too:
  HTTP, the content-type check and WebP transcoding through an image library.
- HTML parsing is not modelled. A page is given as the element sequence a tag search returns,
  with each element's text and first nested image and links already extracted.
- Unicode NFKC normalisation, `urljoin` and percent-decoding are opaque function parameters.
- Character classes cover ASCII plus the CJK block U+4E00–U+9FFF. Whitespace, digits and
  word characters outside ASCII are not modelled, and neither is non-ASCII lower-casing.
- The newer members extractor's fallback runs a four-digit and a bounded two-digit year search
  whose result is never used. It is not modelled, since it cannot change the record.
- In the highlight extractor, the append of a previous highlight before a new one opens
  sits behind a test that the open highlight is absent, so it never runs. The model has no
  such step.
- News.SortNewestFirst: Python's sort is modelled as a stable insertion sort with the same
  result (sorted, permutation, stable). Timsort's own steps are not modelled.
- The other parts of the main routines (topic order, image collection across pages, statistics)
  are not modelled. The only parts modelled are the URL de-duplication and the fallback file name.
