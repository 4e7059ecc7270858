# Private-college directory scraper, modelled in Dafny

`EducationScraper.get_private_colleges` (education.py) walks the directory
pages of www.privatecollegesaustralia.com, one page per Australian state and
territory (`nsw vic qld wa sa tas nt act`), and turns every matched
`div.paragraph` block into one college record appended to the scraper's
list `colleges`. This project models that run and proves what the records
hold.

- **Document.** A page is a sequence of `Block`s. A block has an optional
  parent `Tag` whose `class` attribute is absent, a string or a list of
  strings (`AttrValue`). It also has the optional text of its first
  `<strong>`, and its `Span`s. A span has its text and the optional `href`
  of each of its links. Fetching and parsing a page is the parameter
  `fetch: string -> seq<Block>`, called on the page's URL.
- **Text functions** (`Text`, `Pattern`). Python's `strip`, `lower`,
  `isdigit`, `in`, `startswith`, `split` and `replace` are written out. So
  is a backtracking matcher for the regular expression
  `\s*\d+\s+\w+\s+\w+\,*\s+` that `re.search` applies to decide that a line
  is an address.
- **Field heuristics** (`Heuristics`). These read the name, e-mail address,
  website, phone number and labels off a span's text and its link targets.
- **Record of one block** (`PrivateColleges`). `SpanStep` and `AnchorStep`
  are the specification of one span and one link. `BuildCollege` and
  `ReadLinks` are the loops that update the record field by field. Each is
  proved equal to its specification.
- **Block loop and flag** (`PrivateColleges`, `Scraper`). `ScanPage` is the
  specification of the block loop with its flag `pick_this`. A considered
  block whose parent has no `class` attribute makes `pparent['class']`
  raise. That ends the whole run, and the records already appended stay.
  `ScanStates` is the specification of the run over the states.
- **Scraper object.** `EducationScraper` is a class with the field
  `colleges`. `GetPrivateColleges` and `ReadPage` are the state and block
  loops, which append to that field. Their `ensures` tie the new list to
  the old list followed by the records of `ScanStates`/`ScanPage`.
- **Fact modules** (`CollegeFacts`, `PageFacts`). These state the
  properties against the document itself instead of against the order of
  the writes:
  - the last matching span gives the address and the phone number;
  - the first matching link gives the e-mail address and the website;
  - labels are present exactly when a website is, and come from the last
    span;
  - at most one block in a row is skipped, and a block is considered
    exactly when it has a parent and its arrival flag is up;
  - record counts are bounded;
  - a page's records are exactly the records of its considered blocks, up
    to the first block without a class.

Two details of the code that are easy to misread:
- The e-mail address is the text after the last colon of the link target
  (`href.split(':')[-1]`, `EmailOf`), not after the first.
- A target without `http` or `www.`, such as a bare `example.com`, never
  sets the website (`WebsiteOf`, `CollegeWebsite`).

## Model

| member | source | states |
|---|---|---|
| Text.LowerChar | education.py:61 | one character of `lower`: an upper-case letter becomes the lower-case letter 32 code points above it, any other character is kept, and the result is never upper-case |
| Text.Lower | education.py:61 | `lower` keeps the length, turns every upper-case letter into its lower-case letter (code point plus 32), keeps every other character and keeps whitespace where it was |
| Text.Strip | education.py:61 | `strip` yields the slice between the leading and trailing whitespace; it is empty exactly when the text is all whitespace, and otherwise begins and ends with a non-space |
| Text.Digits | education.py:68 | the phone digits are at most as long as the text; every character is a digit; an all-digit text is kept as is; a text without digits gives the empty string |
| Text.DigitsAppend | education.py:68 | the digits of a concatenation are the digits of the first part followed by those of the second, so order is kept |
| Text.Split | education.py:85 | `split(',')` yields at least one piece, and no piece holds the separator |
| Text.SplitMissing | education.py:85 | a character the text does not hold is in none of its pieces |
| Text.JoinSplit | education.py:85 | joining the pieces of a split with the separator gives back the text |
| Text.SplitJoin | education.py:85 | splitting pieces joined with a separator they do not hold gives back the pieces |
| Text.LastPieceIsSuffix | education.py:77 | `split(':')[-1]` is the suffix after the last colon (the whole text when there is no colon) and holds no colon |
| Text.RemoveAll | education.py:85 | `replace('.', '')` leaves no full stop, adds no character, and changes nothing in a text without one |
| Text.RemoveAllAppend | education.py:85 | removing full stops from a concatenation removes them from each part, so with `RemoveAllChar` every other character is kept, in order |
| Text.RemoveAllChar | education.py:85 | on one character, `replace` deletes a full stop and keeps anything else |
| Pattern.AddressShape | education.py:64 | a line with digits, whitespace, a word, whitespace, a word, optional commas and one more whitespace character, in that order, is accepted by the address regular expression |
| Pattern.AddressHasShape | education.py:64 | every line the address regular expression accepts has that shape, so the shape is exactly what it matches |
| Scenarios.StreetAddressRecognised | education.py:63-64 | the comment's example line `770 george st, sydney` is taken for an address |
| Heuristics.NameOf | education.py:54-57 | a block has a name exactly when it has a `<strong>`; the name is trimmed and lower-case |
| Heuristics.SpanText | education.py:61 | the examined text of a span is trimmed, lower-case and no longer than the span's text |
| Heuristics.EmailOf | education.py:77 | the e-mail address is the trimmed text after the last colon of the target; it has no colon and is trimmed |
| Heuristics.WebsiteOf | education.py:82 | the website is the trimmed target, never empty for a target holding `http` or `www.` |
| Heuristics.CleanLabels | education.py:85 | trimming the pieces and dropping the empty ones keeps at most as many pieces, each a label |
| Heuristics.CleanLabelsSingle | education.py:85 | one piece gives its trimmed text as a label when that is non-empty, and nothing when it is blank |
| Heuristics.CleanLabelsAppend | education.py:85 | the labels of two runs of pieces are the labels of the first run followed by those of the second, so with `CleanLabelsSingle` every non-blank piece is kept, trimmed and in order |
| Heuristics.LabelsOf | education.py:85 | every label is non-empty and trimmed, and holds neither a full stop nor a comma |
| Heuristics.LabelsRoundTrip | education.py:85 | labels written as a comma-separated line are read back unchanged |
| PrivateColleges.ReadLinks | education.py:72-82 | the link loop yields the record `AnchorSteps` specifies: the first `@` target sets the e-mail address, the first `http`/`www.` target sets the website, and neither is overwritten |
| PrivateColleges.BuildCollege | education.py:41-85 | the span loop yields exactly the record `CollegeOf` specifies for the block |
| PrivateColleges.Flags | education.py:33-52 | there is one flag value per block |
| PrivateColleges.ScanPageSkip | education.py:37-49 | case of the definition of `ScanPage`: a block reached with the flag down, or one without a parent, adds no record and passes the flag on (the claims about a whole page are `ScanPageMeaning` and `AtMostOneSkip`) |
| PrivateColleges.ScanPageFail | education.py:51 | case of the definition of `ScanPage`: a considered block whose parent has no `class` attribute ends the scan with nothing more added |
| PrivateColleges.ScanPageTake | education.py:51-87 | case of the definition of `ScanPage`: a considered block whose parent has a class adds its record, ahead of the records of the blocks after it |
| Scraper.ScanStatesNext | education.py:27-35 | case of the definition of `ScanStates`: a page read to the end is followed by the pages of the remaining states (the claim about a whole run is `RunRecordCount`) |
| Scraper.ScanStatesStop | education.py:27-51 | case of the definition of `ScanStates`: a page whose scan ended early ends the run |
| Scraper.EducationScraper.constructor | education.py:18 | a new scraper has no colleges |
| Scraper.EducationScraper.GetPrivateColleges | education.py:20-91 | `colleges` becomes its old value followed by the records `ScanStates` gives for the eight states, and earlier entries stay in place; `ok` is false exactly when a parent without a class stopped the run |
| Scraper.EducationScraper.ReadPage | education.py:33-87 | the block loop of one page appends exactly the records `ScanPage` gives, with `pick_this` starting up; it reports whether the scan ended early |
| CollegeFacts.FirstLinkSpec | education.py:74-82 | the first qualifying link is absent exactly when no link qualifies; otherwise it is the reading of the first link that does |
| CollegeFacts.FirstLinkAppend | education.py:59-82 | the first qualifying link of two link lists in a row is found in the first list when it has one |
| CollegeFacts.AnchorStepsLink | education.py:74-82 | over the links of a span, a set e-mail address or website is kept, and an unset one takes the first qualifying link |
| CollegeFacts.AnchorStepsKeeps | education.py:74-82 | reading links leaves the name, address, phone number and labels unchanged |
| CollegeFacts.SpanStepsLink | education.py:59-82 | over all the spans of a block, a set e-mail address or website is kept, and an unset one takes the first qualifying link of the whole block |
| CollegeFacts.LinkKept | education.py:76-81 | once set, the e-mail address or website is not overwritten by later spans |
| CollegeFacts.CollegeEmail | education.py:76-77 | a record's e-mail address is absent exactly when no link target holds `@`; otherwise it is read from the first target that does |
| CollegeFacts.CollegeWebsite | education.py:79-82 | a record's website is absent exactly when no target holds `http` or `www.`; otherwise it is the trimmed first such target and is never empty |
| CollegeFacts.LastLineSpec | education.py:59-68 | the last qualifying span is absent exactly when no span qualifies; otherwise it is the reading of the last span that does |
| CollegeFacts.SpanStepsLine | education.py:59-68 | over the spans, every address or phone span overwrites the field, so the last one wins; without one the field is kept |
| CollegeFacts.CollegeAddress | education.py:64-65 | a record's address is absent exactly when no span looks like an address; otherwise it is the examined text of the last span that does |
| CollegeFacts.CollegePhone | education.py:67-68 | a record's phone number is absent exactly when no span starts with `phone`; otherwise it is the digits of the last span that does, and it holds nothing but digits |
| CollegeFacts.CollegeName | education.py:54-57 | every record carries the name read from the `<strong>` text, and `None` when there is none |
| CollegeFacts.SpanStepsFollow | education.py:79-85 | between spans, labels are present exactly when a website is, and a website is never empty |
| CollegeFacts.SpanStepsSnoc | education.py:59 | the spans are read in order, the last one applied to the record built from the others |
| CollegeFacts.SpanStepsLabels | education.py:84-85 | whenever labels are present after the spans, they are the labels of the last span |
| CollegeFacts.CollegeLabels | education.py:84-85 | a record has labels exactly when it has a website; they are the labels of the block's last span, and each is non-empty, trimmed and free of `.` and `,` |
| PageFacts.FlagsShape | education.py:33-52 | the flag starts at its initial value and each block passes it on to the next |
| PageFacts.AtMostOneSkip | education.py:33-52 | the first block of a page is considered; a block is skipped only right after a considered block with a multi-column parent; the block after a skipped one is considered |
| PageFacts.ConsideredIsPicked | education.py:37-52 | the blocks the page scan considers are exactly the blocks with a parent whose arrival value of `pick_this` is up, in order, so a block whose flag `AtMostOneSkip` shows down is never considered |
| PageFacts.ClassListsNeverSkip | education.py:51-52 | when every parent class is a list of class names, no block is skipped |
| PageFacts.ScanPageMeaning | education.py:35-87 | a page's records are those of its considered blocks up to the first one whose parent has no class; the scan ends early exactly when there is such a block |
| PageFacts.ScanPageRecords | education.py:35-87 | a page read to the end gives exactly the records of its considered blocks; a page whose scan ended early gives those before the block that stopped it |
| PageFacts.OrphanBlockIgnored | education.py:45-49 | case of the definition of `ScanPage`: a block without a parent, reached with the flag up, gives no record and leaves the flag unchanged |
| PageFacts.ConsideredCount | education.py:35-57 | the considered blocks number at most the blocks with a parent, and at least those less the skipped ones |
| PageFacts.PageRecordCount | education.py:35-87 | a page gives at most one record per block; a page read to the end gives at least one per block with a parent, less one per skipped block |
| PageFacts.ClassListsRecordCount | education.py:45-87 | with lists as parent classes, a page read to the end gives one record per block with a parent |
| PageFacts.RunRecordCount | education.py:27-87 | a run collects at most one record per block of the pages of all the given states, and it ends early only if some state's page did |
| PageFacts.SomePageFailsRunFails | education.py:27-51 | conversely, a page of any state whose scan ends early makes the whole run end early |

## Left out

- Fetching and parsing are left out: `requests.get`, BeautifulSoup's
  `lxml` parse and `find_all`/`find` (lines 31, 35, 45, 55, 59, 70) are
  not modelled. The page arrives as the `fetch` parameter, already cut
  into blocks, spans and link targets.
- The filter `class_='paragraph', style="text-align:left;"` (line 35) is
  not modelled; the blocks given are the ones it matched.
- `unidecode` (line 55) is a foreign library; the model takes it as the
  identity. So `NameOf`'s promise that a name is lower-case holds only for
  the model: the real `unidecode` can turn a character `lower` leaves
  alone into an ASCII capital (U+2102 becomes `C`), and then the stored
  name is not lower-case.
- Python's Unicode `lower`, `isdigit` and `\d`/`\w` are modelled on ASCII
  only. `isspace`, `strip` and `\s` use Python's full whitespace set.
- `print` (lines 29, 48, 89), directory creation in the constructor (lines
  13-16), `save`/`json.dump` (lines 93-95) and the `__main__` chain (lines
  97-101) are I/O and are not modelled.
- `get_private_colleges` returns `self` (line 91), and a `KeyError` from
  `pparent['class']` (line 51) escapes it. The model raises nothing: it
  returns a flag `ok`, false exactly when that exception would have
  escaped.
- A bare `except:` around the name (lines 54-57) is modelled only for its
  observable effect: with no `<strong>`, the name is `None`.
- The link loop and the block loop of each page are separate methods
  (`ReadLinks`, `ReadPage`) instead of being written inline in their
  enclosing loops. The order of the updates is the same.
- `pparent['class'] == 'wsite-multicol-col'` (line 51) is modelled as
  written: only a class given as that single string is a multi-column
  container. Real HTML parsers give a list of class names. For that case
  `ClassListsNeverSkip` shows that the skip never happens.
- The other directory sources (medical colleges, universities, TAFEs,
  business schools) are not part of this model.
