# NetSuite Records Browser scraper — a Dafny model of its core

The scraper walks the NetSuite Records Browser. On the start page it
collects the links to the record-type pages. Each record page yields the
record's name, its internal id, and one field descriptor per row of the
page's Fields table. This project models the deterministic part of that
work, once the browser has loaded a page and the HTML parser has parsed
it, and proves what it does:

- **Fields** (`fields.dfy`): `parse_field_row`. A row of cell texts becomes
  a `FieldDescriptor`, or nothing when the row has fewer than six cells.
  The loop over the table's rows below the header is modelled too.
- **Records** (`records.dfy`): the skeleton of `extract_record_data`. A
  parsed page is a `Document`, a flat sequence of `Element(tag, text, rows)`
  in document order. The model covers:
  - the first `h1` as the record name;
  - the id taken from the URL, overridden by the text after `Internal ID:`;
  - the first `h2`/`h3`/`h4` whose text mentions `Fields`;
  - the first table after that heading, and its parsed rows.
- **Links** (`links.dfy`): the string logic of `get_record_links`. A parsed
  start page is a `LinkPage`. It holds every anchor's href, plus the
  candidate containers (`nav`, `aside`, `div`) with their class tokens and
  their anchors' hrefs. The model covers:
  - the choice of navigation container;
  - the two href filters;
  - resolution against the start URL;
  - de-duplication.
- **Urls** (`urls.dfy`): the hand-rolled URL handling, all done with
  `split('/')` and `'/'.join`. It covers the origin (`[:3]`), the parent
  path (`[:-1]`), the last segment (`[-1]`), the three-case resolution, and
  the record id taken from a URL.
- **Text**, **Seqs**, **Options**: Python's string and list operations the
  code relies on. These are `strip`, `lower`, `in`, `startswith`,
  `endswith`, `split`/`join` on one character, `split(sep)[-1]`,
  `replace(pat, '')`, the first-match searches of BeautifulSoup's
  `find`/`find_next`, and `list(set(...))`.

Four behaviours of the code are worth stating plainly, and the model keeps
each of them:

- Once a navigation container is found, only its anchors are scanned, with
  the `.html` filter. The whole-page pass runs only when no container
  exists, and the two are never combined (`Links.NavPassIgnoresPage`).
- Only a `div` can qualify by class. The class fragments are exactly `nav`,
  `sidebar`, `menu` and `toc`.
- The Fields heading is the first `h2`, `h3` or `h4` in document order. The
  heading level does not rank the candidates.
- The internal id comes from the URL, but the text after `Internal ID:` in
  the first element that carries the label replaces it.

An href that merely begins with the letters `http`, such as
`httpdocs.html`, is taken to be absolute and returned unchanged. This is
what the code does, and the first ensures of `Urls.Resolve` states it.

## Model

| member | source | states |
|---|---|---|
| Fields.ParseFieldRow | netsuite_scraper.py:15-28 | No descriptor exactly when the row has fewer than six cells. Otherwise `required` holds exactly when the stripped cell 4 spells `true` in any mix of upper and lower case. |
| Fields.LowerIsTrue | netsuite_scraper.py:26 | `s.lower() == 'true'` holds exactly for the case variants of `true`. |
| Fields.ParseFieldRowCells | netsuite_scraper.py:21-28 | Cells after the sixth never change the descriptor. Each text field is the stripped text of its cell: 0, 1, 2, 3 and 5. |
| Fields.ParseRows | netsuite_scraper.py:78-81 | The number of descriptors is the row count less the rows of fewer than six cells. |
| Fields.ParseRowsSpec | netsuite_scraper.py:78-81 | Every row of six or more cells contributes its descriptor, and every descriptor comes from such a row. Parsing distributes over concatenation of rows, so row order is kept. |
| Fields.ShortRowsAreMisses | netsuite_scraper.py:18-19 | The rows too short to describe a field are exactly the rows `parse_field_row` rejects. |
| Fields.DropHeader | netsuite_scraper.py:76 | `rows[1:]`: the header row followed by the result gives back the table, and a table with no rows gives none. |
| Fields.TableFieldCount | netsuite_scraper.py:76-81 | A table's field count is its row count less the header row less the short rows below it. |
| Records.IdAfterLabel | netsuite_scraper.py:60 | The id taken from the page text never contains the label and is no longer than the text. |
| Records.RecordInternalId | netsuite_scraper.py:50-60 | With no labelled element, the id is the one the URL gives. When some element carries the label, the id never contains the label. |
| Records.RecordInternalIdSpec | netsuite_scraper.py:53-60 | When some element carries the label, the id is the stripped text after the last label in the first labelled element. |
| Records.FieldsTable | netsuite_scraper.py:63-72 | The index found is a table, and some Fields heading comes before it. |
| Records.FieldsTableSpec | netsuite_scraper.py:63-72 | A table is found exactly when some Fields heading has a table after it. The table found is the first table after the first Fields heading. |
| Records.ExtractRecord | netsuite_scraper.py:31-87 | A record is produced exactly when the page has an `h1` and a table is found after the first Fields heading. It holds at most one descriptor per row below the header. |
| Records.ExtractRecordFound | netsuite_scraper.py:41-72 | A record is produced exactly when the page has an `h1` and some Fields heading followed by a table. Its id is the derived internal id. |
| Records.ExtractRecordName | netsuite_scraper.py:41-45 | The record name is the stripped text of the first `h1`. |
| Records.ExtractRecordFields | netsuite_scraper.py:74-81 | The fields are the parsed rows below the header of the table chosen. There are as many as rows less one less the short rows. |
| Records.ThreeElementPage | netsuite_scraper.py:41-81 | A page of an `h1`, a Fields heading and a table, with no id label, yields the stripped name, the URL's id, and the table's parsed body rows. |
| Records.OneFullRow | netsuite_scraper.py:76-81 | A header, a six-cell row and a shorter row give exactly one descriptor, from the six-cell row. |
| Records.OneFieldPage | netsuite_scraper.py:31-87 | A page of an `h1`, an `h3` heading mentioning Fields, and a table of a header, one six-cell row and one four-cell row, with no id label, yields one descriptor, from the six-cell row, and the id the URL gives. |
| Links.FindNav | netsuite_scraper.py:104-108 | No container is found exactly when no candidate is a `nav`, an `aside` or a `div` with a navigation class. A container found is one of the candidates, and of one of those kinds. |
| Links.FindNavSpec | netsuite_scraper.py:104-108 | The first `nav` wins, then the first `aside`, then the first `div` with a navigation class. |
| Links.IsRecordHref | netsuite_scraper.py:119 | Every href the whole-page filter accepts is also accepted by the navigation filter. |
| Links.IsNavHref | netsuite_scraper.py:141 | The navigation filter accepts every href that ends with `.html`. |
| Links.ResolveKept | netsuite_scraper.py:116-130 | At most one URL per href. A URL is collected exactly when some accepted href resolves to it. |
| Links.GetRecordLinks | netsuite_scraper.py:94-155 | The links returned hold no duplicate. |
| Links.GetRecordLinksSpec | netsuite_scraper.py:110-155 | With no container, its URLs are exactly those of the page anchors whose href contains `/record/` and ends with `.html`, resolved. With a container, they are exactly those of the container's anchors with an href containing `.html`, resolved. |
| Links.NavPassIgnoresPage | netsuite_scraper.py:110-141 | When a container exists, the anchors outside it do not affect the result. |
| Links.LinksArePages | netsuite_scraper.py:119-152 | Every link returned contains `.html`: both filters demand it, and resolution keeps the href as the link's tail. |
| Urls.Origin | netsuite_scraper.py:124 | `'/'.join(url.split('/')[:3])` is a prefix of the URL that holds at most two slashes and stops at the third slash or at the end. |
| Urls.OriginOf | netsuite_scraper.py:124 | The origin of `scheme//host/path` is `scheme//host`. |
| Urls.LastSegment | netsuite_scraper.py:50 | `url.split('/')[-1]` is a slash-free suffix of the URL, preceded by a slash unless it is the whole URL. |
| Urls.ParentPath | netsuite_scraper.py:127 | `'/'.join(url.split('/')[:-1])` followed by `/` and the last segment gives back the URL. It is empty when the URL has no slash. |
| Urls.LastSegmentOf | netsuite_scraper.py:50 | The last segment of `p/seg` is `seg`, for any slash-free `seg`. |
| Urls.Resolve | netsuite_scraper.py:121-128 | An href starting with `http` is returned as it is. Every result ends with the href. Otherwise, for a start URL with a slash, what precedes the href is a prefix of the start URL. |
| Urls.ResolveRootRelative | netsuite_scraper.py:123-125 | A root-relative href replaces everything from the start URL's third slash on. It returns the cut point: the kept prefix ends at the third slash, or is the whole URL when it has fewer than three slashes. |
| Urls.ResolveRootRelativeOf | netsuite_scraper.py:145-147 | `scheme//host/path` with a root-relative href gives `scheme//host` followed by the href. |
| Urls.ResolveRelative | netsuite_scraper.py:126-128 | Any other href replaces the start URL's last segment and keeps everything up to and including the last slash. |
| Urls.ResolveRelativeOf | netsuite_scraper.py:148-150 | `dir/page` with a relative href gives `dir/href`. |
| Urls.UrlRecordId | netsuite_scraper.py:50 | The id taken from a URL holds no slash. It is no longer than the URL's last segment, and made of that segment's characters. |
| Urls.UrlRecordIdOfPage | netsuite_scraper.py:50 | The URL `p/seg.html` followed by `rest` (a fragment such as `#top`) gives the id `seg` followed by `rest`, when neither part holds a slash or `.html`. |
| Urls.RemoveHtmlSuffix | netsuite_scraper.py:50 | Deleting every `.html` from `seg.html` followed by `rest` deletes just that occurrence and treats `rest` afresh, when `seg` holds no `.html`. |
| Text.Strip | netsuite_scraper.py:22-27 | `strip()`: the result is a slice of the input that neither begins nor ends with whitespace. Everything before and after it is whitespace. It is empty exactly when the input is all whitespace. |
| Text.StripIdempotent | netsuite_scraper.py:58-60 | Stripping twice is stripping once. |
| Text.StripKeepsWord | netsuite_scraper.py:58-59 | Stripping keeps every occurrence of a word that neither begins nor ends with whitespace, such as `Internal ID:`. |
| Text.Lower | netsuite_scraper.py:26 | `lower()` keeps the length and lower-cases each character. |
| Text.Contains | netsuite_scraper.py:119 | `t in s` holds exactly when `t` occurs at some position of `s`. |
| Text.Split | netsuite_scraper.py:124 | `split(c)` gives one more piece than there are separators, and no piece holds the separator. |
| Text.JoinSplit | netsuite_scraper.py:124-127 | Joining the pieces of a split gives the string back. |
| Text.SplitJoin | netsuite_scraper.py:124-127 | Splitting a join of separator-free pieces gives the pieces back. |
| Text.AfterLast | netsuite_scraper.py:60 | `s.split(sep)[-1]` is a suffix of `s` that holds no `sep`. It is shorter than `s` exactly when `s` holds `sep`, and then what precedes it ends with `sep`. |
| Text.RemoveAll | netsuite_scraper.py:50 | `replace(pat, '')` never lengthens the string. |
| Text.RemoveAllChars | netsuite_scraper.py:50 | `replace(pat, '')` adds no character of its own: every character of the result is one of the input's. |
| Text.RemoveAllFirst | netsuite_scraper.py:50 | Around the first occurrence of `pat`, `replace(pat, '')` keeps what precedes it, deletes the occurrence and treats the rest afresh; with `Text.RemoveAllAbsent` this fixes the result for every input. |
| Text.RemoveAllAbsent | netsuite_scraper.py:50 | `replace(pat, '')` leaves a string without `pat` unchanged. |
| Seqs.FirstFrom | netsuite_scraper.py:63-69 | The search returns the first matching index at or after the start. It returns nothing exactly when no element from the start matches. |
| Seqs.Dedup | netsuite_scraper.py:133 | `list(set(s))` has no duplicates, and holds exactly the values of `s`. |
| Seqs.DedupKeepsDistinct | netsuite_scraper.py:133 | A list without duplicates loses no element: the result is as long as the input. |
| Seqs.FilterMapMembers | netsuite_scraper.py:116-130 | The collected values are exactly the results of the elements that yield one. |
| Seqs.FilterMapAppend | netsuite_scraper.py:78-81 | Collecting distributes over concatenation, so input order is kept. |

## Left out

- Browser work: Playwright navigation, timeouts and the `time.sleep` pauses (netsuite_scraper.py:34-37, 96-99). The parsed page is an input to the model.
- HTML parsing: BeautifulSoup and lxml are not modelled. An `Element`'s text stands both for the string `find(string=...)` matches and for `get_text(strip=True)` of that element or its parent. `find_next('table')` is the first `table` later in document order.
- Errors and output: the `except Exception` catch-all and every console message (netsuite_scraper.py:43, 65, 71, 89-91, 112). A page the parser cannot handle is not representable.
- `main`, the JSON output file, and the crawl loop over the links (netsuite_scraper.py:158 on). They are I/O and pacing around the modelled functions.
- `apify_scraper.py` and `apify_web_scraper.py` only pass configuration and an opaque JavaScript string to an external service. `diagnose_links.py` only loads a page and prints counts. None holds logic to model.
- Text.Lower: lower-cases ASCII letters only. Python's `lower()` also maps non-ASCII letters, but the only ones it maps to ASCII letters are U+0130 (to `i` and a combining dot) and U+212A (to `k`). None of `true`, `nav`, `sidebar`, `menu` and `toc` holds a `k`, and the one `i` among them, in `sidebar`, is followed by `d` rather than the combining dot, so the comparison with `true` and the class test agree with Python on every input.
- Text.Strip: the whitespace set is the set of characters Python's `str.isspace` accepts. `get_text(strip=True)` also joins the stripped text pieces of nested tags, which is not modelled.
- Seqs.Dedup: keeps first occurrences in input order. Python's `list(set(...))` leaves the order unspecified, so the contracts about the links speak only of their set and of the absence of duplicates.
- Links.FindNavSpec: a `div` qualifies when one of its class tokens, lower-cased, contains a fragment. BeautifulSoup also tries the whole class string, which gives the same answer because no fragment contains a space.
