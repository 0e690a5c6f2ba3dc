# Publication list updater, modelled in Dafny

The repository keeps the publications section of a personal web page
(`academia.html`) up to date from a bibliographic source. Two scripts do the
same job with small differences:

- `update_publications_local.py`, run by hand, with the Scholar ID written
  into the script;
- `update_publications.py`, which reads the Scholar ID from the `SCHOLAR_ID`
  environment variable and falls back to a placeholder it refuses to use.

Each script runs the same pipeline:

1. turns every filled publication into a six-field record, using key-presence
   defaults;
2. sorts the records by year, newest first (Python's sort is stable), and keeps
   the first ten;
3. renders each record as a `publication-item` HTML fragment;
4. wraps the fragments in a region that opens with
   `<!-- PUBLICATIONS_START -->` and closes with `<!-- PUBLICATIONS_END -->`;
5. splices that region into the page with a non-greedy regular-expression
   substitution between the two markers.

The two variants differ in two places:

- **Sort key.** The local script extracts a year tolerantly and never fails.
  `update_publications.py` calls `int(year)`, so one unreadable year makes the
  whole fetch return an empty list.
- **Venue.** The local script hides an empty, `Unpublished` or all-whitespace
  venue. `update_publications.py` always prints it.

## Layout

| file | module | what it holds |
|---|---|---|
| `text.dfy` | `Text` | Substring search (Python's `in` and the leftmost regex scan); ASCII `int()` and `str()`; `sep.join`; `split`; `str.isspace`. |
| `records.dfy` | `Records` | The raw record, the normalised record, the key-presence defaults, and the append loop that builds the list. |
| `sorting.dfy` | `StableSort` | Python's `list.sort(key, reverse=True)`: a reference definition (stable insertion from the back), its properties, and an in-place array insertion sort proved equal to it. |
| `markers.dfy` | `Markers` | The marker constants and the `re.sub` splice of `update_html_file`. Both scripts share this code. |
| `html.dfy` | `Html` | Fragment pieces the two scripts share, the region around the fragments, and the proof that such a region reads back as exactly one region. |
| `local.dfy` | `UpdatePublicationsLocal` | `update_publications_local.py`. |
| `strict.dfy` | `UpdatePublications` | `update_publications.py`. |

The methods (`CollectRecords`, `SortList`/`SortInPlace`, both
`FetchPublications`, both `FormatPublicationHtml` and both
`GeneratePublicationsHtml`) build their results step by step, as the scripts
do: appending in a loop, sorting in place, and extending a string with `+=`.
Each method is proved equal to a reference function. The properties are then
proved about those functions.

Three behaviours of the code are worth noting:

- `re.sub` is called without a count, so **every** `START … END` span is
  replaced.
- A title that is present but empty stays empty. Defaults apply only when a
  key is absent.
- Records are not de-duplicated.

## Model

| member | source | states |
|---|---|---|
| Text.Find | update_publications_local.py:148 | The result is the first index at or after `from` where the pattern occurs; `None` when there is no such index. |
| Text.FindContains | update_publications_local.py:148 | Searching from the start finds a match exactly when `pat in s`. |
| Text.NatToDecimal | update_publications_local.py:119 | `str(n)`: a non-empty string of ASCII digits, with no leading zero, whose value is `n`. |
| Text.ParseIntOfDecimal | update_publications.py:44 | `int(str(n)) == n`, also with a leading minus sign. |
| Text.ParseInt | update_publications.py:44 | `int()`: a result exists exactly when the text is one or more ASCII digits with an optional `+` or `-` in front (`IntText`). A string of ASCII digits reads as its decimal value. A result needs a digit, and a negative result needs a leading `-`. |
| Text.ParseIntStray | update_publications.py:44 | A character that is neither a digit nor a leading sign, as in `2019a` or `20 19`, makes `int()` raise. |
| Text.SplitJoin | update_publications_local.py:98 | Splitting `sep.join(parts)` by `sep` returns `parts` when no part contains `sep`'s first character. |
| Records.Normalize | update_publications_local.py:54-61 | Each field is the entry of its key when the key is present, even an empty entry. Otherwise it takes its default: `No title`; `Unknown authors`; `n.d.`; venue, then journal, then `Unpublished`; 0; `pub_url`, then `eprint_url`, then `''`. |
| Records.NormalizeAll | update_publications_local.py:49-61 | One record per filled publication, in source order. |
| Records.CollectRecords | update_publications_local.py:49-61 | The append loop builds exactly `NormalizeAll(raws)`. |
| Records.EmptyRecordDefaults | update_publications.py:34-41 | A record with no entries gets every placeholder. |
| Records.PresentEmptyEntriesKept | update_publications.py:35-40 | Present empty title, year, venue and url stay empty; an empty venue hides the journal. |
| StableSort.Take | update_publications_local.py:83 | `s[:n]`: the shorter of `len(s)` and `n` elements, each equal to the element of `s` at the same index. |
| StableSort.SortDesc | update_publications_local.py:80 | The reference sort keeps the length of its input. |
| StableSort.SortDescPerm | update_publications_local.py:80 | The reference sort is a permutation of its input. |
| StableSort.InsertPerm | update_publications_local.py:80 | One insertion adds exactly the inserted element. |
| StableSort.InsertSorted | update_publications_local.py:80 | Inserting into a sequence sorted newest first keeps it sorted. |
| StableSort.InsertWithKey | update_publications_local.py:80 | Insertion puts the element behind the elements of its own key and changes no other key class. |
| StableSort.SortDescSorted | update_publications_local.py:80 | The sorted list has non-increasing keys (`reverse=True`). |
| StableSort.SortDescStable | update_publications_local.py:80 | Stability: for every key, the elements with that key come out in input order. |
| StableSort.TopOfSorted | update_publications_local.py:80-83 | Sorting then keeping ten gives `min(n, 10)` elements, sorted, drawn from the input, each key class a prefix of the input's, and none left out newer than one kept. |
| StableSort.InsertAt | update_publications_local.py:80 | Insertion places the element right after the last element whose key is at least its own. |
| StableSort.InsertInPlace | update_publications_local.py:80 | The shifting loop leaves `Insert(a[..i], a[i])` in `a[..i+1]` and does not touch the rest of the array. |
| StableSort.SortInPlace | update_publications_local.py:80 | The in-place insertion sort leaves exactly `SortDesc(old(a[..]))` in the array. |
| StableSort.SortList | update_publications_local.py:80 | Sorting a list through an array returns `SortDesc(s, key)`. |
| Markers.ReplaceRegions | update_publications_local.py:156-157 | The non-greedy `re.sub` without a count: the leftmost `START` and the first `END` after it are replaced, markers included, and the scan resumes after that `END`. The text before the first `START` never changes, and a text without `START` comes back unchanged. |
| Markers.ReplaceRegionsStep | update_publications_local.py:156-157 | Helper for the lemmas about `ReplaceRegions`: when the first `START` has a later `END`, the result is the text up to that `START`, then the replacement, then the rescan of what follows that span's `END`. |
| Markers.UpdateHtml | update_publications_local.py:148-157 | The result is `None` exactly when either marker is absent; otherwise it is the text with every span replaced. |
| Markers.MissingMarkerRefused | update_publications.py:100-103 | A page lacking either marker is refused, and nothing is written. |
| Markers.EndOnlyBeforeStartUnchanged | update_publications_local.py:148-161 | When every `END` comes before the first `START`, the page is written back unchanged. |
| Markers.SingleRegionReplaced | update_publications.py:106-107 | With one `START` and one later `END`, the span between them, markers included, becomes the new content and the text on both sides stays. |
| Markers.SplicedRegionReadsBack | update_publications.py:106-107 | After a well-formed region is spliced in at the first `START`, the scan finds the same `START`, and that region's own closing `END`. |
| Markers.SplicedRegionRescanned | update_publications.py:106-107 | Rescanning a spliced text replaces the spliced region by itself and then continues in the rest. |
| Markers.ReplaceRegionsIdempotent | update_publications.py:106-107 | Splicing a well-formed region twice gives the same text as splicing it once. |
| Markers.UpdateHtmlIdempotent | update_publications_local.py:140-164 | A second `update_html_file` with the same content writes the same page. |
| Html.AuthorsListJoined | update_publications_local.py:96-98 | A list of authors is printed as the names joined with `", "`; splitting by `", "` gives the names back when none holds a comma. |
| Html.TitleLinkedIffUrl | update_publications_local.py:103-106 | The title is a new-tab link to the url exactly when the url is non-empty, and a bare heading exactly when it is empty. |
| Html.CitationsReadBack | update_publications_local.py:118-119 | The citation span appears exactly when the count is positive, and the digits inside it read back as the count. |
| Html.ConcatMapAppend | update_publications_local.py:132-133 | The fragments of two lists joined are the two lists' fragments joined: order is kept. |
| Html.Region | update_publications_local.py:126-138 | The region around the fragments opens with `START` and closes with `END`. |
| Html.RegionShape | update_publications_local.py:126-138 | The region holds the timestamp right after the comment opening and the fragments unchanged after the header. |
| Html.NormalizePlain | update_publications_local.py:54-61 | Text fields that are plain (no backslash, and every `<` followed by a character other than `!`) stay plain after normalising. The defaults are plain. |
| Html.RecordsPlain | update_publications_local.py:80-83 | Every record kept from raw records with plain text fields is plain. |
| Html.NoInnerEnd | update_publications_local.py:126-138 | In a region built from plain text, no `END` starts before the closing one. |
| Html.RegionWellFormed | update_publications_local.py:126-138 | Such a region opens with `START`, closes with `END`, holds no other `END` after its `START`, and has no backslash. |
| UpdatePublicationsLocal.FirstYearMatch | update_publications_local.py:72 | The search for a `19` or `20` followed by two digits (`re.search` with the pattern at line 72): the result is the leftmost match at or after `from`, or `None` when there is none. |
| UpdatePublicationsLocal.SortYear | update_publications_local.py:66-78 | `get_sort_year`: `n.d.` and an empty year get key 0, and a text with a `19xx` or `20xx` match gets a key in [1900, 2099]. |
| UpdatePublicationsLocal.SortYearLeftmostMatch | update_publications_local.py:72-74 | A year text with a match is keyed by the value of its leftmost match, which lies in [1900, 2099]. |
| UpdatePublicationsLocal.SortYearFallback | update_publications_local.py:75-78 | With no match, the key is the parsed integer when the text parses, and 0 (never an error) when it does not. |
| UpdatePublicationsLocal.SortYearInText | update_publications_local.py:70-74 | A year of 1900 to 2099 with a digit-free text before it and any text after it, such as `Spring 2019 (online)` or `2019a`, is keyed by that year. |
| UpdatePublicationsLocal.Top | update_publications_local.py:80-83 | The records stably sorted by `get_sort_year`, largest first, cut to ten: `min(n, 10)` records with non-increasing keys. |
| UpdatePublicationsLocal.TopProperties | update_publications_local.py:80-83 | The kept list has `min(n, 10)` records, newest first, drawn from the input, equal keys in input order, and none left out newer than one kept. |
| UpdatePublicationsLocal.FetchPublications | update_publications_local.py:49-83 | The append loop, the in-place sort and the cut compute exactly `Top(raws)`, so every property above holds of the result. |
| UpdatePublicationsLocal.FormatPublicationHtml | update_publications_local.py:93-124 | The `+=` steps build exactly the fragment `Fragment(p)` that the lemmas below describe. |
| UpdatePublicationsLocal.GeneratePublicationsHtml | update_publications_local.py:126-138 | The loop builds the region around the fragments of every record, in list order. |
| UpdatePublicationsLocal.VenueRules | update_publications_local.py:112-116 | The venue and `", "` are printed exactly when the venue is non-empty, not `Unpublished` and not all whitespace; the year always follows verbatim. |
| UpdatePublicationsLocal.VenueExamples | update_publications_local.py:113 | Whitespace-only venues and `Unpublished` are hidden; ` Unpublished` and ordinary venues are shown. |
| UpdatePublicationsLocal.Fragment | update_publications_local.py:101-122 | A fragment is the div opening, heading, authors line, venue-info line, `</p>` and div closing, in that order. |
| UpdatePublicationsLocal.DefaultRecordFragment | update_publications_local.py:55-60 | A record with every default prints a bare `No title` heading, `Unknown authors`, and only `n.d.` on the venue line. |
| UpdatePublicationsLocal.FragmentPlain | update_publications_local.py:93-124 | The fragment of a plain record is plain. |
| UpdatePublicationsLocal.RenderAllPlain | update_publications_local.py:132-133 | The same holds for the concatenated fragments. |
| UpdatePublicationsLocal.RegenerateIdempotent | update_publications_local.py:80-161 | For raw records and a timestamp that are plain, the generated region is a valid replacement, and writing it twice gives the same page as writing it once. |
| UpdatePublications.SortYear | update_publications.py:44 | The key is 0 for `n.d.`; otherwise it is `int(year)`, or failure when that raises. |
| UpdatePublications.SortYearCases | update_publications.py:44 | Plain integers and `n.d.` have keys. An empty year, `Spring 2019` and a year with a trailing letter raise. |
| UpdatePublications.Top | update_publications.py:44-50 | The records stably sorted by `int(year)` (0 for `n.d.`), largest first, cut to ten. When some year raises, the result is `[]`; otherwise it has `min(n, 10)` records. Either way the keys do not increase. |
| UpdatePublications.TopProperties | update_publications.py:44-46 | When every key parses: `min(n, 10)` records, largest year first, drawn from the input, equal years in input order, and none left out larger than one kept. |
| UpdatePublications.GoodYearsSorted | update_publications.py:44-46 | When every key parses, the result is the sorted records cut to ten. |
| UpdatePublications.BadYearWipesResult | update_publications.py:44-50 | One year that is neither an integer nor `n.d.` makes the whole result `[]`. |
| UpdatePublications.StrictKeyIsYear | update_publications.py:44 | The key of a kept record is the integer its year text spells, or 0 for `n.d.`. |
| UpdatePublications.FetchPublications | update_publications.py:31-50 | The append loop, the key scan, the in-place sort and the cut compute exactly `Top(raws)`, including the `[]` of the `except` branch. |
| UpdatePublications.FormatPublicationHtml | update_publications.py:52-76 | The `+=` steps build exactly the fragment `Fragment(p)`. |
| UpdatePublications.GeneratePublicationsHtml | update_publications.py:78-90 | The loop builds the region around the fragments of every record, in list order. |
| UpdatePublications.VenueAlwaysShown | update_publications.py:68 | The venue-info line always holds the venue, `", "` and the year verbatim, even for an empty or `Unpublished` venue. |
| UpdatePublications.Fragment | update_publications.py:60-74 | A fragment is the div opening, heading, authors line, venue-info line, `</p>` and div closing, in that order. |
| UpdatePublications.DefaultRecordFragment | update_publications.py:35-40 | A record with every default prints `No title`, `Unknown authors`, `Unpublished, n.d.` and no citations. |
| UpdatePublications.FragmentPlain | update_publications.py:52-76 | The fragment of a plain record is plain. |
| UpdatePublications.RenderAllPlain | update_publications.py:84-85 | The same holds for the concatenated fragments. |
| UpdatePublications.RegenerateIdempotent | update_publications.py:44-107 | For raw records and a timestamp that are plain, the generated region is a valid replacement, and writing it twice gives the same page as writing it once. |

## Left out

- The calls to the scholarly client (`search_author_id`, `fill`, and the author's `name` and `publications`) are network calls. The filled records are an input sequence instead, so the `except` branch for network errors is not modelled.
- The git helpers (`run_git_command`, `push_to_github`) only run subprocesses.
- Reading and writing the page, and the `FileNotFoundError` and generic `except` branches of `update_html_file`, are file I/O. `UpdateHtml` maps the page text to the text written back, or to `None` for `return False`.
- The clock: `datetime.now()` becomes a `timestamp` string parameter of `GeneratePublicationsHtml`.
- All console output, `main` (including its early exit on an empty list), the `SCHOLAR_ID` environment lookup and the refusal of the placeholder Scholar ID (update_publications.py:127-130) are driver code.
- Text.ParseInt: reads only an optional sign followed by ASCII digits. Python's `int()` also accepts surrounding whitespace, underscores and non-ASCII digits.
- UpdatePublications.SortYear: inherits that restriction, so a year such as `" 2019 "` fails in the model but parses in Python.
- UpdatePublicationsLocal.SortYear: reads `\d` as an ASCII digit, while Python's `re` also matches other Unicode decimal digits. Its `str(year)` is the identity, because years are modelled as text.
- Markers.UpdateHtml: requires a replacement without a backslash. `re.sub` reads backslashes in its template as escapes, and the model takes the replacement literally.
- Records.Normalize: takes the `bib` entries as text (the author entry as text or a list of names) and the citation count as an integer. A filled record without a `bib` entry (a `KeyError`) and values of other Python types are not modelled.
- No HTML escaping is modelled, because the scripts do none.
- Markers.ReplaceRegionsIdempotent: proved only for regions that open with `START`, close with `END` and hold no other `END`. The generated region has that form when every text entry and the timestamp are plain: no backslash, and every `<` followed by a character other than `!` (so no `<!--` can start inside). That is the precondition of both `RegenerateIdempotent` lemmas.
