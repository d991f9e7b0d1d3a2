# paperdb record normalisation, in Dafny

paperdb serves a BibTeX bibliography (as exported by BibDesk) to a browser
as a JSON table. Each parsed entry goes through `process_record`, which
updates the entry's `record` dict in five steps:

1. `convert_to_unicode` converts every value.
2. `parse_authors` turns `author` into a list of display names, or `''`.
3. `parse_pdf` scans the `bdsk-file-N` blobs and keeps the link of the
   last attached file that exists.
4. `parse_urls` fills `ads`, `doi`, `arxiv` and `url`. `ads` is seeded
   from `adsurl` and `arxiv` from `eprint`. Then each scanned
   `bdsk-url-N` is classified by three regexes and fills its slot only
   while that slot is empty.
5. `parse_journal` strips the journal.

`parse_bibtex` then projects every processed entry onto the ten keys
sent to the browser, in order. A blob that does not decode raises out of
`parse_bibtex`; `query_papers` catches the exception and answers 500
(paperdb.py:155-159).

The model follows the code's own form:

- The record is a class, `PaperDb.Record`, whose steps are methods that
  update its `fields` map in place.
- The two `while True` scans are loops with invariants.
- Each step is proved against a specification function on values:
  `Attachments.WithPdf`, `Links.WithLinks`, `Journal.WithJournal`,
  `Authors.AuthorsOf`, and `Pipeline.Normalize` for the whole of
  `process_record`.
- The properties of the pipeline are proved as lemmas about those
  functions.

Modules, one file each:

- `wrappers.dfy` (Option);
- `text.dfy` (the Python `str` operations used);
- `indexed_fields.dfy` (`record.get` and the gap-free numbered-key scan);
- `patterns.dfy` (the three regexes);
- `links.dfy` (`parse_urls`);
- `attachments.dfy` (`parse_pdf`);
- `authors.dfy` (`parse_authors`, `__clean_names`);
- `journal.dfy` (`parse_journal`);
- `env.dfy` (JSON values and the outside calls);
- `pipeline.dfy` (`process_record`, the projection);
- `paperdb.dfy` (the record class and `parse_bibtex`).

What the code does at the points where it is easy to misread:

- paperdb.py:131 removes every leading `{` and every trailing `}` from
  the title.
- paperdb.py:71 does the same to `eprint` before it is appended to the
  arXiv prefix.
- paperdb.py:100 stores the string `''` in `authors` when `author` is
  missing or empty.
- paperdb.py:130-141 emits exactly ten keys: `title`, `author`, `year`,
  `journal`, `keywords`, `ads`, `url`, `doi`, `arxiv` and `pdf`; the
  journal is read from `journal` alone.
- paperdb.py:76-86 classifies a URL by DOI, then arXiv, then ADS, then
  generic. The seeds from `adsurl` and `eprint` occupy their slots before
  the scan.

After `convert_to_unicode`, none of the four other steps reads a key that
another of them writes. `parse_authors` reads `author` and writes
`authors`; `parse_pdf` reads `bdsk-file-N` and writes `pdf`; `parse_urls`
reads `adsurl`, `eprint` and `bdsk-url-N`, and reads back `ads`, `doi`,
`arxiv` and `url` only after writing them itself (paperdb.py:77-85);
`parse_journal` reads `journal` and then writes it.
`Pipeline.NormalizeReadsConverted` shows that each stored value is
computed from the converted record.

## Model

| member | source | states |
|---|---|---|
| Text.Strip | paperdb.py:108 | `str.strip()`: the result starts and ends with a non-whitespace character (Python's `isspace` set), or is empty |
| Text.StripIdempotent | paperdb.py:108 | stripping an already stripped value changes nothing |
| Text.StripBraces | paperdb.py:131 | `lstrip('{').rstrip('}')`: the result has no leading `{` and no trailing `}` |
| Text.StripBothShape | paperdb.py:71 | `lstrip(a).rstrip(b)` removes a run of `a` characters in front and a run of `b` characters behind, and returns the slice between them |
| Text.StripBracesOuterPair | paperdb.py:71 | a value `{s}`, where `s` has no outer brace, strips to `s` |
| Text.StripBracesKeeps | paperdb.py:131 | a value without an outer brace is returned unchanged |
| Text.Replace | paperdb.py:95 | `s.replace(c, t)`: `c` is gone when `t` does not hold it, and every character comes from `t` or is a character of `s` other than `c` |
| Text.ReplaceAppend | paperdb.py:95 | replacing distributes over concatenation |
| Text.ReplaceAbsent | paperdb.py:102 | replacing a character that does not occur is the identity |
| Text.Find | paperdb.py:102 | the leftmost occurrence of the separator, or none anywhere |
| Text.Split | paperdb.py:102 | `split(sep)`: at least one piece; the pieces joined with `sep` give back the string; no piece contains `sep`; every cut is at the leftmost occurrence of `sep` in what remains (no piece followed by `sep` holds an earlier occurrence) |
| Text.CutAtFirst | paperdb.py:102 | cutting a string at the first occurrence of `sep` is a leftmost cut |
| Text.JoinKeepsChars | paperdb.py:102 | every character of a piece appears in the joined string |
| Text.Decimal | paperdb.py:47 | `str(i)` has at least one digit, and at least two from 10 on |
| Text.DecimalDigits | paperdb.py:47 | `str(i)` is made of the digits `0`–`9` and begins with `0` exactly when `i` is zero |
| Text.DecimalInjective | paperdb.py:47 | `str(i)` is injective on naturals |
| IndexedFields.Get | paperdb.py:47 | `record.get(key, '')`: the stored value when the key is present, `''` when it is missing |
| IndexedFields.KeyInjective | paperdb.py:74 | different indices give different keys `prefix + str(i)` |
| IndexedFields.ScanBound | paperdb.py:46-55 | if keys 1..n are all filled, the record has at least n entries, so the scan terminates |
| IndexedFields.Scan | paperdb.py:46-55 | the scanned values are non-empty and are the values of keys i, i+1, … in order; the key just past them is missing or empty |
| IndexedFields.ScanStep | paperdb.py:73-89 | scanning from i is the value at i followed by the scan from i+1 |
| IndexedFields.ScanFrame | paperdb.py:73-89 | the scan reads nothing past the first missing or empty key: records that agree up to there scan alike |
| IndexedFields.ScanIgnoresWrite | paperdb.py:44 | writing a key that does not start like the prefix (such as `pdf`) leaves the scan unchanged |
| Patterns.DoiMatch | paperdb.py:38 | `DOI_REGEX.match` succeeds only on a string that begins with `http` and is at least 15 characters long (`http://doi.org/`) |
| Patterns.ArxivMatch | paperdb.py:39 | `ARXIV_REGEX.match` succeeds only on a string that begins with `http` and is at least 21 characters long (`http://arxiv.org/abs/`) |
| Patterns.AdsMatch | paperdb.py:40 | `ADS_REGEX.match` succeeds only on a string that begins with `http` and is at least 30 characters long (`http://adsabs.harvard.edu/abs/`) |
| Patterns.MatchesNonEmpty | paperdb.py:38-40 | no pattern matches the empty string |
| Patterns.SchemeHostMatch | paperdb.py:38-40 | a scheme and host followed by a rest without newlines matches the corresponding alternative |
| Patterns.LitMismatch | paperdb.py:38-40 | a literal position that disagrees with the string defeats the match |
| Patterns.DoiLinksMatch | paperdb.py:38 | `https://doi.org/…` and `https://dx.doi.org/…` match the DOI pattern |
| Patterns.ArxivLinksMatch | paperdb.py:38-39 | `https://arxiv.org/abs/…` matches the arXiv pattern and not the DOI one |
| Patterns.AdsLinksMatch | paperdb.py:38-40 | `https://adsabs.harvard.edu/abs/…` matches the ADS pattern and neither of the others |
| Patterns.DotIsWildcard | paperdb.py:38 | the unescaped `.` matches any character: `https://doi_org/…` is taken for a DOI link |
| Patterns.InnerNewlineFails | paperdb.py:38-40 | a string with a newline anywhere before its last character matches none of the three patterns, and `.*$` fails on it |
| Patterns.NewlineRejected | paperdb.py:38-40 | a prefix none of whose atoms accepts a newline, followed by `.*$`, rejects a string with a newline before its last character |
| Links.Classify | paperdb.py:76-86 | a URL is DOI exactly when it matches the DOI pattern, arXiv when it matches arXiv but not DOI, ADS when it matches ADS but neither earlier one, and generic when it matches none |
| Links.Place | paperdb.py:75-87 | one iteration: the URL's own slot takes the URL if it was empty and is kept otherwise; the other three slots are unchanged |
| Links.PlaceAll | paperdb.py:73-89 | the loop keeps every non-empty slot, and every slot it changes holds one of the scanned URLs, of that slot's class |
| Links.FirstOfKind | paperdb.py:76-86 | the first URL classified into a slot: it is one of the URLs, has that class, and no URL before it has; when there is none, no URL has the class |
| Links.FirstWriterWins | paperdb.py:73-89 | after the loop, a slot keeps its non-empty value from before, and otherwise holds the first URL classified into it, or stays empty |
| Links.SlotKept | paperdb.py:76-86 | a slot that is full before the loop is never overwritten |
| Links.DroppedWhenFull | paperdb.py:76-86 | a URL whose slot is full changes nothing and never falls through to a later slot |
| Links.StoreLinks | paperdb.py:60-86 | storing the links adds exactly the four link keys and leaves every other key as it was |
| Links.StoredLinks | paperdb.py:74-86 | stored links read back as the same links; the numbered URL keys are untouched |
| Links.Seed | paperdb.py:60-71 | before the scan `doi` and `url` are empty, `ads` is the record's `adsurl` or `''`, and `arxiv` is non-empty, starting with `https://arxiv.org/abs/`, exactly when `eprint` is present |
| Links.SeedStored | paperdb.py:60-71 | the opening writes, in source order, store the seed: `ads` from `adsurl`, `doi` and `url` empty, `arxiv` from `eprint` when present |
| Links.SeedReads | paperdb.py:63-71 | the reads among the opening writes see the record's own `adsurl` and `eprint` |
| Links.UrlsOf | paperdb.py:58-90 | `doi` is empty or a scanned URL matching the DOI pattern; `url` is empty or a scanned URL of no pattern; `arxiv` is the `eprint` seed when `eprint` is present; `ads` is `adsurl` when that is non-empty |
| Links.WithLinks | paperdb.py:58-90 | the record after `parse_urls` holds the four link keys with the values of `UrlsOf`, and every other key as before |
| Links.UrlsFirstWriter | paperdb.py:60-89 | each link is its seed when non-empty, else the first scanned URL of its class; `doi` and `url` never come from the raw `doi`/`url` fields |
| Links.EprintArxiv | paperdb.py:70-71 | a present `eprint` gives `arxiv = https://arxiv.org/abs/` followed by `eprint` with every leading `{` and trailing `}` removed, whatever URLs are scanned |
| Links.EprintSeedsArxiv | paperdb.py:70-71 | `eprint = {id}` gives `arxiv = https://arxiv.org/abs/id`, whatever URLs are scanned |
| Links.EmptyEprintBlocksArxiv | paperdb.py:70-81 | an `eprint` that is present but strips to empty still fills `arxiv` with the bare prefix, so no scanned arXiv URL gets in |
| Links.DoiThenArxiv | paperdb.py:73-89 | a DOI link in `bdsk-url-1` and an arXiv link in `bdsk-url-2` fill `doi` and `arxiv` and leave `ads` and `url` empty |
| Attachments.ResolvePdf | paperdb.py:44-55 | when the loop succeeds, `pdf` is its starting value or the link of a name, decoded from a scanned blob, whose file exists |
| Attachments.WithPdf | paperdb.py:42-56 | `parse_pdf` fails exactly when a scanned blob does not decode; otherwise the record gains `pdf`, which is `''` or the link of an existing decoded file, and every other key is kept |
| Attachments.ResolvePdfFails | paperdb.py:46-55 | the loop fails exactly when some scanned blob does not decode |
| Attachments.LastExistingWins | paperdb.py:46-55 | when every blob decodes, `pdf` is the link of the last name whose file exists, or the starting `''` when none does; a missing file still uses up its index |
| Attachments.PdfOfLastExisting | paperdb.py:42-56 | when every scanned blob decodes, `parse_pdf` sets `pdf` to the link of the last decoded name whose file exists, or to `''` when none exists |
| Attachments.ScanResolveStep | paperdb.py:47-53 | one iteration: the blob at index i either fails to decode, or moves the scan on by one with `pdf` updated only if the file exists |
| Authors.CleanName | paperdb.py:95 | a cleaned name holds no `{`, `}`, `~` or space |
| Authors.CleanNameByChar | paperdb.py:95 | cleaning maps each character independently: braces vanish, `~` and space become `&nbsp;`, other characters stay |
| Authors.CleanNameKeeps | paperdb.py:95 | a name that is already clean is unchanged |
| Authors.CleanNameIdempotent | paperdb.py:95 | cleaning twice is cleaning once |
| Authors.CleanNames | paperdb.py:92-95 | one cleaned name per input name, in order, each clean |
| Authors.Pieces | paperdb.py:102 | at least one piece; the pieces join back with ` and ` to the field with newlines turned into spaces; every cut is at the leftmost ` and ` |
| Authors.PiecesShape | paperdb.py:102 | the pieces of the flattened field join back with ` and ` to it, and none holds a newline or ` and ` |
| Authors.NamesOf | paperdb.py:103 | one name per piece, the i-th being `getnames` of the stripped i-th piece |
| Authors.AuthorNames | paperdb.py:102-103 | one clean name per ` and `-separated piece |
| Authors.AuthorsOf | paperdb.py:97-104 | `''` exactly when `author` is missing or empty; otherwise a non-empty list of clean names |
| Authors.AuthorsPerPiece | paperdb.py:101-103 | the i-th author is the cleaned `getnames` image of the stripped i-th piece |
| Authors.SingleAuthor | paperdb.py:101-103 | a field with no newline and no ` and ` gives exactly one author |
| Journal.WithJournal | paperdb.py:106-110 | `journal` is the stripped value of `record.get('journal', '')`, so it is present, starts and ends with non-whitespace or is empty, and is `''` when absent; no other key changes |
| Journal.JournalIdempotent | paperdb.py:106-110 | applying `parse_journal` twice is applying it once |
| Pipeline.UnicodeFields | paperdb.py:114 | `convert_to_unicode` keeps the keys and converts every value |
| Pipeline.Normalize | paperdb.py:112-119 | `process_record` fails exactly when `parse_pdf` fails on the converted record; otherwise the record holds the six written keys and `authors` is computed from the converted record |
| Pipeline.NormalizeFails | paperdb.py:112-119 | `process_record` raises exactly when a scanned `bdsk-file-N` blob of the converted record does not decode |
| Pipeline.NormalizeReadsConverted | paperdb.py:112-119 | the processed record has the converted keys plus the six written ones; `authors`, `pdf`, the links and `journal` are each computed from the converted record; every other field is unchanged |
| Pipeline.KeepsField | paperdb.py:112-119 | a key the pipeline does not write is present and valued as in the converted record |
| Pipeline.PdfKeepsLinks | paperdb.py:116-117 | writing `pdf` before `parse_urls` does not change the links it computes |
| Pipeline.ManagedRequired | paperdb.py:136-140 | a processed record holds every key the projection reads with `entry[...]` |
| Pipeline.ToJson | paperdb.py:130-141 | the output object has exactly the keys `title, author, year, journal, keywords, ads, url, doi, arxiv, pdf` |
| Pipeline.Project | paperdb.py:130-141 | `title` has no leading `{` and no trailing `}`; a missing `year` or `journal` gives `''`; a missing `keywords` gives `[]` |
| Pipeline.BracedTitle | paperdb.py:131 | a title `{s}` comes out as `s` |
| Pipeline.ResultOfEntry | paperdb.py:112-141 | the row of an entry, end to end: the stripped title, the authors, the year as read, the stripped journal, the keywords or `[]`, the four links of `parse_urls`, and the `pdf` of `parse_pdf` |
| Pipeline.EmptyEntryDefaults | paperdb.py:112-141 | an entry without `author`, `title`, `year`, `journal`, `keywords`, `adsurl`, `eprint`, `bdsk-file-1` or `bdsk-url-1` (other fields such as `ID` allowed) processes without error to a row of empty strings with `keywords = []` |
| PaperDb.Record.constructor | paperdb.py:112 | a new record holds the parsed entry's fields |
| PaperDb.Record.ConvertToUnicode | paperdb.py:114 | every value is converted and the keys are kept |
| PaperDb.Record.ParseAuthors | paperdb.py:97-104 | `authors` becomes `AuthorsOf` of the fields; the fields are unchanged |
| PaperDb.Record.ParsePdf | paperdb.py:42-56 | `ok` is false exactly when a blob fails to decode; otherwise the record is `WithPdf` of the old record (loop invariant: the scan so far and the `pdf` so far resolve like the whole scan) |
| PaperDb.Record.ParseUrls | paperdb.py:58-90 | the record becomes `WithLinks` of the old one |
| PaperDb.Record.SeedUrls | paperdb.py:60-71 | the opening writes store the seed links |
| PaperDb.Record.ScanUrls | paperdb.py:73-89 | the loop ends with the links of `PlaceAll` over the gap-free scan stored (invariant: links so far, placed with the rest of the scan, give the final links) |
| PaperDb.Record.PlaceUrl | paperdb.py:75-87 | one iteration stores `Place` of the links and the URL |
| PaperDb.Record.ParseJournal | paperdb.py:106-110 | the record becomes `WithJournal` of the old one |
| PaperDb.Record.Process | paperdb.py:112-119 | `ok` is true exactly when `Normalize` succeeds on the old fields, and then the record is the processed entry |
| PaperDb.ProcessRecord | paperdb.py:112-119 | running `process_record` on a fresh record gives `Normalize` of the entry |
| PaperDb.ProcessEntries | paperdb.py:124-126 | a result exactly when every entry processes, and then one processed entry per entry, in order |
| PaperDb.ProjectAll | paperdb.py:128-141 | one row per processed entry |
| PaperDb.ProjectAllAt | paperdb.py:128-141 | row k is the projection of entry k |
| PaperDb.ProjectEntries | paperdb.py:128-141 | the appending loop builds exactly the projection of every entry, in order |
| PaperDb.ParseBibtex | paperdb.py:121-143 | a result exactly when no entry raises (the query otherwise answers 500), and then one row per entry, in order, each the projection of the processed entry |

## Left out

- The Flask routes, `render_template`, `send_from_directory`, `jsonify`
  and `abort` are HTTP plumbing. A failed `ParseBibtex` (`None`) stands
  for the 500 answer, and `Pipeline.ToJson` gives the dict that `jsonify`
  serialises.
- BibTeX parsing by `bibtexparser` is not modelled: entries arrive as maps
  from field name to string. Field values that the library stores as lists
  are not represented.
- `convert_to_unicode` is given as a per-value function (`Oracles.unicode`)
  that keeps the keys.
- `getnames` is given as a per-name function (`Oracles.getname`), so it
  keeps the number and order of names.
- `base64.b64decode`, `PlistReader(...).parse()` and `['$objects'][4]` are
  one given function, `Oracles.decode`. It yields `None` for any failure,
  including a plist with fewer than five objects.
- `os.path.exists(os.path.join(PDF_DIRECTORY, …))` and
  `url_for('fetch_pdf', …)` are the given functions `fileExists` and
  `urlFor`.
- `static/paperdb.js` (browser rendering) and `config.default.py`
  (constants the core does not use) are not part of this model.
- The `authors` value, a list or `''` in the Python dict, is kept in its
  own field `authors` beside the string `fields`. A raw field named
  `authors` in an entry is therefore not overwritten in `fields`. The
  projection reads the processed `authors`, as the code does.
- The parsed database is a sequence of value snapshots (`Normalized`), one
  per processed record. The Python list of dict objects, and any aliasing
  between them, is not modelled.
- Rows are the `Row` datatype; `ToJson` is their dict form.
- Regex matching is modelled exactly for these three patterns, newlines
  included. The concrete link lemmas (`DoiLinksMatch` and its
  neighbours) assume the rest of the URL holds no newline.
- Strings are sequences of Unicode characters. `strip()` uses Python's
  `isspace` set for single characters; no other Unicode processing is
  modelled.
