/**
  `process_record` as a whole, and the projection of a processed record
  onto the ten keys sent to the browser (the loop body in `parse_bibtex`).
 */
module Pipeline {
  import opened Wrappers
  import opened Text
  import opened Env
  import opened IndexedFields
  import opened Attachments
  import opened Links
  import opened Authors
  import opened Journal

  /**
    A processed record: its string fields, and the `authors` value that
    `parse_authors` stores beside them (a list or `''`).
   */
  datatype Normalized = Normalized(fields: map<string, string>, authors: Value)

  /** The keys the pipeline writes into the record. */
  const ManagedKeys: set<string> := {"pdf", "ads", "doi", "arxiv", "url", "journal"}

  /** `convert_to_unicode`: every value converted, keys kept. */
  function UnicodeFields(o: Oracles, f: map<string, string>): (r: map<string, string>)
    ensures r.Keys == f.Keys
    ensures forall k :: k in f ==> r[k] == o.unicode(f[k])
  {
    map k | k in f :: o.unicode(f[k])
  }

  /**
    `process_record`: unicode conversion, then authors, pdf, links and
    journal, in that order; `None` when `parse_pdf` raises.
   */
  function Normalize(o: Oracles, e: map<string, string>): (r: Option<Normalized>)
    ensures r.None? <==> WithPdf(o, UnicodeFields(o, e)).None?
    ensures r.Some? ==> ManagedKeys <= r.value.fields.Keys
    ensures r.Some? ==> r.value.authors == AuthorsOf(o, UnicodeFields(o, e))
  {
    var f1 := UnicodeFields(o, e);
    var authors := AuthorsOf(o, f1);
    match WithPdf(o, f1)
    case None => None
    case Some(f2) => Some(Normalized(WithJournal(WithLinks(f2)), authors))
  }

  /** `process_record` fails exactly when a scanned `bdsk-file-N` blob does not decode. */
  lemma NormalizeFails(o: Oracles, e: map<string, string>)
    ensures var blobs := Scan(UnicodeFields(o, e), FilePrefix, 1);
            Normalize(o, e).None? <==> exists k :: 0 <= k < |blobs| && o.decode(blobs[k]).None?
  {
    var f1 := UnicodeFields(o, e);
    assert Normalize(o, e).None? <==> WithPdf(o, f1).None?;
  }

  /**
    After `convert_to_unicode`, no step reads a key that another step
    writes, so the processed record is the converted record with
    `authors`, `pdf`, the four links and `journal` each computed from the
    converted record, and every other field unchanged.
   */
  lemma NormalizeReadsConverted(o: Oracles, e: map<string, string>, n: Normalized)
    requires Normalize(o, e) == Some(n)
    ensures var f1 := UnicodeFields(o, e);
            n.fields.Keys == f1.Keys + ManagedKeys
            && n.authors == AuthorsOf(o, f1)
            && Some(n.fields["pdf"]) == ResolvePdf(o, Scan(f1, FilePrefix, 1), "")
            && LinksIn(n.fields) == UrlsOf(f1)
            && n.fields["journal"] == Strip(Get(f1, "journal"))
            && forall k :: k in f1 && k !in ManagedKeys ==> n.fields[k] == f1[k]
  {
    var f1 := UnicodeFields(o, e);
    var pdf := ResolvePdf(o, Scan(f1, FilePrefix, 1), "").value;
    var f2 := f1["pdf" := pdf];
    assert WithPdf(o, f1) == Some(f2);
    PdfKeepsLinks(f1, pdf);
    assert n.fields == WithJournal(StoreLinks(f2, UrlsOf(f1)));
    StagesWrite(f1, pdf, UrlsOf(f1));
  }

  lemma ReadOnlyKeys()
    ensures "title" !in ManagedKeys && "year" !in ManagedKeys && "keywords" !in ManagedKeys
  {
  }

  /** A field the pipeline does not write is the converted field. */
  lemma KeepsField(o: Oracles, e: map<string, string>, n: Normalized, k: string)
    requires Normalize(o, e) == Some(n) && k !in ManagedKeys
    ensures var f1 := UnicodeFields(o, e);
            (k in n.fields <==> k in f1) && Get(n.fields, k) == Get(f1, k)
  {
    NormalizeReadsConverted(o, e, n);
  }

  /** Writing `pdf` first does not change what `parse_urls` computes. */
  lemma PdfKeepsLinks(f: map<string, string>, pdf: string)
    ensures UrlsOf(f["pdf" := pdf]) == UrlsOf(f)
  {
    ScanIgnoresWrite(f, UrlPrefix, "pdf", pdf);
    assert Get(f["pdf" := pdf], "adsurl") == Get(f, "adsurl");
    assert Seed(f["pdf" := pdf]) == Seed(f);
  }

  /** What the three writing steps leave in the record. */
  lemma StagesWrite(f: map<string, string>, pdf: string, l: Links)
    ensures var g := WithJournal(StoreLinks(f["pdf" := pdf], l));
            g.Keys == f.Keys + ManagedKeys
            && g["pdf"] == pdf && LinksIn(g) == l
            && g["journal"] == Strip(Get(f, "journal"))
            && forall k :: k in f && k !in ManagedKeys ==> g[k] == f[k]
  {
    var f2 := f["pdf" := pdf];
    var f3 := StoreLinks(f2, l);
    assert f3 == f2["ads" := l.ads]["doi" := l.doi]["arxiv" := l.arxiv]["url" := l.url];
    assert f3["pdf"] == pdf && Get(f3, "journal") == Get(f, "journal");
    assert LinksIn(f3) == l;
    var g := WithJournal(f3);
    assert g == f3["journal" := Strip(Get(f, "journal"))];
    assert g.Keys == f.Keys + ManagedKeys;
  }

  /** The record holds the keys the projection reads with `entry[...]`, which raises when one is missing. */
  predicate HasRequiredKeys(f: map<string, string>)
  {
    "ads" in f && "url" in f && "doi" in f && "arxiv" in f && "pdf" in f
  }

  /** One element of the result list, one field per output key. */
  datatype Row = Row(
    title: string, author: Value, year: string, journal: string, keywords: Value,
    ads: string, url: string, doi: string, arxiv: string, pdf: string)

  const OutputKeys: set<string> := {"title", "author", "year", "journal", "keywords", "ads", "url", "doi", "arxiv", "pdf"}

  /** The row as the JSON object sent to the browser: exactly the ten output keys. */
  function ToJson(r: Row): (m: map<string, Value>)
    ensures m.Keys == OutputKeys
  {
    map[
      "title" := Str(r.title), "author" := r.author, "year" := Str(r.year),
      "journal" := Str(r.journal), "keywords" := r.keywords, "ads" := Str(r.ads),
      "url" := Str(r.url), "doi" := Str(r.doi), "arxiv" := Str(r.arxiv), "pdf" := Str(r.pdf)
    ]
  }

  /**
    The loop body of the projection: `title` without outer braces, and
    the defaults of `entry.get(..., '')` and `entry.get('keywords', [])`
    for a missing `year`, `journal` or `keywords`.
   */
  function Project(n: Normalized): (r: Row)
    requires HasRequiredKeys(n.fields)
    ensures r.title == [] || (r.title[0] != '{' && r.title[|r.title| - 1] != '}')
    ensures "year" !in n.fields ==> r.year == ""
    ensures "journal" !in n.fields ==> r.journal == ""
    ensures "keywords" !in n.fields ==> r.keywords == List([])
  {
    Row(
      title := StripBraces(Get(n.fields, "title")),
      author := n.authors,
      year := Get(n.fields, "year"),
      journal := Get(n.fields, "journal"),
      keywords := if "keywords" in n.fields then Str(n.fields["keywords"]) else List([]),
      ads := n.fields["ads"],
      url := n.fields["url"],
      doi := n.fields["doi"],
      arxiv := n.fields["arxiv"],
      pdf := n.fields["pdf"])
  }

  /** A braced title `{...}` loses its outer pair of braces and nothing else. */
  lemma BracedTitle(n: Normalized, s: string)
    requires HasRequiredKeys(n.fields)
    requires Get(n.fields, "title") == "{" + s + "}"
    requires s == [] || (s[0] != '{' && s[|s| - 1] != '}')
    ensures Project(n).title == s
  {
    StripBracesOuterPair(s);
  }

  /**
    The result element for one entry, from end to end, in terms of the
    converted entry: title and year as read, the stripped journal, the
    authors, the links of `parse_urls` and the `pdf` of `parse_pdf`.
   */
  lemma ResultOfEntry(o: Oracles, e: map<string, string>, n: Normalized)
    requires Normalize(o, e) == Some(n)
    ensures HasRequiredKeys(n.fields)
    ensures var f1 := UnicodeFields(o, e);
            var l := UrlsOf(f1);
            var r := Project(n);
            r.title == StripBraces(Get(f1, "title"))
            && r.author == AuthorsOf(o, f1)
            && r.year == Get(f1, "year")
            && r.journal == Strip(Get(f1, "journal"))
            && r.keywords == (if "keywords" in f1 then Str(f1["keywords"]) else List([]))
            && r.ads == l.ads && r.url == l.url && r.doi == l.doi && r.arxiv == l.arxiv
            && Some(r.pdf) == ResolvePdf(o, Scan(f1, FilePrefix, 1), "")
  {
    ReadOnlyKeys();
    NormalizeReadsConverted(o, e, n);
    ManagedRequired(n.fields);
    KeepsField(o, e, n, "title");
    KeepsField(o, e, n, "year");
    KeepsField(o, e, n, "keywords");
  }

  /** A processed record holds every key the projection reads with `entry[...]`. */
  lemma ManagedRequired(f: map<string, string>)
    requires ManagedKeys <= f.Keys
    ensures HasRequiredKeys(f)
  {
    assert "ads" in ManagedKeys && "url" in ManagedKeys && "doi" in ManagedKeys;
    assert "arxiv" in ManagedKeys && "pdf" in ManagedKeys;
  }

  /**
    An entry with no `author`, `title`, `year`, `journal`, `keywords`,
    `adsurl`, `eprint`, `bdsk-file-1` or `bdsk-url-1` (it may hold any
    other field, such as `ID` and `ENTRYTYPE`) gives empty strings
    everywhere and no keywords.
   */
  lemma EmptyEntryDefaults(o: Oracles, e: map<string, string>)
    requires "author" !in e && "title" !in e && "year" !in e && "journal" !in e && "keywords" !in e
    requires "adsurl" !in e && "eprint" !in e
    requires Key(FilePrefix, 1) !in e && Key(UrlPrefix, 1) !in e
    ensures Normalize(o, e).Some?
    ensures HasRequiredKeys(Normalize(o, e).value.fields)
    ensures Project(Normalize(o, e).value) == Row("", Str(""), "", "", List([]), "", "", "", "", "")
  {
    var f := UnicodeFields(o, e);
    assert Scan(f, FilePrefix, 1) == [];
    assert Scan(f, UrlPrefix, 1) == [];
    assert Seed(f) == Links("", "", "", "");
    StripKeeps("");
    StripBracesKeeps("");
    var n := Normalize(o, e).value;
    ResultOfEntry(o, e, n);
    assert AuthorsOf(o, f) == Str("");
    assert Some(Project(n).pdf) == Some("");
  }
}
