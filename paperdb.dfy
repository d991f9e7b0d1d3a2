/**
  The record-processing steps as they run: a `Record` whose fields each
  step updates in place, the `while True` scans of `parse_pdf` and
  `parse_urls`, and `parse_bibtex`, which processes every entry and then
  builds the result list by appending one row per entry.
 */
module PaperDb {
  import opened Wrappers
  import opened Text
  import opened Env
  import opened IndexedFields
  import opened Patterns
  import opened Attachments
  import opened Links
  import opened Authors
  import opened Journal
  import opened Pipeline

  /**
    The `record` dict one BibTeX entry becomes. Its string fields are
    `fields`; the `authors` key, which holds a list or `''`, is kept
    beside them in `authors`.
   */
  class Record {
    var fields: map<string, string>
    var authors: Value

    constructor (entry: map<string, string>)
      ensures fields == entry && authors == Str("")
    {
      fields := entry;
      authors := Str("");
    }

    /** `convert_to_unicode`. */
    method ConvertToUnicode(o: Oracles)
      modifies this
      ensures fields == UnicodeFields(o, old(fields)) && authors == old(authors)
    {
      fields := UnicodeFields(o, fields);
    }

    /** `parse_authors`. */
    method ParseAuthors(o: Oracles)
      modifies this
      ensures authors == AuthorsOf(o, old(fields)) && fields == old(fields)
    {
      var field := Get(fields, "author");
      authors := Str("");
      if field != "" {
        authors := List(AuthorNames(o, field));
      }
    }

    /**
      `parse_pdf`: `ok` is false when a blob does not decode (the call
      raises); otherwise the record is `WithPdf` of the old one.
     */
    method ParsePdf(o: Oracles) returns (ok: bool)
      modifies this
      ensures ok == WithPdf(o, old(fields)).Some?
      ensures ok ==> Some(fields) == WithPdf(o, old(fields))
      ensures authors == old(authors)
    {
      ghost var f0 := fields;
      fields := fields["pdf" := ""];
      ghost var pdf := "";
      var idx := 1;
      while true
        invariant 1 <= idx <= |f0| + 1 && PresentBelow(f0, FilePrefix, idx)
        invariant fields == f0["pdf" := pdf]
        invariant ResolvePdf(o, Scan(f0, FilePrefix, idx), pdf) == ResolvePdf(o, Scan(f0, FilePrefix, 1), "")
        invariant authors == old(authors)
        decreases |f0| + 1 - idx
      {
        assert Key(FilePrefix, idx)[0] == 'b';
        var blob := Get(fields, Key(FilePrefix, idx));
        if blob != "" {
          ScanResolveStep(o, f0, idx, pdf);
          var name := o.decode(blob);
          if name.None? {
            return false;
          }
          if o.fileExists(name.value) {
            UpdateTwice(f0, "pdf", pdf, o.urlFor(name.value));
            fields := fields["pdf" := o.urlFor(name.value)];
            pdf := o.urlFor(name.value);
          }
          idx := idx + 1;
        } else {
          break;
        }
      }
      return true;
    }

    /** `parse_urls`: the record becomes `WithLinks` of the old one. */
    method ParseUrls()
      modifies this
      ensures fields == WithLinks(old(fields)) && authors == old(authors)
    {
      ghost var f0 := fields;
      SeedUrls();
      ScanUrls(f0);
    }

    /** The opening writes of `parse_urls`, which store the seed links. */
    method SeedUrls()
      modifies this
      ensures fields == StoreLinks(old(fields), Seed(old(fields))) && authors == old(authors)
    {
      ghost var f0 := fields;
      SeedReads(f0, Get(f0, "adsurl"));
      fields := fields["ads" := ""];
      fields := fields["ads" := Get(fields, "adsurl")];
      fields := fields["doi" := ""];
      fields := fields["arxiv" := ""];
      fields := fields["url" := ""];
      if "eprint" in fields {
        fields := fields["arxiv" := ArxivAbs + StripBraces(fields["eprint"])];
      }
      SeedStored(f0);
    }

    /**
      The scan loop of `parse_urls` over the record `f0` whose seed links
      are already stored.
     */
    method ScanUrls(ghost f0: map<string, string>)
      requires fields == StoreLinks(f0, Seed(f0))
      modifies this
      ensures fields == WithLinks(f0) && authors == old(authors)
    {
      var idx := 1;
      ghost var l := Seed(f0);
      while true
        invariant 1 <= idx <= |f0| + 1 && PresentBelow(f0, UrlPrefix, idx)
        invariant fields == StoreLinks(f0, l)
        invariant PlaceAll(l, Scan(f0, UrlPrefix, idx)) == UrlsOf(f0)
        invariant authors == old(authors)
        decreases |f0| + 1 - idx
      {
        StoredLinks(f0, l, idx);
        var url := Get(fields, Key(UrlPrefix, idx));
        if url != "" {
          ScanStep(f0, UrlPrefix, idx);
          ScanBound(f0, UrlPrefix, idx);
          PlaceUrl(url, f0, l);
          l := Place(l, url);
          idx := idx + 1;
        } else {
          break;
        }
      }
    }

    /** One iteration of the scan loop: `url` goes to its slot if that is empty. */
    method PlaceUrl(url: string, ghost f0: map<string, string>, ghost l: Links)
      requires fields == StoreLinks(f0, l)
      modifies this
      ensures fields == StoreLinks(f0, Place(l, url)) && authors == old(authors)
    {
      StoredLinks(f0, l, 0);
      if DoiMatch(url) {
        if fields["doi"] == "" {
          StoreDoi(f0, l, url);
          fields := fields["doi" := url];
        }
      } else if ArxivMatch(url) {
        if fields["arxiv"] == "" {
          StoreArxiv(f0, l, url);
          fields := fields["arxiv" := url];
        }
      } else if AdsMatch(url) {
        if fields["ads"] == "" {
          StoreAds(f0, l, url);
          fields := fields["ads" := url];
        }
      } else if fields["url"] == "" {
        StoreUrl(f0, l, url);
        fields := fields["url" := url];
      }
    }

    /** `parse_journal`. */
    method ParseJournal()
      modifies this
      ensures fields == WithJournal(old(fields)) && authors == old(authors)
    {
      var journal := Strip(Get(fields, "journal"));
      fields := fields["journal" := journal];
    }

    /**
      `process_record`: the five steps in order. `ok` is false when
      `parse_pdf` raises; otherwise the record is the processed entry.
     */
    method Process(o: Oracles) returns (ok: bool)
      modifies this
      ensures ok == Normalize(o, old(fields)).Some?
      ensures ok ==> Normalize(o, old(fields)) == Some(Normalized(fields, authors))
    {
      ConvertToUnicode(o);
      ParseAuthors(o);
      ok := ParsePdf(o);
      if !ok {
        return;
      }
      ParseUrls();
      ParseJournal();
    }
  }

  /** `process_record` on a fresh record made from one parsed entry. */
  method ProcessRecord(o: Oracles, entry: map<string, string>) returns (n: Option<Normalized>)
    ensures n == Normalize(o, entry)
  {
    var record := new Record(entry);
    var ok := record.Process(o);
    if !ok {
      return None;
    }
    return Some(Normalized(record.fields, record.authors));
  }

  /** The first `|done|` elements of `xs` mapped by `f` to `done`. */
  ghost predicate ProcessedPrefix<A, B>(f: A -> Option<B>, xs: seq<A>, done: seq<B>)
  {
    |done| <= |xs| && forall j :: 0 <= j < |done| ==> f(xs[j]) == Some(done[j])
  }

  lemma ProcessedAppend<A, B>(f: A -> Option<B>, xs: seq<A>, done: seq<B>, n: B)
    requires ProcessedPrefix(f, xs, done) && |done| < |xs|
    requires f(xs[|done|]) == Some(n)
    ensures ProcessedPrefix(f, xs, done + [n])
  {
    var done' := done + [n];
    forall j | 0 <= j < |done'|
      ensures f(xs[j]) == Some(done'[j])
    {
      if j < |done| {
        assert done'[j] == done[j];
      }
    }
  }

  /**
    The parser's pass over the entries with `process_record` as its
    customization: `None` as soon as one entry raises, otherwise the
    processed entries in order.
   */
  method ProcessEntries(o: Oracles, entries: seq<map<string, string>>) returns (database: Option<seq<Normalized>>)
    ensures database.Some? <==> forall i :: 0 <= i < |entries| ==> Normalize(o, entries[i]).Some?
    ensures database.Some? ==> |database.value| == |entries|
                               && forall i :: 0 <= i < |entries| ==> Normalize(o, entries[i]) == Some(database.value[i])
  {
    ghost var norm := e => Normalize(o, e);
    var done: seq<Normalized> := [];
    var i := 0;
    while i < |entries|
      invariant 0 <= i <= |entries| && |done| == i
      invariant ProcessedPrefix(norm, entries, done)
    {
      var n := ProcessRecord(o, entries[i]);
      if n.None? {
        return None;
      }
      ProcessedAppend(norm, entries, done, n.value);
      done := done + [n.value];
      i := i + 1;
    }
    return Some(done);
  }

  /** Every entry of `database` projected, in order. */
  function ProjectAll(database: seq<Normalized>): (rows: seq<Row>)
    requires forall k :: 0 <= k < |database| ==> HasRequiredKeys(database[k].fields)
    ensures |rows| == |database|
    decreases |database|
  {
    if database == [] then [] else [Project(database[0])] + ProjectAll(database[1..])
  }

  /** Row `k` is the projection of entry `k`. */
  lemma {:induction false} ProjectAllAt(database: seq<Normalized>, k: nat)
    requires forall i :: 0 <= i < |database| ==> HasRequiredKeys(database[i].fields)
    requires k < |database|
    ensures ProjectAll(database)[k] == Project(database[k])
    decreases k
  {
    if k > 0 {
      assert database[1..][k - 1] == database[k];
      ProjectAllAt(database[1..], k - 1);
    }
  }

  /**
    The loop of `parse_bibtex` that appends one row per processed entry.
    Each entry must hold the keys it reads with `entry[...]`.
   */
  method ProjectEntries(database: seq<Normalized>) returns (results: seq<Row>)
    requires forall k :: 0 <= k < |database| ==> HasRequiredKeys(database[k].fields)
    ensures results == ProjectAll(database)
  {
    results := [];
    for j := 0 to |database|
      invariant results + ProjectAll(database[j..]) == ProjectAll(database)
    {
      var row := Project(database[j]);
      ProjectAllStep(database, j);
      AppendAssoc(results, [row], ProjectAll(database[j + 1..]));
      results := results + [row];
    }
    assert database[|database|..] == [];
  }

  /** Peeling the first entry off the projection of a suffix. */
  lemma ProjectAllStep(database: seq<Normalized>, j: nat)
    requires forall k :: 0 <= k < |database| ==> HasRequiredKeys(database[k].fields)
    requires j < |database|
    ensures ProjectAll(database[j..]) == [Project(database[j])] + ProjectAll(database[j + 1..])
  {
    assert database[j..][1..] == database[j + 1..];
  }

  lemma AppendAssoc<T>(a: seq<T>, b: seq<T>, c: seq<T>)
    ensures (a + b) + c == a + (b + c)
  {
  }

  /**
    `parse_bibtex` on already parsed entries: `None` when processing any
    entry raises (the query then answers 500); otherwise one row per
    entry, in order, each the projection of the processed entry.
   */
  method ParseBibtex(o: Oracles, entries: seq<map<string, string>>) returns (res: Option<seq<Row>>)
    ensures res.Some? <==> forall i :: 0 <= i < |entries| ==> Normalize(o, entries[i]).Some?
    ensures res.Some? ==> |res.value| == |entries|
    ensures res.Some? ==> forall i :: 0 <= i < |entries| ==>
              Normalize(o, entries[i]).Some?
              && HasRequiredKeys(Normalize(o, entries[i]).value.fields)
              && res.value[i] == Project(Normalize(o, entries[i]).value)
  {
    var database := ProcessEntries(o, entries);
    if database.None? {
      return None;
    }
    var db := database.value;
    forall k | 0 <= k < |db|
      ensures HasRequiredKeys(db[k].fields)
    {
      ResultOfEntry(o, entries[k], db[k]);
    }
    var results := ProjectEntries(db);
    forall k | 0 <= k < |db|
      ensures results[k] == Project(db[k])
    {
      ProjectAllAt(db, k);
    }
    return Some(results);
  }
}
