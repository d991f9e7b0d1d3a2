/**
  `parse_urls`: the four external links of a record. `ads` is seeded
  from `adsurl`, `arxiv` from `eprint`, `doi` and `url` start empty;
  then each scanned `bdsk-url-N` goes to the first slot whose pattern it
  matches (DOI, then arXiv, then ADS, else the generic `url`), and only
  if that slot is still empty.
 */
module Links {
  import opened Wrappers
  import opened Text
  import opened IndexedFields
  import opened Patterns

  datatype Links = Links(doi: string, arxiv: string, ads: string, url: string)

  datatype LinkKind = Doi | Arxiv | Ads | Generic

  const UrlPrefix := "bdsk-url-"
  const ArxivAbs := "https://arxiv.org/abs/"

  /** The slot a URL belongs to: the first pattern it matches, in the order DOI, arXiv, ADS. */
  function Classify(u: string): (r: LinkKind)
    ensures r == Doi <==> DoiMatch(u)
    ensures r == Arxiv <==> !DoiMatch(u) && ArxivMatch(u)
    ensures r == Ads <==> !DoiMatch(u) && !ArxivMatch(u) && AdsMatch(u)
    ensures r == Generic <==> !DoiMatch(u) && !ArxivMatch(u) && !AdsMatch(u)
  {
    if DoiMatch(u) then Doi
    else if ArxivMatch(u) then Arxiv
    else if AdsMatch(u) then Ads
    else Generic
  }

  function Slot(l: Links, k: LinkKind): string
  {
    match k
    case Doi => l.doi
    case Arxiv => l.arxiv
    case Ads => l.ads
    case Generic => l.url
  }

  /** One iteration of the scan loop: a URL fills its slot only if the slot is empty. */
  function Place(l: Links, u: string): (r: Links)
    ensures Slot(r, Classify(u)) == if Slot(l, Classify(u)) == "" then u else Slot(l, Classify(u))
    ensures forall k :: k != Classify(u) ==> Slot(r, k) == Slot(l, k)
  {
    if DoiMatch(u) then (if l.doi == "" then l.(doi := u) else l)
    else if ArxivMatch(u) then (if l.arxiv == "" then l.(arxiv := u) else l)
    else if AdsMatch(u) then (if l.ads == "" then l.(ads := u) else l)
    else if l.url == "" then l.(url := u)
    else l
  }

  /** The scan loop over the URLs `us`, in order. */
  function PlaceAll(l: Links, us: seq<string>): (r: Links)
    ensures forall k :: Slot(l, k) != "" ==> Slot(r, k) == Slot(l, k)
    ensures forall k :: Slot(r, k) == Slot(l, k) || (Slot(r, k) in us && Classify(Slot(r, k)) == k)
    decreases |us|
  {
    if us == [] then l else PlaceAll(Place(l, us[0]), us[1..])
  }

  /** The first URL of `us` that belongs to slot `k`. */
  function FirstOfKind(k: LinkKind, us: seq<string>): (r: Option<string>)
    ensures r.Some? ==> r.value in us && Classify(r.value) == k
    ensures r.None? ==> forall i :: 0 <= i < |us| ==> Classify(us[i]) != k
    ensures r.Some? ==> exists i :: 0 <= i < |us| && us[i] == r.value && forall j :: 0 <= j < i ==> Classify(us[j]) != k
    decreases |us|
  {
    if us == [] then None
    else if Classify(us[0]) == k then Some(us[0])
    else
      var r := FirstOfKind(k, us[1..]);
      if r.Some? then FirstShift(k, us, r.value); r else r
  }

  /** A first occurrence in `us[1..]` is a first occurrence in `us` when `us[0]` is of another kind. */
  lemma FirstShift(k: LinkKind, us: seq<string>, v: string)
    requires |us| > 0 && Classify(us[0]) != k
    requires exists i :: 0 <= i < |us[1..]| && us[1..][i] == v && forall j :: 0 <= j < i ==> Classify(us[1..][j]) != k
    ensures exists i :: 0 <= i < |us| && us[i] == v && forall j :: 0 <= j < i ==> Classify(us[j]) != k
  {
    var i :| 0 <= i < |us[1..]| && us[1..][i] == v && forall j :: 0 <= j < i ==> Classify(us[1..][j]) != k;
    assert forall j :: 1 <= j < i + 1 ==> us[j] == us[1..][j - 1];
    assert us[i + 1] == v;
  }

  /**
    First writer wins: after the loop, each slot holds its value from
    before the loop if that was non-empty, and otherwise the first URL
    classified into it, or stays empty. A URL that matches an earlier
    pattern never falls through to a later slot, even when its own slot
    is full and the later one empty.
   */
  lemma {:induction false} FirstWriterWins(l: Links, us: seq<string>, k: LinkKind)
    requires forall i :: 0 <= i < |us| ==> us[i] != ""
    ensures Slot(PlaceAll(l, us), k) == if Slot(l, k) != "" then Slot(l, k) else FirstOfKind(k, us).GetOr("")
    decreases |us|
  {
    if us != [] {
      var l' := Place(l, us[0]);
      assert Slot(l', k) == if Classify(us[0]) == k && Slot(l, k) == "" then us[0] else Slot(l, k);
      FirstWriterWins(l', us[1..], k);
    }
  }

  /** A slot that is full before the loop keeps its value. */
  lemma SlotKept(l: Links, us: seq<string>, k: LinkKind)
    requires forall i :: 0 <= i < |us| ==> us[i] != ""
    requires Slot(l, k) != ""
    ensures Slot(PlaceAll(l, us), k) == Slot(l, k)
  {
    FirstWriterWins(l, us, k);
  }

  /** A URL matching an earlier pattern is dropped when its slot is full; nothing else changes. */
  lemma DroppedWhenFull(l: Links, u: string)
    requires Slot(l, Classify(u)) != ""
    ensures Place(l, u) == l
  {
  }

  /**
    The values before the scan: `ads` from `adsurl`, `arxiv` from `eprint`
    with every leading `{` and trailing `}` removed, `doi` and `url` empty.
   */
  function Seed(f: map<string, string>): (r: Links)
    ensures r.doi == "" && r.url == ""
    ensures r.arxiv != "" <==> "eprint" in f
    ensures "eprint" in f ==> ArxivAbs <= r.arxiv
    ensures r.ads == Get(f, "adsurl")
  {
    Links(
      doi := "",
      arxiv := if "eprint" in f then ArxivAbs + StripBraces(f["eprint"]) else "",
      ads := Get(f, "adsurl"),
      url := "")
  }

  /** The four links `parse_urls` computes for the record `f`. */
  function UrlsOf(f: map<string, string>): (r: Links)
    ensures r.doi == "" || (r.doi in Scan(f, UrlPrefix, 1) && DoiMatch(r.doi))
    ensures r.url == "" || (r.url in Scan(f, UrlPrefix, 1) && Classify(r.url) == Generic)
    ensures "eprint" in f ==> r.arxiv == Seed(f).arxiv
    ensures Get(f, "adsurl") != "" ==> r.ads == Get(f, "adsurl")
  {
    var seed, us := Seed(f), Scan(f, UrlPrefix, 1);
    var r := PlaceAll(seed, us);
    assert Slot(r, Doi) == Slot(seed, Doi) || (Slot(r, Doi) in us && Classify(Slot(r, Doi)) == Doi);
    assert Slot(r, Generic) == Slot(seed, Generic) || (Slot(r, Generic) in us && Classify(Slot(r, Generic)) == Generic);
    assert Slot(seed, Arxiv) != "" ==> Slot(r, Arxiv) == Slot(seed, Arxiv);
    assert Slot(seed, Ads) != "" ==> Slot(r, Ads) == Slot(seed, Ads);
    r
  }

  /** The record with the four link keys written. */
  function StoreLinks(f: map<string, string>, l: Links): (r: map<string, string>)
    ensures r.Keys == f.Keys + {"ads", "doi", "arxiv", "url"}
    ensures forall k :: k in f && k !in {"ads", "doi", "arxiv", "url"} ==> r[k] == f[k]
  {
    f["ads" := l.ads]["doi" := l.doi]["arxiv" := l.arxiv]["url" := l.url]
  }

  /** The four link slots as stored in a record. */
  function LinksIn(f: map<string, string>): Links
  {
    Links(Get(f, "doi"), Get(f, "arxiv"), Get(f, "ads"), Get(f, "url"))
  }

  /** Reading back stored links gives them; the numbered URL keys are untouched. */
  lemma StoredLinks(f: map<string, string>, l: Links, i: nat)
    ensures LinksIn(StoreLinks(f, l)) == l
    ensures Get(StoreLinks(f, l), Key(UrlPrefix, i)) == Get(f, Key(UrlPrefix, i))
  {
    assert Key(UrlPrefix, i)[0] == 'b';
  }

  /** Overwriting one stored slot is storing the links with that slot changed. */
  lemma StoreDoi(f: map<string, string>, l: Links, u: string)
    ensures StoreLinks(f, l)["doi" := u] == StoreLinks(f, l.(doi := u))
  {
  }

  lemma StoreArxiv(f: map<string, string>, l: Links, u: string)
    ensures StoreLinks(f, l)["arxiv" := u] == StoreLinks(f, l.(arxiv := u))
  {
  }

  lemma StoreAds(f: map<string, string>, l: Links, u: string)
    ensures StoreLinks(f, l)["ads" := u] == StoreLinks(f, l.(ads := u))
  {
  }

  lemma StoreUrl(f: map<string, string>, l: Links, u: string)
    ensures StoreLinks(f, l)["url" := u] == StoreLinks(f, l.(url := u))
  {
  }

  /**
    The opening writes of `parse_urls`, in source order, store the seed:
    `ads` reset and then read from `adsurl`, `doi`, `arxiv` and `url`
    reset, and `arxiv` overwritten from `eprint` when that key is present.
   */
  lemma SeedStored(f: map<string, string>)
    ensures var g := f["ads" := ""]["ads" := Get(f, "adsurl")]["doi" := ""]["arxiv" := ""]["url" := ""];
            var h := if "eprint" in f then g["arxiv" := ArxivAbs + StripBraces(f["eprint"])] else g;
            h == StoreLinks(f, Seed(f))
  {
    var a := Get(f, "adsurl");
    UpdateTwice(f, "ads", "", a);
    var m := f["ads" := a]["doi" := ""];
    if "eprint" in f {
      var x := Seed(f).arxiv;
      UpdateSwap(m["arxiv" := ""], "url", "", "arxiv", x);
      UpdateTwice(m, "arxiv", "", x);
    }
  }

  /** The reads among the opening writes see the record's own `adsurl` and `eprint`. */
  lemma SeedReads(f: map<string, string>, a: string)
    ensures Get(f["ads" := ""], "adsurl") == Get(f, "adsurl")
    ensures var g := f["ads" := a]["doi" := ""]["arxiv" := ""]["url" := ""];
            ("eprint" in g <==> "eprint" in f) && ("eprint" in f ==> g["eprint"] == f["eprint"])
  {
    assert "adsurl"[3] != "ads"[2];
    assert "eprint"[0] != "ads"[0] && "eprint"[0] != "doi"[0] && "eprint"[0] != "arxiv"[0] && "eprint"[0] != "url"[0];
  }

  /** The record after `parse_urls`. */
  function WithLinks(f: map<string, string>): (r: map<string, string>)
    ensures r.Keys == f.Keys + {"ads", "doi", "arxiv", "url"}
    ensures LinksIn(r) == UrlsOf(f)
    ensures forall k :: k in f && k !in {"ads", "doi", "arxiv", "url"} ==> r[k] == f[k]
  {
    StoredLinks(f, UrlsOf(f), 0);
    StoreLinks(f, UrlsOf(f))
  }

  /**
    Each link of `parse_urls` is its seed when that is non-empty, and
    otherwise the first scanned `bdsk-url-N` classified into its slot, or
    empty. In particular `doi` and `url` never come from the record's own
    `doi` or `url` field.
   */
  lemma UrlsFirstWriter(f: map<string, string>, k: LinkKind)
    ensures var seed := Slot(Seed(f), k);
            Slot(UrlsOf(f), k) == if seed != "" then seed else FirstOfKind(k, Scan(f, UrlPrefix, 1)).GetOr("")
    ensures Slot(UrlsOf(f), Doi) == FirstOfKind(Doi, Scan(f, UrlPrefix, 1)).GetOr("")
    ensures Slot(UrlsOf(f), Generic) == FirstOfKind(Generic, Scan(f, UrlPrefix, 1)).GetOr("")
  {
    FirstWriterWins(Seed(f), Scan(f, UrlPrefix, 1), k);
    FirstWriterWins(Seed(f), Scan(f, UrlPrefix, 1), Doi);
    FirstWriterWins(Seed(f), Scan(f, UrlPrefix, 1), Generic);
  }

  /**
    An `eprint` that is present but empty (or only braces) still seeds
    `arxiv` with the bare prefix, which is non-empty, so no scanned arXiv
    URL can fill the slot.
   */
  lemma EmptyEprintBlocksArxiv(f: map<string, string>)
    requires "eprint" in f && StripBraces(f["eprint"]) == ""
    ensures UrlsOf(f).arxiv == ArxivAbs
  {
    SeedOfEmptyEprint(f);
    SlotKept(Seed(f), Scan(f, UrlPrefix, 1), Arxiv);
  }

  /**
    A present `eprint` gives the arXiv abstract page of `eprint` with every
    leading `{` and trailing `}` removed, whatever the scanned URLs are:
    the seed is non-empty, so it stays.
   */
  lemma EprintArxiv(f: map<string, string>)
    requires "eprint" in f
    ensures UrlsOf(f).arxiv == ArxivAbs + StripBraces(f["eprint"])
  {
    SlotKept(Seed(f), Scan(f, UrlPrefix, 1), Arxiv);
  }

  /** In particular an `eprint` written `{id}` gives the abstract page of `id`. */
  lemma EprintSeedsArxiv(f: map<string, string>, id: string)
    requires "eprint" in f && f["eprint"] == "{" + id + "}"
    requires id == [] || (id[0] != '{' && id[|id| - 1] != '}')
    ensures UrlsOf(f).arxiv == ArxivAbs + id
  {
    StripBracesOuterPair(id);
    EprintArxiv(f);
  }

  lemma SeedOfEmptyEprint(f: map<string, string>)
    requires "eprint" in f && StripBraces(f["eprint"]) == ""
    ensures Slot(Seed(f), Arxiv) == ArxivAbs
  {
    assert Seed(f).arxiv == ArxivAbs + "";
  }

  /**
    A DOI link in `bdsk-url-1` and an arXiv link in `bdsk-url-2`, with no
    `eprint`, no `adsurl` and nothing in `bdsk-url-3`, fill exactly `doi`
    and `arxiv`.
   */
  lemma DoiThenArxiv(f: map<string, string>, r1: string, r2: string)
    requires '\n' !in r1 && '\n' !in r2
    requires Get(f, Key(UrlPrefix, 1)) == "https://doi.org/" + r1
    requires Get(f, Key(UrlPrefix, 2)) == "https://arxiv.org/abs/" + r2
    requires Get(f, Key(UrlPrefix, 3)) == ""
    requires "eprint" !in f && "adsurl" !in f
    ensures UrlsOf(f) == Links("https://doi.org/" + r1, "https://arxiv.org/abs/" + r2, "", "")
  {
    var u1, u2 := "https://doi.org/" + r1, "https://arxiv.org/abs/" + r2;
    ScanStep(f, UrlPrefix, 1);
    ScanStep(f, UrlPrefix, 2);
    assert Scan(f, UrlPrefix, 3) == [];
    assert Scan(f, UrlPrefix, 1) == [u1, u2];
    var seed := Seed(f);
    assert seed == Links("", "", "", "");
    PlaceDoi(seed, r1);
    PlaceArxiv(Links(u1, "", "", ""), r2);
    assert PlaceAll(seed, [u1, u2]) == PlaceAll(Links(u1, "", "", ""), [u2]);
  }

  lemma PlaceDoi(l: Links, r1: string)
    requires '\n' !in r1 && l.doi == ""
    ensures Place(l, "https://doi.org/" + r1) == l.(doi := "https://doi.org/" + r1)
  {
    DoiLinksMatch(r1);
  }

  lemma PlaceArxiv(l: Links, r2: string)
    requires '\n' !in r2 && l.arxiv == ""
    ensures Place(l, "https://arxiv.org/abs/" + r2) == l.(arxiv := "https://arxiv.org/abs/" + r2)
  {
    ArxivLinksMatch(r2);
  }
}
