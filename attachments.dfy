/**
  `parse_pdf`: the `pdf` key of a record. Every scanned `bdsk-file-N`
  blob is decoded to a file name; the link of each name whose file
  exists overwrites `pdf`, so the last existing file wins. A blob that
  does not decode raises, and the record is not produced.
 */
module Attachments {
  import opened Wrappers
  import opened Env
  import opened IndexedFields

  const FilePrefix := "bdsk-file-"

  /**
    The loop of `parse_pdf` over the scanned blobs, with `pdf` the value
    so far: `None` when a blob fails to decode.
   */
  function ResolvePdf(o: Oracles, blobs: seq<string>, pdf: string): (r: Option<string>)
    ensures r.Some? ==> r.value == pdf || r.value in ExistingLinks(o, blobs)
    decreases |blobs|
  {
    if blobs == [] then Some(pdf)
    else
      match o.decode(blobs[0])
      case None => None
      case Some(name) => ResolvePdf(o, blobs[1..], if o.fileExists(name) then o.urlFor(name) else pdf)
  }

  /** The links of the names, decoded from `blobs`, whose files exist. */
  ghost function ExistingLinks(o: Oracles, blobs: seq<string>): set<string>
    decreases |blobs|
  {
    if blobs == [] then {}
    else
      var name := o.decode(blobs[0]);
      (if name.Some? && o.fileExists(name.value) then {o.urlFor(name.value)} else {})
      + ExistingLinks(o, blobs[1..])
  }

  /**
    The record after `parse_pdf`, or `None` when it raises: it raises
    exactly when a scanned blob does not decode, and otherwise `pdf` is
    empty or the link of an existing file named by a scanned blob.
   */
  function WithPdf(o: Oracles, f: map<string, string>): (r: Option<map<string, string>>)
    ensures r.None? <==> exists k :: 0 <= k < |Scan(f, FilePrefix, 1)| && o.decode(Scan(f, FilePrefix, 1)[k]).None?
    ensures r.Some? ==> r.value.Keys == f.Keys + {"pdf"} && forall k :: k in f && k != "pdf" ==> r.value[k] == f[k]
    ensures r.Some? ==> r.value["pdf"] == "" || r.value["pdf"] in ExistingLinks(o, Scan(f, FilePrefix, 1))
  {
    var blobs := Scan(f, FilePrefix, 1);
    ResolvePdfFails(o, blobs, "");
    match ResolvePdf(o, blobs, "")
    case None =>
      var k :| 0 <= k < |blobs| && o.decode(blobs[k]).None?;
      assert 0 <= k < |Scan(f, FilePrefix, 1)| && o.decode(Scan(f, FilePrefix, 1)[k]).None?;
      None
    case Some(pdf) => Some(f["pdf" := pdf])
  }

  /** `parse_pdf` fails exactly when one of the scanned blobs does not decode. */
  lemma {:induction false} ResolvePdfFails(o: Oracles, blobs: seq<string>, pdf: string)
    ensures ResolvePdf(o, blobs, pdf).None? <==> exists k :: 0 <= k < |blobs| && o.decode(blobs[k]).None?
    decreases |blobs|
  {
    if blobs != [] && o.decode(blobs[0]).Some? {
      var name := o.decode(blobs[0]).value;
      ResolvePdfFails(o, blobs[1..], if o.fileExists(name) then o.urlFor(name) else pdf);
      if exists k :: 0 <= k < |blobs| && o.decode(blobs[k]).None? {
        var k :| 0 <= k < |blobs| && o.decode(blobs[k]).None?;
        assert blobs[1..][k - 1] == blobs[k];
      }
    }
  }

  /** `names[k]` is the last name whose file exists. */
  ghost predicate LastExisting(o: Oracles, names: seq<string>, k: int)
  {
    0 <= k < |names| && o.fileExists(names[k])
    && forall j :: k < j < |names| ==> !o.fileExists(names[j])
  }

  ghost predicate NoneExists(o: Oracles, names: seq<string>)
  {
    forall k :: 0 <= k < |names| ==> !o.fileExists(names[k])
  }

  /** One step of the loop: the first blob decodes to `names[0]`. */
  lemma ResolvePdfStep(o: Oracles, blobs: seq<string>, names: seq<string>, pdf: string)
    requires |names| == |blobs| > 0 && o.decode(blobs[0]) == Some(names[0])
    ensures ResolvePdf(o, blobs, pdf)
            == ResolvePdf(o, blobs[1..], if o.fileExists(names[0]) then o.urlFor(names[0]) else pdf)
  {
  }

  /**
    When every blob decodes, to `names`, the result is the link of the
    last name whose file exists, and the starting value when none does.
    A name whose file is missing still uses up its index.
   */
  lemma {:induction false} LastExistingWins(o: Oracles, blobs: seq<string>, names: seq<string>, pdf: string)
    requires |names| == |blobs|
    requires forall k :: 0 <= k < |blobs| ==> o.decode(blobs[k]) == Some(names[k])
    ensures NoneExists(o, names) ==> ResolvePdf(o, blobs, pdf) == Some(pdf)
    ensures forall k :: LastExisting(o, names, k) ==> ResolvePdf(o, blobs, pdf) == Some(o.urlFor(names[k]))
    decreases |blobs|
  {
    if blobs != [] {
      var pdf' := if o.fileExists(names[0]) then o.urlFor(names[0]) else pdf;
      var bs, ns := blobs[1..], names[1..];
      assert forall k :: 0 <= k < |bs| ==> o.decode(bs[k]) == Some(ns[k]) by {
        forall k | 0 <= k < |bs| ensures o.decode(bs[k]) == Some(ns[k]) {
          assert bs[k] == blobs[k + 1] && ns[k] == names[k + 1];
        }
      }
      ResolvePdfStep(o, blobs, names, pdf);
      LastExistingWins(o, bs, ns, pdf');
      if NoneExists(o, names) {
        assert NoneExists(o, ns) by {
          forall k | 0 <= k < |ns| ensures !o.fileExists(ns[k]) {
            assert ns[k] == names[k + 1];
          }
        }
      }
      forall k | LastExisting(o, names, k)
        ensures ResolvePdf(o, blobs, pdf) == Some(o.urlFor(names[k]))
      {
        if k == 0 {
          assert NoneExists(o, ns) by {
            forall j | 0 <= j < |ns| ensures !o.fileExists(ns[j]) {
              assert ns[j] == names[j + 1];
            }
          }
        } else {
          assert LastExisting(o, ns, k - 1) by {
            assert ns[k - 1] == names[k];
            forall j | k - 1 < j < |ns| ensures !o.fileExists(ns[j]) {
              assert ns[j] == names[j + 1];
            }
          }
        }
      }
    }
  }

  /**
    `parse_pdf` on a record whose scanned blobs decode to `names`: `pdf`
    is the link of the last name whose file exists, and `''` when none does.
   */
  lemma PdfOfLastExisting(o: Oracles, f: map<string, string>, names: seq<string>)
    requires var blobs := Scan(f, FilePrefix, 1);
             |names| == |blobs| && forall k :: 0 <= k < |blobs| ==> o.decode(blobs[k]) == Some(names[k])
    ensures NoneExists(o, names) ==> WithPdf(o, f) == Some(f["pdf" := ""])
    ensures forall k :: LastExisting(o, names, k) ==> WithPdf(o, f) == Some(f["pdf" := o.urlFor(names[k])])
  {
    LastExistingWins(o, Scan(f, FilePrefix, 1), names, "");
  }

  /**
    One iteration of the loop of `parse_pdf` at index `i`: the blob there
    either fails to decode, or moves the scan on by one with `pdf` updated.
   */
  lemma ScanResolveStep(o: Oracles, f: map<string, string>, i: nat, pdf: string)
    requires PresentBelow(f, FilePrefix, i) && Get(f, Key(FilePrefix, i)) != ""
    ensures PresentBelow(f, FilePrefix, i + 1) && i <= |f|
    ensures var name := o.decode(Get(f, Key(FilePrefix, i)));
            ResolvePdf(o, Scan(f, FilePrefix, i), pdf)
            == if name.None? then None
               else ResolvePdf(o, Scan(f, FilePrefix, i + 1), if o.fileExists(name.value) then o.urlFor(name.value) else pdf)
  {
    ScanStep(f, FilePrefix, i);
    ScanBound(f, FilePrefix, i);
  }
}
