/** `parse_journal`: the `journal` field with surrounding whitespace removed. */
module Journal {
  import opened Text
  import opened IndexedFields

  /** The record after `parse_journal`. */
  function WithJournal(f: map<string, string>): (r: map<string, string>)
    ensures "journal" in r && var j := r["journal"]; j == [] || (!IsSpace(j[0]) && !IsSpace(j[|j| - 1]))
    ensures r["journal"] == Strip(Get(f, "journal"))
    ensures "journal" !in f ==> r["journal"] == ""
    ensures r.Keys == f.Keys + {"journal"}
    ensures forall k :: k in f && k != "journal" ==> r[k] == f[k]
  {
    var j := Strip(Get(f, "journal"));
    assert "journal" !in f ==> j == "" by {
      StripKeeps("");
    }
    f["journal" := j]
  }

  /** `parse_journal` applied twice is `parse_journal` applied once. */
  lemma JournalIdempotent(f: map<string, string>)
    ensures WithJournal(WithJournal(f)) == WithJournal(f)
  {
    var g := WithJournal(f);
    assert g["journal"] == Strip(Get(f, "journal"));
    StripIdempotent(Get(f, "journal"));
    assert Strip(Get(g, "journal")) == g["journal"];
    UpdateSame(g, "journal");
  }

  lemma UpdateSame(m: map<string, string>, k: string)
    requires k in m
    ensures m[k := m[k]] == m
  {
  }
}
