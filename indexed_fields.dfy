/**
  Lookups in a record and the gap-free scan over numbered keys
  `prefix + str(1)`, `prefix + str(2)`, ... that both `parse_pdf`
  (`bdsk-file-N`) and `parse_urls` (`bdsk-url-N`) perform.
 */
module IndexedFields {
  import opened Text

  /** `record.get(key, '')`. */
  function Get(f: map<string, string>, key: string): (r: string)
    ensures key in f ==> r == f[key]
    ensures key !in f ==> r == ""
  {
    if key in f then f[key] else ""
  }

  /** A second write to a key replaces the first. */
  lemma UpdateTwice(m: map<string, string>, k: string, a: string, b: string)
    ensures m[k := a][k := b] == m[k := b]
  {
  }

  /** Writes to different keys commute. */
  lemma UpdateSwap(m: map<string, string>, k1: string, a: string, k2: string, b: string)
    requires k1 != k2
    ensures m[k1 := a][k2 := b] == m[k2 := b][k1 := a]
  {
  }

  /** The numbered key `prefix + str(i)`. */
  function Key(prefix: string, i: nat): string
  {
    prefix + Decimal(i)
  }

  /** Different indices give different keys. */
  lemma KeyInjective(prefix: string, i: nat, j: nat)
    requires Key(prefix, i) == Key(prefix, j)
    ensures i == j
  {
    assert Decimal(i) == Key(prefix, i)[|prefix|..];
    assert Decimal(j) == Key(prefix, j)[|prefix|..];
    DecimalInjective(i, j);
  }

  /** The keys with indices 1 .. i-1 all hold a non-empty value. */
  ghost predicate PresentBelow(f: map<string, string>, prefix: string, i: nat)
  {
    forall j :: 1 <= j < i ==> Get(f, Key(prefix, j)) != ""
  }

  ghost function KeysUpTo(prefix: string, n: nat): set<string>
  {
    set j | 1 <= j <= n :: Key(prefix, j)
  }

  lemma {:induction false} KeysUpToSize(prefix: string, n: nat)
    ensures |KeysUpTo(prefix, n)| == n
  {
    if n == 0 {
      assert KeysUpTo(prefix, 0) == {};
    } else {
      KeysUpToSize(prefix, n - 1);
      assert KeysUpTo(prefix, n) == KeysUpTo(prefix, n - 1) + {Key(prefix, n)};
      if Key(prefix, n) in KeysUpTo(prefix, n - 1) {
        var j :| 1 <= j <= n - 1 && Key(prefix, j) == Key(prefix, n);
        KeyInjective(prefix, j, n);
      }
    }
  }

  lemma SubsetSize(a: set<string>, b: set<string>)
    requires a <= b
    ensures |a| <= |b|
  {
    assert b == a + (b - a);
    assert a * (b - a) == {};
  }

  /**
    A record whose keys 1 .. n are all filled has at least n entries, so a
    gap-free scan over a (finite) record always stops.
   */
  lemma ScanBound(f: map<string, string>, prefix: string, n: nat)
    requires PresentBelow(f, prefix, n + 1)
    ensures n <= |f|
  {
    KeysUpToSize(prefix, n);
    assert KeysUpTo(prefix, n) <= f.Keys;
    SubsetSize(KeysUpTo(prefix, n), f.Keys);
  }

  /**
    The values read by `while True: v = record.get(prefix + str(idx), '');
    if v: ... idx += 1 else: break`, starting at index i: the values of
    keys i, i+1, ... up to, not including, the first key that is missing
    or empty.
   */
  function Scan(f: map<string, string>, prefix: string, i: nat): (r: seq<string>)
    requires PresentBelow(f, prefix, i)
    ensures forall k :: 0 <= k < |r| ==> r[k] != "" && r[k] == Get(f, Key(prefix, i + k))
    ensures Get(f, Key(prefix, i + |r|)) == ""
    decreases |f| + 1 - i
  {
    var v := Get(f, Key(prefix, i));
    if v == "" then []
    else
      ScanBound(f, prefix, i);
      [v] + Scan(f, prefix, i + 1)
  }

  /**
    The scan never reads past the first missing or empty key: a record
    that agrees on keys i .. i + |Scan| (whatever it holds elsewhere)
    scans to the same values.
   */
  lemma {:induction false} ScanFrame(f: map<string, string>, g: map<string, string>, prefix: string, i: nat)
    requires PresentBelow(f, prefix, i) && PresentBelow(g, prefix, i)
    requires forall j :: i <= j <= i + |Scan(f, prefix, i)| ==> Get(g, Key(prefix, j)) == Get(f, Key(prefix, j))
    ensures Scan(g, prefix, i) == Scan(f, prefix, i)
    decreases |f| + 1 - i
  {
    assert Get(g, Key(prefix, i)) == Get(f, Key(prefix, i));
    if Get(f, Key(prefix, i)) != "" {
      ScanBound(f, prefix, i);
      assert Scan(f, prefix, i) == [Get(f, Key(prefix, i))] + Scan(f, prefix, i + 1);
      ScanFrame(f, g, prefix, i + 1);
    }
  }

  /** Scanning from i is the value at i followed by the scan from i + 1. */
  lemma ScanStep(f: map<string, string>, prefix: string, i: nat)
    requires PresentBelow(f, prefix, i) && Get(f, Key(prefix, i)) != ""
    ensures PresentBelow(f, prefix, i + 1)
    ensures Scan(f, prefix, i) == [Get(f, Key(prefix, i))] + Scan(f, prefix, i + 1)
  {
  }

  /**
    Writing a key that cannot be one of the numbered keys (it does not
    begin like `prefix`) leaves the scan unchanged.
   */
  lemma ScanIgnoresWrite(f: map<string, string>, prefix: string, key: string, v: string)
    requires prefix != [] && (key == [] || key[0] != prefix[0])
    ensures Scan(f[key := v], prefix, 1) == Scan(f, prefix, 1)
  {
    var g := f[key := v];
    forall j: nat | 1 <= j
      ensures Get(g, Key(prefix, j)) == Get(f, Key(prefix, j))
    {
      assert Key(prefix, j)[0] == prefix[0];
    }
    ScanFrame(f, g, prefix, 1);
  }
}
