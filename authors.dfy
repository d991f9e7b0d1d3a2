/**
  `parse_authors` and `__clean_names`: the `author` field flattened to
  one line, split on the literal ` and `, each piece stripped, turned
  into a name by the library's `getnames`, and cleaned for HTML.
 */
module Authors {
  import opened Text
  import opened Env
  import opened IndexedFields

  const Nbsp := "&nbsp;"
  const AndSep := " and "

  /** A name that holds no `{`, `}`, `~` or space. */
  predicate Clean(n: string)
  {
    '{' !in n && '}' !in n && '~' !in n && ' ' !in n
  }

  /** `__clean_names` on one name: braces deleted, `~` and space turned into `&nbsp;`. */
  function CleanName(n: string): (r: string)
    ensures Clean(r)
  {
    var noOpen := Replace(n, '{', "");
    var noBraces := Replace(noOpen, '}', "");
    var noTilde := Replace(noBraces, '~', Nbsp);
    assert '{' !in Nbsp && '}' !in Nbsp && ' ' !in Nbsp;
    Replace(noTilde, ' ', Nbsp)
  }

  /** What cleaning does to a single character. */
  function CleanChar(c: char): string
  {
    if c == '{' || c == '}' then ""
    else if c == '~' || c == ' ' then Nbsp
    else [c]
  }

  /** Cleaning works character by character. */
  lemma CleanNameAppend(a: string, b: string)
    ensures CleanName(a + b) == CleanName(a) + CleanName(b)
  {
    ReplaceAppend(a, b, '{', "");
    var a1, b1 := Replace(a, '{', ""), Replace(b, '{', "");
    ReplaceAppend(a1, b1, '}', "");
    var a2, b2 := Replace(a1, '}', ""), Replace(b1, '}', "");
    ReplaceAppend(a2, b2, '~', Nbsp);
    var a3, b3 := Replace(a2, '~', Nbsp), Replace(b2, '~', Nbsp);
    ReplaceAppend(a3, b3, ' ', Nbsp);
  }

  lemma CleanNameChar(c: char)
    ensures CleanName([c]) == CleanChar(c)
  {
    ReplaceSingle(c, '{', "");
    if c == '{' {
      assert Replace("", '}', "") == "";
    } else {
      ReplaceSingle(c, '}', "");
      if c != '}' {
        ReplaceSingle(c, '~', Nbsp);
        if c == '~' {
          ReplaceAbsent(Nbsp, ' ', Nbsp);
        } else {
          ReplaceSingle(c, ' ', Nbsp);
        }
      }
    }
  }

  /**
    An independent description of `__clean_names` on one name: each
    character is replaced by its `CleanChar` image, in order.
   */
  lemma CleanNameByChar(n: string)
    ensures CleanName(n) == if n == [] then [] else CleanChar(n[0]) + CleanName(n[1..])
  {
    if n != [] {
      assert n == [n[0]] + n[1..];
      CleanNameAppend([n[0]], n[1..]);
      CleanNameChar(n[0]);
    }
  }

  /** A name that is already clean is left alone, so cleaning is idempotent. */
  lemma CleanNameKeeps(n: string)
    requires Clean(n)
    ensures CleanName(n) == n
  {
    ReplaceAbsent(n, '{', "");
    ReplaceAbsent(n, '}', "");
    ReplaceAbsent(n, '~', Nbsp);
    ReplaceAbsent(n, ' ', Nbsp);
  }

  lemma CleanNameIdempotent(n: string)
    ensures CleanName(CleanName(n)) == CleanName(n)
  {
    CleanNameKeeps(CleanName(n));
  }

  /** The generator `__clean_names`: one cleaned name per name, in order. */
  function CleanNames(names: seq<string>): (r: seq<string>)
    ensures |r| == |names|
    ensures forall i :: 0 <= i < |r| ==> r[i] == CleanName(names[i]) && Clean(r[i])
    decreases |names|
  {
    if names == [] then [] else [CleanName(names[0])] + CleanNames(names[1..])
  }

  /** The pieces of `authors.replace('\n', ' ').split(" and ")`. */
  function Pieces(field: string): (r: seq<string>)
    ensures |r| >= 1 && Join(r, AndSep) == Replace(field, '\n', " ")
    ensures forall k :: 0 <= k < |r| - 1 ==> LeftmostCut(r[k], AndSep)
  {
    Split(Replace(field, '\n', " "), AndSep)
  }

  /**
    The pieces join back, with ` and `, to the flattened field; none of
    them holds a newline or ` and `.
   */
  lemma PiecesShape(field: string)
    ensures var ps := Pieces(field);
            |ps| >= 1 && Join(ps, AndSep) == Replace(field, '\n', " ")
            && forall k :: 0 <= k < |ps| ==> '\n' !in ps[k] && !Contains(ps[k], AndSep)
  {
    var flat := Replace(field, '\n', " ");
    var ps := Pieces(field);
    assert '\n' !in flat;
    forall k | 0 <= k < |ps|
      ensures '\n' !in ps[k]
    {
      if '\n' in ps[k] {
        JoinKeepsChars(ps, AndSep, k, '\n');
      }
    }
  }

  /** `getnames` applied to the stripped pieces. */
  function NamesOf(o: Oracles, ps: seq<string>): (r: seq<string>)
    ensures |r| == |ps|
    ensures forall i :: 0 <= i < |ps| ==> r[i] == o.getname(Strip(ps[i]))
  {
    seq(|ps|, i requires 0 <= i < |ps| => o.getname(Strip(ps[i])))
  }

  /** The author list of a non-empty `author` field, before it is wrapped. */
  function AuthorNames(o: Oracles, field: string): (r: seq<string>)
    ensures |r| == |Pieces(field)|
    ensures forall i :: 0 <= i < |r| ==> Clean(r[i])
  {
    CleanNames(NamesOf(o, Pieces(field)))
  }

  /**
    The `authors` value `parse_authors` stores: `''` when `author` is
    missing or empty, otherwise a non-empty list of cleaned names.
   */
  function AuthorsOf(o: Oracles, f: map<string, string>): (r: Value)
    ensures r.Str? <==> Get(f, "author") == ""
    ensures r.Str? ==> r.s == ""
    ensures r.List? ==> |r.items| >= 1 && forall i :: 0 <= i < |r.items| ==> Clean(r.items[i])
  {
    var field := Get(f, "author");
    if field == "" then Str("") else List(AuthorNames(o, field))
  }

  /**
    One author per ` and `-separated piece of the flattened field, in
    order: the `i`-th is the cleaned `getnames` image of the stripped
    `i`-th piece.
   */
  lemma AuthorsPerPiece(o: Oracles, f: map<string, string>)
    requires Get(f, "author") != ""
    ensures var ps := Pieces(Get(f, "author"));
            var r := AuthorsOf(o, f);
            r.List? && |r.items| == |ps|
            && forall i :: 0 <= i < |ps| ==> r.items[i] == CleanName(o.getname(Strip(ps[i])))
  {
    var ps := Pieces(Get(f, "author"));
    var ns := NamesOf(o, ps);
    var r := AuthorsOf(o, f);
    assert r.items == CleanNames(ns);
    forall i | 0 <= i < |ps|
      ensures r.items[i] == CleanName(o.getname(Strip(ps[i])))
    {
      assert ns[i] == o.getname(Strip(ps[i]));
    }
  }

  /**
    A field with no newline and no ` and ` is a single author.
   */
  lemma SingleAuthor(o: Oracles, f: map<string, string>)
    requires Get(f, "author") != ""
    requires '\n' !in Get(f, "author") && !Contains(Get(f, "author"), AndSep)
    ensures AuthorsOf(o, f) == List([CleanName(o.getname(Strip(Get(f, "author"))))])
  {
    var field := Get(f, "author");
    ReplaceAbsent(field, '\n', " ");
    match Find(field, AndSep)
    case Some(j) =>
      assert false;
    case None =>
      assert Pieces(field) == [field];
  }
}
