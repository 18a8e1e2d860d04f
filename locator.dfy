/**
 * `_iter_pdf_paths`: the entries of one directory whose names match the
 * glob `*.pdf`, sorted. Only direct entries are considered (no recursion).
 */
module Locator {
  import opened Paths

  const PdfSuffix: string := ".pdf"

  /** The glob `*.pdf`: any name (hidden ones included) ending in `.pdf`, case-sensitively. */
  predicate MatchesPdfGlob(name: string) {
    |PdfSuffix| <= |name| && name[|name| - |PdfSuffix|..] == PdfSuffix
  }

  /** Python's `a <= b` on strings: lexicographic by code point, a prefix first. */
  predicate Below(a: string, b: string) {
    a == [] || (b != [] && (a[0] < b[0] || (a[0] == b[0] && Below(a[1..], b[1..]))))
  }

  lemma {:induction false} BelowTotal(a: string, b: string)
    ensures Below(a, b) || Below(b, a)
  {
    if a != [] && b != [] && a[0] == b[0] {
      BelowTotal(a[1..], b[1..]);
    }
  }

  lemma {:induction false} BelowReflexive(a: string)
    ensures Below(a, a)
  {
    if a != [] {
      BelowReflexive(a[1..]);
    }
  }

  lemma {:induction false} BelowAntisymmetric(a: string, b: string)
    requires Below(a, b) && Below(b, a)
    ensures a == b
  {
    if a != [] && b != [] {
      BelowAntisymmetric(a[1..], b[1..]);
      assert a == [a[0]] + a[1..] && b == [b[0]] + b[1..];
    }
  }

  lemma {:induction false} BelowTransitive(a: string, b: string, c: string)
    requires Below(a, b) && Below(b, c)
    ensures Below(a, c)
  {
    if a != [] && b != [] && c != [] && a[0] == b[0] == c[0] {
      BelowTransitive(a[1..], b[1..], c[1..]);
    }
  }

  /** Every name comes no later than every name after it. */
  predicate Sorted(s: seq<string>) {
    forall i, j :: 0 <= i < j < |s| ==> Below(s[i], s[j])
  }

  /** `x` put into sorted `s` before the first name it is below. */
  function Insert(x: string, s: seq<string>): (r: seq<string>)
    requires Sorted(s)
    ensures Sorted(r)
    ensures multiset(r) == multiset(s) + multiset{x}
  {
    if s == [] then [x]
    else if Below(x, s[0]) then
      InsertFirst(x, s);
      [x] + s
    else
      var rest := Insert(x, s[1..]);
      InsertAfterHead(x, s, rest);
      [s[0]] + rest
  }

  /** Putting `x` before a sorted `s` whose head it is below keeps it sorted. */
  lemma InsertFirst(x: string, s: seq<string>)
    requires Sorted(s) && s != [] && Below(x, s[0])
    ensures Sorted([x] + s)
  {
    forall j | 0 < j < |s| ensures Below(x, s[j]) {
      BelowTransitive(x, s[0], s[j]);
    }
  }

  /** Keeping the head of `s` before the insertion of `x` into the rest keeps it sorted. */
  lemma InsertAfterHead(x: string, s: seq<string>, rest: seq<string>)
    requires Sorted(s) && s != [] && !Below(x, s[0])
    requires Sorted(rest) && multiset(rest) == multiset(s[1..]) + multiset{x}
    ensures Sorted([s[0]] + rest)
    ensures multiset([s[0]] + rest) == multiset(s) + multiset{x}
  {
    BelowTotal(x, s[0]);
    assert s == [s[0]] + s[1..];
    forall j | 0 <= j < |rest| ensures Below(s[0], rest[j]) {
      assert rest[j] in multiset(rest);
      assert rest[j] in multiset(s[1..]) || rest[j] == x;
    }
  }

  /** The names of `s` in sorted order (Python's `sorted`). */
  function Sort(s: seq<string>): (r: seq<string>)
    ensures Sorted(r)
    ensures multiset(r) == multiset(s)
  {
    if s == [] then []
    else
      assert s == [s[0]] + s[1..];
      Insert(s[0], Sort(s[1..]))
  }

  /** The first name of a sorted list is below every name in it. */
  lemma HeadBelowAll(s: seq<string>, y: string)
    requires Sorted(s) && y in s
    ensures Below(s[0], y)
  {
    var i :| 0 <= i < |s| && s[i] == y;
    if i == 0 { BelowReflexive(y); }
  }

  /** Two sorted lists of the same names are the same list. */
  lemma {:induction false} SortedUnique(a: seq<string>, b: seq<string>)
    requires Sorted(a) && Sorted(b) && multiset(a) == multiset(b)
    ensures a == b
  {
    if a == [] {
      assert |multiset(b)| == 0;
    } else {
      assert a[0] in multiset(b) && b[0] in multiset(a);
      HeadBelowAll(b, a[0]);
      HeadBelowAll(a, b[0]);
      BelowAntisymmetric(a[0], b[0]);
      assert a == [a[0]] + a[1..] && b == [b[0]] + b[1..];
      assert multiset(a[1..]) == multiset(b[1..]) by {
        assert multiset(a) == multiset{a[0]} + multiset(a[1..]);
        assert multiset(b) == multiset{b[0]} + multiset(b[1..]);
        assert multiset(a[1..]) == multiset(a) - multiset{a[0]};
        assert multiset(b[1..]) == multiset(b) - multiset{b[0]};
      }
      SortedUnique(a[1..], b[1..]);
    }
  }

  /** The names of `listing` that match `*.pdf`, in listing order. */
  function PdfEntries(listing: seq<string>): (r: seq<string>)
    ensures forall x :: x in r <==> x in listing && MatchesPdfGlob(x)
    ensures forall x :: MatchesPdfGlob(x) ==> multiset(r)[x] == multiset(listing)[x]
    ensures forall x :: !MatchesPdfGlob(x) ==> multiset(r)[x] == 0
  {
    if listing == [] then []
    else
      assert listing == [listing[0]] + listing[1..];
      (if MatchesPdfGlob(listing[0]) then [listing[0]] else []) + PdfEntries(listing[1..])
  }

  /**
   * The names `_iter_pdf_paths` yields for a directory whose entries are
   * `listing` (in whatever order the directory lists them).
   */
  function PdfNames(listing: seq<string>): (r: seq<string>)
    ensures Sorted(r)
    ensures forall x :: x in r <==> x in listing && MatchesPdfGlob(x)
    ensures multiset(r) == multiset(PdfEntries(listing))
  {
    Sort(PdfEntries(listing))
  }

  /**
   * The order in which the directory lists its entries does not matter:
   * listings holding the same names give the same sequence of PDFs.
   */
  lemma ListingOrderIrrelevant(l1: seq<string>, l2: seq<string>)
    requires multiset(l1) == multiset(l2)
    ensures PdfNames(l1) == PdfNames(l2)
  {
    var p1, p2 := PdfEntries(l1), PdfEntries(l2);
    assert multiset(p1) == multiset(p2) by {
      forall x ensures multiset(p1)[x] == multiset(p2)[x] {
        if MatchesPdfGlob(x) {
          assert multiset(p1)[x] == multiset(l1)[x];
        }
      }
    }
    SortedUnique(PdfNames(l1), PdfNames(l2));
  }

  /** `_iter_pdf_paths(pdfs_dir)`: the matching entries as paths inside `pdfsDir`, sorted by name. */
  function IterPdfPaths(pdfsDir: Path, listing: seq<string>): (r: seq<Path>)
    ensures |r| == |PdfNames(listing)|
    ensures forall k :: 0 <= k < |r| ==> r[k].Name() == PdfNames(listing)[k]
    ensures forall k :: 0 <= k < |r| ==> r[k].Parent() == pdfsDir && MatchesPdfGlob(r[k].Name())
    ensures forall i, j :: 0 <= i < j < |r| ==> Below(r[i].Name(), r[j].Name())
  {
    var names := PdfNames(listing);
    seq(|names|, k requires 0 <= k < |names| => pdfsDir.Join(names[k]))
  }
}
