/** The listing rule of `renderGallery` (app.js:194-208): keep the image files
    of one directory listing and sort them by name. */
module Gallery {
  import opened Entries

  /** `before(a, b)` stands for `a.localeCompare(b) <= 0`. The collation itself
      is left abstract; a sort comparator must be total and transitive. */
  ghost predicate TotalPreorder(before: (string, string) -> bool) {
    && (forall a, b :: before(a, b) || before(b, a))
    && (forall a, b, c :: before(a, b) && before(b, c) ==> before(a, c))
  }

  ghost predicate SortedByName(s: seq<Entry>, before: (string, string) -> bool) {
    forall i, j :: 0 <= i < j < |s| ==> before(s[i].name, s[j].name)
  }

  /** Every entry of `s` may follow a name `n`. */
  ghost predicate AllAfter(n: string, s: seq<Entry>, before: (string, string) -> bool) {
    forall j :: 0 <= j < |s| ==> before(n, s[j].name)
  }

  lemma SortedCons(x: Entry, s: seq<Entry>, before: (string, string) -> bool)
    requires SortedByName(s, before) && AllAfter(x.name, s, before)
    ensures SortedByName([x] + s, before)
  {
    forall i, j | 0 <= i < j < |[x] + s| ensures before(([x] + s)[i].name, ([x] + s)[j].name) {
      if i > 0 {
        assert ([x] + s)[i] == s[i - 1];
      }
      assert ([x] + s)[j] == s[j - 1];
    }
  }

  /** A bound on the elements of a sequence carries over to a sequence with the same multiset. */
  lemma AllAfterMultiset(n: string, s: seq<Entry>, t: seq<Entry>, before: (string, string) -> bool)
    requires AllAfter(n, s, before) && multiset(t) == multiset(s)
    ensures AllAfter(n, t, before)
  {
    forall j | 0 <= j < |t| ensures before(n, t[j].name) {
      assert t[j] in multiset(s);
      var k :| 0 <= k < |s| && s[k] == t[j];
    }
  }

  /** Inserts `e` in front of the first entry it may precede. */
  function Insert(e: Entry, s: seq<Entry>, before: (string, string) -> bool): (r: seq<Entry>)
    requires TotalPreorder(before)
    requires SortedByName(s, before)
    ensures multiset(r) == multiset(s) + multiset{e}
    ensures SortedByName(r, before)
  {
    if s == [] then [e]
    else if before(e.name, s[0].name) then
      assert AllAfter(e.name, s, before) by {
        forall j | 0 <= j < |s| ensures before(e.name, s[j].name) {
          if j > 0 {
            assert before(s[0].name, s[j].name);
          }
        }
      }
      SortedCons(e, s, before);
      [e] + s
    else
      var rest := Insert(e, s[1..], before);
      assert s == [s[0]] + s[1..];
      assert AllAfter(s[0].name, s[1..] + [e], before) by {
        assert before(s[0].name, e.name);
        forall j | 0 <= j < |s[1..] + [e]| ensures before(s[0].name, (s[1..] + [e])[j].name) {
          if j < |s| - 1 {
            assert (s[1..] + [e])[j] == s[j + 1];
          }
        }
      }
      AllAfterMultiset(s[0].name, s[1..] + [e], rest, before);
      SortedCons(s[0], rest, before);
      [s[0]] + rest
  }

  /** Insertion sort by name: the model of `imageFiles.sort(...)` at app.js:208. */
  function SortByName(s: seq<Entry>, before: (string, string) -> bool): (r: seq<Entry>)
    requires TotalPreorder(before)
    ensures multiset(r) == multiset(s)
    ensures SortedByName(r, before)
  {
    if s == [] then []
    else
      assert s == [s[0]] + s[1..];
      Insert(s[0], SortByName(s[1..], before), before)
  }

  /** Code-point order: names compared character by character by Unicode scalar value. */
  predicate CodePointBefore(a: string, b: string) {
    if a == [] then true
    else if b == [] then false
    else if a[0] != b[0] then a[0] < b[0]
    else CodePointBefore(a[1..], b[1..])
  }

  lemma {:induction false} CodePointTotal(a: string, b: string)
    ensures CodePointBefore(a, b) || CodePointBefore(b, a)
  {
    if a != [] && b != [] && a[0] == b[0] {
      CodePointTotal(a[1..], b[1..]);
    }
  }

  lemma {:induction false} CodePointTransitive(a: string, b: string, c: string)
    requires CodePointBefore(a, b) && CodePointBefore(b, c)
    ensures CodePointBefore(a, c)
  {
    if a != [] && b != [] && c != [] && a[0] == b[0] && b[0] == c[0] {
      CodePointTransitive(a[1..], b[1..], c[1..]);
    }
  }

  /** The ordinal comparison is one comparator the gallery may be sorted with. */
  lemma CodePointOrderIsTotalPreorder()
    ensures TotalPreorder(CodePointBefore)
  {
    forall a, b ensures CodePointBefore(a, b) || CodePointBefore(b, a) {
      CodePointTotal(a, b);
    }
    forall a, b, c | CodePointBefore(a, b) && CodePointBefore(b, c) ensures CodePointBefore(a, c) {
      CodePointTransitive(a, b, c);
    }
  }

  /** `renderGallery`: collect the image files of the listing in iteration
      order, then sort them by name. A listing that fails yields no gallery. */
  method ListImages(scan: ScanResult, before: (string, string) -> bool) returns (gallery: Option<seq<Entry>>)
    requires TotalPreorder(before)
    ensures gallery.None? <==> scan.ScanFailed?
    ensures gallery.Some? ==> SortedByName(gallery.value, before)
    ensures gallery.Some? ==> multiset(gallery.value) == multiset(Kept(scan.entries, IsImageName))
    ensures gallery.Some? ==> forall e :: e in gallery.value <==>
      e in scan.entries && e.kind == File && IsImageName(e.name)
  {
    if scan.ScanFailed? {
      return None;
    }
    var entries := scan.entries;
    var imageFiles: seq<Entry> := [];
    var i := 0;
    while i < |entries|
      invariant 0 <= i <= |entries|
      invariant imageFiles == Kept(entries[..i], IsImageName)
    {
      var entry := entries[i];
      KeptSnoc(entries[..i], entry, IsImageName);
      assert entries[..i + 1] == entries[..i] + [entry];
      if entry.kind == File && IsImageName(entry.name) {
        imageFiles := imageFiles + [entry];
      }
      i := i + 1;
    }
    assert entries[..i] == entries;
    var sorted := SortByName(imageFiles, before);
    forall e ensures e in sorted <==> e in entries && e.kind == File && IsImageName(e.name) {
      assert e in sorted <==> e in multiset(sorted);
      KeptMembers(entries, IsImageName, e);
    }
    gallery := Some(sorted);
  }
}
