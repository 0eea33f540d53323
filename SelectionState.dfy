/** StateViewModel (StateViewModel.kt): the PDF chosen on the picker and
    split screens, and the list of PDFs chosen for merging. */
module SelectionState {
  import opened Common

  // ---------------------------------------------------------------- list operations

  /** Kotlin's `distinct()`: the elements in order, each kept at its first
      occurrence. Built as a LinkedHashSet is, scanning left to right. */
  function Distinct<T(==)>(s: seq<T>): (r: seq<T>)
    ensures NoDuplicates(r)
    ensures forall i :: 0 <= i < |s| ==> s[i] in r
    ensures forall i :: 0 <= i < |r| ==> r[i] in s
    ensures |r| <= |s|
  {
    if s == [] then []
    else
      var d := Distinct(s[..|s| - 1]);
      var x := s[|s| - 1];
      if x in d then d else d + [x]
  }

  /** `distinct()` keeps exactly the elements of the list. */
  lemma DistinctMembers<T>(s: seq<T>)
    ensures forall x :: x in Distinct(s) <==> x in s
  {
    var r := Distinct(s);
    forall x ensures x in r <==> x in s {
      if x in s {
        var i :| 0 <= i < |s| && s[i] == x;
      }
      if x in r {
        var i :| 0 <= i < |r| && r[i] == x;
      }
    }
  }

  /** Index of the first occurrence of `x` in `s`. */
  function FirstIndex<T(==)>(s: seq<T>, x: T): (k: nat)
    requires x in s
    ensures k < |s| && s[k] == x && x !in s[..k]
  {
    if s[0] == x then 0
    else
      assert x in s[1..] by { assert s == [s[0]] + s[1..]; }
      var k := 1 + FirstIndex(s[1..], x);
      assert s[..k] == [s[0]] + s[1..][..k - 1];
      k
  }

  lemma FirstIndexAppend<T>(p: seq<T>, q: seq<T>, x: T)
    requires x in p
    ensures FirstIndex(p + q, x) == FirstIndex(p, x)
  {
    var i, j := FirstIndex(p + q, x), FirstIndex(p, x);
    assert (p + q)[j] == x;
    assert (p + q)[..i] == p[..i] by { assert i <= j; }
  }

  lemma FirstIndexLast<T>(p: seq<T>, x: T)
    requires x !in p
    ensures FirstIndex(p + [x], x) == |p|
  {
    assert (p + [x])[..|p|] == p;
  }

  /** `distinct()` lists the elements in the order of their first occurrences. */
  lemma {:induction false} DistinctFirstOccurrenceOrder<T>(s: seq<T>)
    ensures forall i, j :: 0 <= i < j < |Distinct(s)| ==>
      FirstIndex(s, Distinct(s)[i]) < FirstIndex(s, Distinct(s)[j])
  {
    if s != [] {
      var p, x := s[..|s| - 1], s[|s| - 1];
      assert s == p + [x];
      DistinctFirstOccurrenceOrder(p);
      var d, r := Distinct(p), Distinct(s);
      forall i, j | 0 <= i < j < |r| ensures FirstIndex(s, r[i]) < FirstIndex(s, r[j]) {
        FirstIndexAppend(p, [x], r[i]);
        if j < |d| {
          FirstIndexAppend(p, [x], r[j]);
        } else {
          FirstIndexLast(p, x);
        }
      }
    }
  }

  /** A list without duplicates is its own `distinct()`. */
  lemma {:induction false} DistinctOfDistinct<T>(s: seq<T>)
    requires NoDuplicates(s)
    ensures Distinct(s) == s
  {
    if s != [] {
      var p := s[..|s| - 1];
      DistinctOfDistinct(p);
      assert s[|s| - 1] !in p;
      assert s == p + [s[|s| - 1]];
    }
  }

  /** Appending elements that are all present already changes nothing. */
  lemma {:induction false} DistinctAbsorbs<T>(x: seq<T>, b: seq<T>)
    requires NoDuplicates(x)
    requires forall y :: y in b ==> y in x
    ensures Distinct(x + b) == x
  {
    if b == [] {
      assert x + b == x;
      DistinctOfDistinct(x);
    } else {
      var b' := b[..|b| - 1];
      assert (x + b)[..|x + b| - 1] == x + b';
      DistinctAbsorbs(x, b');
    }
  }

  /** When the old list has no duplicates, `distinct()` of old plus new keeps
      the old list, in its order, in front. */
  lemma {:induction false} DistinctKeepsPrefix<T>(a: seq<T>, b: seq<T>)
    requires NoDuplicates(a)
    ensures |a| <= |Distinct(a + b)| && Distinct(a + b)[..|a|] == a
  {
    if b == [] {
      assert a + b == a;
      DistinctOfDistinct(a);
    } else {
      var b' := b[..|b| - 1];
      assert (a + b)[..|a + b| - 1] == a + b';
      DistinctKeepsPrefix(a, b');
    }
  }

  /** `toMutableList().apply { remove(x) }`: the entry at the first
      occurrence of `x` is taken out; a list without `x` comes back unchanged. */
  function RemoveFirst<T(==)>(s: seq<T>, x: T): (r: seq<T>)
    ensures x !in s ==> r == s
    ensures x in s ==> |r| == |s| - 1
  {
    if x in s then s[..FirstIndex(s, x)] + s[FirstIndex(s, x) + 1..] else s
  }

  /** Exactly one copy of `x` goes, if there is one; nothing else changes count. */
  lemma RemoveFirstMultiset<T>(s: seq<T>, x: T)
    ensures multiset(RemoveFirst(s, x)) == multiset(s) - multiset{x}
  {
    if x in s {
      var k := FirstIndex(s, x);
      assert s == s[..k] + [x] + s[k + 1..];
    }
  }

  /** The copy that goes is the first one; the entries before and after it
      keep their order. */
  lemma RemoveFirstSplit<T>(a: seq<T>, x: T, b: seq<T>)
    requires x !in a
    ensures RemoveFirst(a + [x] + b, x) == a + b
  {
    var s := a + [x] + b;
    assert s[|a|] == x;
    assert s[..|a|] == a;
    var k := FirstIndex(s, x);
    assert s[..k] == a && s[k + 1..] == b;
  }

  /** Without duplicates, the removed element is gone and every other one stays. */
  lemma RemoveFirstNoDuplicates<T>(s: seq<T>, x: T)
    requires NoDuplicates(s)
    ensures x !in RemoveFirst(s, x)
    ensures NoDuplicates(RemoveFirst(s, x))
    ensures forall y :: y != x ==> (y in RemoveFirst(s, x) <==> y in s)
  {
    var r := RemoveFirst(s, x);
    if x in s {
      var k := FirstIndex(s, x);
      forall i | 0 <= i < |r| ensures r[i] == s[if i < k then i else i + 1] {
      }
      forall i, j | 0 <= i < j < |r| ensures r[i] != r[j] {
        var i', j' := if i < k then i else i + 1, if j < k then j else j + 1;
        assert r[i] == s[i'] && r[j] == s[j'];
      }
      forall y | y != x ensures y in r <==> y in s {
        if y in s {
          var j :| 0 <= j < |s| && s[j] == y;
          assert r[if j < k then j else j - 1] == y;
        }
        if y in r {
          var i :| 0 <= i < |r| && r[i] == y;
        }
      }
      forall i | 0 <= i < |r| ensures r[i] != x {
        var i' := if i < k then i else i + 1;
        assert r[i] == s[i'];
      }
    }
  }

  // ---------------------------------------------------------------- the view model

  class StateViewModel {
    /** The PDF chosen on the picker or split screen, and its display name. */
    var selectedPdfUri: Option<Uri>
    var selectedPdfFileName: Option<string>
    /** The PDFs chosen for merging, in the order chosen. */
    var selectedPdfUris: seq<Uri>

    /** URI and name are set and cleared together; the merge list holds no URI twice. */
    ghost predicate Valid()
      reads this
    {
      (selectedPdfUri.None? <==> selectedPdfFileName.None?) && NoDuplicates(selectedPdfUris)
    }

    constructor()
      ensures Valid()
      ensures selectedPdfUri.None? && selectedPdfFileName.None? && selectedPdfUris == []
    {
      selectedPdfUri := None;
      selectedPdfFileName := None;
      selectedPdfUris := [];
    }

    /** removePdfUri: the first occurrence of `uri` leaves the merge list. */
    method RemovePdfUri(uri: Uri)
      requires Valid()
      modifies this
      ensures Valid()
      ensures selectedPdfUris == RemoveFirst(old(selectedPdfUris), uri)
      ensures uri !in selectedPdfUris
      ensures selectedPdfUri == old(selectedPdfUri) && selectedPdfFileName == old(selectedPdfFileName)
    {
      RemoveFirstNoDuplicates(selectedPdfUris, uri);
      selectedPdfUris := RemoveFirst(selectedPdfUris, uri);
    }

    /** addPdfUris: `(old + newUris).distinct()`. The old entries stay in
        front in their order, and the list holds exactly the old and new URIs. */
    method AddPdfUris(newUris: seq<Uri>)
      requires Valid()
      modifies this
      ensures Valid()
      ensures selectedPdfUris == Distinct(old(selectedPdfUris) + newUris)
      ensures |old(selectedPdfUris)| <= |selectedPdfUris|
      ensures selectedPdfUris[..|old(selectedPdfUris)|] == old(selectedPdfUris)
      ensures forall u :: u in selectedPdfUris <==> u in old(selectedPdfUris) || u in newUris
      ensures selectedPdfUri == old(selectedPdfUri) && selectedPdfFileName == old(selectedPdfFileName)
    {
      DistinctKeepsPrefix(selectedPdfUris, newUris);
      DistinctMembers(selectedPdfUris + newUris);
      selectedPdfUris := Distinct(selectedPdfUris + newUris);
    }

    /** clearSelectedPdfUris: the merge list is emptied. */
    method ClearSelectedPdfUris()
      requires Valid()
      modifies this
      ensures Valid()
      ensures selectedPdfUris == []
      ensures selectedPdfUri == old(selectedPdfUri) && selectedPdfFileName == old(selectedPdfFileName)
    {
      selectedPdfUris := [];
    }

    /** setSelectedPdf: URI and name are set together. */
    method SetSelectedPdf(uri: Uri, name: string)
      requires Valid()
      modifies this
      ensures Valid()
      ensures selectedPdfUri == Some(uri) && selectedPdfFileName == Some(name)
      ensures selectedPdfUris == old(selectedPdfUris)
    {
      selectedPdfUri := Some(uri);
      selectedPdfFileName := Some(name);
    }

    /** clearSelectedPdf: URI and name are cleared together. */
    method ClearSelectedPdf()
      requires Valid()
      modifies this
      ensures Valid()
      ensures selectedPdfUri.None? && selectedPdfFileName.None?
      ensures selectedPdfUris == old(selectedPdfUris)
    {
      selectedPdfUri := None;
      selectedPdfFileName := None;
    }
  }

  /** Adding the same URIs a second time leaves the merge list as the first
      addition left it. */
  lemma AddPdfUrisIdempotent(current: seq<Uri>, newUris: seq<Uri>)
    ensures Distinct(Distinct(current + newUris) + newUris) == Distinct(current + newUris)
  {
    DistinctMembers(current + newUris);
    DistinctAbsorbs(Distinct(current + newUris), newUris);
  }
}
