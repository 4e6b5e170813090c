/**
  Listing the bucket: the object store answers in pages, and the service
  hides the pagination by concatenating the keys of every page in order.
 */
module Listing {

  /** The keys of all pages, page after page, each page in its own order. */
  function ListObjects(pages: seq<seq<string>>): (keys: seq<string>)
    ensures |keys| == TotalKeys(pages)
  {
    if pages == [] then [] else pages[0] + ListObjects(pages[1..])
  }

  /** Listing a run of pages followed by another is listing each in turn. */
  lemma {:induction false} ListObjectsAppend(first: seq<seq<string>>, rest: seq<seq<string>>)
    ensures ListObjects(first + rest) == ListObjects(first) + ListObjects(rest)
  {
    if first == [] {
      assert first + rest == rest;
    } else {
      assert (first + rest)[1..] == first[1..] + rest;
      ListObjectsAppend(first[1..], rest);
    }
  }

  /** The number of keys on all the pages together. */
  function TotalKeys(pages: seq<seq<string>>): nat
  {
    if pages == [] then 0 else |pages[0]| + TotalKeys(pages[1..])
  }

  /**
    Key `j` of page `i` sits in the listing right after the keys of the pages
    before it: nothing is lost, duplicated or reordered.
   */
  lemma {:induction false} ListObjectsPosition(pages: seq<seq<string>>, i: nat, j: nat)
    requires i < |pages| && j < |pages[i]|
    ensures TotalKeys(pages[..i]) + j < |ListObjects(pages)|
    ensures ListObjects(pages)[TotalKeys(pages[..i]) + j] == pages[i][j]
  {
    if i == 0 {
      assert pages[..0] == [];
    } else {
      assert pages[1..][..i - 1] == pages[..i][1..];
      ListObjectsPosition(pages[1..], i - 1, j);
    }
  }

  /** A key is listed exactly when some page holds it. */
  lemma {:induction false} ListObjectsMembership(pages: seq<seq<string>>, key: string)
    ensures key in ListObjects(pages) <==> exists i :: 0 <= i < |pages| && key in pages[i]
  {
    if pages != [] {
      ListObjectsMembership(pages[1..], key);
      assert forall i :: 1 <= i < |pages| ==> pages[i] == pages[1..][i - 1];
      if key in ListObjects(pages[1..]) {
        var i :| 0 <= i < |pages[1..]| && key in pages[1..][i];
        assert key in pages[i + 1];
      }
    }
  }
}
