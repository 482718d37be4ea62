/** The class template Paginator (paginator.h): it cuts a range of items into
    consecutive pages of `pageSize` items, the last page holding what is left.
    A page is an iterator range of the source; here it is the pair of indices
    [begin, end) into the sequence of items. */
module Pagination {
  import opened Arithmetic

  /** IteratorRange of the source, as indices into the paginated items. */
  datatype IteratorRange = IteratorRange(begin: nat, end: nat)

  /** The pages the constructor's loop builds for `left` items starting at
      `begin`: each takes min(pageSize, items left). */
  function PagesFrom(begin: nat, left: nat, pageSize: nat): (pages: seq<IteratorRange>)
    requires pageSize > 0 || left == 0
    decreases left
  {
    if left == 0 then []
    else
      var onPage := Min(pageSize, left);
      [IteratorRange(begin, begin + onPage)] + PagesFrom(begin + onPage, left - onPage, pageSize)
  }

  /** The items of one page. */
  function PageItems<T>(items: seq<T>, page: IteratorRange): (onPage: seq<T>)
    requires page.begin <= page.end <= |items|
  {
    items[page.begin..page.end]
  }

  /** The pages' items, one page after another. */
  function Flatten<T>(items: seq<T>, pages: seq<IteratorRange>): (flat: seq<T>)
    requires forall i :: 0 <= i < |pages| ==> pages[i].begin <= pages[i].end <= |items|
  {
    if pages == [] then []
    else PageItems(items, pages[0]) + Flatten(items, pages[1..])
  }

  /** The pages follow each other from `begin` to `end` without gap or
      overlap. */
  predicate Tiles(pages: seq<IteratorRange>, begin: nat, end: nat)
    decreases |pages|
  {
    if pages == [] then begin == end
    else pages[0].begin == begin <= pages[0].end && Tiles(pages[1..], pages[0].end, end)
  }

  lemma {:induction false} TilesBounds(pages: seq<IteratorRange>, begin: nat, end: nat)
    requires Tiles(pages, begin, end)
    ensures forall i :: 0 <= i < |pages| ==> begin <= pages[i].begin <= pages[i].end <= end
    decreases |pages|
  {
    if pages != [] {
      TilesBounds(pages[1..], pages[0].end, end);
      assert forall i :: 1 <= i < |pages| ==> pages[i] == pages[1..][i - 1];
    }
  }

  /** Tiling pages, read one after another, give back the items they cover. */
  lemma {:induction false} TilesFlatten<T>(items: seq<T>, pages: seq<IteratorRange>, begin: nat, end: nat)
    requires Tiles(pages, begin, end) && begin <= end <= |items|
    ensures forall i :: 0 <= i < |pages| ==> pages[i].begin <= pages[i].end <= |items|
    ensures Flatten(items, pages) == items[begin..end]
    decreases |pages|
  {
    TilesBounds(pages, begin, end);
    if pages != [] {
      TilesFlatten(items, pages[1..], pages[0].end, end);
      assert items[begin..end] == items[begin..pages[0].end] + items[pages[0].end..end];
    }
  }

  /** The constructor's pages tile the items from `begin` to `begin + left`. */
  lemma {:induction false} PagesFromTile(begin: nat, left: nat, pageSize: nat)
    requires pageSize > 0 || left == 0
    ensures Tiles(PagesFrom(begin, left, pageSize), begin, begin + left)
    decreases left
  {
    if left > 0 {
      var onPage := Min(pageSize, left);
      PagesFromTile(begin + onPage, left - onPage, pageSize);
      assert PagesFrom(begin, left, pageSize)[1..] == PagesFrom(begin + onPage, left - onPage, pageSize);
    }
  }

  /** Every page holds between 1 and pageSize items, and every page but the
      last exactly pageSize. */
  lemma {:induction false} PagesFromSizes(begin: nat, left: nat, pageSize: nat)
    requires pageSize > 0 || left == 0
    ensures forall i :: 0 <= i < |PagesFrom(begin, left, pageSize)| ==>
      1 <= PagesFrom(begin, left, pageSize)[i].end - PagesFrom(begin, left, pageSize)[i].begin <= pageSize
    ensures forall i :: 0 <= i < |PagesFrom(begin, left, pageSize)| - 1 ==>
      PagesFrom(begin, left, pageSize)[i].end - PagesFrom(begin, left, pageSize)[i].begin == pageSize
    decreases left
  {
    if left > 0 {
      var onPage := Min(pageSize, left);
      var rest := PagesFrom(begin + onPage, left - onPage, pageSize);
      PagesFromSizes(begin + onPage, left - onPage, pageSize);
      var pages := PagesFrom(begin, left, pageSize);
      assert forall i :: 1 <= i < |pages| ==> pages[i] == rest[i - 1];
      if rest != [] {
        assert onPage == pageSize;
      }
    }
  }

  /** The number of pages is the number of items divided by the page size,
      rounded up. */
  lemma {:induction false} PagesFromCount(begin: nat, left: nat, pageSize: nat)
    requires pageSize > 0
    ensures |PagesFrom(begin, left, pageSize)| == (left + pageSize - 1) / pageSize
    decreases left
  {
    if left >= pageSize {
      var rest := PagesFrom(begin + pageSize, left - pageSize, pageSize);
      assert |PagesFrom(begin, left, pageSize)| == 1 + |rest|;
      assert |rest| == (left - 1) / pageSize by {
        PagesFromCount(begin + pageSize, left - pageSize, pageSize);
        assert left - pageSize + pageSize - 1 == left - 1;
      }
      assert (left + pageSize - 1) / pageSize == (left - 1) / pageSize + 1 by {
        DivStep(left - 1, pageSize);
      }
    } else if left > 0 {
      assert |PagesFrom(begin, left, pageSize)| == 1;
      assert (left + pageSize - 1) / pageSize == 1 by {
        DivOne(left + pageSize - 1, pageSize);
      }
    }
  }

  class Paginator<T> {
    const items: seq<T>
    const pageSize: nat
    var pages: seq<IteratorRange>

    ghost predicate Valid()
      reads this
    {
      (pageSize > 0 || |items| == 0) && pages == PagesFrom(0, |items|, pageSize)
    }

    /** The constructor's loop: take min(pageSize, items left) items per page
        until none are left. A page size of 0 with items left never ends in the
        source, so it is excluded. */
    constructor(items: seq<T>, pageSize: nat)
      requires pageSize > 0 || |items| == 0
      ensures Valid()
      ensures this.items == items && this.pageSize == pageSize
    {
      var begin: nat := 0;
      var docsLeft: nat := |items|;
      var built: seq<IteratorRange> := [];
      while docsLeft > 0
        invariant begin + docsLeft == |items|
        invariant built + PagesFrom(begin, docsLeft, pageSize) == PagesFrom(0, |items|, pageSize)
        decreases docsLeft
      {
        var docsPerCurrentPage := Min(pageSize, docsLeft);
        assert PagesFrom(begin, docsLeft, pageSize)
            == [IteratorRange(begin, begin + docsPerCurrentPage)]
             + PagesFrom(begin + docsPerCurrentPage, docsLeft - docsPerCurrentPage, pageSize);
        built := built + [IteratorRange(begin, begin + docsPerCurrentPage)];
        begin := begin + docsPerCurrentPage;
        docsLeft := docsLeft - docsPerCurrentPage;
      }
      this.items := items;
      this.pageSize := pageSize;
      this.pages := built;
    }

    function Size(): (n: nat)
      reads this
      requires Valid()
      ensures pageSize > 0 ==> n == (|items| + pageSize - 1) / pageSize
      ensures n == 0 <==> |items| == 0
    {
      if pageSize > 0 then
        PagesFromCount(0, |items|, pageSize);
        |pages|
      else
        |pages|
    }

    function Empty(): (e: bool)
      reads this
      requires Valid()
      ensures e <==> |items| == 0
    {
      pages == []
    }
  }

  /** Paginate(c, k): a Paginator over the whole of c. Its pages together are
      exactly c, each holds 1 to k items, all but the last exactly k. */
  method Paginate<T>(c: seq<T>, pageSize: nat) returns (p: Paginator<T>)
    requires pageSize > 0 || |c| == 0
    ensures p.Valid() && p.items == c && p.pageSize == pageSize
    ensures forall i :: 0 <= i < |p.pages| ==> 1 <= p.pages[i].end - p.pages[i].begin <= pageSize
    ensures forall i :: 0 <= i < |p.pages| - 1 ==> p.pages[i].end - p.pages[i].begin == pageSize
    ensures forall i :: 0 <= i < |p.pages| ==> p.pages[i].begin <= p.pages[i].end <= |c|
    ensures Flatten(c, p.pages) == c
  {
    p := new Paginator(c, pageSize);
    PagesFromSizes(0, |c|, pageSize);
    PagesFromTile(0, |c|, pageSize);
    TilesFlatten(c, p.pages, 0, |c|);
    assert c[0..|c|] == c;
  }
}
