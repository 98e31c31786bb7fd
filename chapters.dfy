/** The table of contents' sort buttons (`sortChapters`): the chapter entries of
    `#chaptersList` are sorted by the number in their `.chapter-number` text,
    ascending for the order `'asc'` and descending for anything else, and put
    back into the list in that order. */
module Chapters {

  import opened Sorting

  /** One entry of the list; `number` is the integer shown in its
      `.chapter-number` element. */
  datatype ChapterItem = ChapterItem(number: int, title: string)

  function Ascending(c: ChapterItem): int {
    c.number
  }

  function Descending(c: ChapterItem): int {
    -c.number
  }

  /** The comparator `order === 'asc' ? numA - numB : numB - numA`, as a sort key. */
  function OrderKey(order: string): ChapterItem -> int {
    if order == "asc" then Ascending else Descending
  }

  /** `items.sort(...)`: a permutation of the items, ordered by chapter number in
      the requested direction. */
  function SortedChapters(items: seq<ChapterItem>, order: string): (r: seq<ChapterItem>)
    ensures multiset(r) == multiset(items)
    ensures order == "asc" ==> forall i, j :: 0 <= i < j < |r| ==> r[i].number <= r[j].number
    ensures order != "asc" ==> forall i, j :: 0 <= i < j < |r| ==> r[i].number >= r[j].number
  {
    var r := SortBy(items, OrderKey(order));
    assert SortedBy(r, OrderKey(order));
    r
  }

  /** Entries with the same chapter number keep the order they had in the list. */
  /** (Under either order the key determines the chapter number, so `k` stands
      for one number.) */
  lemma SortedChaptersStable(items: seq<ChapterItem>, order: string, k: int)
    ensures WithKey(SortedChapters(items, order), OrderKey(order), k)
         == WithKey(items, OrderKey(order), k)
  {
    SortByIsStable(items, OrderKey(order), k);
  }

  /** The `#chaptersList` element, as the sequence of its children. */
  class ChapterList {

    var children: seq<ChapterItem>

    constructor (children: seq<ChapterItem>)
      ensures this.children == children
    {
      this.children := children;
    }

    /** Sort the copied children, empty the list, and append them back one by one. */
    method Sort(order: string)
      modifies this
      ensures children == SortedChapters(old(children), order)
    {
      var items := SortedChapters(children, order);
      children := [];
      for i := 0 to |items|
        invariant children == items[..i]
      {
        children := children + [items[i]];
      }
    }
  }

  /** `sortChapters(order)`: nothing happens on a page without the list. */
  method SortChapters(list: ChapterList?, order: string)
    modifies list
    ensures list != null ==> list.children == SortedChapters(old(list.children), order)
  {
    if list == null {
      return;
    }
    list.Sort(order);
  }
}
