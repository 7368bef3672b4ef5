/** `paginate`: a listing cut into pages of `LimitPostsOnThePage` rows,
    as Django's `Paginator` does with no orphans and an empty first page
    allowed. Only page numbers inside the listing are modelled. */
module Pagination {

  /** `LIMIT_POSTS_ON_THE_PAGE`. */
  const LimitPostsOnThePage: nat := 10

  /** Number of pages of a listing of `count` rows: one at least (an empty
      listing shows one empty page), and just enough to hold every row. */
  function NumPages(count: nat): (n: nat)
    ensures 1 <= n
    ensures count <= n * LimitPostsOnThePage
    ensures n == 1 || (n - 1) * LimitPostsOnThePage < count
  {
    if count == 0 then 1 else (count + LimitPostsOnThePage - 1) / LimitPostsOnThePage
  }

  /** The page numbers a listing of `count` rows has. */
  predicate PageInRange(count: nat, number: nat)
  {
    1 <= number <= NumPages(count)
  }

  /** Index of the first row of page `number`. */
  function PageStart(number: nat): nat
    requires 1 <= number
  {
    (number - 1) * LimitPostsOnThePage
  }

  /** Page `number` of `items` (`paginator.get_page(number)`). */
  function Paginate<T>(items: seq<T>, number: nat): (page: seq<T>)
    requires PageInRange(|items|, number)
    ensures |page| <= LimitPostsOnThePage
    ensures number < NumPages(|items|) ==> |page| == LimitPostsOnThePage
    ensures number == NumPages(|items|) ==> |page| == |items| - PageStart(number)
    ensures forall i :: 0 <= i < |page| ==> page[i] == items[PageStart(number) + i]
  {
    var bottom := PageStart(number);
    var top := if bottom + LimitPostsOnThePage <= |items| then bottom + LimitPostsOnThePage else |items|;
    items[bottom..top]
  }

  /** A page holds rows of the listing only. */
  lemma PageRows<T>(items: seq<T>, number: nat)
    requires PageInRange(|items|, number)
    ensures forall x :: x in Paginate(items, number) ==> x in items
  {
    var page := Paginate(items, number);
    forall x | x in page ensures x in items {
      var i :| 0 <= i < |page| && page[i] == x;
      assert items[PageStart(number) + i] == x;
    }
  }

  /** Pages `number`, `number + 1`, ... up to the last, one after the other. */
  function PagesFrom<T>(items: seq<T>, number: nat): seq<T>
    requires PageInRange(|items|, number)
    decreases NumPages(|items|) - number
  {
    if number == NumPages(|items|) then Paginate(items, number)
    else Paginate(items, number) + PagesFrom(items, number + 1)
  }

  /** Read one after the other, the pages give back the whole listing:
      no row is lost, repeated or moved. */
  lemma {:induction false} PagesCoverListing<T>(items: seq<T>)
    ensures PagesFrom(items, 1) == items
  {
    PagesFromIsSuffix(items, 1);
  }

  lemma {:induction false} PagesFromIsSuffix<T>(items: seq<T>, number: nat)
    requires PageInRange(|items|, number)
    ensures PagesFrom(items, number) == items[PageStart(number)..]
    decreases NumPages(|items|) - number
  {
    var page := Paginate(items, number);
    var start := PageStart(number);
    if number == NumPages(|items|) {
      assert page == items[start..];
    } else {
      PagesFromIsSuffix(items, number + 1);
      var next := PageStart(number + 1);
      NextPageStart(items, number);
      assert page == items[start..next];
      assert items[start..] == items[start..next] + items[next..];
    }
  }

  /** A page before the last ends where the next one starts, inside the
      listing. */
  lemma NextPageStart<T>(items: seq<T>, number: nat)
    requires 1 <= number < NumPages(|items|)
    ensures PageStart(number + 1) == PageStart(number) + LimitPostsOnThePage <= |items|
  {
    var n := NumPages(|items|);
    assert PageStart(number + 1) == number * LimitPostsOnThePage;
    assert number * LimitPostsOnThePage <= (n - 1) * LimitPostsOnThePage;
  }

  /** Row `i` of the listing is row `i % 10` of page `i / 10 + 1`. */
  lemma RowOnPage<T>(items: seq<T>, i: nat)
    requires i < |items|
    ensures PageInRange(|items|, i / LimitPostsOnThePage + 1)
    ensures var page := Paginate(items, i / LimitPostsOnThePage + 1);
      i % LimitPostsOnThePage < |page| && page[i % LimitPostsOnThePage] == items[i]
  {
  }

  /** Every row of the listing is on one of its pages. */
  lemma RowOnSomePage<T>(items: seq<T>, x: T)
    requires x in items
    ensures exists number :: PageInRange(|items|, number) && x in Paginate(items, number)
  {
    var i :| 0 <= i < |items| && items[i] == x;
    RowOnPage(items, i);
    assert Paginate(items, i / LimitPostsOnThePage + 1)[i % LimitPostsOnThePage] == x;
  }

  /** A listing longer than one page but no longer than two shows a full
      first page and the remainder on the second. */
  lemma TwoPages<T>(items: seq<T>)
    requires LimitPostsOnThePage < |items| <= 2 * LimitPostsOnThePage
    ensures NumPages(|items|) == 2
    ensures |Paginate(items, 1)| == LimitPostsOnThePage
    ensures |Paginate(items, 2)| == |items| - LimitPostsOnThePage
  {
  }

  /** Thirteen posts: ten on the first page, three on the second. */
  lemma ThirteenPosts<T>(items: seq<T>)
    requires |items| == 13
    ensures |Paginate(items, 1)| == 10 && |Paginate(items, 2)| == 3
  {
  }
}
