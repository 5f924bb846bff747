/**
 * The pieces every article listing is built from: filtering rows, ordering
 * them on a sort key in a direction, and cutting one page out of the result.
 */
module Listing {
  import opened Domain
  import opened Text

  /** The columns a listing may be ordered by. */
  datatype SortKey = ByTitle | ByCreatedAt | ByStatus

  datatype Direction = Asc | Desc

  /** The rows of `rows` that satisfy `keep`, in their original order. */
  function Where(rows: seq<Article>, keep: Article -> bool): (r: seq<Article>)
    ensures forall a :: a in r <==> a in rows && keep(a)
    ensures forall a :: multiset(r)[a] == if keep(a) then multiset(rows)[a] else 0
    ensures |r| <= |rows|
  {
    if rows == [] then []
    else
      assert rows == [rows[0]] + rows[1..];
      if keep(rows[0]) then [rows[0]] + Where(rows[1..], keep)
      else Where(rows[1..], keep)
  }

  /** Status values compare as their stored names do: "draft" before "published". */
  function StatusRank(s: Status): int
  {
    match s
    case Draft => 0
    case Published => 1
  }

  /** `a` sorts no later than `b` on `key` in ascending order. */
  predicate KeyLe(a: Article, b: Article, key: SortKey)
  {
    match key
    case ByTitle => StrLe(a.title, b.title)
    case ByCreatedAt => a.createdAt <= b.createdAt
    case ByStatus => StatusRank(a.status) <= StatusRank(b.status)
  }

  /** `a` may precede `b` in a listing ordered on `key` in direction `dir`. */
  predicate InOrder(a: Article, b: Article, key: SortKey, dir: Direction)
  {
    if dir == Asc then KeyLe(a, b, key) else KeyLe(b, a, key)
  }

  lemma InOrderTotal(a: Article, b: Article, key: SortKey, dir: Direction)
    ensures InOrder(a, b, key, dir) || InOrder(b, a, key, dir)
  {
    if key == ByTitle {
      StrLeTotal(a.title, b.title);
    }
  }

  lemma InOrderTransitive(a: Article, b: Article, c: Article, key: SortKey, dir: Direction)
    requires InOrder(a, b, key, dir) && InOrder(b, c, key, dir)
    ensures InOrder(a, c, key, dir)
  {
    if key == ByTitle {
      if dir == Asc {
        StrLeTransitive(a.title, b.title, c.title);
      } else {
        StrLeTransitive(c.title, b.title, a.title);
      }
    }
  }

  ghost predicate Sorted(s: seq<Article>, key: SortKey, dir: Direction)
  {
    forall i, j :: 0 <= i < j < |s| ==> InOrder(s[i], s[j], key, dir)
  }

  /** `x` placed before the first element it may precede. */
  function Insert(x: Article, s: seq<Article>, key: SortKey, dir: Direction): (r: seq<Article>)
    requires Sorted(s, key, dir)
    ensures Sorted(r, key, dir)
    ensures multiset(r) == multiset(s) + multiset{x}
  {
    if s == [] then [x]
    else if InOrder(x, s[0], key, dir) then
      assert forall j :: 0 <= j < |s| ==> InOrder(x, s[j], key, dir) by {
        forall j | 0 <= j < |s| ensures InOrder(x, s[j], key, dir) {
          if j > 0 { InOrderTransitive(x, s[0], s[j], key, dir); }
        }
      }
      [x] + s
    else
      InOrderTotal(x, s[0], key, dir);
      var t := Insert(x, s[1..], key, dir);
      assert s == [s[0]] + s[1..];
      assert forall j :: 0 <= j < |t| ==> InOrder(s[0], t[j], key, dir) by {
        forall j | 0 <= j < |t| ensures InOrder(s[0], t[j], key, dir) {
          assert t[j] in multiset(t);
          if t[j] != x {
            assert t[j] in s[1..];
          }
        }
      }
      [s[0]] + t
  }

  /** The rows ordered on `key` in direction `dir`; rows that tie keep their order. */
  function SortBy(s: seq<Article>, key: SortKey, dir: Direction): (r: seq<Article>)
    ensures Sorted(r, key, dir)
    ensures multiset(r) == multiset(s)
  {
    if s == [] then []
    else
      assert s == [s[0]] + s[1..];
      Insert(s[0], SortBy(s[1..], key, dir), key, dir)
  }

  /** Rows per page when the caller does not say. */
  const DefaultPerPage := 10

  /** The page number the paginator uses: a missing or non-positive page reads as 1. */
  function CurrentPage(page: Option<int>): (n: int)
    ensures n >= 1
    ensures page.Some? && page.value >= 1 ==> n == page.value
    ensures !(page.Some? && page.value >= 1) ==> n == 1
  {
    if page.Some? && page.value >= 1 then page.value else 1
  }

  /** One page of a listing together with the paginator's counters. */
  datatype Page = Page(items: seq<Article>, total: nat, perPage: nat, currentPage: nat)

  function Min(a: int, b: int): int { if a <= b then a else b }

  /** Position in the whole listing of the first row of page `page`. */
  function Offset(perPage: int, page: int): (o: int)
    requires perPage >= 1 && page >= 1
    ensures o >= 0
  {
    (page - 1) * perPage
  }

  /**
   * Page number `page` (counted from 1) of `all`, `perPage` rows per page;
   * a page past the end is empty.
   */
  function Paginate(all: seq<Article>, perPage: int, page: int): (p: Page)
    requires perPage >= 1 && page >= 1
    ensures p.total == |all| && p.perPage == perPage && p.currentPage == page
    ensures |p.items| <= perPage
    ensures forall k :: 0 <= k < |p.items| ==>
              Offset(perPage, page) + k < |all| && p.items[k] == all[Offset(perPage, page) + k]
    ensures Offset(perPage, page) < |all| ==> |p.items| == Min(perPage, |all| - Offset(perPage, page))
    ensures Offset(perPage, page) >= |all| ==> p.items == []
  {
    var start := Offset(perPage, page);
    if start >= |all| then Page([], |all|, perPage, page)
    else Page(all[start..Min(start + perPage, |all|)], |all|, perPage, page)
  }

  /** The page (counted from 1) that holds position `k` of a listing. */
  function PageOf(perPage: int, k: int): (n: int)
    requires perPage >= 1 && k >= 0
    ensures n >= 1
  {
    k / perPage + 1
  }

  /** The place of position `k` of a listing within its page. */
  function Slot(perPage: int, k: int): (j: int)
    requires perPage >= 1
    ensures 0 <= j < perPage
  {
    k % perPage
  }

  /** Every row of a listing is on exactly the page its position says. */
  lemma {:induction false} PageHolds(all: seq<Article>, perPage: int, k: int)
    requires perPage >= 1 && 0 <= k < |all|
    ensures var p := Paginate(all, perPage, PageOf(perPage, k));
            Slot(perPage, k) < |p.items| && p.items[Slot(perPage, k)] == all[k]
  {
    var page := PageOf(perPage, k);
    var start := Offset(perPage, page);
    assert start == k / perPage * perPage;
    assert start + Slot(perPage, k) == k;
    assert start <= k;
  }

  /** A page cut out of an ordered listing is itself ordered. */
  lemma SortedPage(all: seq<Article>, perPage: int, page: int, key: SortKey, dir: Direction)
    requires perPage >= 1 && page >= 1
    requires Sorted(all, key, dir)
    ensures Sorted(Paginate(all, perPage, page).items, key, dir)
  {
    var items := Paginate(all, perPage, page).items;
    var start := Offset(perPage, page);
    forall i, j | 0 <= i < j < |items| ensures InOrder(items[i], items[j], key, dir) {
      assert items[i] == all[start + i] && items[j] == all[start + j];
    }
  }
}
