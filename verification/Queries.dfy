/** Paged, permission-scoped lists (internal/app/porttest/queries.go). */
module Queries {
  import opened Outcomes
  import opened Ordering
  import opened PkiStore

  datatype Page<+T> = Page(items: seq<T>, next: Option<string>)

  const DEFAULT_LIMIT: nat := 50

  function PageSize(limit: int): (n: nat)
    ensures n > 0
  {
    if limit <= 0 then DEFAULT_LIMIT else limit
  }

  /** A page holds what was asked for, or 50. */
  lemma PageSizeExactly(limit: int)
    ensures PageSize(limit) == if limit >= 1 then limit else 50
  {
  }

  /** How many leading items the cursor has passed. */
  function CutAt<T>(items: seq<T>, cursor: string, keyOf: T -> string): (cut: nat)
    ensures cut <= |items|
  {
    if items == [] || !StringLe(keyOf(items[0]), cursor) then 0 else 1 + CutAt(items[1..], cursor, keyOf)
  }

  function Rest<T>(items: seq<T>, cursor: string, keyOf: T -> string): seq<T> {
    if cursor == "" then items else items[CutAt(items, cursor, keyOf)..]
  }

  function PageOf<T>(items: seq<T>, limit: int, cursor: string, keyOf: T -> string): Page<T> {
    var rest, n := Rest(items, cursor, keyOf), PageSize(limit);
    if |rest| > n then Page(rest[..n], Some(keyOf(rest[n - 1]))) else Page(rest, None)
  }

  lemma CutStep<T>(items: seq<T>, cut: nat, cursor: string, keyOf: T -> string)
    requires cut <= |items|
    ensures cut == |items| || !StringLe(keyOf(items[cut]), cursor) ==> CutAt(items[cut..], cursor, keyOf) == 0
    ensures cut < |items| && StringLe(keyOf(items[cut]), cursor) ==>
              CutAt(items[cut..], cursor, keyOf) == 1 + CutAt(items[cut + 1..], cursor, keyOf)
  {
    hide StringLe;
    if cut < |items| { assert items[cut..][1..] == items[cut + 1..]; }
  }

  method Paginate<T>(items: seq<T>, limit: int, cursor: string, keyOf: T -> string) returns (page: Page<T>)
    ensures page == PageOf(items, limit, cursor, keyOf)
  {
    hide StringLe, CutAt;
    var n := limit;
    if n <= 0 { n := DEFAULT_LIMIT; }
    var rest := items;
    if cursor != "" {
      var cut := 0;
      assert items[0..] == items;
      while cut < |items| && StringLe(keyOf(items[cut]), cursor)
        invariant cut <= |items|
        invariant CutAt(items, cursor, keyOf) == cut + CutAt(items[cut..], cursor, keyOf)
      {
        CutStep(items, cut, cursor, keyOf);
        cut := cut + 1;
      }
      CutStep(items, cut, cursor, keyOf);
      rest := items[cut..];
    }
    if |rest| > n {
      rest := rest[..n];
      return Page(rest, Some(keyOf(rest[|rest| - 1])));
    }
    return Page(rest, None);
  }

  /** Sorted strictly by a key that is never empty. */
  ghost predicate Keyed<T>(items: seq<T>, keyOf: T -> string) {
    && (forall i, j | 0 <= i < j < |items| :: StringLt(keyOf(items[i]), keyOf(items[j])))
    && (forall i | 0 <= i < |items| :: keyOf(items[i]) != "")
  }

  lemma StrictTransitive(a: string, b: string, c: string)
    requires (StringLt(a, b) && StringLe(b, c)) || (StringLe(a, b) && StringLt(b, c))
    ensures StringLt(a, c)
  {
    StringTransitive(a, b, c);
    StringTotal(a, b);
    StringTotal(b, c);
  }

  /** What is left after a cursor is exactly the items with a greater key. */
  lemma {:induction false} CutExactly<T>(items: seq<T>, cursor: string, keyOf: T -> string)
    requires Keyed(items, keyOf)
    ensures forall i | 0 <= i < |items| :: i >= CutAt(items, cursor, keyOf) <==> StringLt(cursor, keyOf(items[i]))
  {
    if items != [] {
      StringTotal(keyOf(items[0]), cursor);
      if StringLe(keyOf(items[0]), cursor) {
        assert forall i | 0 <= i < |items| - 1 :: items[1..][i] == items[i + 1];
        CutExactly(items[1..], cursor, keyOf);
        forall i | 0 <= i < |items| ensures i >= CutAt(items, cursor, keyOf) <==> StringLt(cursor, keyOf(items[i])) {
          if i > 0 { assert items[i] == items[1..][i - 1]; }
        }
      } else {
        forall i | 0 <= i < |items| ensures StringLt(cursor, keyOf(items[i])) {
          if i > 0 { StrictTransitive(cursor, keyOf(items[0]), keyOf(items[i])); }
        }
      }
    }
  }

  predicate After(cursor: string, key: string) { cursor == "" || StringLt(cursor, key) }

  lemma RestExactly<T>(items: seq<T>, cursor: string, keyOf: T -> string)
    requires Keyed(items, keyOf)
    ensures Keyed(Rest(items, cursor, keyOf), keyOf)
    ensures forall x :: x in Rest(items, cursor, keyOf) <==> x in items && After(cursor, keyOf(x))
  {
    CutExactly(items, cursor, keyOf);
    hide CutAt, StringLt;
    var cut := if cursor == "" then 0 else CutAt(items, cursor, keyOf);
    assert Rest(items, cursor, keyOf) == items[cut..];
    forall x ensures x in items[cut..] <==> x in items && After(cursor, keyOf(x)) {
      if x in items && After(cursor, keyOf(x)) {
        var i :| 0 <= i < |items| && items[i] == x;
        assert i >= cut && items[cut..][i - cut] == x;
      }
      if x in items[cut..] {
        var i :| 0 <= i < |items[cut..]| && items[cut..][i] == x;
        assert items[cut + i] == x;
      }
    }
  }

  // ---- following the cursor over a list that may change between calls ----

  /** One page from each listing in turn, each after the cursor of the one before, until a page has no next cursor. */
  function Walk<T>(listings: seq<seq<T>>, limit: int, cursor: string, keyOf: T -> string): seq<Page<T>> {
    if listings == [] then []
    else
      var page := PageOf(listings[0], limit, cursor, keyOf);
      if page.next == None then [page] else [page] + Walk(listings[1..], limit, page.next.value, keyOf)
  }

  function Items<T>(pages: seq<Page<T>>): seq<T> {
    if pages == [] then [] else pages[0].items + Items(pages[1..])
  }

  ghost predicate AllKeyed<T>(listings: seq<seq<T>>, keyOf: T -> string) {
    forall list | list in listings :: Keyed(list, keyOf)
  }

  predicate Ended<T>(pages: seq<Page<T>>) { pages != [] && pages[|pages| - 1].next == None }

  /** One page: keys after the cursor, the least of them first, and the next cursor is the last key on it. */
  lemma PageExactly<T>(items: seq<T>, limit: int, cursor: string, keyOf: T -> string)
    requires Keyed(items, keyOf)
    ensures var page := PageOf(items, limit, cursor, keyOf);
            && Keyed(page.items, keyOf)
            && (forall x | x in page.items :: x in items && After(cursor, keyOf(x)))
            && (page.next.Some? ==>
                page.next.value != "" && |page.items| == PageSize(limit) && After(cursor, page.next.value))
            && (page.next.Some? ==> forall x | x in items && After(cursor, keyOf(x)) :: x in page.items <==>
                StringLe(keyOf(x), page.next.value))
            && (page.next.None? ==> forall x | x in items && After(cursor, keyOf(x)) :: x in page.items)
  {
    RestExactly(items, cursor, keyOf);
    var rest, n := Rest(items, cursor, keyOf), PageSize(limit);
    hide Rest, After, StringLe;
    if |rest| > n {
      assert rest[n - 1] in rest;
      forall x | x in rest ensures x in rest[..n] <==> StringLe(keyOf(x), keyOf(rest[n - 1])) {
        var i :| 0 <= i < |rest| && rest[i] == x;
        PrefixByKey(rest, n, i, keyOf);
      }
    }
  }

  lemma PrefixByKey<T>(rest: seq<T>, n: nat, i: nat, keyOf: T -> string)
    requires Keyed(rest, keyOf) && 0 < n < |rest| && i < |rest|
    ensures rest[i] in rest[..n] <==> StringLe(keyOf(rest[i]), keyOf(rest[n - 1]))
  {
    StringTotal(keyOf(rest[i]), keyOf(rest[n - 1]));
    StringTotal(keyOf(rest[i]), keyOf(rest[i]));
    if i < n {
      assert rest[..n][i] == rest[i];
    } else {
      assert StringLt(keyOf(rest[n - 1]), keyOf(rest[i]));
      assert forall k | 0 <= k < n :: StringLt(keyOf(rest[k]), keyOf(rest[i]));
    }
  }

  /** No item is repeated and the order is kept, however the list changes between the calls. */
  lemma {:induction false} WalkRises<T>(listings: seq<seq<T>>, limit: int, cursor: string, keyOf: T -> string)
    requires AllKeyed(listings, keyOf)
    ensures Keyed(Items(Walk(listings, limit, cursor, keyOf)), keyOf)
    ensures forall x | x in Items(Walk(listings, limit, cursor, keyOf)) :: After(cursor, keyOf(x))
  {
    hide PageOf, Keyed, StringLt, StringLe, After;
    if listings == [] {
      NothingKeyed<T>(keyOf);
    } else {
      assert listings[0] in listings && forall list | list in listings[1..] :: list in listings;
      var page := PageOf(listings[0], limit, cursor, keyOf);
      PageExactly(listings[0], limit, cursor, keyOf);
      if page.next == None {
        assert Items([page]) == page.items + [] == page.items;
      } else {
        WalkRises(listings[1..], limit, page.next.value, keyOf);
        var more := Walk(listings[1..], limit, page.next.value, keyOf);
        assert Walk(listings, limit, cursor, keyOf)[1..] == more;
        PagesJoin(page, Items(more), cursor, listings[0], limit, keyOf);
      }
    }
  }

  lemma NothingKeyed<T>(keyOf: T -> string)
    ensures Keyed<T>([], keyOf)
  {
  }

  lemma PageBefore<T>(page: Page<T>, more: seq<T>, cursor: string, items: seq<T>, limit: int, keyOf: T -> string)
    requires Keyed(items, keyOf) && page == PageOf(items, limit, cursor, keyOf) && page.next.Some?
    requires forall x | x in more :: After(page.next.value, keyOf(x))
    ensures page.next.value != ""
    ensures forall x | x in more :: StringLt(page.next.value, keyOf(x))
    ensures forall x | x in page.items ::
              x in items && After(cursor, keyOf(x)) &&
                  (keyOf(x) == page.next.value || StringLt(keyOf(x), page.next.value))
  {
    PageExactly(items, limit, cursor, keyOf);
    hide PageOf, StringLe;
  }

  lemma KeyedJoin<T>(first: seq<T>, second: seq<T>, mid: string, keyOf: T -> string)
    requires Keyed(first, keyOf) && Keyed(second, keyOf)
    requires forall x | x in first :: keyOf(x) == mid || StringLt(keyOf(x), mid)
    requires forall x | x in second :: StringLt(mid, keyOf(x))
    ensures Keyed(first + second, keyOf)
  {
    hide StringLe;
    var all := first + second;
    forall i, j | 0 <= i < j < |all| ensures StringLt(keyOf(all[i]), keyOf(all[j])) {
      if i < |first| <= j {
        assert first[i] in first && second[j - |first|] in second;
        if keyOf(first[i]) != mid { StrictTransitive(keyOf(first[i]), mid, keyOf(all[j])); }
      }
    }
  }

  lemma PagesJoin<T>(page: Page<T>, more: seq<T>, cursor: string, items: seq<T>, limit: int, keyOf: T -> string)
    requires Keyed(items, keyOf) && page == PageOf(items, limit, cursor, keyOf) && page.next.Some?
    requires Keyed(more, keyOf) && forall x | x in more :: After(page.next.value, keyOf(x))
    ensures Keyed(page.items + more, keyOf)
    ensures forall x | x in page.items + more :: After(cursor, keyOf(x))
  {
    PageExactly(items, limit, cursor, keyOf);
    hide PageOf, StringLe, StringLt, After, Keyed;
    PageBefore(page, more, cursor, items, limit, keyOf);
    KeyedJoin(page.items, more, page.next.value, keyOf);
    forall x | x in page.items + more ensures After(cursor, keyOf(x)) {
      if x in more && cursor != "" { AfterTwice(cursor, page.next.value, keyOf(x)); }
    }
  }

  lemma AfterTwice(a: string, b: string, c: string)
    requires After(a, b) && After(b, c) && b != ""
    ensures After(a, c)
  {
    if a != "" { StrictTransitive(a, b, c); }
  }

  /** An item that is in every listing is returned by any walk that came to its end. */
  lemma {:induction false} WalkFinds<T>(listings: seq<seq<T>>, limit: int, cursor: string, keyOf: T -> string, x: T)
    requires AllKeyed(listings, keyOf) && (forall list | list in listings :: x in list) && After(cursor, keyOf(x))
    requires Ended(Walk(listings, limit, cursor, keyOf))
    ensures x in Items(Walk(listings, limit, cursor, keyOf))
  {
    hide PageOf, Keyed, StringLt, StringLe, After;
    assert listings[0] in listings && forall list | list in listings[1..] :: list in listings;
    var page := PageOf(listings[0], limit, cursor, keyOf);
    PageExactly(listings[0], limit, cursor, keyOf);
    if page.next == None {
      assert Items([page]) == page.items + [] == page.items;
    } else {
      var more := Walk(listings[1..], limit, page.next.value, keyOf);
      assert Walk(listings, limit, cursor, keyOf)[1..] == more;
      assert Ended(more) by { assert Walk(listings, limit, cursor, keyOf)[|more|] == more[|more| - 1]; }
      if x !in page.items {
        NextAfter(keyOf(x), page.next.value);
        WalkFinds(listings[1..], limit, page.next.value, keyOf, x);
      }
    }
  }

  lemma NextAfter(key: string, cursor: string)
    requires !StringLe(key, cursor)
    ensures After(cursor, key)
  {
    StringTotal(key, cursor);
  }

  // ---- over a list that stays the same ----

  function Repeat<T>(items: seq<T>, n: nat): seq<seq<T>> { seq(n, _ => items) }

  /**
   * Pages of one unchanging list: all but the last are full, the walk ends within |items| + 1 calls, and nothing is
   * left out.
   */
  lemma {:induction false} WalkComplete<T>(items: seq<T>, limit: int, cursor: string, keyOf: T -> string, n: nat)
    requires Keyed(items, keyOf) && n > |Rest(items, cursor, keyOf)|
    ensures var pages := Walk(Repeat(items, n), limit, cursor, keyOf);
            && Ended(pages)
            && Items(pages) == Rest(items, cursor, keyOf)
            && (forall i | 0 <= i < |pages| - 1 :: |pages[i].items| == PageSize(limit) && pages[i].next.Some?)
    decreases n
  {
    hide CutAt, Keyed, StringLt, StringLe, Rest;
    var page := PageOf(items, limit, cursor, keyOf);
    assert Repeat(items, n)[0] == items && Repeat(items, n)[1..] == Repeat(items, n - 1);
    if page.next == None {
      assert Items([page]) == page.items + [];
    } else {
      NextRest(items, limit, cursor, keyOf);
      WalkComplete(items, limit, page.next.value, keyOf, n - 1);
      var pages, more := Walk(Repeat(items, n), limit, cursor, keyOf),
          Walk(Repeat(items, n - 1), limit, page.next.value, keyOf);
      assert pages == [page] + more && pages[1..] == more;
      forall i | 0 <= i < |pages| - 1 ensures |pages[i].items| == PageSize(limit) && pages[i].next.Some? {
        if i > 0 { assert pages[i] == more[i - 1]; }
      }
    }
  }

  /** After a full page the next cursor leaves exactly what the page did not show. */
  lemma NextRest<T>(items: seq<T>, limit: int, cursor: string, keyOf: T -> string)
    requires Keyed(items, keyOf) && PageOf(items, limit, cursor, keyOf).next.Some?
    ensures var page, rest := PageOf(items, limit, cursor, keyOf), Rest(items, cursor, keyOf);
            rest == page.items + Rest(items, page.next.value, keyOf) && |page.items| == PageSize(limit)
  {
    var n := PageSize(limit);
    var cut := if cursor == "" then 0 else CutAt(items, cursor, keyOf);
    var rest := Rest(items, cursor, keyOf);
    assert rest == items[cut..];
    var last := keyOf(items[cut + n - 1]);
    CutExactly(items, last, keyOf);
    hide CutAt;
    LastCut(items, cut + n - 1, CutAt(items, last, keyOf), keyOf);
    assert items[cut..] == items[cut..][..n] + items[cut + n..];
  }

  lemma LastCut<T>(items: seq<T>, at: nat, cut: nat, keyOf: T -> string)
    requires Keyed(items, keyOf) && at < |items| && cut <= |items|
    requires forall i | 0 <= i < |items| :: i >= cut <==> StringLt(keyOf(items[at]), keyOf(items[i]))
    ensures cut == at + 1
  {
    assert !StringLt(keyOf(items[at]), keyOf(items[at]));
    if at + 1 < |items| { assert StringLt(keyOf(items[at]), keyOf(items[at + 1])); }
  }

  // ---- scope before paging ----

  datatype Scope = Scope(all: bool, authorityIds: seq<string>)

  function KeyOf(a: Authority): string { a.id }

  predicate Shown(scope: Scope, matches: string -> bool, a: Authority) {
    (scope.all || a.id in scope.authorityIds) && matches(a.name)
  }

  /** The rows a reader may see, once each, by id. */
  ghost predicate ScopedListing(list: seq<Authority>, rows: map<string, Authority>, scope: Scope,
      matches: string -> bool) {
    && Keyed(list, KeyOf)
    && forall a :: a in list <==> a.id in rows && rows[a.id] == a && Shown(scope, matches, a)
  }

  method Visible(scope: Scope, authorityId: string) returns (ok: bool)
    ensures ok <==> scope.all || authorityId in scope.authorityIds
  {
    if scope.all { return true; }
    for i := 0 to |scope.authorityIds|
      invariant authorityId !in scope.authorityIds[..i]
    {
      if scope.authorityIds[i] == authorityId { return true; }
    }
    return false;
  }

  /** One page of the scoped listing; rows outside the scope never take up room on a page. */
  method ListAuthorities(rows: map<string, Authority>, scope: Scope, matches: string -> bool, limit: int,
      cursor: string)
    returns (page: Page<Authority>)
    requires RowsById(rows) && "" !in rows
    ensures forall list | ScopedListing(list, rows, scope, matches) :: page == PageOf(list, limit, cursor, KeyOf)
    ensures exists list :: ScopedListing(list, rows, scope, matches)
  {
    var items: seq<Authority> := [];
    var left := rows.Keys;
    while left != {}
      invariant left <= rows.Keys && Distinct(items)
      invariant forall a :: a in items <==> a.id in rows.Keys - left && rows[a.id] == a && Shown(scope, matches, a)
      decreases left
    {
      var id :| id in left;
      left := left - {id};
      var visible := Visible(scope, id);
      if !visible || !matches(rows[id].name) { continue; }
      items := items + [rows[id]];
    }
    SortedScoped(items, rows, scope, matches);
    var list := Sort(items, AuthorityLe);
    forall other | ScopedListing(other, rows, scope, matches) ensures other == list {
      ScopedOnce(other, list, rows, scope, matches);
    }
    page := Paginate(list, limit, cursor, KeyOf);
  }

  lemma SortedScoped(items: seq<Authority>, rows: map<string, Authority>, scope: Scope, matches: string -> bool)
    requires RowsById(rows) && "" !in rows && Distinct(items)
    requires forall a :: a in items <==> a.id in rows && rows[a.id] == a && Shown(scope, matches, a)
    ensures ScopedListing(Sort(items, AuthorityLe), rows, scope, matches)
  {
    hide Shown, Distinct, TotalPreorder, SortedBy, Sort;
    var list := Sort(items, AuthorityLe);
    AuthorityOrder();
    SortSorted(items, AuthorityLe);
    SortDistinct(items, AuthorityLe);
    SameMembers(items, list);
    SortedKeyed(list, rows);
  }

  lemma SortedKeyed(list: seq<Authority>, rows: map<string, Authority>)
    requires RowsById(rows) && "" !in rows && Distinct(list) && SortedBy(AuthorityLe, list)
    requires forall a | a in list :: a.id in rows && rows[a.id] == a
    ensures Keyed(list, KeyOf)
  {
    hide StringLe;
    forall i, j | 0 <= i < j < |list| ensures StringLt(KeyOf(list[i]), KeyOf(list[j])) {
      assert list[i] in list && list[j] in list && AuthorityLe(list[i], list[j]) && list[i] != list[j];
    }
    forall i | 0 <= i < |list| ensures KeyOf(list[i]) != "" { assert list[i] in list; }
  }

  /** The listing is determined by the rows and the scope, so successive calls page through one and the same list. */
  lemma ScopedOnce(a: seq<Authority>, b: seq<Authority>, rows: map<string, Authority>, scope: Scope,
      matches: string -> bool)
    requires ScopedListing(a, rows, scope, matches) && ScopedListing(b, rows, scope, matches)
    ensures a == b
  {
    hide Shown;
    KeyedOnce(a, b);
  }

  lemma {:induction false} KeyedOnce(a: seq<Authority>, b: seq<Authority>)
    requires Keyed(a, KeyOf) && Keyed(b, KeyOf) && forall x :: x in a <==> x in b
    ensures a == b
  {
    assert (a != [] ==> a[0] in a) && (b != [] ==> b[0] in b);
    if a != [] {
      FirstsAgree(a, b);
      assert a == [a[0]] + a[1..] && b == [b[0]] + b[1..];
      FirstOnlyOnce(a);
      FirstOnlyOnce(b);
      KeyedOnce(a[1..], b[1..]);
    }
  }

  lemma FirstsAgree(a: seq<Authority>, b: seq<Authority>)
    requires a != [] && b != [] && Keyed(a, KeyOf) && Keyed(b, KeyOf) && forall x :: x in a <==> x in b
    ensures a[0] == b[0]
  {
    assert a[0] in a && b[0] in b;
    var i :| 0 <= i < |b| && b[i] == a[0];
    var j :| 0 <= j < |a| && a[j] == b[0];
    StringTotal(KeyOf(a[0]), KeyOf(b[0]));
  }

  lemma FirstOnlyOnce(a: seq<Authority>)
    requires a != [] && Keyed(a, KeyOf)
    ensures forall x :: x in a[1..] <==> x in a && x != a[0]
  {
    assert forall k | 0 < k < |a| :: StringLt(KeyOf(a[0]), KeyOf(a[k]));
    assert a == [a[0]] + a[1..];
  }
}
