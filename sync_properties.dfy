/**
 * What the sync loop guarantees, proved about its specification in module
 * Scraper: the store only grows, the count of new listings is the growth of
 * the store, any page-level failure yields 0 while keeping earlier writes, and
 * a second identical run finds nothing new.
 */
module SyncProperties {
  import opened Wrappers
  import Database
  import opened Scraper

  /** The ids of the listings of one page that parse. */
  function IdsOf(ls: seq<RawListing>): set<string> {
    set i | 0 <= i < |ls| && ls[i].id.Some? :: ls[i].id.value
  }

  /** The listings a fetched page yields; a failed page yields none. */
  function ListingsAt(page: int, fetchPage: int -> FetchResult): seq<RawListing> {
    PageListings(fetchPage(page)).GetOr([])
  }

  /** The page aborts the sync. */
  predicate PageFails(page: int, fetchPage: int -> FetchResult) {
    PageListings(fetchPage(page)).None?
  }

  /** The ids of every parsable listing on every page. */
  function AllIds(pages: seq<int>, fetchPage: int -> FetchResult): set<string>
    decreases |pages|
  {
    if pages == [] then {}
    else AllIds(pages[..|pages| - 1], fetchPage) + IdsOf(ListingsAt(pages[|pages| - 1], fetchPage))
  }

  /** The ids of a page are those of all but its last listing plus the last one's. */
  lemma IdsOfSnoc(ls: seq<RawListing>)
    requires ls != []
    ensures var last := ls[|ls| - 1];
      IdsOf(ls) == IdsOf(ls[..|ls| - 1]) + (if last.id.Some? then {last.id.value} else {})
  {
    var n := |ls| - 1;
    var init := ls[..n];
    var extra := if ls[n].id.Some? then {ls[n].id.value} else {};
    forall k | k in IdsOf(ls) ensures k in IdsOf(init) + extra {
      var i :| 0 <= i < |ls| && ls[i].id.Some? && ls[i].id.value == k;
      if i < n {
        assert init[i] == ls[i];
      }
    }
    forall k | k in IdsOf(init) ensures k in IdsOf(ls) {
      var i :| 0 <= i < n && init[i].id.Some? && init[i].id.value == k;
      assert ls[i] == init[i];
    }
  }

  /** The id a listing contributes when it parses. */
  function IdOf(l: RawListing): set<string> {
    if l.id.Some? then {l.id.value} else {}
  }

  /** One listing adds at most its own id, and counts exactly the row it adds. */
  lemma StepGrowth(t: Tally, l: RawListing, page: int, pos: nat, fault: (int, nat) -> bool, now: int)
    ensures var r := ListingStep(t, l, page, pos, fault, now);
      && t.rows.Keys <= r.rows.Keys <= t.rows.Keys + IdOf(l)
      && r.newCars == t.newCars + |r.rows| - |t.rows|
      && (!fault(page, pos) ==> r.rows.Keys == t.rows.Keys + IdOf(l))
  {
    var p := ParseListing(l);
    if p.Some? {
      assert p.value.id == l.id.value;
      Database.UpsertSize(t.rows, p.value, now);
    }
  }

  /** Processing one page never removes an id and adds only ids of the page's parsable listings. */
  lemma {:induction false} ProcessKeysGrow(t: Tally, ls: seq<RawListing>, page: int, fault: (int, nat) -> bool, now: int)
    ensures var r := ProcessListings(t, ls, page, fault, now);
      t.rows.Keys <= r.rows.Keys <= t.rows.Keys + IdsOf(ls)
    decreases |ls|
  {
    if ls != [] {
      var n := |ls| - 1;
      ProcessKeysGrow(t, ls[..n], page, fault, now);
      StepGrowth(ProcessListings(t, ls[..n], page, fault, now), ls[n], page, n, fault, now);
      IdsOfSnoc(ls);
    }
  }

  /** Processing a page raises the count by exactly the number of rows added. */
  lemma {:induction false} ProcessCountIsGrowth(t: Tally, ls: seq<RawListing>, page: int, fault: (int, nat) -> bool, now: int)
    ensures var r := ProcessListings(t, ls, page, fault, now);
      r.newCars == t.newCars + |r.rows| - |t.rows|
    decreases |ls|
  {
    if ls != [] {
      var n := |ls| - 1;
      ProcessCountIsGrowth(t, ls[..n], page, fault, now);
      StepGrowth(ProcessListings(t, ls[..n], page, fault, now), ls[n], page, n, fault, now);
    }
  }

  /** When no storage call fails, every parsable listing of the page ends up stored. */
  lemma {:induction false} ProcessStoresAllIds(t: Tally, ls: seq<RawListing>, page: int, fault: (int, nat) -> bool, now: int)
    requires NoStorageFaults(fault)
    ensures ProcessListings(t, ls, page, fault, now).rows.Keys == t.rows.Keys + IdsOf(ls)
    decreases |ls|
  {
    if ls != [] {
      var n := |ls| - 1;
      ProcessStoresAllIds(t, ls[..n], page, fault, now);
      assert !fault(page, n);
      StepGrowth(ProcessListings(t, ls[..n], page, fault, now), ls[n], page, n, fault, now);
      IdsOfSnoc(ls);
    }
  }

  /**
   * One page never removes an id and adds only ids of its parsable listings
   * (all of them when no storage call fails); the count rises by the rows
   * added; the sync has failed afterwards exactly when it had before or this
   * page fails.
   */
  lemma PageStepGrowth(s: SyncState, page: int, fetchPage: int -> FetchResult, fault: (int, nat) -> bool, now: int)
    ensures var r := PageStep(s, page, fetchPage, fault, now);
      && s.rows.Keys <= r.rows.Keys <= s.rows.Keys + IdsOf(ListingsAt(page, fetchPage))
      && r.newCars == s.newCars + |r.rows| - |s.rows|
      && (NoStorageFaults(fault) && !r.failed ==> r.rows.Keys == s.rows.Keys + IdsOf(ListingsAt(page, fetchPage)))
      && (r.failed <==> s.failed || PageFails(page, fetchPage))
  {
    if !s.failed && !PageFails(page, fetchPage) {
      var t := Tally(s.rows, s.newCars);
      ProcessKeysGrow(t, ListingsAt(page, fetchPage), page, fault, now);
      ProcessCountIsGrowth(t, ListingsAt(page, fetchPage), page, fault, now);
      if NoStorageFaults(fault) {
        ProcessStoresAllIds(t, ListingsAt(page, fetchPage), page, fault, now);
      }
    }
  }

  /** Some page of `pages` fails. */
  predicate AnyPageFails(pages: seq<int>, fetchPage: int -> FetchResult)
    decreases |pages|
  {
    pages != [] &&
    (AnyPageFails(pages[..|pages| - 1], fetchPage) || PageFails(pages[|pages| - 1], fetchPage))
  }

  /** The recursive definition agrees with "some index holds a failing page". */
  lemma {:induction false} AnyPageFailsIff(pages: seq<int>, fetchPage: int -> FetchResult)
    ensures AnyPageFails(pages, fetchPage) <==> exists i :: 0 <= i < |pages| && PageFails(pages[i], fetchPage)
    decreases |pages|
  {
    if pages != [] {
      var n := |pages| - 1;
      var init := pages[..n];
      AnyPageFailsIff(init, fetchPage);
      if AnyPageFails(init, fetchPage) {
        var i :| 0 <= i < n && PageFails(init[i], fetchPage);
        assert pages[i] == init[i];
      } else if !PageFails(pages[n], fetchPage) {
        forall i | 0 <= i < |pages| ensures !PageFails(pages[i], fetchPage) {
          if i < n {
            assert pages[i] == init[i];
          }
        }
      }
    }
  }

  /** The sync ends failed exactly when some page fails. */
  lemma {:induction false} SyncFailedIsAny(rows: Database.Table, pages: seq<int>,
                                           fetchPage: int -> FetchResult, fault: (int, nat) -> bool, now: int)
    ensures SyncPages(rows, pages, fetchPage, fault, now).failed == AnyPageFails(pages, fetchPage)
    decreases |pages|
  {
    if pages != [] {
      var init := pages[..|pages| - 1];
      SyncFailedIsAny(rows, init, fetchPage, fault, now);
      SyncLast(rows, pages, fetchPage, fault, now);
      PageStepGrowth(SyncPages(rows, init, fetchPage, fault, now), pages[|pages| - 1], fetchPage, fault, now);
    }
  }

  /** The sync fails exactly when one of its pages fails. */
  lemma SyncFailsIff(rows: Database.Table, pages: seq<int>,
                     fetchPage: int -> FetchResult, fault: (int, nat) -> bool, now: int)
    ensures SyncPages(rows, pages, fetchPage, fault, now).failed <==>
      exists i :: 0 <= i < |pages| && PageFails(pages[i], fetchPage)
  {
    SyncFailedIsAny(rows, pages, fetchPage, fault, now);
    AnyPageFailsIff(pages, fetchPage);
  }

  /** A non-empty run of pages is the run without its last page, then that page. */
  lemma SyncLast(rows: Database.Table, pages: seq<int>, fetchPage: int -> FetchResult, fault: (int, nat) -> bool, now: int)
    requires pages != []
    ensures SyncPages(rows, pages, fetchPage, fault, now) ==
      PageStep(SyncPages(rows, pages[..|pages| - 1], fetchPage, fault, now), pages[|pages| - 1], fetchPage, fault, now)
    ensures AllIds(pages, fetchPage) == AllIds(pages[..|pages| - 1], fetchPage) + IdsOf(ListingsAt(pages[|pages| - 1], fetchPage))
  {
  }

  /** Over all pages the store only grows, and only by ids of fetched listings. */
  lemma {:induction false} SyncKeysGrow(rows: Database.Table, pages: seq<int>,
                                        fetchPage: int -> FetchResult, fault: (int, nat) -> bool, now: int)
    ensures rows.Keys <= SyncPages(rows, pages, fetchPage, fault, now).rows.Keys <= rows.Keys + AllIds(pages, fetchPage)
    decreases |pages|
  {
    if pages != [] {
      var init := pages[..|pages| - 1];
      SyncKeysGrow(rows, init, fetchPage, fault, now);
      SyncLast(rows, pages, fetchPage, fault, now);
      PageStepGrowth(SyncPages(rows, init, fetchPage, fault, now), pages[|pages| - 1], fetchPage, fault, now);
    }
  }

  /**
   * The count of new listings is the number of rows the sync added, so the
   * count and the store agree, even when a page failure then discards the count.
   */
  lemma {:induction false} SyncCountIsGrowth(rows: Database.Table, pages: seq<int>,
                                             fetchPage: int -> FetchResult, fault: (int, nat) -> bool, now: int)
    ensures var s := SyncPages(rows, pages, fetchPage, fault, now);
      s.newCars == |s.rows| - |rows|
    decreases |pages|
  {
    if pages != [] {
      var init := pages[..|pages| - 1];
      SyncCountIsGrowth(rows, init, fetchPage, fault, now);
      SyncLast(rows, pages, fetchPage, fault, now);
      PageStepGrowth(SyncPages(rows, init, fetchPage, fault, now), pages[|pages| - 1], fetchPage, fault, now);
    }
  }

  /** Without storage failures, a sync that did not fail has stored every id it saw. */
  lemma {:induction false} SyncStoresAllIds(rows: Database.Table, pages: seq<int>,
                                            fetchPage: int -> FetchResult, fault: (int, nat) -> bool, now: int)
    requires NoStorageFaults(fault)
    requires !SyncPages(rows, pages, fetchPage, fault, now).failed
    ensures SyncPages(rows, pages, fetchPage, fault, now).rows.Keys == rows.Keys + AllIds(pages, fetchPage)
    decreases |pages|
  {
    if pages != [] {
      var init := pages[..|pages| - 1];
      var s := SyncPages(rows, init, fetchPage, fault, now);
      SyncLast(rows, pages, fetchPage, fault, now);
      PageStepGrowth(s, pages[|pages| - 1], fetchPage, fault, now);
      SyncStoresAllIds(rows, init, fetchPage, fault, now);
    }
  }

  /** Any failing page makes the sync return 0, whatever was upserted before it. */
  lemma AnyFailureReturnsZero(rows: Database.Table, pages: seq<int>,
                              fetchPage: int -> FetchResult, fault: (int, nat) -> bool, now: int, i: int)
    requires 0 <= i < |pages| && PageFails(pages[i], fetchPage)
    ensures SyncResult(SyncPages(rows, pages, fetchPage, fault, now)) == 0
  {
    SyncFailsIff(rows, pages, fetchPage, fault, now);
  }

  /**
   * When page `i` is the first to fail, the sync returns 0 and the store is
   * exactly what the successful pages before it left.
   */
  lemma FirstFailureKeepsEarlierWrites(rows: Database.Table, pages: seq<int>,
                                       fetchPage: int -> FetchResult, fault: (int, nat) -> bool, now: int, i: int)
    requires 0 <= i < |pages| && PageFails(pages[i], fetchPage)
    requires forall j :: 0 <= j < i ==> !PageFails(pages[j], fetchPage)
    ensures var before := SyncPages(rows, pages[..i], fetchPage, fault, now);
      var s := SyncPages(rows, pages, fetchPage, fault, now);
      && !before.failed
      && s.failed && SyncResult(s) == 0
      && s.rows == before.rows
  {
    var prefix := pages[..i];
    SyncFailsIff(rows, prefix, fetchPage, fault, now);
    forall j | 0 <= j < |prefix| ensures !PageFails(prefix[j], fetchPage) {
      assert prefix[j] == pages[j];
    }
    assert pages[..i + 1][..i] == prefix;
    FailureSticks(rows, pages, fetchPage, fault, now, i + 1);
  }

  /**
   * Without storage failures, a successful sync returns the number of
   * distinct parsable ids on its pages that were not yet stored.
   */
  lemma SyncCountsUnseenIds(rows: Database.Table, pages: seq<int>,
                            fetchPage: int -> FetchResult, fault: (int, nat) -> bool, now: int)
    requires NoStorageFaults(fault)
    requires !SyncPages(rows, pages, fetchPage, fault, now).failed
    ensures SyncResult(SyncPages(rows, pages, fetchPage, fault, now)) == |AllIds(pages, fetchPage) - rows.Keys|
  {
    var s := SyncPages(rows, pages, fetchPage, fault, now);
    var ids := AllIds(pages, fetchPage);
    SyncCountIsGrowth(rows, pages, fetchPage, fault, now);
    SyncStoresAllIds(rows, pages, fetchPage, fault, now);
    GrowthSize(rows.Keys, s.rows.Keys, ids);
    assert |s.rows| == |s.rows.Keys| && |rows| == |rows.Keys|;
  }

  /** A set grown by `extra` exactly has as many more elements as `extra` has outside it. */
  lemma GrowthSize<T>(a: set<T>, b: set<T>, extra: set<T>)
    requires b == a + extra
    ensures |b| == |a| + |extra - a|
  {
    assert b == a + (extra - a);
    assert a * (extra - a) == {};
  }

  /**
   * Running the sync again on the same upstream data finds nothing new and
   * adds no row, whatever the clock says.
   */
  lemma SyncIdempotent(rows: Database.Table, pages: seq<int>,
                       fetchPage: int -> FetchResult, fault: (int, nat) -> bool, t1: int, t2: int)
    requires NoStorageFaults(fault)
    requires !SyncPages(rows, pages, fetchPage, fault, t1).failed
    ensures var s1 := SyncPages(rows, pages, fetchPage, fault, t1);
      var s2 := SyncPages(s1.rows, pages, fetchPage, fault, t2);
      && !s2.failed
      && SyncResult(s2) == 0
      && s2.rows.Keys == s1.rows.Keys
  {
    var s1 := SyncPages(rows, pages, fetchPage, fault, t1);
    SyncStoresAllIds(rows, pages, fetchPage, fault, t1);
    SyncFailedIsAny(rows, pages, fetchPage, fault, t1);
    SyncFailedIsAny(s1.rows, pages, fetchPage, fault, t2);
    SyncStoresAllIds(s1.rows, pages, fetchPage, fault, t2);
    SyncCountIsGrowth(s1.rows, pages, fetchPage, fault, t2);
  }

  /** A page whose body has no listings leaves the sync state as it was. */
  lemma EmptyPageAddsNothing(rows: Database.Table, pages: seq<int>, page: int,
                             fetchPage: int -> FetchResult, fault: (int, nat) -> bool, now: int)
    requires !SyncPages(rows, pages, fetchPage, fault, now).failed
    requires PageListings(fetchPage(page)) == Some([])
    ensures SyncPages(rows, pages + [page], fetchPage, fault, now) == SyncPages(rows, pages, fetchPage, fault, now)
  {
    assert (pages + [page])[..|pages|] == pages;
  }

  /** A listing whose upsert hits a storage failure changes neither the store nor the count. */
  lemma StorageFaultSkipsListing(t: Tally, l: RawListing, page: int, pos: nat, fault: (int, nat) -> bool, now: int)
    requires fault(page, pos)
    ensures ListingStep(t, l, page, pos, fault, now) == t
  {
  }

  /** Splitting off the last element of a concatenation with a non-empty right part. */
  lemma DropLast<T>(a: seq<T>, b: seq<T>)
    requires b != []
    ensures (a + b)[..|a + b| - 1] == a + b[..|b| - 1]
    ensures (a + b)[|a + b| - 1] == b[|b| - 1]
  {
  }

  /** Processing a non-empty page is processing all but its last listing, then that one. */
  lemma ProcessLast(t: Tally, ls: seq<RawListing>, page: int, fault: (int, nat) -> bool, now: int)
    requires ls != []
    ensures ProcessListings(t, ls, page, fault, now) ==
      ListingStep(ProcessListings(t, ls[..|ls| - 1], page, fault, now), ls[|ls| - 1], page, |ls| - 1, fault, now)
  {
  }

  /** Without storage failures, where a listing sits on its page does not matter to its step. */
  lemma StepIgnoresPosition(t: Tally, l: RawListing, page: int, p1: nat, p2: nat, fault: (int, nat) -> bool, now: int)
    requires NoStorageFaults(fault)
    ensures ListingStep(t, l, page, p1, fault, now) == ListingStep(t, l, page, p2, fault, now)
  {
    assert !fault(page, p1) && !fault(page, p2);
  }

  /**
   * A listing that does not parse is skipped: without storage failures the
   * page is processed as if it were not there, so later listings are still
   * upserted and counted.
   */
  lemma {:induction false} UnparsableListingSkipped(t: Tally, before: seq<RawListing>, bad: RawListing,
                                                     after: seq<RawListing>, page: int,
                                                     fault: (int, nat) -> bool, now: int)
    requires NoStorageFaults(fault)
    requires ParseListing(bad).None?
    ensures ProcessListings(t, before + [bad] + after, page, fault, now) == ProcessListings(t, before + after, page, fault, now)
    decreases |after|
  {
    var with := before + [bad] + after;
    var without := before + after;
    if after == [] {
      assert with[..|with| - 1] == before;
      assert without == before;
    } else {
      var n := |after| - 1;
      var init := after[..n];
      var x := after[n];
      DropLast(before + [bad], after);
      DropLast(before, after);
      UnparsableListingSkipped(t, before, bad, init, page, fault, now);
      var mid := ProcessListings(t, before + init, page, fault, now);
      StepIgnoresPosition(mid, x, page, |with| - 1, |without| - 1, fault, now);
      ProcessLast(t, with, page, fault, now);
      ProcessLast(t, without, page, fault, now);
    }
  }
}
