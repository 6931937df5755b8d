/** Paging through an SVN log whose cursor is a revision number (svn_repository.rs). */
module SvnHistory {
  import opened Base
  import Pagination

  const FETCH_LIMIT: nat := 32

  datatype Entry = Entry(revision: nat, author: string, message: string)

  datatype Item = Item(entry: Entry, parent: Option<nat>)

  datatype Page = Page(items: seq<Item>, nextSkip: nat, hasMore: bool)

  /** What `svn log` lists: revisions from 1 on, the newest first. */
  ghost predicate Descending(log: seq<Entry>) {
    && (forall i | 0 <= i < |log| :: log[i].revision >= 1)
    && (forall i, j | 0 <= i < j < |log| :: log[i].revision > log[j].revision)
  }

  /** The entries up to revision `start`. */
  function Since(log: seq<Entry>, start: nat): seq<Entry> {
    if log == [] || log[0].revision <= start then log else Since(log[1..], start)
  }

  /** `svn log -r start:1 --limit n` */
  function Fetch(log: seq<Entry>, start: nat, limit: nat): seq<Entry> {
    var entries := Since(log, start);
    entries[..Min(limit, |entries|)]
  }

  function PageLimit(requested: nat): (r: nat)
    ensures 1 <= r < FETCH_LIMIT
  {
    Pagination.Clamp(requested, FETCH_LIMIT - 1)
  }

  /** Every matching entry names the next one as its parent, the last one the revision where the next page begins. */
  function WithParents(entries: seq<Entry>, next: nat): (items: seq<Item>)
    ensures |items| == |entries|
    ensures forall i | 0 <= i < |items| :: items[i].entry == entries[i]
  {
    seq(|entries|, i requires 0 <= i < |entries| =>
      Item(entries[i],
           if i + 1 < |entries| then Some(entries[i + 1].revision) else if next > 0 then Some(next) else None))
  }

  function NextCursor(shown: seq<Entry>): nat {
    if shown == [] then 0 else SaturatingSub(shown[|shown| - 1].revision, 1)
  }

  function StartRevision(head: nat, skip: nat): nat {
    Max(1, if skip == 0 then head else skip)
  }

  function PageFrom(log: seq<Entry>, matches: Entry -> bool, start: nat, limit: nat): Page {
    var fetched := Fetch(log, start, PageLimit(limit) + 1);
    var shown := fetched[..Min(PageLimit(limit), |fetched|)];
    var next := NextCursor(shown);
    Page(WithParents(Pagination.Matching(shown, matches), next), next, |fetched| > PageLimit(limit) && next > 0)
  }

  method History(connected: bool, head: nat, log: seq<Entry>, matches: Entry -> bool, skip: nat, limit: nat)
    returns (page: Page)
    ensures page == if connected then PageFrom(log, matches, StartRevision(head, skip), limit)
                    else Page([], skip, false)
  {
    if !connected {
      return Page([], skip, false);
    }
    var pageLimit := PageLimit(limit);
    var fetched := Fetch(log, StartRevision(head, skip), pageLimit + 1);
    var hasMore := |fetched| > pageLimit;
    var shown := fetched[..Min(pageLimit, |fetched|)];
    var next := NextCursor(shown);
    var matched: seq<Entry> := [];
    for i := 0 to |shown|
      invariant matched == Pagination.Matching(shown[..i], matches)
    {
      TakeNext(shown, i);
      if matches(shown[i]) {
        matched := matched + [shown[i]];
      }
    }
    assert shown[..|shown|] == shown;
    var items: seq<Item> := [];
    for index := 0 to |matched|
      invariant items == WithParents(matched, next)[..index]
    {
      var parent :=
        if index + 1 < |matched| then Some(matched[index + 1].revision) else if next > 0 then Some(next) else None;
      items := items + [Item(matched[index], parent)];
    }
    return Page(items, next, hasMore && next > 0);
  }

  lemma {:induction false} MatchingConcat<T>(a: seq<T>, b: seq<T>, matches: T -> bool)
    ensures Pagination.Matching(a + b, matches) == Pagination.Matching(a, matches) + Pagination.Matching(b, matches)
    decreases |b|
  {
    if b == [] {
      assert a + b == a;
    } else {
      var n := |b| - 1;
      MatchingConcat(a, b[..n], matches);
      assert (a + b)[..|a| + n] == a + b[..n];
    }
  }

  lemma {:induction false} SinceFacts(log: seq<Entry>, start: nat)
    requires Descending(log)
    ensures Descending(Since(log, start))
    ensures forall i | 0 <= i < |Since(log, start)| :: Since(log, start)[i].revision <= start
    ensures forall e :: e in Since(log, start) <==> e in log && e.revision <= start
  {
    if log != [] && log[0].revision > start {
      SinceFacts(log[1..], start);
      assert log == [log[0]] + log[1..];
    }
  }

  /** The entries older than the last one shown are the entries behind it. */
  lemma {:induction false} SinceNext(log: seq<Entry>, start: nat, n: nat)
    requires Descending(log) && 0 < n <= |Since(log, start)|
    ensures Since(log, SaturatingSub(Since(log, start)[n - 1].revision, 1)) == Since(log, start)[n..]
  {
    SinceFacts(log, start);
    if log[0].revision > start {
      SinceNext(log[1..], start, n);
    } else {
      SkipFront(log, n);
    }
  }

  lemma {:induction false} SkipFront(log: seq<Entry>, n: nat)
    requires Descending(log) && 0 < n <= |log|
    ensures Since(log, SaturatingSub(log[n - 1].revision, 1)) == log[n..]
  {
    if n > 1 {
      SkipFront(log[1..], n - 1);
      assert log[1..][n - 1..] == log[n..];
    }
  }

  /** The page shows exactly the next entries, and says that there is more exactly when older entries exist. */
  lemma {:induction false} PageFacts(log: seq<Entry>, matches: Entry -> bool, start: nat, limit: nat) returns (n: nat)
    requires Descending(log)
    ensures var entries, page := Since(log, start), PageFrom(log, matches, start, limit);
            && n == Min(if limit < 1 then 1 else if limit > 31 then 31 else limit, |entries|)
            && page.items == WithParents(Pagination.Matching(entries[..n], matches), page.nextSkip)
            && (page.hasMore <==> n < |entries|)
            && page.nextSkip == (if n == 0 then 0 else entries[n - 1].revision - 1)
            && (page.hasMore ==> 1 <= page.nextSkip < start && Since(log, page.nextSkip) == entries[n..])
  {
    var entries := Since(log, start);
    n := Min(PageLimit(limit), |entries|);
    var fetched := Fetch(log, start, PageLimit(limit) + 1);
    assert fetched[..Min(PageLimit(limit), |fetched|)] == entries[..n];
    SinceFacts(log, start);
    if n < |entries| {
      assert entries[n - 1].revision > entries[n].revision >= 1;
      SinceNext(log, start, n);
    }
  }

  /** An older revision that the page shows, or at which the next page begins. */
  predicate IsOlderNode(page: Page, item: Item, revision: nat) {
    && 0 < revision < item.entry.revision
    && (revision == page.nextSkip || exists other :: other in page.items && other.entry.revision == revision)
  }

  /** The parent is the newest of the older nodes, and there is none exactly if there is no older node. */
  ghost predicate HasNearestParent(page: Page, item: Item) {
    && (item.parent.Some? ==> IsOlderNode(page, item, item.parent.value))
    && forall r: nat | IsOlderNode(page, item, r) :: item.parent.Some? && r <= item.parent.value
  }

  /** Every item is linked to the next older node of the graph. */
  lemma {:induction false} ParentsAreNearest(log: seq<Entry>, matches: Entry -> bool, start: nat, limit: nat)
    requires Descending(log)
    ensures var page := PageFrom(log, matches, start, limit);
            forall i | 0 <= i < |page.items| :: HasNearestParent(page, page.items[i])
  {
    var page := PageFrom(log, matches, start, limit);
    var shown := ShownFacts(log, matches, start, limit);
    forall i: nat | i < |page.items|
      ensures HasNearestParent(page, page.items[i])
    {
      if page.items[i].parent.Some? {
        ParentIsNode(shown, page, i);
      }
      NothingNearer(shown, page, i);
    }
  }

  lemma {:induction false} ShownFacts(log: seq<Entry>, matches: Entry -> bool, start: nat, limit: nat)
    returns (shown: seq<Entry>)
    requires Descending(log)
    ensures Shows(PageFrom(log, matches, start, limit), shown)
  {
    var fetched := Fetch(log, start, PageLimit(limit) + 1);
    var all := fetched[..Min(PageLimit(limit), |fetched|)];
    SinceFacts(log, start);
    MatchingDescends(all, matches);
    NextIsOlder(all);
    shown := Pagination.Matching(all, matches);
  }

  ghost predicate Shows(page: Page, shown: seq<Entry>) {
    && Descending(shown) && page.items == WithParents(shown, page.nextSkip)
    && forall i | 0 <= i < |shown| :: page.nextSkip < shown[i].revision
  }

  lemma ParentIsNode(shown: seq<Entry>, page: Page, i: nat)
    requires Shows(page, shown) && i < |page.items| && page.items[i].parent.Some?
    ensures IsOlderNode(page, page.items[i], page.items[i].parent.value)
  {
    if i + 1 < |shown| {
      assert page.items[i + 1] in page.items && page.items[i + 1].entry == shown[i + 1];
    }
  }

  lemma NothingNearer(shown: seq<Entry>, page: Page, i: nat)
    requires Shows(page, shown) && i < |page.items|
    ensures forall r: nat | IsOlderNode(page, page.items[i], r) ::
              page.items[i].parent.Some? && r <= page.items[i].parent.value
  {
    forall r: nat | IsOlderNode(page, page.items[i], r)
      ensures page.items[i].parent.Some? && r <= page.items[i].parent.value
    {
      if r != page.nextSkip {
        var j := IndexOf(page, r);
        assert shown[j].revision == r && shown[i] == page.items[i].entry;
        assert i < j;
      }
    }
  }

  lemma IndexOf(page: Page, revision: nat) returns (j: nat)
    requires exists other :: other in page.items && other.entry.revision == revision
    ensures j < |page.items| && page.items[j].entry.revision == revision
  {
    var other :| other in page.items && other.entry.revision == revision;
    j :| 0 <= j < |page.items| && page.items[j] == other;
  }

  function Entries(items: seq<Item>): (r: seq<Entry>)
    ensures |r| == |items| && forall i | 0 <= i < |r| :: r[i] == items[i].entry
  {
    seq(|items|, i requires 0 <= i < |items| => items[i].entry)
  }

  /** What a client collects that follows `nextSkip` while `hasMore`; `limits(k)` is the size of its k-th request. */
  function Follow(log: seq<Entry>, matches: Entry -> bool, limits: nat -> nat, start: nat, k: nat): seq<Entry>
    decreases start
  {
    var page := PageFrom(log, matches, start, limits(k));
    if page.hasMore && page.nextSkip < start
    then Entries(page.items) + Follow(log, matches, limits, page.nextSkip, k + 1)
    else Entries(page.items)
  }

  lemma {:induction false} FollowDeliversAll(log: seq<Entry>, matches: Entry -> bool, limits: nat -> nat, start: nat,
                                             k: nat)
    requires Descending(log)
    ensures Follow(log, matches, limits, start, k) == Pagination.Matching(Since(log, start), matches)
    decreases start
  {
    var entries, page := Since(log, start), PageFrom(log, matches, start, limits(k));
    var n := PageFacts(log, matches, start, limits(k));
    var shown := Pagination.Matching(entries[..n], matches);
    assert Entries(WithParents(shown, page.nextSkip)) == shown;
    if page.hasMore {
      FollowDeliversAll(log, matches, limits, page.nextSkip, k + 1);
      MatchingConcat(entries[..n], entries[n..], matches);
      assert entries == entries[..n] + entries[n..];
    } else {
      assert entries[..n] == entries;
    }
  }

  lemma {:induction false} MatchingDescends(log: seq<Entry>, matches: Entry -> bool)
    requires Descending(log)
    ensures Descending(Pagination.Matching(log, matches))
    ensures forall e :: e in Pagination.Matching(log, matches) <==> e in log && matches(e)
  {
    if log != [] {
      var init, last := log[..|log| - 1], log[|log| - 1];
      assert log == init + [last];
      MatchingDescends(init, matches);
      assert forall e | e in init :: e.revision > last.revision;
    }
  }

  /**
   * From the first page on, whatever page sizes are asked for, following the cursor visits every matching revision up
   * to the head exactly once, in strictly decreasing order.
   */
  lemma {:induction false} HistoryIsComplete(log: seq<Entry>, head: nat, matches: Entry -> bool, limits: nat -> nat)
    requires Descending(log)
    ensures var got := Follow(log, matches, limits, StartRevision(head, 0), 0);
            && Descending(got)
            && forall e :: e in got <==> e in log && matches(e) && e.revision <= Max(1, head)
  {
    FollowDeliversAll(log, matches, limits, StartRevision(head, 0), 0);
    SinceFacts(log, StartRevision(head, 0));
    MatchingDescends(Since(log, StartRevision(head, 0)), matches);
  }

  /** The cursor of a page that has more is never 0, which would start over at the head. */
  lemma {:induction false} CursorNeverRestarts(log: seq<Entry>, matches: Entry -> bool, head: nat, skip: nat,
                                               limit: nat)
    requires Descending(log)
    ensures var page := PageFrom(log, matches, StartRevision(head, skip), limit);
            page.hasMore ==>
              page.nextSkip != 0 && StartRevision(head, page.nextSkip) == page.nextSkip < StartRevision(head, skip)
  {
    var n := PageFacts(log, matches, StartRevision(head, skip), limit);
  }

  lemma ParentsWithin(entries: seq<Entry>, next: nat)
    requires Descending(entries) && forall e | e in entries :: next < e.revision
    ensures forall item | item in WithParents(entries, next) ::
              item.parent.Some? ==> item.parent.value < item.entry.revision
  {
    var items := WithParents(entries, next);
    forall i | 0 <= i < |items|
      ensures items[i].parent.Some? ==> items[i].parent.value < items[i].entry.revision
    {
      assert entries[i] in entries;
    }
  }

  lemma NextIsOlder(shown: seq<Entry>)
    requires Descending(shown)
    ensures forall e | e in shown :: NextCursor(shown) < e.revision
  {
  }

  /** Every parent is an older revision. */
  lemma {:induction false} ParentsAreOlder(log: seq<Entry>, matches: Entry -> bool, start: nat, limit: nat)
    requires Descending(log)
    ensures forall item | item in PageFrom(log, matches, start, limit).items ::
              item.parent.Some? ==> item.parent.value < item.entry.revision
  {
    var fetched := Fetch(log, start, PageLimit(limit) + 1);
    var shown := fetched[..Min(PageLimit(limit), |fetched|)];
    SinceFacts(log, start);
    MatchingDescends(shown, matches);
    NextIsOlder(shown);
    ParentsWithin(Pagination.Matching(shown, matches), NextCursor(shown));
  }
}
