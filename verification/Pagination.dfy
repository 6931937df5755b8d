/** Pages of a list under a byte budget (pagination.rs, version_control_bridge.rs, history.rs). */
module Pagination {
  import opened Base

  // The largest prefix whose JSON text fits, and the cursor protocol by which a client gets the whole list. Items are
  // given by their JSON text, one character for each byte of it.

  const BUDGET: nat := 60 * 1024
  const MAX_HISTORY_PAGE: nat := 64
  const MAX_FILE_PAGE: nat := 128

  type Item = string

  // ---- the page on the wire ----

  function Digits(n: nat): string {
    if n < 10 then [('0' as int + n) as char] else Digits(n / 10) + [('0' as int + n % 10) as char]
  }

  function Join(items: seq<Item>): string {
    if items == [] then ""
    else if |items| == 1 then items[0]
    else Join(items[..|items| - 1]) + "," + items[|items| - 1]
  }

  function Flag(b: bool): string {
    if b then "true" else "false"
  }

  function PageText(items: seq<Item>, nextSkip: nat, hasMore: bool): string {
    "{\"items\":[" + Join(items) + "],\"nextSkip\":" + Digits(nextSkip) + ",\"hasMore\":" + Flag(hasMore) + "}"
  }

  /** The cursor that goes with a prefix of `n` items. */
  datatype Cursor = Cursor(nextSkip: nat, hasMore: bool)

  type PageState = nat -> Cursor

  predicate Fits(items: seq<Item>, state: PageState, n: nat)
    requires n <= |items|
  {
    |PageText(items[..n], state(n).nextSkip, state(n).hasMore)| <= BUDGET
  }

  /** Longer prefixes lead further, and once there is no more, there is never more again. */
  ghost predicate Advancing(state: PageState, n: nat) {
    forall i, j | 0 <= i <= j <= n :: state(i).nextSkip <= state(j).nextSkip && (state(j).hasMore ==> state(i).hasMore)
  }

  lemma {:induction false} DigitsMonotone(n: nat, m: nat)
    requires n <= m
    ensures |Digits(n)| <= |Digits(m)|
  {
    if n >= 10 {
      DigitsMonotone(n / 10, m / 10);
    }
  }

  /** The number that digits stand for. */
  function ValueOf(digits: string): int {
    if digits == "" then 0 else 10 * ValueOf(digits[..|digits| - 1]) + digits[|digits| - 1] as int - 48
  }

  /** Reading the digits gives the number back, and there is no superfluous zero in front. */
  lemma {:induction false} DigitsRead(n: nat)
    ensures Digits(n) != "" && ValueOf(Digits(n)) == n
    ensures Digits(n)[0] == '0' ==> n == 0 && |Digits(n)| == 1
  {
    if n >= 10 {
      DigitsRead(n / 10);
      assert Digits(n)[..|Digits(n)| - 1] == Digits(n / 10);
    } else {
      assert Digits(n)[..0] == "";
    }
  }

  function TotalLength(items: seq<Item>): nat {
    if items == [] then 0 else TotalLength(items[..|items| - 1]) + |items[|items| - 1]|
  }

  lemma {:induction false} JoinLength(items: seq<Item>)
    ensures |Join(items)| == TotalLength(items) + Max(0, |items| - 1)
  {
    if |items| > 1 {
      JoinLength(items[..|items| - 1]);
    } else if |items| == 1 {
      assert items[..0] == [];
    }
  }

  /** What a page weighs: the items, a comma between two of them, and the fields with their punctuation. */
  lemma {:induction false} PageWeighs(items: seq<Item>, nextSkip: nat, hasMore: bool)
    ensures |PageText(items, nextSkip, hasMore)|
         == TotalLength(items) + Max(0, |items| - 1) + |Digits(nextSkip)| + (if hasMore then 39 else 40)
  {
    JoinLength(items);
  }

  lemma {:induction false} JoinMonotone(items: seq<Item>, n: nat, m: nat)
    requires n <= m <= |items|
    ensures |Join(items[..n])| <= |Join(items[..m])|
    decreases m
  {
    if n < m {
      JoinMonotone(items, n, m - 1);
      assert items[..m][..m - 1] == items[..m - 1];
    }
  }

  /** The text of a page grows with every item, even where the cursor changes its length or `true` becomes `false`. */
  lemma SizeMonotone(items: seq<Item>, state: PageState, n: nat, m: nat)
    requires n <= m <= |items| && Advancing(state, |items|)
    ensures |PageText(items[..n], state(n).nextSkip, state(n).hasMore)|
         <= |PageText(items[..m], state(m).nextSkip, state(m).hasMore)|
  {
    JoinMonotone(items, n, m);
    DigitsMonotone(state(n).nextSkip, state(m).nextSkip);
  }

  /** The largest fitting prefix of at most `n` items, found by trying one after the other. */
  function Largest(items: seq<Item>, state: PageState, n: nat): (k: nat)
    requires n <= |items|
    ensures k <= n
  {
    if n == 0 || Fits(items, state, n) then n else Largest(items, state, n - 1)
  }

  lemma {:induction false} LargestIs(items: seq<Item>, state: PageState, n: nat, k: nat)
    requires k <= n <= |items|
    requires k == 0 || Fits(items, state, k)
    requires forall m | k < m <= n :: !Fits(items, state, m)
    ensures Largest(items, state, n) == k
  {
    if k < n {
      LargestIs(items, state, n - 1, k);
    }
  }

  /** Binary search for the last prefix that fits, where shorter prefixes fit if longer ones do. */
  method LastFitting(count: nat, fits: nat -> bool) returns (r: Option<nat>)
    requires forall i, j | 1 <= i <= j <= count :: fits(j) ==> fits(i)
    ensures r.None? <==> count > 0 && !fits(1)
    ensures r.Some? ==> r.value <= count && forall m | 1 <= m <= count :: fits(m) <==> m <= r.value
  {
    if count == 0 || fits(count) {
      return Some(count);
    }
    if !fits(1) {
      return None;
    }
    var low, high := 1, count - 1;
    while low < high
      invariant 1 <= low <= high < count
      invariant fits(low) && !fits(high + 1)
    {
      var middle := low + (high - low + 1) / 2;
      if fits(middle) {
        low := middle;
      } else {
        high := middle - 1;
      }
    }
    return Some(low);
  }

  /** The binary search finds what the linear one finds. An empty list is a page of its own, whatever its size. */
  method FitPagePrefix(items: seq<Item>, state: PageState) returns (r: Option<nat>)
    requires Advancing(state, |items|)
    ensures r.None? <==> items != [] && !Fits(items, state, 1)
    ensures r.Some? ==> r.value == Largest(items, state, |items|)
    ensures r.Some? ==> r.value <= |items| && forall m | 1 <= m <= |items| :: Fits(items, state, m) <==> m <= r.value
  {
    var fits := (n: nat) => n <= |items| && Fits(items, state, n);
    forall i, j | 1 <= i <= j <= |items|
      ensures fits(j) ==> fits(i)
    {
      SizeMonotone(items, state, i, j);
    }
    r := LastFitting(|items|, fits);
    if r.Some? {
      assert forall m | 1 <= m <= |items| :: fits(m) <==> Fits(items, state, m);
      LargestIs(items, state, |items|, r.value);
    }
  }

  // ---- one page of a list ----

  datatype Page = Page(items: seq<Item>, nextSkip: nat, hasMore: bool)

  /** A file page knows the total number of files. */
  function FileState(skip: nat, total: nat): PageState {
    (n: nat) => Cursor(skip + n, skip + n < total)
  }

  /** A history page knows whether the reader found one commit more than it was to show. */
  function HistoryState(skip: nat, upstream: bool, full: nat): PageState {
    (n: nat) => Cursor(skip + n, upstream || n < full)
  }

  function Clamp(limit: nat, most: nat): (r: nat)
    ensures r > 0
  {
    Max(1, Min(limit, most))
  }

  function Window<T>(list: seq<T>, skip: nat, limit: nat): (r: seq<T>)
    ensures |r| == Max(0, Min(limit, |list| - skip))
    ensures forall i | 0 <= i < |r| :: r[i] == list[skip + i]
  {
    if skip < |list| then list[skip..Min(skip + limit, |list|)] else []
  }

  /** The page a request gets, or none if its first item alone exceeds the budget. */
  function Serve(items: seq<Item>, state: PageState): Option<Page> {
    if items != [] && !Fits(items, state, 1) then None
    else
      var keep := Largest(items, state, |items|);
      Some(Page(items[..keep], state(keep).nextSkip, state(keep).hasMore))
  }

  method BoundedPage(items: seq<Item>, state: PageState) returns (r: Option<Page>)
    requires Advancing(state, |items|)
    ensures r == Serve(items, state)
  {
    var keep := FitPagePrefix(items, state);
    if keep.None? {
      return None;
    }
    var cursor := state(keep.value);
    return Some(Page(items[..keep.value], cursor.nextSkip, cursor.hasMore));
  }

  function FilePage(files: seq<Item>, skip: nat, limit: nat): Option<Page> {
    ListPage(files, skip, Clamp(limit, MAX_FILE_PAGE))
  }

  method DiffFiles(files: seq<Item>, skip: nat, limit: nat) returns (r: Option<Page>)
    ensures r == FilePage(files, skip, limit) && IsPageAt(files, skip, limit, 128, r)
  {
    var count := Clamp(limit, MAX_FILE_PAGE);
    var end := Min(skip + count, |files|);
    var items: seq<Item> := [];
    if skip < end {
      items := files[skip..end];
    }
    assert items == Window(files, skip, count);
    r := BoundedPage(items, FileState(skip, |files|));
    PagesAreExact(files, skip, limit);
  }

  // ---- history ----

  function Matching<C>(walk: seq<C>, matches: C -> bool): seq<C> {
    if walk == [] then []
    else
      var before := Matching(walk[..|walk| - 1], matches);
      if matches(walk[|walk| - 1]) then before + [walk[|walk| - 1]] else before
  }

  lemma {:induction false} MatchingFront<C>(walk: seq<C>, matches: C -> bool, n: nat)
    requires n <= |walk|
    ensures Matching(walk[..n], matches) <= Matching(walk, matches)
    decreases |walk|
  {
    if n == |walk| {
      assert walk[..n] == walk;
    } else {
      var init := walk[..|walk| - 1];
      MatchingFront(init, matches, n);
      assert init[..n] == walk[..n];
    }
  }

  /** The walk stops as soon as the page is full; the length is looked at after the push, so it returns one at least. */
  method ReadHistory<C>(walk: seq<C>, matches: C -> bool, skip: nat, limit: nat) returns (result: seq<C>)
    ensures result == Window(Matching(walk, matches), skip, Max(1, limit))
  {
    result := [];
    var matched := 0;
    for i := 0 to |walk|
      invariant matched == |Matching(walk[..i], matches)|
      invariant result == Window(Matching(walk[..i], matches), skip, Max(1, limit))
      invariant |result| < Max(1, limit)
      invariant |result| == Max(0, matched - skip)
    {
      TakeNext(walk, i);
      if matches(walk[i]) {
        if matched < skip {
          matched := matched + 1;
        } else {
          matched := matched + 1;
          result := result + [walk[i]];
          if |result| >= limit {
            MatchingFront(walk, matches, i + 1);
            return;
          }
        }
      }
    }
    assert walk[..|walk|] == walk;
  }

  function HistoryPage(commits: seq<Item>, skip: nat, limit: nat): Option<Page> {
    var count := Clamp(limit, MAX_HISTORY_PAGE);
    var read := Window(commits, skip, count + 1);
    var shown := read[..Min(count, |read|)];
    Serve(shown, HistoryState(skip, |read| > count, |shown|))
  }

  function Rendered<C>(commits: seq<C>, render: C -> Item): (r: seq<Item>)
    ensures |r| == |commits| && forall i | 0 <= i < |r| :: r[i] == render(commits[i])
  {
    seq(|commits|, i requires 0 <= i < |commits| => render(commits[i]))
  }

  method History<C>(walk: seq<C>, matches: C -> bool, render: C -> Item, skip: nat, limit: nat)
    returns (r: Option<Page>)
    ensures r == HistoryPage(Rendered(Matching(walk, matches), render), skip, limit)
    ensures IsPageAt(Rendered(Matching(walk, matches), render), skip, limit, 64, r)
  {
    var count := Clamp(limit, MAX_HISTORY_PAGE);
    var commits := ReadHistory(walk, matches, skip, count + 1);
    ghost var all := Rendered(Matching(walk, matches), render);
    assert Rendered(commits, render) == Window(all, skip, count + 1);
    var upstream := |commits| > count;
    var items := Rendered(commits, render)[..Min(count, |commits|)];
    r := BoundedPage(items, HistoryState(skip, upstream, |items|));
    PagesAreExact(all, skip, limit);
  }

  /** Looking one commit ahead tells exactly whether there are more, so both kinds of pages follow the same protocol. */
  lemma HistoryPageIsListPage(commits: seq<Item>, skip: nat, limit: nat)
    ensures HistoryPage(commits, skip, limit) == ListPage(commits, skip, Clamp(limit, MAX_HISTORY_PAGE))
  {
    var count := Clamp(limit, MAX_HISTORY_PAGE);
    var read := Window(commits, skip, count + 1);
    var shown := read[..Min(count, |read|)];
    assert shown == Window(commits, skip, count);
    SameState(shown, HistoryState(skip, |read| > count, |shown|), FileState(skip, |commits|));
  }

  lemma SameState(items: seq<Item>, a: PageState, b: PageState)
    requires forall i: nat | i <= |items| :: a(i) == b(i)
    ensures Serve(items, a) == Serve(items, b)
  {
    SameLargest(items, a, b, |items|);
  }

  lemma {:induction false} SameLargest(items: seq<Item>, a: PageState, b: PageState, n: nat)
    requires n <= |items| && forall i: nat | i <= |items| :: a(i) == b(i)
    ensures Largest(items, a, n) == Largest(items, b, n)
  {
    if n > 0 {
      SameLargest(items, a, b, n - 1);
    }
  }

  // ---- exactly which page a request gets ----

  /** The bytes of the page with items `skip..skip + n`: items, commas, digits and the fields around them. */
  function Weight(list: seq<Item>, skip: nat, n: nat): int
    requires skip + n <= |list|
  {
    TotalLength(list[skip..skip + n]) + (if n > 1 then n - 1 else 0)
    + |Digits(skip + n)| + (if skip + n < |list| then 39 else 40)
  }

  /**
   * The page holds as many items from `skip` on as were asked for, at least 1 and at most `cap`, cut where the list
   * ends or where one more item would take the page beyond 61440 bytes. There is none only if the first item alone
   * is too large.
   */
  ghost predicate IsPageAt(list: seq<Item>, skip: nat, limit: nat, cap: nat, page: Option<Page>) {
    var asked := if limit < 1 then 1 else if limit > cap then cap else limit;
    match page
    case None => skip < |list| && Weight(list, skip, 1) > 61_440
    case Some(Page(items, nextSkip, hasMore)) =>
      var n := |items|;
      && n <= asked && nextSkip == skip + n && (hasMore <==> nextSkip < |list|)
      && if skip >= |list| then n == 0
         else
           && 1 <= n && skip + n <= |list| && items == list[skip..skip + n]
           && Weight(list, skip, n) <= 61_440
           && (n == asked || skip + n == |list| || Weight(list, skip, n + 1) > 61_440)
  }

  lemma {:induction false} NextIsTooLarge(items: seq<Item>, state: PageState, n: nat)
    requires n <= |items|
    ensures var k := Largest(items, state, n);
            k < n ==> !Fits(items, state, k + 1)
    decreases n
  {
    if n > 0 && !Fits(items, state, n) {
      NextIsTooLarge(items, state, n - 1);
    }
  }

  lemma WindowWeighs(list: seq<Item>, skip: nat, count: nat, n: nat)
    requires n <= |Window(list, skip, count)| && skip + n <= |list|
    ensures Fits(Window(list, skip, count), FileState(skip, |list|), n) <==> Weight(list, skip, n) <= 61_440
    ensures Window(list, skip, count)[..n] == list[skip..skip + n]
  {
    assert Window(list, skip, count)[..n] == list[skip..skip + n];
    PageWeighs(list[skip..skip + n], skip + n, skip + n < |list|);
  }

  lemma {:induction false} ListPageExactly(list: seq<Item>, skip: nat, limit: nat, cap: nat)
    requires cap > 0
    ensures IsPageAt(list, skip, limit, cap, ListPage(list, skip, Clamp(limit, cap)))
  {
    var count := Clamp(limit, cap);
    if skip < |list| {
      WindowWeighs(list, skip, count, 1);
      if Weight(list, skip, 1) <= 61_440 {
        var n := PageLength(list, skip, count);
      }
    }
  }

  lemma {:induction false} PageLength(list: seq<Item>, skip: nat, count: nat) returns (n: nat)
    requires count > 0 && skip < |list| && Weight(list, skip, 1) <= 61_440
    ensures 1 <= n <= count && skip + n <= |list|
    ensures ListPage(list, skip, count) == Some(Page(list[skip..skip + n], skip + n, skip + n < |list|))
    ensures Weight(list, skip, n) <= 61_440
    ensures n == count || skip + n == |list| || Weight(list, skip, n + 1) > 61_440
  {
    n := LargestInWindow(list, skip, count, Window(list, skip, count), FileState(skip, |list|));
    ServedPage(Window(list, skip, count), FileState(skip, |list|), n);
  }

  lemma {:induction false} LargestInWindow(list: seq<Item>, skip: nat, count: nat, items: seq<Item>, state: PageState)
    returns (n: nat)
    requires count > 0 && skip < |list| && Weight(list, skip, 1) <= 61_440
    requires items == Window(list, skip, count) && state == FileState(skip, |list|)
    ensures 1 <= n <= |items| && skip + |items| <= |list| && Fits(items, state, 1)
    ensures n == Largest(items, state, |items|) && items[..n] == list[skip..skip + n]
    ensures Weight(list, skip, n) <= 61_440
    ensures n < |items| ==> Weight(list, skip, n + 1) > 61_440
  {
    WindowWeighs(list, skip, count, 1);
    n := LargestFacts(items, state);
    WindowWeighs(list, skip, count, n);
    if n < |items| {
      WindowWeighs(list, skip, count, n + 1);
    }
  }

  lemma ServedPage(items: seq<Item>, state: PageState, n: nat)
    requires items != [] && Fits(items, state, 1) && n == Largest(items, state, |items|)
    ensures Serve(items, state) == Some(Page(items[..n], state(n).nextSkip, state(n).hasMore))
  {
  }

  lemma {:induction false} LargestFacts(items: seq<Item>, state: PageState) returns (n: nat)
    requires items != [] && Fits(items, state, 1)
    ensures n == Largest(items, state, |items|) && 1 <= n <= |items| && Fits(items, state, n)
    ensures n < |items| ==> !Fits(items, state, n + 1)
  {
    n := Largest(items, state, |items|);
    AtLeastOne(items, state, |items|);
    LargestFits(items, state, |items|);
    NextIsTooLarge(items, state, |items|);
  }

  /** Both services answer with exactly that page: at most 128 files, at most 64 commits. */
  lemma {:induction false} PagesAreExact(list: seq<Item>, skip: nat, limit: nat)
    ensures IsPageAt(list, skip, limit, 128, FilePage(list, skip, limit))
    ensures IsPageAt(list, skip, limit, 64, HistoryPage(list, skip, limit))
  {
    ListPageExactly(list, skip, limit, MAX_FILE_PAGE);
    ListPageExactly(list, skip, limit, MAX_HISTORY_PAGE);
    HistoryPageIsListPage(list, skip, limit);
  }

  // ---- following the cursor ----

  function ListPage(list: seq<Item>, skip: nat, count: nat): Option<Page> {
    Serve(Window(list, skip, count), FileState(skip, |list|))
  }

  /** Whether the page that shows item `i` alone fits. */
  predicate FitsAlone(list: seq<Item>, i: nat)
    requires i < |list|
  {
    |PageText([list[i]], i + 1, i + 1 < |list|)| <= BUDGET
  }

  lemma FilesAdvance(list: seq<Item>, skip: nat, n: nat)
    ensures Advancing(FileState(skip, |list|), n)
  {
  }

  /** A page continues exactly where the last one ended, says truly whether there is more, and moves on if there is. */
  ghost predicate Continues(list: seq<Item>, skip: nat, page: Option<Page>)
    requires skip <= |list|
  {
    match page
    case None => skip < |list| && !FitsAlone(list, skip)
    case Some(Page(items, nextSkip, hasMore)) =>
      && skip + |items| <= |list| && items == list[skip..skip + |items|]
      && nextSkip == skip + |items|
      && (hasMore <==> nextSkip < |list|)
      && (skip < |list| ==> items != [])
      && AllAlone(list, skip, nextSkip)
  }

  lemma PageContinues(list: seq<Item>, skip: nat, count: nat)
    requires skip <= |list| && count > 0
    ensures Continues(list, skip, ListPage(list, skip, count))
  {
    var items, state := Window(list, skip, count), FileState(skip, |list|);
    FilesAdvance(list, skip, |items|);
    if items != [] {
      assert items[..1] == [list[skip]];
      if Fits(items, state, 1) {
        AtLeastOne(items, state, |items|);
        PageItemsFit(list, skip, count);
      }
    }
  }

  lemma {:induction false} AtLeastOne(items: seq<Item>, state: PageState, n: nat)
    requires 1 <= n <= |items| && Fits(items, state, 1)
    ensures 1 <= Largest(items, state, n)
  {
    if n > 1 {
      AtLeastOne(items, state, n - 1);
    }
  }

  /** A service that answers the k-th request, for the items from `skip` on. */
  type Service = (nat, nat) -> Option<Page>

  ghost predicate Honest(list: seq<Item>, service: Service) {
    forall skip: nat, k: nat | skip <= |list| :: Continues(list, skip, service(skip, k))
  }

  function FileService(files: seq<Item>, limits: nat -> nat): Service {
    (skip: nat, k: nat) => FilePage(files, skip, limits(k))
  }

  function HistoryService(commits: seq<Item>, limits: nat -> nat): Service {
    (skip: nat, k: nat) => HistoryPage(commits, skip, limits(k))
  }

  /** Both services keep to the protocol, whatever page sizes are asked for. */
  lemma ServicesAreHonest(list: seq<Item>, limits: nat -> nat)
    ensures Honest(list, FileService(list, limits))
    ensures Honest(list, HistoryService(list, limits))
  {
    forall skip: nat, k: nat | skip <= |list|
      ensures Continues(list, skip, FilePage(list, skip, limits(k)))
      ensures Continues(list, skip, HistoryPage(list, skip, limits(k)))
    {
      PageContinues(list, skip, Clamp(limits(k), MAX_FILE_PAGE));
      PageContinues(list, skip, Clamp(limits(k), MAX_HISTORY_PAGE));
      HistoryPageIsListPage(list, skip, limits(k));
    }
  }

  /** What a client collects that follows `nextSkip` until `hasMore` is false. */
  ghost function Follow(list: seq<Item>, service: Service, skip: nat, k: nat): Option<seq<Item>>
    requires Honest(list, service) && skip <= |list|
    decreases |list| - skip
  {
    var page := service(skip, k);
    assert Continues(list, skip, page);
    if page.None? then None
    else if !page.value.hasMore then Some(page.value.items)
    else Before(page.value.items, Follow(list, service, page.value.nextSkip, k + 1))
  }

  function Before(items: seq<Item>, more: Option<seq<Item>>): Option<seq<Item>> {
    if more.None? then None else Some(items + more.value)
  }

  ghost predicate AllAlone(list: seq<Item>, from: nat, to: nat)
    requires to <= |list|
  {
    forall i: nat | from <= i < to :: FitsAlone(list, i)
  }

  lemma AloneUpTo(list: seq<Item>, from: nat, middle: nat)
    requires from <= middle <= |list| && AllAlone(list, from, middle)
    ensures AllAlone(list, from, |list|) <==> AllAlone(list, middle, |list|)
  {
  }

  /**
   * The client gets every item exactly once and in order; it fails exactly if some item exceeds the budget all by
   * itself.
   */
  lemma {:induction false} FollowDeliversAll(list: seq<Item>, service: Service, skip: nat, k: nat)
    requires Honest(list, service) && skip <= |list|
    ensures Follow(list, service, skip, k) == if AllAlone(list, skip, |list|) then Some(list[skip..]) else None
    decreases |list| - skip
  {
    var page := service(skip, k);
    assert Continues(list, skip, page);
    if page.Some? {
      var end := page.value.nextSkip;
      AloneUpTo(list, skip, end);
      Rejoin(list, skip, end);
      if page.value.hasMore {
        FollowDeliversAll(list, service, end, k + 1);
      }
    }
  }

  /** An item that was delivered in a page would have fitted alone. */
  lemma PageItemsFit(list: seq<Item>, skip: nat, count: nat)
    requires skip <= |list| && ListPage(list, skip, count).Some?
    ensures var end := skip + |ListPage(list, skip, count).value.items|; end <= |list| && AllAlone(list, skip, end)
  {
    var items, state := Window(list, skip, count), FileState(skip, |list|);
    var n := Largest(items, state, |items|);
    LargestFits(items, state, |items|);
    forall i: nat | skip <= i < skip + n
      ensures FitsAlone(list, i)
    {
      AloneIsSmaller(list, skip, items, i - skip, n);
    }
  }

  lemma {:induction false} LargestFits(items: seq<Item>, state: PageState, n: nat)
    requires n <= |items|
    ensures Largest(items, state, n) == 0 || Fits(items, state, Largest(items, state, n))
  {
    if n > 0 {
      LargestFits(items, state, n - 1);
    }
  }

  lemma AloneIsSmaller(list: seq<Item>, skip: nat, items: seq<Item>, i: nat, n: nat)
    requires i < n <= |items| && skip + n <= |list| && forall k | 0 <= k < n :: items[k] == list[skip + k]
    requires Fits(items, FileState(skip, |list|), n)
    ensures FitsAlone(list, skip + i)
  {
    ItemInJoin(items[..n], i);
    DigitsMonotone(skip + i + 1, skip + n);
  }

  lemma {:induction false} ItemInJoin(items: seq<Item>, i: nat)
    requires i < |items|
    ensures |items[i]| <= |Join(items)|
  {
    if |items| > 1 && i < |items| - 1 {
      ItemInJoin(items[..|items| - 1], i);
    }
  }
}
