/**
 A list that pulls its items page by page from a resolver, with a cursor
 (tracks/paged_list.go).  This module gives the list as a value and what each
 operation does to that value; module PagedLists holds the object.
 */
module Paging {
  import opened Common
  import opened Resolver

  datatype Item = Item(item: ContextTrack, pageIdx: nat, itemIdx: nat)

  datatype Paged = Paged(list: seq<Item>, pos: int, res: Snapshot)

  function PageItems(idx: nat, tracks: seq<ContextTrack>): (r: seq<Item>)
    ensures |r| == |tracks|
    ensures forall i :: 0 <= i < |r| ==> r[i] == Item(tracks[i], idx, i)
  {
    seq(|tracks|, i requires 0 <= i < |tracks| => Item(tracks[i], idx, i))
  }

  /** The page asked for next: one after the page of the last element, whatever the order. */
  function NextPageIdx(list: seq<Item>): nat {
    if list == [] then 0 else list[|list| - 1].pageIdx + 1
  }

  // ----- invariants

  /** An entry's indices find that very item in the resolver's pages. */
  ghost predicate LocatedAt(e: Item, pages: seq<ContextPage>) {
    && e.pageIdx < |pages|
    && e.itemIdx < |pages[e.pageIdx].tracks|
    && pages[e.pageIdx].tracks[e.itemIdx] == e.item
  }

  ghost predicate Located(list: seq<Item>, pages: seq<ContextPage>) {
    forall i :: 0 <= i < |list| ==> LocatedAt(list[i], pages)
  }

  ghost predicate Valid(st: Paged) {
    && st.res.pages != []
    && Located(st.list, st.res.pages)
  }

  /** The items of pages 0 up to `k` in order. */
  function Flatten(pages: seq<ContextPage>, k: nat): (r: seq<Item>)
    requires k <= |pages|
  {
    if k == 0 then [] else Flatten(pages, k - 1) + PageItems(k - 1, pages[k - 1].tracks)
  }

  /** The list is the concatenation of the first pages of the context, none of them empty. */
  ghost predicate PageOrdered(list: seq<Item>, pages: seq<ContextPage>) {
    var k := NextPageIdx(list);
    && k <= |pages|
    && (forall i :: 0 <= i < k ==> pages[i].tracks != [])
    && list == Flatten(pages, k)
  }

  lemma LocatedGrows(list: seq<Item>, s: Snapshot, t: Snapshot)
    requires Grows(s, t) && Located(list, s.pages)
    ensures Located(list, t.pages)
  {
    forall i | 0 <= i < |list|
      ensures LocatedAt(list[i], t.pages)
    {
      assert LocatedAt(list[i], s.pages);
    }
  }

  lemma {:induction false} FlattenSame(pages: seq<ContextPage>, pages': seq<ContextPage>, k: nat)
    requires k <= |pages| && k <= |pages'|
    requires forall i :: 0 <= i < k ==> pages[i] == pages'[i]
    ensures Flatten(pages, k) == Flatten(pages', k)
  {
    if k > 0 {
      FlattenSame(pages, pages', k - 1);
    }
  }

  lemma OrderedGrows(list: seq<Item>, s: Snapshot, t: Snapshot)
    requires Grows(s, t) && PageOrdered(list, s.pages)
    ensures PageOrdered(list, t.pages)
  {
    FlattenSame(s.pages, t.pages, NextPageIdx(list));
  }

  /** More pages neither give nor take page order: an entry of every page before is in the list. */
  lemma OrderedStays(list: seq<Item>, s: Snapshot, t: Snapshot)
    requires Grows(s, t) && Located(list, s.pages)
    ensures PageOrdered(list, s.pages) <==> PageOrdered(list, t.pages)
  {
    if PageOrdered(list, s.pages) {
      OrderedGrows(list, s, t);
    }
    if PageOrdered(list, t.pages) {
      var k := NextPageIdx(list);
      assert list != [] ==> LocatedAt(list[|list| - 1], s.pages);
      forall i | 0 <= i < k
        ensures s.pages[i].tracks != []
      {
        FlattenContains(t.pages, k, Item(t.pages[i].tracks[0], i, 0));
        var n :| 0 <= n < |list| && list[n] == Item(t.pages[i].tracks[0], i, 0);
        assert LocatedAt(list[n], s.pages);
      }
      FlattenSame(s.pages, t.pages, k);
    }
  }

  /** In page order an entry sits at exactly one place, so a cursor is known by its entry. */
  lemma {:induction false} OrderedDistinct(pages: seq<ContextPage>, k: nat, i: nat, j: nat)
    requires k <= |pages| && i < j < |Flatten(pages, k)|
    ensures Flatten(pages, k)[i] != Flatten(pages, k)[j]
    decreases k
  {
    var n := |Flatten(pages, k - 1)|;
    if j < n {
      OrderedDistinct(pages, k - 1, i, j);
    } else if i < n {
      FlattenBelow(pages, k - 1, i);
    }
  }

  lemma {:induction false} FlattenBelow(pages: seq<ContextPage>, k: nat, i: nat)
    requires k <= |pages| && i < |Flatten(pages, k)|
    ensures Flatten(pages, k)[i].pageIdx < k
    ensures LocatedAt(Flatten(pages, k)[i], pages)
  {
    if i < |Flatten(pages, k - 1)| {
      FlattenBelow(pages, k - 1, i);
    }
  }

  // ----- no gap before any entry

  /** The page of the entry and every page before it have tracks. */
  ghost predicate FilledTo(e: Item, pages: seq<ContextPage>) {
    e.pageIdx < |pages| && forall j :: 0 <= j <= e.pageIdx ==> pages[j].tracks != []
  }

  ghost predicate Filled(list: seq<Item>, pages: seq<ContextPage>) {
    forall i :: 0 <= i < |list| ==> FilledTo(list[i], pages)
  }

  lemma FilledGrows(list: seq<Item>, s: Snapshot, t: Snapshot)
    requires Grows(s, t) && Filled(list, s.pages)
    ensures Filled(list, t.pages)
  {
    forall i | 0 <= i < |list|
      ensures FilledTo(list[i], t.pages)
    {
      assert FilledTo(list[i], s.pages);
    }
  }

  /** A fetch asks for the page right after an entry's, so it leaves no gap. */
  lemma AppendFilled(list: seq<Item>, pages: seq<ContextPage>, idx: nat)
    requires Filled(list, pages)
    requires idx == NextPageIdx(list) < |pages| && pages[idx].tracks != []
    ensures Filled(list + PageItems(idx, pages[idx].tracks), pages)
  {
    var list' := list + PageItems(idx, pages[idx].tracks);
    assert list != [] ==> FilledTo(list[|list| - 1], pages);
    forall i | 0 <= i < |list'|
      ensures FilledTo(list'[i], pages)
    {
      assert i < |list| ==> FilledTo(list[i], pages);
    }
  }

  lemma OrderedFilled(list: seq<Item>, pages: seq<ContextPage>)
    requires PageOrdered(list, pages)
    ensures Filled(list, pages)
  {
    forall i | 0 <= i < |list|
      ensures FilledTo(list[i], pages)
    {
      FlattenBelow(pages, NextPageIdx(list), i);
    }
  }

  // ----- fetching

  /** NoMorePages is any error that errors.Is takes for io.EOF: the end itself, or a load with that cause. */
  datatype Fetch = Fetched | NoMorePages | FetchFailed

  function FetchNextPage(net: Network, st: Paged): (Paged, Fetch)
    requires st.res.pages != []
  {
    var idx := NextPageIdx(st.list);
    var (res, r) := Page(net, st.res, idx);
    match r
    case Eof => (st.(res := res), NoMorePages)
    case Failed(eof) => (st.(res := res), if eof then NoMorePages else FetchFailed)
    case Served(tracks) =>
      if tracks == [] then (st.(res := res), FetchFailed)
      else (Paged(st.list + PageItems(idx, tracks), st.pos, res), Fetched)
  }

  /** What every operation that may fetch keeps: the old entries, the cursor, the known pages. */
  ghost predicate Extends(net: Network, st: Paged, st': Paged) {
    && Valid(st) && Valid(st')
    && st.list <= st'.list
    && st.pos == st'.pos
    && Grows(st.res, st'.res)
    && (PageOrdered(st.list, st.res.pages) <==> PageOrdered(st'.list, st'.res.pages))
    && (Filled(st.list, st.res.pages) ==> Filled(st'.list, st'.res.pages))
    && (Finite(net) ==> Bound(net, st'.res) <= Bound(net, st.res))
  }

  lemma ExtendsTransitive(net: Network, s: Paged, t: Paged, u: Paged)
    requires Extends(net, s, t) && Extends(net, t, u)
    ensures Extends(net, s, u)
  {
    GrowsTransitive(s.res, t.res, u.res);
  }

  lemma FetchExtends(net: Network, st: Paged)
    requires Valid(st)
    ensures var (st', r) := FetchNextPage(net, st);
            && Extends(net, st, st')
            && (r == Fetched <==> |st'.list| > |st.list|)
            && (r == Fetched ==> NextPageIdx(st'.list) == NextPageIdx(st.list) + 1 <= |st'.res.pages|)
            && (r != Fetched ==> st'.list == st.list)
  {
    var idx := NextPageIdx(st.list);
    var (st', r) := FetchNextPage(net, st);
    PageGrows(net, st.res, idx);
    LocatedGrows(st.list, st.res, st'.res);
    OrderedStays(st.list, st.res, st'.res);
    if Filled(st.list, st.res.pages) {
      FilledGrows(st.list, st.res, st'.res);
    }
    if r == Fetched {
      AppendPage(st.list, st'.res.pages, idx);
      if Filled(st.list, st'.res.pages) {
        AppendFilled(st.list, st'.res.pages, idx);
      }
    }
  }

  /** Appending a page after the last element keeps entries locatable and keeps page order. */
  lemma AppendPage(list: seq<Item>, pages: seq<ContextPage>, idx: nat)
    requires Located(list, pages)
    requires idx == NextPageIdx(list) < |pages| && pages[idx].tracks != []
    ensures var list' := list + PageItems(idx, pages[idx].tracks);
            && Located(list', pages)
            && (PageOrdered(list, pages) <==> PageOrdered(list', pages))
  {
    var items := PageItems(idx, pages[idx].tracks);
    var list' := list + items;
    if PageOrdered(list', pages) {
      var front := Flatten(pages, idx);
      assert list' == front + items;
      assert list == list'[..|list|] && front == list'[..|list|];
    }
  }

  /** The list stands at the end of the context: its last page is the last known one and has no next link. */
  predicate AtEnd(st: Paged) { Ended(st.res, NextPageIdx(st.list)) }

  /** The next page will arrive, by the pages, the clock and the network; see Resolver.Arrives. */
  predicate PageArrives(net: Network, st: Paged)
    requires Valid(st)
  {
    NextPageKnown(st);
    Arrives(net, st.res, NextPageIdx(st.list))
  }

  lemma NextPageKnown(st: Paged)
    requires Valid(st)
    ensures NextPageIdx(st.list) <= |st.res.pages|
  {
    assert st.list != [] ==> LocatedAt(st.list[|st.list| - 1], st.res.pages);
  }

  /** The request for the next page will fail with cause io.EOF; see Resolver.CutOff. */
  predicate PageCutOff(net: Network, st: Paged)
    requires Valid(st)
  {
    NextPageKnown(st);
    CutOff(net, st.res, NextPageIdx(st.list))
  }

  /**
   A fetch finds no more pages exactly at the end of the context, and from then on for
   good, or when its load fails in a way that is taken for the end.
   */
  lemma EndExactly(net: Network, st: Paged)
    requires Valid(st)
    ensures FetchNextPage(net, st).1 == NoMorePages <==> AtEnd(st) || PageCutOff(net, st)
    ensures PageCutOff(net, st) ==> JustCut(net, FetchNextPage(net, st).0.res)
    ensures AtEnd(st) ==> FetchNextPage(net, st) == (st, NoMorePages)
    ensures AtEnd(st) ==> NextPageIdx(st.list) == |st.res.pages|
  {
    NextPageKnown(st);
    EofExactly(net, st.res, NextPageIdx(st.list));
    CutOffExactly(net, st.res, NextPageIdx(st.list));
  }

  /** A fetch that reports no more pages before the end of the context, and one after it that brings the next page. */
  lemma EndCanBeMistaken()
    ensures exists net, st ::
              && Valid(st) && !AtEnd(st)
              && FetchNextPage(net, st).1 == NoMorePages
              && Valid(FetchNextPage(net, st).0) && FetchNextPage(net, FetchNextPage(net, st).0).1 == Fetched
  {
    var page := ContextPage("", "", [ContextTrack("a", "", [], map[])]);
    var net := Network((t, url) => if t == 0 then LoadFailed(true) else Loaded(page), url => 0);
    var st := Paged([Item(page.tracks[0], 0, 0)], 0, Snapshot([page.(nextPageUrl := "hm://x")], 0));
    assert LoadPage(net, 0, "hm://x") == LoadFailed(true) && LoadPage(net, 1, "hm://x") == Loaded(page);
    assert FetchNextPage(net, st) == (st.(res := st.res.(clock := 1)), NoMorePages);
    FetchedExactly(net, FetchNextPage(net, st).0);
  }

  lemma FetchedExactly(net: Network, st: Paged)
    requires Valid(st)
    ensures FetchNextPage(net, st).1 == Fetched <==> PageArrives(net, st)
  {
    NextPageKnown(st);
    ServedExactly(net, st.res, NextPageIdx(st.list));
  }

  // ----- fetching while out of order

  /**
   A fetch takes the page after the last entry's, which an out-of-order list may already
   hold: the entries are distinct afterwards exactly when they were and none of them is of
   that page.
   */
  lemma FetchDistinct(net: Network, st: Paged)
    requires Valid(st) && FetchNextPage(net, st).1 == Fetched
    ensures Distinct(FetchNextPage(net, st).0.list) <==>
            Distinct(st.list) && forall i :: 0 <= i < |st.list| ==> st.list[i].pageIdx != NextPageIdx(st.list)
  {
    var idx := NextPageIdx(st.list);
    var st' := FetchNextPage(net, st).0;
    PageGrows(net, st.res, idx);
    LocatedGrows(st.list, st.res, st'.res);
    DistinctAppend(st.list, st'.res.pages, idx);
  }

  lemma DistinctAppend(list: seq<Item>, pages: seq<ContextPage>, idx: nat)
    requires Located(list, pages) && idx < |pages|
    ensures Distinct(list + PageItems(idx, pages[idx].tracks)) <==>
            Distinct(list) && forall i :: 0 <= i < |list| ==> list[i].pageIdx != idx
  {
    var page := PageItems(idx, pages[idx].tracks);
    var all := list + page;
    assert forall i :: 0 <= i < |list| ==> all[i] == list[i];
    if i :| 0 <= i < |list| && list[i].pageIdx == idx {
      assert LocatedAt(list[i], pages);
      assert all[i] == all[|list| + list[i].itemIdx];
    }
  }

  // ----- iterating

  datatype Advance = Advance(st: Paged, ok: bool, err: bool)

  /** Move an iterator standing at `p` on by one, fetching a page if it stands at the end. */
  function IterNext(net: Network, st: Paged, p: int): Advance
    requires st.res.pages != [] && -1 <= p < |st.list|
  {
    if p + 1 < |st.list| then Advance(st, true, false)
    else
      var (st', r) := FetchNextPage(net, st);
      Advance(st', r == Fetched, r == FetchFailed)
  }

  lemma IterNextExtends(net: Network, st: Paged, p: int)
    requires Valid(st) && -1 <= p < |st.list|
    ensures var a := IterNext(net, st, p);
            && Extends(net, st, a.st)
            && (a.ok <==> p + 1 < |a.st.list|)
            && (!a.ok ==> a.st.list == st.list)
            && !(a.ok && a.err)
  {
    FetchExtends(net, st);
  }

  /**
   Moving on succeeds exactly when there is a next entry already or the next page arrives,
   and errs exactly when neither is so, nor the end reached or taken for reached.
   */
  lemma IterNextExactly(net: Network, st: Paged, p: int)
    requires Valid(st) && -1 <= p < |st.list|
    ensures var a := IterNext(net, st, p);
            && (a.ok <==> p + 1 < |st.list| || PageArrives(net, st))
            && (a.err <==> p + 1 == |st.list| && !PageArrives(net, st) && !AtEnd(st) && !PageCutOff(net, st))
            && (p + 1 < |st.list| ==> a.st == st)
  {
    if p + 1 == |st.list| {
      FetchedExactly(net, st);
      EndExactly(net, st);
    }
  }

  /** The page the measure counts from, and the bound it counts to. */
  ghost predicate Scannable(net: Network, st: Paged, p: int) {
    && Finite(net) && Valid(st)
    && -1 <= p < |st.list|
  }

  /**
   Each successful move either comes closer to the end of the list or has taken
   one more of the finitely many pages, whatever order the list is in.
   */
  lemma IterNextProgress(net: Network, st: Paged, p: int)
    requires Scannable(net, st, p) && IterNext(net, st, p).ok
    ensures var st' := IterNext(net, st, p).st;
            && Scannable(net, st', p + 1)
            && PagesLeft(net, st') <= PagesLeft(net, st)
            && (PagesLeft(net, st') == PagesLeft(net, st) ==> |st'.list| - (p + 1) < |st.list| - p)
  {
    IterNextExtends(net, st, p);
    FetchExtends(net, st);
  }

  function PagesLeft(net: Network, st: Paged): (n: nat)
    requires Valid(st)
  {
    assert st.list != [] ==> LocatedAt(st.list[|st.list| - 1], st.res.pages);
    Bound(net, st.res) - NextPageIdx(st.list)
  }

  datatype ScanResult = ScanResult(st: Paged, found: int, err: bool)

  /** Iterate from `p` to the first item that satisfies `f`, or to exhaustion. */
  function Scan(net: Network, st: Paged, p: int, f: ContextTrack -> bool): (r: ScanResult)
    requires Scannable(net, st, p)
    decreases PagesLeft(net, st), |st.list| - p
  {
    var a := IterNext(net, st, p);
    if !a.ok then ScanResult(a.st, -1, a.err)
    else
      IterNextExtends(net, st, p);
      if f(a.st.list[p + 1].item) then ScanResult(a.st, p + 1, false)
      else
        IterNextProgress(net, st, p);
        Scan(net, a.st, p + 1, f)
  }

  /** One turn of a scanning loop. */
  lemma ScanTurn(net: Network, st: Paged, p: int, f: ContextTrack -> bool)
    requires Scannable(net, st, p)
    ensures var a := IterNext(net, st, p);
            && a.st.pos == st.pos
            && (!a.ok ==> Scan(net, st, p, f) == ScanResult(a.st, -1, a.err))
            && (a.ok ==>
                  && Scannable(net, a.st, p + 1)
                  && (PagesLeft(net, a.st) < PagesLeft(net, st) ||
                      (PagesLeft(net, a.st) == PagesLeft(net, st) && |a.st.list| - (p + 1) < |st.list| - p))
                  && Scan(net, st, p, f) ==
                     if f(a.st.list[p + 1].item) then ScanResult(a.st, p + 1, false)
                     else Scan(net, a.st, p + 1, f))
  {
    IterNextExtends(net, st, p);
    if IterNext(net, st, p).ok {
      IterNextProgress(net, st, p);
    }
  }

  /** `found` is the first place after `p` that satisfies `f`, or -1 when there is none. */
  ghost predicate FirstMatch(list: seq<Item>, p: int, f: ContextTrack -> bool, found: int)
    requires -1 <= p
  {
    if found < 0 then
      found == -1 && forall k :: p < k < |list| ==> !f(list[k].item)
    else
      && p < found < |list| && f(list[found].item)
      && forall k :: p < k < found ==> !f(list[k].item)
  }

  /**
   A scan stops at the first match after its start; without a match it has looked
   at every entry of the list it leaves behind.
   */
  lemma ScanFindsFirst(net: Network, st: Paged, p: int, f: ContextTrack -> bool)
    requires Scannable(net, st, p)
    ensures Extends(net, st, Scan(net, st, p, f).st)
    ensures FirstMatch(Scan(net, st, p, f).st.list, p, f, Scan(net, st, p, f).found)
    ensures Scan(net, st, p, f).err ==> Scan(net, st, p, f).found == -1
  {
    ScanExtends(net, st, p, f);
    ScanMatches(net, st, p, f);
  }

  lemma {:induction false} ScanExtends(net: Network, st: Paged, p: int, f: ContextTrack -> bool)
    requires Scannable(net, st, p)
    ensures Extends(net, st, Scan(net, st, p, f).st)
    decreases PagesLeft(net, st), |st.list| - p
  {
    var a := IterNext(net, st, p);
    ScanTurn(net, st, p, f);
    IterNextExtends(net, st, p);
    if a.ok && !f(a.st.list[p + 1].item) {
      ScanExtends(net, a.st, p + 1, f);
      ExtendsTransitive(net, st, a.st, Scan(net, a.st, p + 1, f).st);
    }
  }

  lemma {:induction false} ScanMatches(net: Network, st: Paged, p: int, f: ContextTrack -> bool)
    requires Scannable(net, st, p)
    ensures FirstMatch(Scan(net, st, p, f).st.list, p, f, Scan(net, st, p, f).found)
    ensures Scan(net, st, p, f).err ==> Scan(net, st, p, f).found == -1
    decreases PagesLeft(net, st), |st.list| - p
  {
    hide IterNext, PageOrdered, Located, Filled, Grows, Bound;
    var a := IterNext(net, st, p);
    ScanTurn(net, st, p, f);
    if !a.ok {
      IterNextExtends(net, st, p);
    } else if !f(a.st.list[p + 1].item) {
      ScanMatches(net, a.st, p + 1, f);
      ScanExtends(net, a.st, p + 1, f);
      var r := Scan(net, a.st, p + 1, f);
      MatchLater(a.st.list, r.st.list, p, f, r.found);
    }
  }

  /**
   A scan that ends without a match and without an error has come to the end of the
   context: the last known page has no next link, and a list that was in page order now
   holds every page.  Or its last load failed in a way that is taken for the end.
   */
  lemma {:induction false} ScanExhausts(net: Network, st: Paged, p: int, f: ContextTrack -> bool)
    requires Scannable(net, st, p)
    ensures var r := Scan(net, st, p, f);
            r.found < 0 && !r.err ==>
              || JustCut(net, r.st.res)
              || (AtEnd(r.st) &&
                  (PageOrdered(st.list, st.res.pages) ==> r.st.list == Flatten(r.st.res.pages, |r.st.res.pages|)))
    decreases PagesLeft(net, st), |st.list| - p
  {
    hide Located, Filled, Grows, Bound;
    ScanTurn(net, st, p, f);
    var a := IterNext(net, st, p);
    IterNextExtends(net, st, p);
    if a.ok && !f(a.st.list[p + 1].item) {
      ScanExhausts(net, a.st, p + 1, f);
    } else if !a.ok && !a.err {
      EndExactly(net, st);
    }
  }

  // ----- scanning what is known

  /**
   A scan of a page-ordered list finds a match, and makes no load, if an entry without a
   gap before it matches.
   */
  lemma {:induction false} ScanFindsKnown(net: Network, st: Paged, p: int, f: ContextTrack -> bool, e: Item)
    requires Scannable(net, st, p) && PageOrdered(st.list, st.res.pages)
    requires LocatedAt(e, st.res.pages) && FilledTo(e, st.res.pages) && f(e.item)
    requires forall k :: 0 <= k <= p ==> !f(st.list[k].item)
    ensures Scan(net, st, p, f).found >= 0 && Scan(net, st, p, f).st.res == st.res
    decreases PagesLeft(net, st), |st.list| - p
  {
    hide IterNext, Scan, PageOrdered, LocatedAt, FilledTo, Located, Finite, PagesLeft;
    var a := IterNext(net, st, p);
    ScanTurn(net, st, p, f);
    KnownTurn(net, st, p, f, e);
    if !f(a.st.list[p + 1].item) {
      ScanFindsKnown(net, a.st, p + 1, f, e);
    }
  }

  lemma KnownTurn(net: Network, st: Paged, p: int, f: ContextTrack -> bool, e: Item)
    requires Valid(st) && -1 <= p < |st.list| && PageOrdered(st.list, st.res.pages)
    requires LocatedAt(e, st.res.pages) && FilledTo(e, st.res.pages) && f(e.item)
    requires forall k :: 0 <= k <= p ==> !f(st.list[k].item)
    ensures var a := IterNext(net, st, p);
            && a.ok && p + 1 < |a.st.list| && st.list <= a.st.list
            && a.st.res == st.res && PageOrdered(a.st.list, a.st.res.pages)
  {
    hide PageOrdered, LocatedAt, FilledTo, Located, FetchNextPage, Bound, Finite, Grows, Filled;
    IterNextExtends(net, st, p);
    if p + 1 == |st.list| {
      KnownPageServed(net, st, f, e);
    }
  }

  /** While no entry matches, the matching one is behind the list's last page, and the next page is known. */
  lemma KnownPageServed(net: Network, st: Paged, f: ContextTrack -> bool, e: Item)
    requires Valid(st) && PageOrdered(st.list, st.res.pages)
    requires LocatedAt(e, st.res.pages) && FilledTo(e, st.res.pages) && f(e.item)
    requires forall k :: 0 <= k < |st.list| ==> !f(st.list[k].item)
    ensures FetchNextPage(net, st).1 == Fetched && FetchNextPage(net, st).0.res == st.res
  {
    var k := NextPageIdx(st.list);
    if e.pageIdx < k {
      FlattenContains(st.res.pages, k, e);
      assert false;
    }
  }

  function Never(): ContextTrack -> bool { (t: ContextTrack) => false }

  /** A scan finds a match exactly when reading on to the end would come across one. */
  lemma {:induction false} ScanFindsExactly(net: Network, st: Paged, p: int, f: ContextTrack -> bool)
    requires Scannable(net, st, p)
    ensures Scan(net, st, p, f).found >= 0 <==>
            exists k :: p < k < |Scan(net, st, p, Never()).st.list| && f(Scan(net, st, p, Never()).st.list[k].item)
    decreases PagesLeft(net, st), |st.list| - p
  {
    hide IterNext, Scan, PageOrdered, Located, Finite, PagesLeft, Filled, Bound, Grows;
    var a := IterNext(net, st, p);
    ScanTurn(net, st, p, f);
    ScanTurn(net, st, p, Never());
    IterNextExtends(net, st, p);
    if a.ok {
      ScanExtends(net, a.st, p + 1, Never());
      assert Scan(net, st, p, Never()).st.list[p + 1] == a.st.list[p + 1];
      if !f(a.st.list[p + 1].item) {
        ScanFindsExactly(net, a.st, p + 1, f);
      }
    }
  }

  /**
   A scan without a match goes on until a fetch brings nothing, and errs exactly if that
   fetch failed.
   */
  lemma {:induction false} ScanStops(net: Network, st: Paged, p: int, f: ContextTrack -> bool)
    requires Scannable(net, st, p) && Scan(net, st, p, f).found < 0
    ensures var r := Scan(net, st, p, f);
            exists last :: Extends(net, st, last) && FetchNextPage(net, last) == (r.st, if r.err then FetchFailed else NoMorePages)
    decreases PagesLeft(net, st), |st.list| - p
  {
    hide Scan, PageOrdered, Located, Filled, Bound, PagesLeft, Finite;
    var a := IterNext(net, st, p);
    ScanTurn(net, st, p, f);
    IterNextExtends(net, st, p);
    if a.ok {
      ScanStops(net, a.st, p + 1, f);
      var r := Scan(net, a.st, p + 1, f);
      var last :| Extends(net, a.st, last) && FetchNextPage(net, last) == (r.st, if r.err then FetchFailed else NoMorePages);
      ExtendsTransitive(net, st, a.st, last);
    } else {
      assert Extends(net, st, st);
    }
  }

  /** An entry that can be located in the pages is in their concatenation. */
  lemma {:induction false} FlattenContains(pages: seq<ContextPage>, k: nat, e: Item)
    requires k <= |pages| && LocatedAt(e, pages) && e.pageIdx < k
    ensures e in Flatten(pages, k)
  {
    if e.pageIdx < k - 1 {
      FlattenContains(pages, k - 1, e);
    } else {
      assert PageItems(k - 1, pages[k - 1].tracks)[e.itemIdx] == e;
    }
  }

  lemma MatchLater(before: seq<Item>, list: seq<Item>, p: int, f: ContextTrack -> bool, found: int)
    requires -1 <= p && p + 1 < |before| && before <= list && !f(before[p + 1].item)
    requires FirstMatch(list, p + 1, f, found)
    ensures FirstMatch(list, p, f, found)
  {
    assert list[p + 1] == before[p + 1];
  }

  /** The items that up to `limit` moves from `p` would visit. */
  function Collect(net: Network, st: Paged, p: int, limit: nat): (Paged, seq<ContextTrack>)
    requires Valid(st) && -1 <= p < |st.list|
    decreases limit
  {
    if limit == 0 then (st, [])
    else
      var a := IterNext(net, st, p);
      IterNextExtends(net, st, p);
      if !a.ok then (a.st, [])
      else
        var (st', rest) := Collect(net, a.st, p + 1, limit - 1);
        (st', [a.st.list[p + 1].item] + rest)
  }

  /** The entries and the cursor are kept, entries may have been added. */
  ghost predicate Longer(st: Paged, st': Paged) {
    Valid(st') && st.list <= st'.list && st'.pos == st.pos
  }

  /** One turn of a collecting loop. */
  lemma CollectTurn(net: Network, st: Paged, p: int, limit: nat)
    requires Valid(st) && -1 <= p < |st.list| && limit > 0
    ensures var a := IterNext(net, st, p);
            && Longer(st, a.st)
            && (!a.ok ==> p + 1 == |st.list| == |a.st.list| && Collect(net, st, p, limit) == (a.st, []))
            && (a.ok ==>
                  && p + 1 < |a.st.list|
                  && var (end, rest) := Collect(net, a.st, p + 1, limit - 1);
                     Collect(net, st, p, limit) == (end, [a.st.list[p + 1].item] + rest))
  {
    IterNextExtends(net, st, p);
  }

  lemma {:induction false} CollectExtends(net: Network, st: Paged, p: int, limit: nat)
    requires Valid(st) && -1 <= p < |st.list|
    ensures Extends(net, st, Collect(net, st, p, limit).0)
    ensures |Collect(net, st, p, limit).1| <= limit
    decreases limit
  {
    hide Located, Filled, PageOrdered, Bound, IterNext;
    if limit > 0 {
      var a := IterNext(net, st, p);
      IterNextExtends(net, st, p);
      if a.ok {
        CollectExtends(net, a.st, p + 1, limit - 1);
        ExtendsTransitive(net, st, a.st, Collect(net, a.st, p + 1, limit - 1).0);
      }
    }
  }

  lemma {:induction false} CollectLonger(net: Network, st: Paged, p: int, limit: nat)
    requires Valid(st) && -1 <= p < |st.list|
    ensures Longer(st, Collect(net, st, p, limit).0)
    decreases limit
  {
    hide IterNext, Located;
    if limit > 0 {
      CollectTurn(net, st, p, limit);
      var a := IterNext(net, st, p);
      if a.ok {
        CollectLonger(net, a.st, p + 1, limit - 1);
      }
    }
  }

  /** The list a collection leaves reaches as far as what was collected; fewer than asked for means to its end. */
  lemma {:induction false} CollectLength(net: Network, st: Paged, p: int, limit: nat)
    requires Valid(st) && -1 <= p < |st.list|
    ensures var (st', ts) := Collect(net, st, p, limit);
            && |ts| <= limit
            && p + |ts| < |st'.list|
            && (|ts| < limit ==> p + 1 + |ts| == |st'.list|)
    decreases limit
  {
    if limit > 0 {
      CollectTurn(net, st, p, limit);
      var a := IterNext(net, st, p);
      if a.ok {
        CollectLength(net, a.st, p + 1, limit - 1);
      }
    }
  }

  /** What was collected is what that list holds after `p`. */
  lemma {:induction false} CollectItem(net: Network, st: Paged, p: int, limit: nat, i: nat)
    requires Valid(st) && -1 <= p < |st.list| && i < |Collect(net, st, p, limit).1|
    ensures p + 1 + i < |Collect(net, st, p, limit).0.list|
    ensures Collect(net, st, p, limit).1[i] == Collect(net, st, p, limit).0.list[p + 1 + i].item
    decreases limit
  {
    hide IterNext, Located;
    CollectTurn(net, st, p, limit);
    var a := IterNext(net, st, p);
    CollectLonger(net, a.st, p + 1, limit - 1);
    if i > 0 {
      CollectItem(net, a.st, p + 1, limit - 1, i - 1);
    }
  }

  /** What the list already holds is collected without a fetch. */
  lemma {:induction false} CollectInList(net: Network, st: Paged, p: int, limit: nat, i: nat)
    requires Valid(st) && -1 <= p && i < limit && p + 1 + i < |st.list|
    ensures i < |Collect(net, st, p, limit).1|
    ensures Collect(net, st, p, limit).1[i] == st.list[p + 1 + i].item
    decreases limit
  {
    CollectTurn(net, st, p, limit);
    if i > 0 {
      CollectInList(net, st, p + 1, limit - 1, i - 1);
    }
  }

  /** One more than the list holds is collected exactly when the next page arrives. */
  lemma {:induction false} CollectPastEnd(net: Network, st: Paged, p: int, n: nat)
    requires Valid(st) && -1 <= p && n == |st.list| - 1 - p
    ensures |Collect(net, st, p, n + 1).1| == n + 1 <==> PageArrives(net, st)
    decreases n
  {
    CollectTurn(net, st, p, n + 1);
    if n == 0 {
      FetchedExactly(net, st);
    } else {
      CollectPastEnd(net, st, p + 1, n - 1);
    }
  }

  /** An iteration depends on the entries and the resolver, not on where the list's own cursor is. */
  lemma {:induction false} CollectIgnoresCursor(net: Network, st: Paged, p: int, limit: nat, cursor: int)
    requires Valid(st) && -1 <= p < |st.list|
    ensures Collect(net, st.(pos := cursor), p, limit).1 == Collect(net, st, p, limit).1
    decreases limit
  {
    hide PageOrdered, Located, Filled, Grows, Bound;
    if limit > 0 {
      var a := IterNext(net, st, p);
      IterNextExtends(net, st, p);
      assert IterNext(net, st.(pos := cursor), p) == a.(st := a.st.(pos := cursor));
      if a.ok {
        CollectIgnoresCursor(net, a.st, p + 1, limit - 1, cursor);
      }
    }
  }
}
