/**
 The page source under a track list: a context whose pages are loaded over the
 network when they are first needed (spclient/context_resolver.go).
 */
module Resolver {
  import opened Positional

  /** A track's gid is either absent or sixteen bytes: SpotifyIdFromGid panics on any other length. */
  datatype RawTrack = ContextTrack(uri: string, uid: string, gid: seq<byte>, metadata: map<string, string>)
  type ContextTrack = t: RawTrack | |t.gid| == 0 || |t.gid| == 16
    witness ContextTrack("", "", [], map[])

  datatype ContextPage = ContextPage(pageUrl: string, nextPageUrl: string, tracks: seq<ContextTrack>)

  /** `eof`: the cause of the failure, seen through all wrapping, is io.EOF. */
  datatype Load = Loaded(page: ContextPage) | LoadFailed(eof: bool)

  /**
   The network as seen by one resolver: `fetch(t, url)` is the answer to the t-th
   request, so the same url may fail once and succeed later, or change its answer.
   `rank` witnesses that chains of next-page links are finite; see `Finite`.
   */
  datatype Network = Network(fetch: (nat, string) -> Load, rank: string -> nat)

  const SCHEME := "hm://"

  function LoadPage(net: Network, t: nat, url: string): Load {
    if SCHEME <= url then net.fetch(t, url[|SCHEME|..]) else LoadFailed(false)
  }

  /** A page loaded from a url links only to lower ranks, and names itself no higher. */
  ghost predicate Finite(net: Network) {
    forall t: nat, url: string ::
      var l := LoadPage(net, t, url);
      l.Loaded? ==>
        && (l.page.nextPageUrl != "" ==> net.rank(l.page.nextPageUrl) < net.rank(url))
        && (l.page.pageUrl != "" ==> net.rank(l.page.pageUrl) <= net.rank(url))
  }

  /** The pages known so far and the number of loads attempted so far. */
  datatype Snapshot = Snapshot(pages: seq<ContextPage>, clock: nat)

  /** A failure wraps its cause, so that a caller may take one whose cause is io.EOF for the end. */
  datatype PageResult = Served(tracks: seq<ContextTrack>) | Eof | Failed(eof: bool)

  datatype Reach = Reached | NoMore | Broken(eof: bool)

  /** Append pages along the next-page links until page `idx` exists. */
  function Extend(net: Network, s: Snapshot, idx: nat): (Snapshot, Reach)
    requires s.pages != []
    decreases if idx < |s.pages| then 0 else 1 + idx - |s.pages|
  {
    if idx < |s.pages| then (s, Reached)
    else
      var next := s.pages[|s.pages| - 1].nextPageUrl;
      if next == "" then (s, NoMore)
      else
        match LoadPage(net, s.clock, next)
        case LoadFailed(eof) => (s.(clock := s.clock + 1), Broken(eof))
        case Loaded(p) => Extend(net, Snapshot(s.pages + [p], s.clock + 1), idx)
  }

  /** Serve a page known to exist, loading it again if it has no tracks yet. */
  function Serve(net: Network, s: Snapshot, idx: nat): (Snapshot, PageResult)
    requires idx < |s.pages|
  {
    var page := s.pages[idx];
    if page.tracks != [] then (s, Served(page.tracks))
    else if page.pageUrl == "" then (s, Failed(false))
    else
      match LoadPage(net, s.clock, page.pageUrl)
      case LoadFailed(eof) => (s.(clock := s.clock + 1), Failed(eof))
      case Loaded(p) => (Snapshot(s.pages[idx := p], s.clock + 1), Served(p.tracks))
  }

  function Page(net: Network, s: Snapshot, idx: nat): (Snapshot, PageResult)
    requires s.pages != []
  {
    var (t, reach) := Extend(net, s, idx);
    match reach
    case NoMore => (t, Eof)
    case Broken(eof) => (t, Failed(eof))
    case Reached => ExtendReaches(net, s, idx); Serve(net, t, idx)
  }

  /** Page `idx` is not known and the last known page has no next link. */
  predicate Ended(s: Snapshot, idx: nat) {
    idx >= |s.pages| && s.pages != [] && s.pages[|s.pages| - 1].nextPageUrl == ""
  }

  lemma {:induction false} ExtendReaches(net: Network, s: Snapshot, idx: nat)
    requires s.pages != []
    ensures Extend(net, s, idx).1 == Reached <==> idx < |Extend(net, s, idx).0.pages|
    ensures s.pages <= Extend(net, s, idx).0.pages
    ensures Extend(net, s, idx).1 == NoMore <==> Ended(Extend(net, s, idx).0, idx)
    decreases if idx < |s.pages| then 0 else 1 + idx - |s.pages|
  {
    if idx >= |s.pages| {
      var next := s.pages[|s.pages| - 1].nextPageUrl;
      if next != "" && LoadPage(net, s.clock, next).Loaded? {
        ExtendReaches(net, Snapshot(s.pages + [LoadPage(net, s.clock, next).page], s.clock + 1), idx);
      }
    }
  }

  // ----- what no call to Page ever undoes

  /** Every page that had tracks is still there, unchanged. */
  ghost predicate Grows(s: Snapshot, t: Snapshot) {
    && |s.pages| <= |t.pages|
    && forall i :: 0 <= i < |s.pages| && s.pages[i].tracks != [] ==> t.pages[i] == s.pages[i]
  }

  /** A number of pages that this resolver can never exceed. */
  function Bound(net: Network, s: Snapshot): (b: nat)
    requires s.pages != []
    ensures b >= |s.pages|
  {
    var last := s.pages[|s.pages| - 1];
    var onward := if last.nextPageUrl == "" then 0 else 1 + net.rank(last.nextPageUrl);
    var reload := if last.pageUrl == "" || last.tracks != [] then 0 else net.rank(last.pageUrl);
    |s.pages| + if onward < reload then reload else onward
  }

  lemma AppendBound(net: Network, s: Snapshot)
    requires Finite(net) && s.pages != []
    requires s.pages[|s.pages| - 1].nextPageUrl != ""
    ensures var l := LoadPage(net, s.clock, s.pages[|s.pages| - 1].nextPageUrl);
            l.Loaded? ==> Bound(net, Snapshot(s.pages + [l.page], s.clock + 1)) <= Bound(net, s)
  {
  }

  lemma {:induction false} ExtendBound(net: Network, s: Snapshot, idx: nat)
    requires Finite(net) && s.pages != []
    ensures Extend(net, s, idx).0.pages != []
    ensures Bound(net, Extend(net, s, idx).0) <= Bound(net, s)
    decreases if idx < |s.pages| then 0 else 1 + idx - |s.pages|
  {
    if idx >= |s.pages| {
      var next := s.pages[|s.pages| - 1].nextPageUrl;
      if next != "" && LoadPage(net, s.clock, next).Loaded? {
        var t := Snapshot(s.pages + [LoadPage(net, s.clock, next).page], s.clock + 1);
        AppendBound(net, s);
        ExtendBound(net, t, idx);
      }
    }
  }

  /**
   A call to Page never replaces a page that has tracks, serves exactly what the
   state then records for that page, and never raises the bound on the page count.
   */
  lemma PageGrows(net: Network, s: Snapshot, idx: nat)
    requires s.pages != []
    ensures Page(net, s, idx).0.pages != []
    ensures Grows(s, Page(net, s, idx).0)
    ensures Page(net, s, idx).1.Served? ==>
              && idx < |Page(net, s, idx).0.pages|
              && Page(net, s, idx).0.pages[idx].tracks == Page(net, s, idx).1.tracks
    ensures Finite(net) ==> Bound(net, Page(net, s, idx).0) <= Bound(net, s)
  {
    ExtendReaches(net, s, idx);
    if Finite(net) {
      ExtendBound(net, s, idx);
    }
  }

  lemma GrowsTransitive(s: Snapshot, t: Snapshot, u: Snapshot)
    requires Grows(s, t) && Grows(t, u)
    ensures Grows(s, u)
  {
  }

  /** A page once served with tracks is served again, the same, without another load. */
  lemma ServedForGood(net: Network, s: Snapshot, idx: nat, later: Snapshot)
    requires s.pages != []
    requires Page(net, s, idx).1.Served? && Page(net, s, idx).1.tracks != []
    requires Grows(Page(net, s, idx).0, later)
    ensures later.pages != []
    ensures Page(net, later, idx) == (later, Page(net, s, idx).1)
  {
    PageGrows(net, s, idx);
  }

  // ----- what the next request for a page will give

  /** The end of the context is reported exactly when it has been reached, and from then on for good. */
  lemma EofExactly(net: Network, s: Snapshot, idx: nat)
    requires s.pages != []
    ensures Page(net, s, idx).1 == Eof <==> Ended(Page(net, s, idx).0, idx)
    ensures Ended(s, idx) ==> Page(net, s, idx) == (s, Eof)
    ensures idx <= |s.pages| && Page(net, s, idx).1 == Eof ==> Ended(s, idx)
  {
    ExtendReaches(net, s, idx);
  }

  /** Load number `t` of `url` gives a page with tracks. */
  predicate Brings(net: Network, t: nat, url: string) {
    url != "" && LoadPage(net, t, url).Loaded? && LoadPage(net, t, url).page.tracks != []
  }

  /**
   What decides whether the next page arrives, read off the pages and the clock: a known
   page has tracks or its own url brings them; one behind the last known page is linked,
   loads, and has tracks or is brought by its own url one load later.
   */
  predicate Arrives(net: Network, s: Snapshot, idx: nat)
    requires s.pages != [] && idx <= |s.pages|
  {
    if idx < |s.pages| then s.pages[idx].tracks != [] || Brings(net, s.clock, s.pages[idx].pageUrl)
    else
      var next := s.pages[|s.pages| - 1].nextPageUrl;
      && next != ""
      && var l := LoadPage(net, s.clock, next);
         l.Loaded? && (l.page.tracks != [] || Brings(net, s.clock + 1, l.page.pageUrl))
  }

  lemma ServedExactly(net: Network, s: Snapshot, idx: nat)
    requires s.pages != [] && idx <= |s.pages|
    ensures Page(net, s, idx).1.Served? && Page(net, s, idx).1.tracks != [] <==> Arrives(net, s, idx)
  {
    if idx == |s.pages| {
      var next := s.pages[idx - 1].nextPageUrl;
      if next != "" && LoadPage(net, s.clock, next).Loaded? {
        var t := Snapshot(s.pages + [LoadPage(net, s.clock, next).page], s.clock + 1);
        assert Extend(net, t, idx) == (t, Reached);
      }
    }
  }

  /** Load number `t` of `url` fails, and the cause is io.EOF. */
  predicate CutsOff(net: Network, t: nat, url: string) {
    url != "" && LoadPage(net, t, url) == LoadFailed(true)
  }

  /** What decides whether the request for the next page fails with that cause. */
  predicate CutOff(net: Network, s: Snapshot, idx: nat)
    requires s.pages != [] && idx <= |s.pages|
  {
    if idx < |s.pages| then s.pages[idx].tracks == [] && CutsOff(net, s.clock, s.pages[idx].pageUrl)
    else
      var next := s.pages[|s.pages| - 1].nextPageUrl;
      || CutsOff(net, s.clock, next)
      || (next != "" &&
          var l := LoadPage(net, s.clock, next);
          l.Loaded? && l.page.tracks == [] && CutsOff(net, s.clock + 1, l.page.pageUrl))
  }

  /** The last load made was one of those. */
  ghost predicate JustCut(net: Network, s: Snapshot) {
    exists t: nat, url: string :: CutsOff(net, t, url) && t + 1 == s.clock
  }

  lemma CutOffExactly(net: Network, s: Snapshot, idx: nat)
    requires s.pages != [] && idx <= |s.pages|
    ensures Page(net, s, idx).1 == Failed(true) <==> CutOff(net, s, idx)
    ensures CutOff(net, s, idx) ==> JustCut(net, Page(net, s, idx).0)
  {
    if idx == |s.pages| {
      var next := s.pages[idx - 1].nextPageUrl;
      if next != "" && LoadPage(net, s.clock, next).Loaded? {
        var t := Snapshot(s.pages + [LoadPage(net, s.clock, next).page], s.clock + 1);
        assert Extend(net, t, idx) == (t, Reached);
      }
    }
  }

  // ----- the record is what the network answered

  /** Only hm urls are requested, and without the scheme. */
  lemma OnlyHmUrls(net: Network, t: nat, url: string)
    ensures LoadPage(net, t, "hm://" + url) == net.fetch(t, url)
    ensures !("hm://" <= url) ==> LoadPage(net, t, url) == LoadFailed(false)
  {
  }

  /** The answer to the last page's next link is recorded as it came, behind that page, and served if it has tracks. */
  lemma LinkRecorded(net: Network, s: Snapshot)
    requires s.pages != [] && s.pages[|s.pages| - 1].nextPageUrl != ""
    ensures match LoadPage(net, s.clock, s.pages[|s.pages| - 1].nextPageUrl)
            case LoadFailed(eof) => Page(net, s, |s.pages|) == (Snapshot(s.pages, s.clock + 1), Failed(eof))
            case Loaded(p) =>
              p.tracks != [] ==>
                Page(net, s, |s.pages|) == (Snapshot(s.pages + [p], s.clock + 1), Served(p.tracks))
  {
    match LoadPage(net, s.clock, s.pages[|s.pages| - 1].nextPageUrl) {
      case LoadFailed(_) =>
      case Loaded(p) =>
        var t := Snapshot(s.pages + [p], s.clock + 1);
        assert Extend(net, t, |s.pages|) == (t, Reached);
    }
  }

  /** The answer to a known but empty page's own url is recorded as it came, in its place, and served. */
  lemma ReloadRecorded(net: Network, s: Snapshot, idx: nat)
    requires idx < |s.pages| && s.pages[idx].tracks == [] && s.pages[idx].pageUrl != ""
    ensures match LoadPage(net, s.clock, s.pages[idx].pageUrl)
            case LoadFailed(eof) => Page(net, s, idx) == (Snapshot(s.pages, s.clock + 1), Failed(eof))
            case Loaded(p) => Page(net, s, idx) == (Snapshot(s.pages[idx := p], s.clock + 1), Served(p.tracks))
  {
  }

  /**
   What one load makes of the record: nothing if it fails; else the answer as it came, behind
   the last page if that page's next link was asked for, or in place of an empty page whose
   own url was.
   */
  ghost predicate LoadStep(net: Network, s: Snapshot, t: Snapshot) {
    && s.pages != [] && t.clock == s.clock + 1
    && (|| (t.pages == s.pages && exists url :: LoadPage(net, s.clock, url).LoadFailed?)
        || (t.pages != [] && t.pages[..|t.pages| - 1] == s.pages &&
            LoadPage(net, s.clock, s.pages[|s.pages| - 1].nextPageUrl) == Loaded(t.pages[|s.pages|]))
        || (exists i :: 0 <= i < |s.pages| == |t.pages| &&
              s.pages[i].tracks == [] && t.pages == s.pages[i := t.pages[i]] &&
              LoadPage(net, s.clock, s.pages[i].pageUrl) == Loaded(t.pages[i])))
  }

  /** One load after another. */
  ghost predicate Loads(net: Network, trace: seq<Snapshot>) {
    trace != [] && forall i :: 0 <= i < |trace| - 1 ==> LoadStep(net, trace[i], trace[i + 1])
  }

  ghost predicate Leads(net: Network, s: Snapshot, trace: seq<Snapshot>, t: Snapshot) {
    && Loads(net, trace) && trace[0] == s && trace[|trace| - 1] == t
    && |trace| == 1 + t.clock - s.clock
  }

  lemma LoadsOnce(net: Network, s: Snapshot, t: Snapshot)
    requires s == t || LoadStep(net, s, t)
    ensures Leads(net, s, if s == t then [s] else [s, t], t)
  {
  }

  lemma LoadsJoin(net: Network, s: Snapshot, a: seq<Snapshot>, t: Snapshot, b: seq<Snapshot>, u: Snapshot)
    requires Leads(net, s, a, t) && Leads(net, t, b, u)
    ensures Leads(net, s, a + b[1..], u)
  {
    var c := a + b[1..];
    forall i | 0 <= i < |c| - 1
      ensures LoadStep(net, c[i], c[i + 1])
    {
      if i < |a| - 1 {
        assert LoadStep(net, a[i], a[i + 1]);
      } else {
        assert LoadStep(net, b[i + 1 - |a|], b[i + 2 - |a|]);
        assert c[i] == b[i + 1 - |a|];
      }
    }
  }

  lemma {:induction false} ExtendByLoads(net: Network, s: Snapshot, idx: nat) returns (trace: seq<Snapshot>)
    requires s.pages != []
    ensures Leads(net, s, trace, Extend(net, s, idx).0)
    decreases if idx < |s.pages| then 0 else 1 + idx - |s.pages|
  {
    var next := s.pages[|s.pages| - 1].nextPageUrl;
    if idx < |s.pages| || next == "" {
      trace := [s];
    } else {
      match LoadPage(net, s.clock, next) {
        case LoadFailed(_) =>
          trace := [s, s.(clock := s.clock + 1)];
        case Loaded(p) =>
          var t := Snapshot(s.pages + [p], s.clock + 1);
          assert t.pages[..|t.pages| - 1] == s.pages;
          LoadsOnce(net, s, t);
          var more := ExtendByLoads(net, t, idx);
          LoadsJoin(net, s, [s, t], t, more, Extend(net, s, idx).0);
          trace := [s, t] + more[1..];
      }
    }
  }

  lemma ServeStep(net: Network, s: Snapshot, idx: nat)
    requires idx < |s.pages|
    ensures Serve(net, s, idx).0 == s || LoadStep(net, s, Serve(net, s, idx).0)
  {
    var t := Serve(net, s, idx).0;
    if t != s && t.pages != s.pages {
      assert s.pages[idx].tracks == [] && t.pages == s.pages[idx := t.pages[idx]];
    }
  }

  lemma PageByLoads(net: Network, s: Snapshot, idx: nat) returns (trace: seq<Snapshot>)
    requires s.pages != []
    ensures Leads(net, s, trace, Page(net, s, idx).0)
  {
    hide LoadStep;
    var t := Extend(net, s, idx).0;
    trace := ExtendByLoads(net, s, idx);
    ExtendReaches(net, s, idx);
    if idx < |t.pages| {
      var u := Serve(net, t, idx).0;
      ServeStep(net, t, idx);
      LoadsOnce(net, t, u);
      LoadsJoin(net, s, trace, t, if t == u then [t] else [t, u], u);
      trace := trace + (if t == u then [t] else [t, u])[1..];
    }
  }

  /** The record after a run of requests. */
  function Requests(net: Network, s: Snapshot, idxs: seq<nat>): (t: Snapshot)
    requires s.pages != []
    ensures t.pages != []
    decreases |idxs|
  {
    if idxs == [] then s
    else
      PageGrows(net, s, idxs[0]);
      Requests(net, Page(net, s, idxs[0]).0, idxs[1..])
  }

  /**
   Over every run of requests the record changes load by load, one for each tick of the
   clock, and each load leaves it alone or stores the answer verbatim where it belongs.
   */
  lemma {:induction false} RequestsByLoads(net: Network, s: Snapshot, idxs: seq<nat>)
    requires s.pages != []
    ensures exists trace :: Leads(net, s, trace, Requests(net, s, idxs))
    decreases |idxs|
  {
    hide LoadStep, Page;
    if idxs == [] {
      LoadsOnce(net, s, s);
      assert Leads(net, s, [s], Requests(net, s, idxs));
    } else {
      var t := Page(net, s, idxs[0]).0;
      PageGrows(net, s, idxs[0]);
      var a := PageByLoads(net, s, idxs[0]);
      RequestsByLoads(net, t, idxs[1..]);
      var b :| Leads(net, t, b, Requests(net, t, idxs[1..]));
      LoadsJoin(net, s, a, t, b, Requests(net, s, idxs));
    }
  }

  /** So every page that is new or changed is word for word an answer given during the run. */
  lemma PagesAreAnswers(net: Network, s: Snapshot, idxs: seq<nat>, i: nat)
    requires s.pages != [] && i < |Requests(net, s, idxs).pages|
    ensures var t := Requests(net, s, idxs);
            (i < |s.pages| && t.pages[i] == s.pages[i]) || IsAnswer(net, s.clock, t.clock, t.pages[i])
  {
    RequestsByLoads(net, s, idxs);
    var trace :| Leads(net, s, trace, Requests(net, s, idxs));
    TraceAnswers(net, s, trace, Requests(net, s, idxs), i);
  }

  /** Some load from number `from` up to `to` was answered with `page`. */
  ghost predicate IsAnswer(net: Network, from: nat, to: nat, page: ContextPage) {
    exists t: nat, url: string :: LoadPage(net, t, url) == Loaded(page) && from <= t < to
  }

  lemma {:induction false} TraceAnswers(net: Network, s: Snapshot, trace: seq<Snapshot>, t: Snapshot, i: nat)
    requires Leads(net, s, trace, t) && i < |t.pages|
    ensures (i < |s.pages| && t.pages[i] == s.pages[i]) || IsAnswer(net, s.clock, t.clock, t.pages[i])
    decreases |trace|
  {
    if |trace| > 1 {
      var k := |trace| - 2;
      assert LoadStep(net, trace[k], trace[k + 1]);
      assert Leads(net, s, trace[..k + 1], trace[k]);
      if i < |trace[k].pages| && trace[k].pages[i] == t.pages[i] {
        TraceAnswers(net, s, trace[..k + 1], trace[k], i);
      }
    }
  }

  // ----- the resolver object

  class ContextResolver {
    const net: Network
    var pages: seq<ContextPage>
    var clock: nat

    constructor (net: Network, pages: seq<ContextPage>)
      ensures this.net == net && State() == Snapshot(pages, 0)
    {
      this.net, this.pages, this.clock := net, pages, 0;
    }

    ghost function State(): Snapshot
      reads this
    {
      Snapshot(pages, clock)
    }

    method GetPage(idx: nat) returns (r: PageResult)
      requires pages != []
      modifies this
      ensures (State(), r) == Page(net, old(State()), idx)
    {
      while idx >= |pages|
        invariant pages != []
        invariant Page(net, State(), idx) == Page(net, old(State()), idx)
        decreases idx - |pages|
      {
        var lastPage := pages[|pages| - 1];
        if |lastPage.nextPageUrl| == 0 {
          return Eof;
        }
        var newPage := LoadPage(net, clock, lastPage.nextPageUrl);
        clock := clock + 1;
        if newPage.LoadFailed? {
          return Failed(newPage.eof);
        }
        pages := pages + [newPage.page];
      }

      var page := pages[idx];
      if |page.tracks| == 0 {
        if |page.pageUrl| == 0 {
          return Failed(false);
        }
        var newPage := LoadPage(net, clock, page.pageUrl);
        clock := clock + 1;
        if newPage.LoadFailed? {
          return Failed(newPage.eof);
        }
        pages := pages[idx := newPage.page];
        page := newPage.page;
      }
      return Served(page.tracks);
    }
  }
}
