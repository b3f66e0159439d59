/**
 The paged list and its iterator as objects (tracks/paged_list.go).  Every method is
 proved against its effect on the value in module Paging or Shuffling.
 */
module PagedLists {
  import opened Resolver
  import opened Paging
  import opened Shuffling

  /** The numbers a shuffle of `n` elements draws, all of them before the first swap. */
  method DrawExchanges(rnd: Rand, n: nat) returns (exchanges: seq<nat>)
    requires n > 1
    modifies rnd
    ensures exchanges == Draws(rnd.src, old(rnd.state), n)
  {
    exchanges := [];
    ghost var left := Draws(rnd.src, rnd.state, n);
    for i := 0 to n - 1
      invariant |exchanges| == i
      invariant left == Draws(rnd.src, rnd.state, n - i)
      invariant exchanges + left == Draws(rnd.src, old(rnd.state), n)
    {
      var j := rnd.Intn(n - i);
      assert left == [j] + left[1..];
      assert exchanges + left == (exchanges + [j]) + left[1..];
      exchanges, left := exchanges + [j], left[1..];
    }
  }

  class PagedList {
    const pages: ContextResolver
    var list: seq<Item>
    var pos: int

    constructor (pages: ContextResolver)
      ensures this.pages == pages && list == [] && pos == -1
    {
      this.pages, this.list, this.pos := pages, [], -1;
    }

    ghost function State(): Paged
      reads this, pages
    {
      Paged(list, pos, pages.State())
    }

    method FetchNextPage() returns (pageIdx: nat, r: Fetch)
      requires pages.pages != []
      modifies this`list, pages
      ensures (State(), r) == Paging.FetchNextPage(pages.net, old(State()))
      ensures pageIdx == NextPageIdx(old(list))
    {
      if |list| == 0 {
        pageIdx := 0;
      } else {
        var curr := list[|list| - 1];
        pageIdx := curr.pageIdx + 1;
      }

      var items := pages.GetPage(pageIdx);
      if items.Eof? || items == Failed(true) {
        return pageIdx, NoMorePages;
      } else if items.Failed? || |items.tracks| == 0 {
        return pageIdx, FetchFailed;
      }

      ghost var before, tracks := list, items.tracks;
      for trackIdx := 0 to |items.tracks|
        invariant list == before + PageItems(pageIdx, tracks)[..trackIdx]
        invariant pages.State() == Page(pages.net, old(pages.State()), pageIdx).0
      {
        list := list + [Item(items.tracks[trackIdx], pageIdx, trackIdx)];
      }
      assert PageItems(pageIdx, tracks)[..|tracks|] == PageItems(pageIdx, tracks);
      return pageIdx, Fetched;
    }

    method MoveStart() returns (ok: bool)
      requires pages.pages != []
      modifies this, pages
      ensures ok <==> old(list) != [] || Paging.FetchNextPage(pages.net, old(State())).1 == Fetched
      ensures State() ==
              var st := if old(list) != [] then old(State())
                        else Paging.FetchNextPage(pages.net, old(State())).0;
              if ok then st.(pos := 0) else st
    {
      if |list| == 0 {
        var _, r := FetchNextPage();
        if r != Fetched {
          return false;
        }
      }
      pos := 0;
      return true;
    }

    method Move(iter: Iterator)
      requires !iter.err
      modifies this`pos
      ensures pos == iter.pos
    {
      pos := iter.pos;
    }

    method Get() returns (e: Item)
      requires 0 <= pos < |list|
      ensures e == list[pos]
    {
      e := list[pos];
    }

    method Clear()
      modifies this
      ensures list == [] && pos == -1
    {
      list, pos := [], -1;
    }

    method Swap(i: nat, j: nat)
      requires i < |list| && j < |list|
      modifies this
      ensures Deck(list, pos) == SwapAt(old(Deck(list, pos)), i, j)
    {
      list := list[i := list[j]][j := list[i]];
      if i == pos {
        pos := j;
      } else if j == pos {
        pos := i;
      }
    }

    /** The swap inside both shuffling loops, where `idx` stands in for the cursor. */
    method Exchange(i: nat, j: nat, idx: int) returns (idx': int)
      requires i < |list| && j < |list|
      modifies this`list
      ensures Deck(list, idx') == SwapAt(Deck(old(list), idx), i, j)
    {
      list := list[i := list[j]][j := list[i]];
      idx' := if i == idx then j else if j == idx then i else idx;
    }

    method Shuffle(rnd: Rand)
      modifies this, rnd
      ensures Deck(list, pos) == Shuffling.Shuffle(rnd.src, old(rnd.state), old(Deck(list, pos)))
    {
      if |list| <= 1 {
        return;
      }
      ghost var n, goal := |list|, Shuffling.Shuffle(rnd.src, rnd.state, Deck(list, pos));
      var idx := pos;
      var i := |list| - 1;
      while i > 0
        invariant 0 <= i < n == |list|
        invariant Mix(Deck(list, idx), Draws(rnd.src, rnd.state, i + 1), i + 1) == goal
      {
        ghost var d := Deck(list, idx);
        MixDraws(rnd.src, rnd.state, d, i + 1);
        var j := rnd.Intn(i + 1);
        idx := Exchange(i, j, idx);
        assert Deck(list, idx) == SwapAt(d, i, j);
        i := i - 1;
      }
      pos := idx;
    }

    method Unshuffle(rnd: Rand)
      modifies this, rnd
      ensures Deck(list, pos) == Shuffling.Unshuffle(rnd.src, old(rnd.state), old(Deck(list, pos)))
    {
      if |list| <= 1 {
        return;
      }
      var n := |list|;
      ghost var js := Draws(rnd.src, rnd.state, n);
      ghost var start := Deck(list, pos);

      var exchanges := DrawExchanges(rnd, n);
      var idx := pos;
      for i := 1 to n
        invariant |list| == n && Fits(js[n - i..], i)
        invariant Deck(list, idx) == Unmix(start, js[n - i..], i)
      {
        var j := exchanges[n - i - 1];
        UnmixTurn(start, js, i);
        idx := Exchange(i, j, idx);
      }
      assert js[0..] == js;
      pos := idx;
    }
  }

  class Iterator {
    const list: PagedList
    var pos: int
    var err: bool

    constructor Here(list: PagedList)
      requires list.pos >= 0
      ensures this.list == list && pos == list.pos && !err
    {
      this.list, this.pos, this.err := list, list.pos, false;
    }

    constructor Start(list: PagedList)
      ensures this.list == list && pos == -1 && !err
    {
      this.list, this.pos, this.err := list, -1, false;
    }

    method Prev() returns (ok: bool)
      requires pos >= 0
      modifies this
      ensures ok == (old(pos) > 0) && !err
      ensures pos == if ok then old(pos) - 1 else old(pos)
    {
      if pos == 0 {
        err := false;
        return false;
      }
      pos := pos - 1;
      err := false;
      return true;
    }

    method Next() returns (ok: bool)
      requires Valid(list.State()) && -1 <= pos < |list.list|
      modifies this, list`list, list.pages
      ensures IterNext(list.pages.net, old(list.State()), old(pos)) == Advance(list.State(), ok, err)
      ensures pos == if ok then old(pos) + 1 else old(pos)
    {
      ghost var net, st := list.pages.net, list.State();
      FetchExtends(net, st);
      while pos + 1 >= |list.list|
        invariant pos == old(pos)
        invariant list.State() == st ||
                  (pos + 1 >= |st.list| && (list.State(), Fetched) == FetchNextPage(net, st))
        decreases pos + 1 - |list.list|
      {
        var _, r := list.FetchNextPage();
        if r == NoMorePages {
          err := false;
          return false;
        } else if r == FetchFailed {
          err := true;
          return false;
        }
      }
      pos := pos + 1;
      err := false;
      return true;
    }

    method Get() returns (e: Item)
      requires 0 <= pos < |list.list|
      ensures e == list.list[pos]
    {
      e := list.list[pos];
    }
  }
}
