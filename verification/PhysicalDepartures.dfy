/** Where the merging loop as written departs from what it is described to do: reachable runs
    of the allocator (crates/core/src/memory/physical_memory.rs). */
module PhysicalDepartures {
  import opened Wrappers
  import opened Types
  import opened Tiling
  import opened PhysicalMemory
  import opened PhysicalRuns

  /** `n` one-page grants from the start of an `m`-page memory, and the free remainder. */
  ghost function PageGrants(n: nat, m: nat): seq<PhysicalMemoryArea>
    requires n <= m
  {
    seq(n, k requires 0 <= k < n => Tile(k * PAGE_SIZE, PAGE_SIZE, ALLOCATED))
    + (if n < m then [Tile(n * PAGE_SIZE, (m - n) * PAGE_SIZE, FREE)] else [])
  }

  ghost function TakePages(n: nat, m: nat): seq<Request> {
    seq(n, _ => Allocate(0, m * PAGE_SIZE, PAGE_SIZE, PAGE_SIZE))
  }

  lemma TakePagesWellFormed(n: nat, m: nat)
    requires 0 < m && (m + 2) * PAGE_SIZE <= U64
    ensures forall r | r in TakePages(n, m) :: WellFormed(m * PAGE_SIZE, r)
  {
    PageIsPowerOfTwo();
  }

  ghost function PageRun(n: nat, m: nat): (w: World)
    requires 0 < m && (m + 2) * PAGE_SIZE <= U64
    ensures Safe(w, m * PAGE_SIZE)
  {
    TakePagesWellFormed(n, m);
    Run(m * PAGE_SIZE, TakePages(n, m))
  }

  /** Asking for one page at a time fills the memory from the bottom. */
  lemma {:induction false} FillWithPages(n: nat, m: nat)
    requires n <= m && 0 < m && (m + 2) * PAGE_SIZE <= U64
    ensures PageRun(n, m).areas == PageGrants(n, m)
  {
    TakePagesWellFormed(n, m);
    if n == 0 {
      assert PageGrants(0, m) == Boot(m * PAGE_SIZE).areas;
    } else {
      var rs, before := TakePages(n, m), TakePages(n - 1, m);
      assert rs[..|rs| - 1] == before;
      FillWithPages(n - 1, m);
      TakePagesWellFormed(n - 1, m);
      var w := PageRun(n - 1, m);
      assert rs[|rs| - 1] == Allocate(0, m * PAGE_SIZE, PAGE_SIZE, PAGE_SIZE);
      NextPage(w, n - 1, m);
    }
  }

  lemma NextPage(w: World, n: nat, m: nat)
    requires n < m && (m + 2) * PAGE_SIZE <= U64 && w.areas == PageGrants(n, m)
    requires Tiles(w.areas, 0, m * PAGE_SIZE)
    requires WellFormed(m * PAGE_SIZE, Allocate(0, m * PAGE_SIZE, PAGE_SIZE, PAGE_SIZE))
    ensures Step(w, m * PAGE_SIZE, Allocate(0, m * PAGE_SIZE, PAGE_SIZE, PAGE_SIZE)).areas == PageGrants(n + 1, m)
  {
    hide Tiles, PageGrants, SplitAt, AlignUp;
    SoundIsSearchable(w.areas, m * PAGE_SIZE, 0, PAGE_SIZE, PAGE_SIZE);
    NextFit(n, m);
    SplitLastPage(n, m);
  }

  lemma NextFit(n: nat, m: nat)
    requires n < m && (m + 2) * PAGE_SIZE <= U64
    requires Searchable(PageGrants(n, m), 0, PAGE_SIZE)
    ensures FirstFit(PageGrants(n, m), 0, m * PAGE_SIZE, PAGE_SIZE, PAGE_SIZE, 0) == Some(n)
    ensures n < |PageGrants(n, m)| && PageGrants(n, m)[n] == Tile(n * PAGE_SIZE, (m - n) * PAGE_SIZE, FREE)
    ensures Candidate(PageGrants(n, m)[n], 0, PAGE_SIZE) == n * PAGE_SIZE
  {
    hide AlignUp;
    var ts := PageGrants(n, m);
    PageIsPowerOfTwo();
    assert ts[n] == Tile(n * PAGE_SIZE, (m - n) * PAGE_SIZE, FREE);
    assert Max(ts[n].base, 0) + (PAGE_SIZE - 1) < U64;
    AlignUpIsLeastMultiple(n * PAGE_SIZE, PAGE_SIZE);
    assert (n * PAGE_SIZE) % PAGE_SIZE == 0;
    assert Fits(ts[n], 0, m * PAGE_SIZE, PAGE_SIZE, PAGE_SIZE);
    assert forall k | 0 <= k < n :: ts[k].attr == ALLOCATED;
  }

  lemma SplitLastPage(n: nat, m: nat)
    requires n < m
    ensures SplitAt(PageGrants(n, m), n, n * PAGE_SIZE, PAGE_SIZE, ALLOCATED) == PageGrants(n + 1, m)
  {
    var ts := PageGrants(n, m);
    assert ts[n + 1..] == [];
    assert ts[..n] == seq(n, k requires 0 <= k < n => Tile(k * PAGE_SIZE, PAGE_SIZE, ALLOCATED));
  }

  /** A reachable failure: hold at least three one-page grants in a memory of at least four
      areas, release the first, and the loop as written panics. */
  lemma FirstReleasePanics(n: nat, m: nat)
    requires 3 <= n <= m && 4 <= m && (m + 2) * PAGE_SIZE <= U64
    ensures var ts := PageRun(n, m).areas;
            && Names(ts, 0, 0, PAGE_SIZE)
            && MergeOutcome(Marked(ts, 0, Free)) == None
  {
    hide PageRun, PageGrants, Safe, MergeOutcome, Marked, Names;
    FillWithPages(n, m);
    FirstOfManyPages(n, m);
  }

  lemma FirstOfManyPages(n: nat, m: nat)
    requires 3 <= n <= m && 4 <= m
    ensures Names(PageGrants(n, m), 0, 0, PAGE_SIZE)
    ensures MergeOutcome(Marked(PageGrants(n, m), 0, Free)) == None
  {
    var marked := Marked(PageGrants(n, m), 0, Free);
    assert CanMergeWith(marked[1], marked[2]);
  }

  /** The other departure, with the memory full of three grants: the loop completes but joins
      the two that are still held, so neither can be released any more. */
  lemma HeldGrantsAreJoined()
    ensures var w := PageRun(3, 3);
            var after := MergeOutcome(Marked(w.areas, 0, Free));
            && after == Some([Tile(0, PAGE_SIZE, FREE), Tile(PAGE_SIZE, 2 * PAGE_SIZE, ALLOCATED)])
            && forall i: nat :: !Names(after.value, i, PAGE_SIZE, PAGE_SIZE)
                                && !Names(after.value, i, 2 * PAGE_SIZE, PAGE_SIZE)
  {
    hide MergeOutcome, Marked, Safe, PageGrants, PageRun;
    FillWithPages(3, 3);
    ThreeFullPages();
  }

  lemma ThreeFullPages()
    ensures MergeOutcome(Marked(PageGrants(3, 3), 0, Free))
            == Some([Tile(0, PAGE_SIZE, FREE), Tile(PAGE_SIZE, 2 * PAGE_SIZE, ALLOCATED)])
  {
    var x, y, z := Tile(0, PAGE_SIZE, FREE), Tile(PAGE_SIZE, PAGE_SIZE, ALLOCATED), Tile(2 * PAGE_SIZE, PAGE_SIZE, ALLOCATED);
    var marked := Marked(PageGrants(3, 3), 0, Free);
    assert marked == [x, y, z];
    assert marked[3..] == [] && marked[..1] == [x];
    assert JoinedAt(marked, 1) == [x, Joined(y, z)];
  }
}
