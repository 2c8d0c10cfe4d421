/**
 * `init_heap` of `src/allocator.rs`: map every page of the fixed heap window
 * `[HeapStart, HeapStart + HeapSize)` to a fresh frame, in ascending order,
 * stopping at the first error without undoing earlier mappings, and only once
 * every page is mapped hand the window to the global arena.
 */
module Heap {
  import opened Wrappers
  import opened Paging
  import FrameAllocator
  import opened PageMapper

  /** Virtual base address of the heap window. */
  const HeapStart: nat := 0x4444_4444_0000

  /** Size of the heap window in bytes: 10 MiB. */
  const HeapSize: nat := 10 * 1024 * 1024

  /** The flags every heap page is mapped with. */
  const HeapFlags: set<Flag> := {Present, Writable}

  // ---------------------------------------------------------------------------
  // The page range

  /** `Page::range_inclusive(first, last)`: every page from `first` up to and including `last`. */
  function PageRangeInclusive(first: Page, last: Page): (r: seq<Page>)
    ensures r != [] <==> first.startAddress <= last.startAddress
    ensures r != [] ==> r[0] == first
    ensures forall k :: 0 <= k < |r| ==> first.startAddress <= r[k].startAddress <= last.startAddress
  {
    if first.startAddress <= last.startAddress then
      seq((last.startAddress - first.startAddress) / PageSize + 1, (k: nat) => Page(first.startAddress + k * PageSize))
    else
      []
  }

  /** The pages from the one containing `start` to the one containing `start + size - 1`. */
  function PageRangeCovering(start: nat, size: nat): (r: seq<Page>)
    requires size > 0
    ensures r != [] && r[0] == PageContaining(start)
    ensures forall k :: 0 <= k < |r| ==> r[k].startAddress < start + size
  {
    PageRangeInclusive(PageContaining(start), PageContaining(start + size - 1))
  }

  /** The pages `init_heap` maps. */
  function HeapPages(): (r: seq<Page>)
    ensures r != [] && r[0].startAddress == HeapStart
  {
    PageRangeCovering(HeapStart, HeapSize)
  }

  /**
   * The inclusive range runs from the page holding the first byte to the page
   * holding the last byte, in steps of one page, and every byte of
   * `[start, start + size)` lies in one of its pages.
   */
  lemma PageRangeCovers(start: nat, size: nat)
    requires size > 0
    ensures var pages := PageRangeCovering(start, size);
      && |pages| == (AlignDown(start + size - 1) - AlignDown(start)) / PageSize + 1
      && pages[0] == PageContaining(start)
      && pages[|pages| - 1] == PageContaining(start + size - 1)
      && (forall k :: 0 <= k < |pages| ==> pages[k].startAddress == AlignDown(start) + k * PageSize)
      && (forall a :: start <= a < start + size ==> exists k :: 0 <= k < |pages| && pages[k] == PageContaining(a))
  {
    var pages := PageRangeCovering(start, size);
    var first, last := AlignDown(start), AlignDown(start + size - 1);
    AlignDownMonotone(start, start + size - 1);
    assert pages[|pages| - 1].startAddress == last by {
      AlignedDistance(last, first);
    }
    forall a | start <= a < start + size
      ensures exists k :: 0 <= k < |pages| && pages[k] == PageContaining(a)
    {
      var k := PageRangeIndex(start, size, a);
    }
  }

  /** Two block starts lie a whole number of pages apart. */
  lemma AlignedDistance(hi: nat, lo: nat)
    requires lo <= hi && hi % PageSize == 0 && lo % PageSize == 0
    ensures (hi - lo) % PageSize == 0
    ensures lo + (hi - lo) / PageSize * PageSize == hi
  {
    assert hi - lo == (hi / PageSize - lo / PageSize) * PageSize;
  }

  /** The page holding byte `a` of `[start, start + size)` is element `k` of the range. */
  lemma PageRangeIndex(start: nat, size: nat, a: nat) returns (k: nat)
    requires size > 0 && start <= a < start + size
    ensures k < |PageRangeCovering(start, size)| && PageRangeCovering(start, size)[k] == PageContaining(a)
  {
    var first, last := AlignDown(start), AlignDown(start + size - 1);
    AlignDownMonotone(start, a);
    AlignDownMonotone(a, start + size - 1);
    AlignedDistance(AlignDown(a), first);
    AlignedDistance(last, first);
    k := (AlignDown(a) - first) / PageSize;
  }

  /** With the given constants the heap is exactly 2560 contiguous pages starting at `HeapStart`. */
  lemma HeapPagesLayout()
    ensures |HeapPages()| == HeapSize / PageSize == 2560
    ensures forall k :: 0 <= k < |HeapPages()| ==> HeapPages()[k] == Page(HeapStart + k * PageSize)
  {
    PageRangeCovers(HeapStart, HeapSize);
  }

  /** No page occurs twice in a sequence of pages. */
  ghost predicate DistinctPages(pages: seq<Page>)
  {
    forall i, j :: 0 <= i < j < |pages| ==> pages[i] != pages[j]
  }

  /** The heap's 2560 pages are all different, so the loop never meets a page twice. */
  lemma HeapPagesDistinct()
    ensures |HeapPages()| == 2560 && DistinctPages(HeapPages())
  {
    HeapPagesLayout();
  }

  // ---------------------------------------------------------------------------
  // The global arena

  /** The arena's state: empty until `init` hands it a byte range. */
  datatype ArenaState = Empty | Ready(bottom: nat, size: nat)

  /** The global `LockedHeap`; only its empty-to-ready transition is modelled. */
  class LockedHeap {
    var state: ArenaState

    /** `LockedHeap::empty()`. */
    constructor ()
      ensures state == Empty
    {
      state := Empty;
    }

    /** `init(bottom, size)`: the arena takes over `[bottom, bottom + size)`; allowed once, on an empty arena. */
    method Init(bottom: nat, size: nat)
      requires state == Empty
      modifies this
      ensures state == Ready(bottom, size)
    {
      state := Ready(bottom, size);
    }
  }

  // ---------------------------------------------------------------------------
  // The mapping loop as a function

  /**
   * The `for page in page_range` loop with an allocator over the frame stream
   * `frames` whose cursor stands at `cursor`: take a
   * frame (or stop with `FrameAllocationFailed`), map the page to it with
   * `HeapFlags` (or stop with `map_to`'s error), flush, go on with the next page.
   */
  function MapHeapPages(frames: seq<PhysFrame>, pages: seq<Page>, pt: PageTables, cursor: nat,
                        walk: Page -> TableWalk): Run
    decreases |pages|
  {
    if pages == [] then
      Run(Ok(()), pt, cursor, [], 0)
    else if cursor >= |frames| then
      Run(Err(FrameAllocationFailed), pt, cursor + 1, [], 0)
    else
      var frame := frames[cursor];
      var step := MapToSpec(frames, pt, cursor + 1, pages[0], frame, HeapFlags, walk(pages[0]));
      if step.result.Err? then
        Run(step.result, step.state, step.cursor, [Drawn(frame, Leaked)] + step.drawn, 0)
      else
        var flushed := step.state.(unflushed := step.state.unflushed - {pages[0]});
        var rest := MapHeapPages(frames, pages[1..], flushed, step.cursor, walk);
        Run(rest.result, rest.state, rest.cursor,
            [Drawn(frame, MapsPage(pages[0]))] + step.drawn + rest.drawn, 1 + rest.mapped)
  }

  /** From a strictly ascending stream, frames taken in order strictly increase. */
  lemma TakenAtIncreasing(frames: seq<PhysFrame>, cursor: nat, drawn: seq<Drawn>)
    requires FrameAllocator.StrictlyAscending(frames)
    requires TakenAt(frames, cursor, drawn)
    ensures forall i, j :: 0 <= i < j < |drawn| ==> drawn[i].frame.startAddress < drawn[j].frame.startAddress
  {
  }

  /**
   * One iteration draws the page's own frame and then whatever `map_to` draws,
   * the next frames of the stream in order.
   */
  lemma MapHeapStepDrawsStream(frames: seq<PhysFrame>, pt: PageTables, cursor: nat, page: Page, walk: TableWalk)
    requires cursor < |frames|
    ensures var step := MapToSpec(frames, pt, cursor + 1, page, frames[cursor], HeapFlags, walk);
      TakenAt(frames, cursor, [Drawn(frames[cursor], if step.result.Err? then Leaked else MapsPage(page))] + step.drawn)
  {
    var step := MapToSpec(frames, pt, cursor + 1, page, frames[cursor], HeapFlags, walk);
    MapToDrawsStream(frames, pt, cursor + 1, page, frames[cursor], HeapFlags, walk);
    var first := Drawn(frames[cursor], if step.result.Err? then Leaked else MapsPage(page));
    assert TakenAt(frames, cursor, [first]);
    TakenAtAppend(frames, cursor, [first], step.drawn);
  }

  /** The frames the loop draws, page frames and table frames alike, are the next ones of the frame stream, in order. */
  lemma {:induction false} MapHeapPagesDrawsStream(frames: seq<PhysFrame>, pages: seq<Page>, pt: PageTables,
                                                   cursor: nat, walk: Page -> TableWalk)
    ensures TakenAt(frames, cursor, MapHeapPages(frames, pages, pt, cursor, walk).drawn)
    decreases |pages|
  {
    if pages != [] && cursor < |frames| {
      var step := MapToSpec(frames, pt, cursor + 1, pages[0], frames[cursor], HeapFlags, walk(pages[0]));
      var run := MapHeapPages(frames, pages, pt, cursor, walk);
      MapHeapStepDrawsStream(frames, pt, cursor, pages[0], walk(pages[0]));
      if step.result.Ok? {
        var head := [Drawn(frames[cursor], MapsPage(pages[0]))] + step.drawn;
        var flushed := step.state.(unflushed := step.state.unflushed - {pages[0]});
        var rest := MapHeapPages(frames, pages[1..], flushed, step.cursor, walk);
        assert step.cursor == cursor + |head| by {
          MapToDrawsStream(frames, pt, cursor + 1, pages[0], frames[cursor], HeapFlags, walk(pages[0]));
        }
        MapHeapPagesDrawsStream(frames, pages[1..], flushed, step.cursor, walk);
        TakenAtAppend(frames, cursor, head, rest.drawn);
        assert run.drawn == head + rest.drawn;
      } else {
        assert run.drawn == [Drawn(frames[cursor], Leaked)] + step.drawn;
      }
    }
  }

  /**
   * The cursor counts every call to `allocate_frame`: one per frame drawn, and
   * one more for the call that found the stream exhausted.
   */
  lemma {:induction false} MapHeapPagesCountsCalls(frames: seq<PhysFrame>, pages: seq<Page>, pt: PageTables,
                                                   cursor: nat, walk: Page -> TableWalk)
    ensures var run := MapHeapPages(frames, pages, pt, cursor, walk);
      run.cursor == cursor + |run.drawn| + (if run.result == Err(FrameAllocationFailed) then 1 else 0)
    decreases |pages|
  {
    if pages != [] && cursor < |frames| {
      var step := MapToSpec(frames, pt, cursor + 1, pages[0], frames[cursor], HeapFlags, walk(pages[0]));
      MapToDrawsStream(frames, pt, cursor + 1, pages[0], frames[cursor], HeapFlags, walk(pages[0]));
      if step.result.Ok? {
        var flushed := step.state.(unflushed := step.state.unflushed - {pages[0]});
        MapHeapPagesCountsCalls(frames, pages[1..], flushed, step.cursor, walk);
      }
    }
  }

  /** The loop maps at most every page, and all of them exactly when it returns `Ok`. */
  lemma {:induction false} MapHeapPagesProgress(frames: seq<PhysFrame>, pages: seq<Page>, pt: PageTables,
                                                cursor: nat, walk: Page -> TableWalk)
    ensures var run := MapHeapPages(frames, pages, pt, cursor, walk);
      && run.mapped <= |pages|
      && (run.result.Ok? <==> run.mapped == |pages|)
    decreases |pages|
  {
    if pages != [] && cursor < |frames| {
      var frame := frames[cursor];
      var step := MapToSpec(frames, pt, cursor + 1, pages[0], frame, HeapFlags, walk(pages[0]));
      MapToEffect(frames, pt, cursor + 1, pages[0], frame, HeapFlags, walk(pages[0]));
      if step.result.Ok? {
        var flushed := step.state.(unflushed := step.state.unflushed - {pages[0]});
        MapHeapPagesProgress(frames, pages[1..], flushed, step.cursor, walk);
      }
    }
  }

  /**
   * No rollback and nothing else touched: every entry present before the loop
   * is still there unchanged, no page becomes stale in the translation cache,
   * and every intermediate table created stays.
   */
  lemma {:induction false} MapHeapPagesPreserves(frames: seq<PhysFrame>, pages: seq<Page>, pt: PageTables,
                                                 cursor: nat, walk: Page -> TableWalk)
    ensures var run := MapHeapPages(frames, pages, pt, cursor, walk);
      && (forall p :: p in pt.mappings ==> p in run.state.mappings && run.state.mappings[p] == pt.mappings[p])
      && run.state.unflushed <= pt.unflushed
      && |pt.tables| <= |run.state.tables| && run.state.tables[..|pt.tables|] == pt.tables
    decreases |pages|
  {
    if pages != [] && cursor < |frames| {
      var frame := frames[cursor];
      var step := MapToSpec(frames, pt, cursor + 1, pages[0], frame, HeapFlags, walk(pages[0]));
      MapToEffect(frames, pt, cursor + 1, pages[0], frame, HeapFlags, walk(pages[0]));
      MapToAppendsTables(frames, pt, cursor + 1, pages[0], frame, HeapFlags, walk(pages[0]));
      if step.result.Ok? {
        var flushed := step.state.(unflushed := step.state.unflushed - {pages[0]});
        var rest := MapHeapPages(frames, pages[1..], flushed, step.cursor, walk);
        MapHeapPagesPreserves(frames, pages[1..], flushed, step.cursor, walk);
        assert rest.state.tables[..|step.state.tables|] == step.state.tables;
        assert rest.state.tables[..|pt.tables|] == pt.tables;
      }
    }
  }

  /**
   * The first `mapped` pages of the range are the ones mapped, in order: each
   * was unmapped before and is now mapped with `HeapFlags` and flushed.
   */
  lemma {:induction false} MapHeapPagesMapsPrefix(frames: seq<PhysFrame>, pages: seq<Page>, pt: PageTables,
                                                  cursor: nat, walk: Page -> TableWalk)
    ensures var run := MapHeapPages(frames, pages, pt, cursor, walk);
      && run.mapped <= |pages|
      && (forall k :: 0 <= k < run.mapped ==>
            && pages[k] !in pt.mappings && pages[k] in run.state.mappings
            && run.state.mappings[pages[k]].flags == HeapFlags && pages[k] !in run.state.unflushed)
    decreases |pages|
  {
    if pages != [] && cursor < |frames| {
      var frame := frames[cursor];
      var step := MapToSpec(frames, pt, cursor + 1, pages[0], frame, HeapFlags, walk(pages[0]));
      MapToEffect(frames, pt, cursor + 1, pages[0], frame, HeapFlags, walk(pages[0]));
      if step.result.Ok? {
        var flushed := step.state.(unflushed := step.state.unflushed - {pages[0]});
        var rest := MapHeapPages(frames, pages[1..], flushed, step.cursor, walk);
        MapHeapPagesMapsPrefix(frames, pages[1..], flushed, step.cursor, walk);
        MapHeapPagesPreserves(frames, pages[1..], flushed, step.cursor, walk);
        var run := MapHeapPages(frames, pages, pt, cursor, walk);
        assert run.state == rest.state && run.mapped == 1 + rest.mapped;
        forall k | 0 <= k < run.mapped
          ensures pages[k] !in pt.mappings && pages[k] in run.state.mappings
          ensures run.state.mappings[pages[k]].flags == HeapFlags && pages[k] !in run.state.unflushed
        {
          if k > 0 {
            assert pages[k] == pages[1..][k - 1];
          } else {
            assert pages[0] in flushed.mappings && pages[0] !in flushed.unflushed;
          }
        }
      }
    }
  }

  /** No page outside the mapped prefix gains an entry. */
  lemma {:induction false} MapHeapPagesOnlyPrefixMapped(frames: seq<PhysFrame>, pages: seq<Page>, pt: PageTables,
                                                        cursor: nat, walk: Page -> TableWalk)
    ensures var run := MapHeapPages(frames, pages, pt, cursor, walk);
      && run.mapped <= |pages|
      && (forall p :: p in run.state.mappings && p !in pt.mappings ==> p in pages[..run.mapped])
    decreases |pages|
  {
    if pages != [] && cursor < |frames| {
      var frame := frames[cursor];
      var step := MapToSpec(frames, pt, cursor + 1, pages[0], frame, HeapFlags, walk(pages[0]));
      MapToEffect(frames, pt, cursor + 1, pages[0], frame, HeapFlags, walk(pages[0]));
      if step.result.Ok? {
        var flushed := step.state.(unflushed := step.state.unflushed - {pages[0]});
        var rest := MapHeapPages(frames, pages[1..], flushed, step.cursor, walk);
        MapHeapPagesOnlyPrefixMapped(frames, pages[1..], flushed, step.cursor, walk);
        var run := MapHeapPages(frames, pages, pt, cursor, walk);
        assert run.state == rest.state && run.mapped == 1 + rest.mapped;
        var prefix := pages[..run.mapped];
        assert prefix == [pages[0]] + pages[1..][..rest.mapped];
        forall p | p in rest.state.mappings && p !in pt.mappings
          ensures p in prefix
        {
          if p != pages[0] {
            assert p !in flushed.mappings;
            assert p in pages[1..][..rest.mapped];
          }
        }
      }
    }
  }

  /** A page mapped by the loop is mapped once: the mapped prefix holds no page twice. */
  lemma {:induction false} MapHeapPagesNoPageTwice(frames: seq<PhysFrame>, pages: seq<Page>, pt: PageTables,
                                                   cursor: nat, walk: Page -> TableWalk)
    ensures var run := MapHeapPages(frames, pages, pt, cursor, walk);
      forall i, j :: 0 <= i < j < run.mapped <= |pages| ==> pages[i] != pages[j]
    decreases |pages|
  {
    if pages != [] && cursor < |frames| {
      var frame := frames[cursor];
      var step := MapToSpec(frames, pt, cursor + 1, pages[0], frame, HeapFlags, walk(pages[0]));
      MapToEffect(frames, pt, cursor + 1, pages[0], frame, HeapFlags, walk(pages[0]));
      if step.result.Ok? {
        var flushed := step.state.(unflushed := step.state.unflushed - {pages[0]});
        var rest := MapHeapPages(frames, pages[1..], flushed, step.cursor, walk);
        MapHeapPagesNoPageTwice(frames, pages[1..], flushed, step.cursor, walk);
        MapHeapPagesMapsPrefix(frames, pages[1..], flushed, step.cursor, walk);
        var run := MapHeapPages(frames, pages, pt, cursor, walk);
        assert run.mapped == 1 + rest.mapped;
        forall i, j | 0 <= i < j < run.mapped <= |pages| ensures pages[i] != pages[j] {
          assert pages[j] == pages[1..][j - 1];
          if i > 0 {
            assert pages[i] == pages[1..][i - 1];
          }
        }
      }
    }
  }

  /** Every frame `drawn` records for a page is the frame that page maps to in `mappings`. */
  ghost predicate PageFramesIn(drawn: seq<Drawn>, mappings: map<Page, Mapping>)
  {
    forall i :: 0 <= i < |drawn| && drawn[i].use.MapsPage? ==>
      drawn[i].use.page in mappings && mappings[drawn[i].use.page].frame == drawn[i].frame
  }

  /** The property holds of a concatenation when it holds of both parts. */
  lemma PageFramesInAppend(head: seq<Drawn>, tail: seq<Drawn>, mappings: map<Page, Mapping>)
    requires PageFramesIn(head, mappings) && PageFramesIn(tail, mappings)
    ensures PageFramesIn(head + tail, mappings)
  {
    forall i | 0 <= i < |head + tail| && (head + tail)[i].use.MapsPage?
      ensures (head + tail)[i].use.page in mappings && mappings[(head + tail)[i].use.page].frame == (head + tail)[i].frame
    {
      if i < |head| {
        assert (head + tail)[i] == head[i];
      } else {
        assert (head + tail)[i] == tail[i - |head|];
      }
    }
  }

  /** A frame the loop drew for a page is that page's frame in the final tables. */
  lemma {:induction false} MapHeapPagesFrameOfPage(frames: seq<PhysFrame>, pages: seq<Page>, pt: PageTables,
                                                   cursor: nat, walk: Page -> TableWalk)
    ensures var run := MapHeapPages(frames, pages, pt, cursor, walk);
      PageFramesIn(run.drawn, run.state.mappings)
    decreases |pages|
  {
    if pages != [] && cursor < |frames| {
      var frame := frames[cursor];
      var step := MapToSpec(frames, pt, cursor + 1, pages[0], frame, HeapFlags, walk(pages[0]));
      MapToEffect(frames, pt, cursor + 1, pages[0], frame, HeapFlags, walk(pages[0]));
      var run := MapHeapPages(frames, pages, pt, cursor, walk);
      if step.result.Ok? {
        var flushed := step.state.(unflushed := step.state.unflushed - {pages[0]});
        var rest := MapHeapPages(frames, pages[1..], flushed, step.cursor, walk);
        MapHeapPagesFrameOfPage(frames, pages[1..], flushed, step.cursor, walk);
        MapHeapPagesPreserves(frames, pages[1..], flushed, step.cursor, walk);
        var head := [Drawn(frame, MapsPage(pages[0]))] + step.drawn;
        assert pages[0] in flushed.mappings && flushed.mappings[pages[0]].frame == frame;
        assert PageFramesIn(head, rest.state.mappings) by {
          forall i | 0 <= i < |head| && head[i].use.MapsPage?
            ensures head[i].use.page in rest.state.mappings && rest.state.mappings[head[i].use.page].frame == head[i].frame
          {
            if i == 0 {
              assert head[i] == Drawn(frame, MapsPage(pages[0]));
            }
          }
        }
        PageFramesInAppend(head, rest.drawn, rest.state.mappings);
        assert run.drawn == head + rest.drawn && run.state == rest.state;
      } else {
        assert run.drawn == [Drawn(frame, Leaked)] + step.drawn;
        assert PageFramesIn(run.drawn, run.state.mappings) by {
          forall i | 0 <= i < |run.drawn| ensures !run.drawn[i].use.MapsPage? {
            if i > 0 {
              assert run.drawn[i] == step.drawn[i - 1];
            }
          }
        }
      }
    }
  }

  /** Each of the first `count` pages has an entry in `drawn` that records a frame drawn for it. */
  ghost predicate PagesDrawn(pages: seq<Page>, count: nat, drawn: seq<Drawn>)
  {
    forall k :: 0 <= k < count && k < |pages| ==> exists i :: 0 <= i < |drawn| && drawn[i].use == MapsPage(pages[k])
  }

  /** A frame drawn for the first page, followed by frames drawn for the next ones, covers one page more. */
  lemma PagesDrawnCons(pages: seq<Page>, count: nat, head: seq<Drawn>, tail: seq<Drawn>)
    requires pages != [] && head != [] && head[0].use == MapsPage(pages[0])
    requires PagesDrawn(pages[1..], count, tail)
    ensures PagesDrawn(pages, count + 1, head + tail)
  {
    forall k | 0 <= k < count + 1 && k < |pages|
      ensures exists i :: 0 <= i < |head + tail| && (head + tail)[i].use == MapsPage(pages[k])
    {
      if k == 0 {
        assert (head + tail)[0] == head[0];
      } else {
        assert pages[k] == pages[1..][k - 1];
        var i :| 0 <= i < |tail| && tail[i].use == MapsPage(pages[1..][k - 1]);
        assert (head + tail)[|head| + i] == tail[i];
      }
    }
  }

  /** Every page the loop mapped has a frame drawn for it. */
  lemma {:induction false} MapHeapPagesDrawsForEachPage(frames: seq<PhysFrame>, pages: seq<Page>, pt: PageTables,
                                                        cursor: nat, walk: Page -> TableWalk)
    ensures var run := MapHeapPages(frames, pages, pt, cursor, walk);
      PagesDrawn(pages, run.mapped, run.drawn)
    decreases |pages|
  {
    if pages != [] && cursor < |frames| {
      var frame := frames[cursor];
      var step := MapToSpec(frames, pt, cursor + 1, pages[0], frame, HeapFlags, walk(pages[0]));
      if step.result.Ok? {
        var flushed := step.state.(unflushed := step.state.unflushed - {pages[0]});
        var rest := MapHeapPages(frames, pages[1..], flushed, step.cursor, walk);
        MapHeapPagesDrawsForEachPage(frames, pages[1..], flushed, step.cursor, walk);
        var head := [Drawn(frame, MapsPage(pages[0]))] + step.drawn;
        PagesDrawnCons(pages, rest.mapped, head, rest.drawn);
        var run := MapHeapPages(frames, pages, pt, cursor, walk);
        assert run.drawn == head + rest.drawn && run.mapped == rest.mapped + 1;
      }
    }
  }

  /** Every table in `tables` from index `from` on is a frame `drawn` records as an intermediate table. */
  ghost predicate NewTablesDrawn(tables: seq<PhysFrame>, from: nat, drawn: seq<Drawn>)
  {
    forall j :: from <= j < |tables| ==> Drawn(tables[j], IntermediateTable) in drawn
  }

  /** The tables one `map_to` call created are the frames it drew, recorded after the page's own frame. */
  lemma StepTablesDrawn(frames: seq<PhysFrame>, pt: PageTables, cursor: nat, page: Page, frame: PhysFrame,
                        walk: TableWalk, first: Drawn)
    ensures var step := MapToSpec(frames, pt, cursor, page, frame, HeapFlags, walk);
      NewTablesDrawn(step.state.tables, |pt.tables|, [first] + step.drawn)
  {
    var step := MapToSpec(frames, pt, cursor, page, frame, HeapFlags, walk);
    MapToAppendsTables(frames, pt, cursor, page, frame, HeapFlags, walk);
    var drawn := [first] + step.drawn;
    forall j | |pt.tables| <= j < |step.state.tables|
      ensures Drawn(step.state.tables[j], IntermediateTable) in drawn
    {
      var d := j - |pt.tables|;
      assert drawn[1 + d] == step.drawn[d];
      assert step.state.tables[|pt.tables| + d] == step.drawn[d].frame;
    }
  }

  /** Accounting for the tables of two consecutive runs accounts for all of them. */
  lemma NewTablesDrawnAppend(mid: seq<PhysFrame>, final: seq<PhysFrame>, from: nat, head: seq<Drawn>, tail: seq<Drawn>)
    requires from <= |mid| <= |final| && final[..|mid|] == mid
    requires NewTablesDrawn(mid, from, head) && NewTablesDrawn(final, |mid|, tail)
    ensures NewTablesDrawn(final, from, head + tail)
  {
    forall j | from <= j < |final|
      ensures Drawn(final[j], IntermediateTable) in head + tail
    {
      if j < |mid| {
        assert final[j] == final[..|mid|][j];
      }
    }
  }

  /** Every intermediate table the loop created is a frame drawn for that purpose. */
  lemma {:induction false} MapHeapPagesTablesDrawn(frames: seq<PhysFrame>, pages: seq<Page>, pt: PageTables,
                                                   cursor: nat, walk: Page -> TableWalk)
    ensures var run := MapHeapPages(frames, pages, pt, cursor, walk);
      NewTablesDrawn(run.state.tables, |pt.tables|, run.drawn)
    decreases |pages|
  {
    if pages != [] && cursor < |frames| {
      var frame := frames[cursor];
      var step := MapToSpec(frames, pt, cursor + 1, pages[0], frame, HeapFlags, walk(pages[0]));
      var run := MapHeapPages(frames, pages, pt, cursor, walk);
      if step.result.Err? {
        assert run.drawn == [Drawn(frame, Leaked)] + step.drawn && run.state == step.state;
        StepTablesDrawn(frames, pt, cursor + 1, pages[0], frame, walk(pages[0]), Drawn(frame, Leaked));
      } else {
        var flushed := step.state.(unflushed := step.state.unflushed - {pages[0]});
        var rest := MapHeapPages(frames, pages[1..], flushed, step.cursor, walk);
        MapHeapPagesTablesDrawn(frames, pages[1..], flushed, step.cursor, walk);
        MapHeapPagesPreserves(frames, pages[1..], flushed, step.cursor, walk);
        var head := [Drawn(frame, MapsPage(pages[0]))] + step.drawn;
        assert run.drawn == head + rest.drawn && run.state == rest.state;
        StepTablesDrawn(frames, pt, cursor + 1, pages[0], frame, walk(pages[0]), Drawn(frame, MapsPage(pages[0])));
        NewTablesDrawnAppend(flushed.tables, rest.state.tables, |pt.tables|, head, rest.drawn);
      }
    }
  }

  /**
   * Over a strictly ascending frame stream (which `FrameAllocator.FrameStreamAscends`
   * gives for a memory map whose usable regions ascend and start on 4096-byte
   * boundaries) the frames the loop draws strictly increase, so no frame is
   * drawn twice.
   */
  lemma MapHeapPagesDrawsIncreasing(frames: seq<PhysFrame>, pages: seq<Page>, pt: PageTables,
                                    cursor: nat, walk: Page -> TableWalk)
    requires FrameAllocator.StrictlyAscending(frames)
    ensures var run := MapHeapPages(frames, pages, pt, cursor, walk);
      forall i, j :: 0 <= i < j < |run.drawn| ==> run.drawn[i].frame.startAddress < run.drawn[j].frame.startAddress
  {
    MapHeapPagesDrawsStream(frames, pages, pt, cursor, walk);
    TakenAtIncreasing(frames, cursor, MapHeapPages(frames, pages, pt, cursor, walk).drawn);
  }

  /** No two pages the loop mapped share a frame. */
  ghost predicate MappedFramesDistinct(pages: seq<Page>, run: Run)
  {
    forall k1, k2 :: 0 <= k1 < k2 < run.mapped <= |pages| ==>
      pages[k1] in run.state.mappings && pages[k2] in run.state.mappings
      && run.state.mappings[pages[k1]].frame != run.state.mappings[pages[k2]].frame
  }

  /** No page the loop mapped shares its frame with a table the loop created. */
  ghost predicate MappedFramesNotTables(pages: seq<Page>, pt: PageTables, run: Run)
  {
    forall k, j :: 0 <= k < run.mapped <= |pages| && |pt.tables| <= j < |run.state.tables| ==>
      pages[k] in run.state.mappings && run.state.mappings[pages[k]].frame != run.state.tables[j]
  }

  /** Over a strictly ascending frame stream, two pages the loop maps never share a frame. */
  lemma MapHeapPagesPagesDistinctFrames(frames: seq<PhysFrame>, pages: seq<Page>, pt: PageTables,
                                        cursor: nat, walk: Page -> TableWalk)
    requires FrameAllocator.StrictlyAscending(frames)
    ensures MappedFramesDistinct(pages, MapHeapPages(frames, pages, pt, cursor, walk))
  {
    var run := MapHeapPages(frames, pages, pt, cursor, walk);
    MapHeapPagesDrawsIncreasing(frames, pages, pt, cursor, walk);
    MapHeapPagesFrameOfPage(frames, pages, pt, cursor, walk);
    MapHeapPagesDrawsForEachPage(frames, pages, pt, cursor, walk);
    MapHeapPagesNoPageTwice(frames, pages, pt, cursor, walk);
    forall k1, k2 | 0 <= k1 < k2 < run.mapped <= |pages|
      ensures pages[k1] in run.state.mappings && pages[k2] in run.state.mappings
      ensures run.state.mappings[pages[k1]].frame != run.state.mappings[pages[k2]].frame
    {
      var i1 :| 0 <= i1 < |run.drawn| && run.drawn[i1].use == MapsPage(pages[k1]);
      var i2 :| 0 <= i2 < |run.drawn| && run.drawn[i2].use == MapsPage(pages[k2]);
      assert i1 != i2;
    }
  }

  /** Over a strictly ascending frame stream, no page the loop maps shares its frame with a table it created. */
  lemma MapHeapPagesPageNotTable(frames: seq<PhysFrame>, pages: seq<Page>, pt: PageTables,
                                 cursor: nat, walk: Page -> TableWalk)
    requires FrameAllocator.StrictlyAscending(frames)
    ensures MappedFramesNotTables(pages, pt, MapHeapPages(frames, pages, pt, cursor, walk))
  {
    var run := MapHeapPages(frames, pages, pt, cursor, walk);
    MapHeapPagesDrawsIncreasing(frames, pages, pt, cursor, walk);
    MapHeapPagesFrameOfPage(frames, pages, pt, cursor, walk);
    MapHeapPagesDrawsForEachPage(frames, pages, pt, cursor, walk);
    MapHeapPagesTablesDrawn(frames, pages, pt, cursor, walk);
    forall k, j | 0 <= k < run.mapped <= |pages| && |pt.tables| <= j < |run.state.tables|
      ensures pages[k] in run.state.mappings && run.state.mappings[pages[k]].frame != run.state.tables[j]
    {
      var i1 :| 0 <= i1 < |run.drawn| && run.drawn[i1].use == MapsPage(pages[k]);
      assert Drawn(run.state.tables[j], IntermediateTable) in run.drawn;
      var i2 :| 0 <= i2 < |run.drawn| && run.drawn[i2] == Drawn(run.state.tables[j], IntermediateTable);
      assert i1 != i2;
    }
  }

  /**
   * A `map_to` error comes back unchanged from the page where the loop
   * stopped, the first page of the range left unmapped; a huge-page error
   * means that page's walk met a huge parent.
   */
  lemma {:induction false} MapHeapPagesErrorAt(frames: seq<PhysFrame>, pages: seq<Page>, pt: PageTables,
                                               cursor: nat, walk: Page -> TableWalk)
    ensures var run := MapHeapPages(frames, pages, pt, cursor, walk);
      && (run.result.Err? ==> run.mapped < |pages|)
      && (run.result == Err(ParentEntryHugePage) ==> run.mapped < |pages| && walk(pages[run.mapped]).hugeParent)
    decreases |pages|
  {
    if pages != [] && cursor < |frames| {
      var frame := frames[cursor];
      var step := MapToSpec(frames, pt, cursor + 1, pages[0], frame, HeapFlags, walk(pages[0]));
      var run := MapHeapPages(frames, pages, pt, cursor, walk);
      if step.result.Ok? {
        var flushed := step.state.(unflushed := step.state.unflushed - {pages[0]});
        var rest := MapHeapPages(frames, pages[1..], flushed, step.cursor, walk);
        assert run.result == rest.result && run.mapped == 1 + rest.mapped;
        MapHeapPagesErrorAt(frames, pages[1..], flushed, step.cursor, walk);
        if rest.result.Err? {
          assert pages[run.mapped] == pages[1..][rest.mapped];
        }
      } else {
        assert run.result == step.result && run.mapped == 0;
        MapToErrorCause(frames, pt, cursor + 1, pages[0], frame, HeapFlags, walk(pages[0]));
      }
    }
  }

  /**
   * An already-mapped error means the page where the loop stopped has an
   * entry in the final tables: `map_to` found it there and changed nothing.
   */
  lemma {:induction false} MapHeapPagesAlreadyMappedAt(frames: seq<PhysFrame>, pages: seq<Page>, pt: PageTables,
                                                       cursor: nat, walk: Page -> TableWalk)
    ensures var run := MapHeapPages(frames, pages, pt, cursor, walk);
      run.result == Err(PageAlreadyMapped) ==> run.mapped < |pages| && pages[run.mapped] in run.state.mappings
    decreases |pages|
  {
    if pages != [] && cursor < |frames| {
      var frame := frames[cursor];
      var step := MapToSpec(frames, pt, cursor + 1, pages[0], frame, HeapFlags, walk(pages[0]));
      var run := MapHeapPages(frames, pages, pt, cursor, walk);
      if step.result.Ok? {
        var flushed := step.state.(unflushed := step.state.unflushed - {pages[0]});
        var rest := MapHeapPages(frames, pages[1..], flushed, step.cursor, walk);
        assert run.result == rest.result && run.state == rest.state && run.mapped == 1 + rest.mapped;
        MapHeapPagesAlreadyMappedAt(frames, pages[1..], flushed, step.cursor, walk);
        if rest.result == Err(PageAlreadyMapped) {
          assert pages[run.mapped] == pages[1..][rest.mapped];
        }
      } else {
        assert run.result == step.result && run.state == step.state && run.mapped == 0;
        MapToErrorCause(frames, pt, cursor + 1, pages[0], frame, HeapFlags, walk(pages[0]));
        MapToEffect(frames, pt, cursor + 1, pages[0], frame, HeapFlags, walk(pages[0]));
      }
    }
  }

  /**
   * So the page behind an already-mapped error had an entry before the loop,
   * or occurs earlier in the range and the loop mapped it.
   */
  lemma MapHeapPagesAlreadyMappedCause(frames: seq<PhysFrame>, pages: seq<Page>, pt: PageTables,
                                       cursor: nat, walk: Page -> TableWalk)
    ensures var run := MapHeapPages(frames, pages, pt, cursor, walk);
      run.result == Err(PageAlreadyMapped) ==>
        run.mapped < |pages| && (pages[run.mapped] in pt.mappings || pages[run.mapped] in pages[..run.mapped])
  {
    MapHeapPagesAlreadyMappedAt(frames, pages, pt, cursor, walk);
    MapHeapPagesOnlyPrefixMapped(frames, pages, pt, cursor, walk);
  }

  /**
   * `FrameAllocationFailed` means the frame stream ran out: the frames the
   * loop drew reach the end of the stream.
   */
  lemma {:induction false} MapHeapPagesFailedMeansExhausted(frames: seq<PhysFrame>, pages: seq<Page>, pt: PageTables,
                                                            cursor: nat, walk: Page -> TableWalk)
    ensures var run := MapHeapPages(frames, pages, pt, cursor, walk);
      run.result == Err(FrameAllocationFailed) ==> cursor + |run.drawn| >= |frames|
    decreases |pages|
  {
    if pages != [] && cursor < |frames| {
      var step := MapToSpec(frames, pt, cursor + 1, pages[0], frames[cursor], HeapFlags, walk(pages[0]));
      var run := MapHeapPages(frames, pages, pt, cursor, walk);
      MapToDrawsStream(frames, pt, cursor + 1, pages[0], frames[cursor], HeapFlags, walk(pages[0]));
      if step.result.Ok? {
        var flushed := step.state.(unflushed := step.state.unflushed - {pages[0]});
        var rest := MapHeapPages(frames, pages[1..], flushed, step.cursor, walk);
        MapHeapPagesFailedMeansExhausted(frames, pages[1..], flushed, step.cursor, walk);
        assert run.drawn == [Drawn(frames[cursor], MapsPage(pages[0]))] + step.drawn + rest.drawn;
        assert run.result == rest.result;
      } else {
        assert run.drawn == [Drawn(frames[cursor], Leaked)] + step.drawn;
        assert run.result == step.result;
        if step.result == Err(FrameAllocationFailed) {
          MapToErrorCause(frames, pt, cursor + 1, pages[0], frames[cursor], HeapFlags, walk(pages[0]));
          assert step.drawn == AsTables(StreamFrom(frames, cursor + 1));
        }
      }
    }
  }

  /**
   * Over a memory map whose usable regions ascend and start on 4096-byte
   * boundaries, no frame the loop hands out is used twice.
   */
  lemma MapHeapPagesNoSharedFrame(m: FrameAllocator.MemoryMap, pages: seq<Page>, pt: PageTables,
                                  cursor: nat, walk: Page -> TableWalk)
    requires FrameAllocator.UsableRegionsAscending(m) && FrameAllocator.UsableRegionsAligned(m)
    ensures var run := MapHeapPages(FrameAllocator.Frames(m), pages, pt, cursor, walk);
      MappedFramesDistinct(pages, run) && MappedFramesNotTables(pages, pt, run)
  {
    FrameAllocator.FrameStreamAscends(m);
    MapHeapPagesPagesDistinctFrames(FrameAllocator.Frames(m), pages, pt, cursor, walk);
    MapHeapPagesPageNotTable(FrameAllocator.Frames(m), pages, pt, cursor, walk);
  }

  /** Frames needed for intermediate tables over a sequence of pages. */
  function TablesNeeded(pages: seq<Page>, walk: Page -> TableWalk): nat
  {
    if pages == [] then 0 else walk(pages[0]).missingTables + TablesNeeded(pages[1..], walk)
  }

  /**
   * With distinct, unmapped pages and no huge-page parents, the loop returns
   * `Ok` exactly when the memory map still offers one frame per page plus one
   * per missing table, and otherwise fails with `FrameAllocationFailed`.
   */
  lemma {:induction false} MapHeapPagesOkIff(frames: seq<PhysFrame>, pages: seq<Page>, pt: PageTables,
                                             cursor: nat, walk: Page -> TableWalk)
    requires cursor <= |frames|
    requires DistinctPages(pages)
    requires forall p :: p in pages ==> p !in pt.mappings && !walk(p).hugeParent
    ensures var run := MapHeapPages(frames, pages, pt, cursor, walk);
      && (run.result.Ok? <==> cursor + |pages| + TablesNeeded(pages, walk) <= |frames|)
      && (run.result.Err? ==> run.result.error == FrameAllocationFailed)
    decreases |pages|
  {
    if pages != [] && cursor < |frames| {
      var frame := frames[cursor];
      var step := MapToSpec(frames, pt, cursor + 1, pages[0], frame, HeapFlags, walk(pages[0]));
      MapToEffect(frames, pt, cursor + 1, pages[0], frame, HeapFlags, walk(pages[0]));
      assert pages[0] in pages;
      if step.result.Ok? {
        var flushed := step.state.(unflushed := step.state.unflushed - {pages[0]});
        assert DistinctPages(pages[1..]) by {
          forall i, j | 0 <= i < j < |pages[1..]| ensures pages[1..][i] != pages[1..][j] {
            assert pages[1..][i] == pages[i + 1] && pages[1..][j] == pages[j + 1];
          }
        }
        forall p | p in pages[1..] ensures p !in flushed.mappings && !walk(p).hugeParent {
          var j :| 0 <= j < |pages[1..]| && pages[1..][j] == p;
          assert p == pages[j + 1] && pages[0] != pages[j + 1];
        }
        MapHeapPagesOkIff(frames, pages[1..], flushed, step.cursor, walk);
      }
    }
  }

  /**
   * When every page's tables already exist, the loop maps as many pages as
   * there are frames left, and all of them if there are enough.
   */
  lemma {:induction false} MapHeapPagesCountWithoutNewTables(frames: seq<PhysFrame>, pages: seq<Page>,
                                                             pt: PageTables, cursor: nat, walk: Page -> TableWalk)
    requires cursor <= |frames|
    requires DistinctPages(pages)
    requires forall p :: p in pages ==> p !in pt.mappings && walk(p) == TableWalk(0, false)
    ensures var run := MapHeapPages(frames, pages, pt, cursor, walk);
      run.mapped == if cursor + |pages| <= |frames| then |pages| else |frames| - cursor
    decreases |pages|
  {
    if pages != [] && cursor < |frames| {
      var frame := frames[cursor];
      var step := MapToSpec(frames, pt, cursor + 1, pages[0], frame, HeapFlags, walk(pages[0]));
      assert pages[0] in pages;
      MapToEffect(frames, pt, cursor + 1, pages[0], frame, HeapFlags, walk(pages[0]));
      var flushed := step.state.(unflushed := step.state.unflushed - {pages[0]});
      assert DistinctPages(pages[1..]) by {
        forall i, j | 0 <= i < j < |pages[1..]| ensures pages[1..][i] != pages[1..][j] {
          assert pages[1..][i] == pages[i + 1] && pages[1..][j] == pages[j + 1];
        }
      }
      forall p | p in pages[1..] ensures p !in flushed.mappings && walk(p) == TableWalk(0, false) {
        var j :| 0 <= j < |pages[1..]| && pages[1..][j] == p;
        assert p == pages[j + 1] && pages[0] != pages[j + 1];
      }
      MapHeapPagesCountWithoutNewTables(frames, pages[1..], flushed, step.cursor, walk);
    }
  }

  // ---------------------------------------------------------------------------
  // init_heap

  /** When the loop over the heap pages returns `Ok`, every heap page is mapped with `HeapFlags`. */
  lemma InitHeapMapsAll(frames: seq<PhysFrame>, pt: PageTables, walk: Page -> TableWalk)
    ensures var run := MapHeapPages(frames, HeapPages(), pt, 0, walk);
      run.result.Ok? ==> forall p :: p in HeapPages() ==> p in run.state.mappings && run.state.mappings[p].flags == HeapFlags
  {
    var pages := HeapPages();
    MapHeapPagesProgress(frames, pages, pt, 0, walk);
    MapHeapPagesMapsPrefix(frames, pages, pt, 0, walk);
    var run := MapHeapPages(frames, pages, pt, 0, walk);
    if run.result.Ok? {
      forall p | p in pages ensures p in run.state.mappings && run.state.mappings[p].flags == HeapFlags {
        var k :| 0 <= k < |pages| && pages[k] == p;
        assert k < run.mapped;
      }
    }
  }

  /** Pages after the point where the loop stopped stay unmapped. */
  lemma MapHeapPagesLeavesRestUnmapped(frames: seq<PhysFrame>, pages: seq<Page>, pt: PageTables, cursor: nat,
                                       walk: Page -> TableWalk)
    requires DistinctPages(pages)
    requires forall p :: p in pages ==> p !in pt.mappings
    ensures var run := MapHeapPages(frames, pages, pt, cursor, walk);
      forall k :: run.mapped <= k < |pages| ==> pages[k] !in run.state.mappings
  {
    var run := MapHeapPages(frames, pages, pt, cursor, walk);
    MapHeapPagesOnlyPrefixMapped(frames, pages, pt, cursor, walk);
    forall k | run.mapped <= k < |pages| ensures pages[k] !in run.state.mappings {
      assert pages[k] in pages;
    }
  }

  /**
   * `init_heap` over a memory map whose usable regions ascend and start on
   * 4096-byte boundaries never gives one frame two uses: no two heap pages
   * share a frame, and no heap page shares one with a table it created.
   */
  lemma InitHeapNoSharedFrame(m: FrameAllocator.MemoryMap, pt: PageTables, walk: Page -> TableWalk)
    requires FrameAllocator.UsableRegionsAscending(m) && FrameAllocator.UsableRegionsAligned(m)
    ensures var run := MapHeapPages(FrameAllocator.Frames(m), HeapPages(), pt, 0, walk);
      MappedFramesDistinct(HeapPages(), run) && MappedFramesNotTables(HeapPages(), pt, run)
  {
    MapHeapPagesNoSharedFrame(m, HeapPages(), pt, 0, walk);
  }

  /**
   * A 16 MiB usable region offers 4096 frames: enough for the 2560 heap pages
   * and up to 1536 new tables, so the whole heap gets mapped.
   */
  lemma SixteenMebibytesMapWholeHeap(m: FrameAllocator.MemoryMap, pt: PageTables, walk: Page -> TableWalk)
    requires m == [FrameAllocator.MemoryRegion(0, 0x100_0000, FrameAllocator.Usable)]
    requires forall p :: p in HeapPages() ==> p !in pt.mappings && !walk(p).hugeParent
    requires TablesNeeded(HeapPages(), walk) <= 1536
    ensures var run := MapHeapPages(FrameAllocator.Frames(m), HeapPages(), pt, 0, walk);
      run.result.Ok? && run.mapped == 2560
  {
    var pages := HeapPages();
    var frames := FrameAllocator.Frames(m);
    FrameAllocator.SingleRegionFrameCount(m, 0, 0x100_0000);
    HeapPagesDistinct();
    var run := MapHeapPages(frames, pages, pt, 0, walk);
    assert run.result.Ok? by {
      MapHeapPagesOkIff(frames, pages, pt, 0, walk);
    }
    assert run.mapped == 2560 by {
      MapHeapPagesProgress(frames, pages, pt, 0, walk);
    }
  }

  /**
   * A 1 MiB usable region offers 256 frames: with every table already in place
   * the loop maps the first 256 heap pages, then fails with
   * `FrameAllocationFailed` and leaves the other pages unmapped.
   */
  lemma OneMebibyteMapsFirstPages(m: FrameAllocator.MemoryMap, pt: PageTables, walk: Page -> TableWalk)
    requires m == [FrameAllocator.MemoryRegion(0, 0x10_0000, FrameAllocator.Usable)]
    requires forall p :: p in HeapPages() ==> p !in pt.mappings && walk(p) == TableWalk(0, false)
    ensures var run := MapHeapPages(FrameAllocator.Frames(m), HeapPages(), pt, 0, walk);
      && run.result == Err(FrameAllocationFailed) && run.mapped == 256
      && (forall k :: 0 <= k < 256 ==> HeapPages()[k] in run.state.mappings)
      && (forall k :: 256 <= k < 2560 ==> HeapPages()[k] !in run.state.mappings)
  {
    var pages := HeapPages();
    var frames := FrameAllocator.Frames(m);
    FrameAllocator.SingleRegionFrameCount(m, 0, 0x10_0000);
    HeapPagesDistinct();
    var run := MapHeapPages(frames, pages, pt, 0, walk);
    assert run.mapped == 256 by {
      MapHeapPagesCountWithoutNewTables(frames, pages, pt, 0, walk);
    }
    assert run.result == Err(FrameAllocationFailed) by {
      assert forall p :: p in pages ==> p !in pt.mappings && !walk(p).hugeParent;
      MapHeapPagesOkIff(frames, pages, pt, 0, walk);
    }
    assert forall k :: 0 <= k < 256 ==> pages[k] in run.state.mappings by {
      MapHeapPagesMapsPrefix(frames, pages, pt, 0, walk);
    }
    MapHeapPagesLeavesRestUnmapped(frames, pages, pt, 0, walk);
  }

  /**
   * The `for page in page_range` loop of `init_heap`: for each page in order,
   * draw a frame, map the page to it with `HeapFlags` (`?` returns at the
   * first error, with nothing undone) and flush the new entry.
   */
  method MapPages(pages: seq<Page>, mapper: Mapper, allocator: FrameAllocator.Allocator, walk: Page -> TableWalk)
    returns (r: Result<(), MapToError>)
    requires allocator.Valid()
    modifies mapper, allocator
    ensures allocator.Valid()
    ensures var run := MapHeapPages(FrameAllocator.Frames(allocator.memoryMap), pages, old(mapper.State()), old(allocator.next), walk);
      r == run.result && mapper.State() == run.state && allocator.next == run.cursor
  {
    ghost var frames := FrameAllocator.Frames(allocator.memoryMap);
    ghost var whole := MapHeapPages(frames, pages, mapper.State(), allocator.next, walk);
    for i := 0 to |pages|
      invariant allocator.Valid()
      invariant var rest := MapHeapPages(frames, pages[i..], mapper.State(), allocator.next, walk);
        rest.result == whole.result && rest.state == whole.state && rest.cursor == whole.cursor
    {
      assert pages[i..][0] == pages[i] && pages[i..][1..] == pages[i + 1..];
      var frame := allocator.AllocateFrame();
      if frame.None? {
        return Err(FrameAllocationFailed);
      }
      var flush := mapper.MapTo(pages[i], frame.value, HeapFlags, allocator, walk(pages[i]));
      if flush.Err? {
        return Err(flush.error);
      }
      mapper.Flush(flush.value);
    }
    assert pages[|pages|..] == [];
    r := Ok(());
  }

  /**
   * `init_heap`: with a fresh frame allocator over the memory map, map every
   * heap page in ascending order, returning at the first error; only after the
   * last page is mapped, initialise the arena with `(HeapStart, HeapSize)`.
   * `walk` stands for what the foreign table walk meets at each page.
   */
  method InitHeap(memoryMap: FrameAllocator.MemoryMap, mapper: Mapper, arena: LockedHeap, walk: Page -> TableWalk)
    returns (r: Result<(), MapToError>)
    requires arena.state == Empty
    modifies mapper, arena
    ensures var run := MapHeapPages(FrameAllocator.Frames(memoryMap), HeapPages(), old(mapper.State()), 0, walk);
      r == run.result && mapper.State() == run.state
    ensures arena.state == if r.Ok? then Ready(HeapStart, HeapSize) else Empty
    ensures r.Ok? ==> forall p :: p in HeapPages() ==> p in mapper.mappings && mapper.mappings[p].flags == HeapFlags
  {
    var allocator := new FrameAllocator.Allocator(memoryMap);
    ghost var before := mapper.State();
    r := MapPages(HeapPages(), mapper, allocator, walk);
    if r.Err? {
      return;
    }
    arena.Init(HeapStart, HeapSize);
    assert forall p :: p in HeapPages() ==> p in mapper.State().mappings && mapper.State().mappings[p].flags == HeapFlags by {
      InitHeapMapsAll(FrameAllocator.Frames(memoryMap), before, walk);
    }
  }
}
