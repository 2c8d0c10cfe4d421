/**
 * An abstract view of the page-table mapper (`OffsetPageTable`) that
 * `init_heap` drives. Its code belongs to the x86_64 crate, so only its
 * observable effect is modelled: installing one page -> frame entry, creating
 * the intermediate tables the walk lacks with frames drawn from the same
 * frame allocator, or failing.
 */
module PageMapper {
  import opened Wrappers
  import opened Paging
  import opened FrameAllocator

  /** A 4-level walk lacks at most three intermediate tables (levels 3, 2 and 1). */
  type TableCount = n: nat | n <= 3

  /**
   * What the table walk of `map_to` meets for one page, decided by the table
   * contents that the model does not track: how many intermediate tables are
   * missing (each costs one frame), and whether a huge-page entry blocks it.
   */
  datatype TableWalk = TableWalk(missingTables: TableCount, hugeParent: bool)

  /** A level-1 entry: the frame a page maps to and its flags. */
  datatype Mapping = Mapping(frame: PhysFrame, flags: set<Flag>)

  /**
   * The mapper's state: the installed page entries, the frames that became
   * intermediate tables (in creation order), and the pages whose new entry has
   * not yet been flushed from the translation cache.
   */
  datatype PageTables = PageTables(mappings: map<Page, Mapping>, tables: seq<PhysFrame>, unflushed: set<Page>)

  /** What a frame drawn from the allocator ended up as. */
  datatype FrameUse = MapsPage(page: Page) | IntermediateTable | Leaked

  datatype Drawn = Drawn(frame: PhysFrame, use: FrameUse)

  /**
   * The outcome of a run of mapping steps: the result, the new mapper state,
   * the allocator's cursor afterwards, every frame drawn (in call order) and
   * how many pages were mapped.
   */
  datatype Run = Run(result: Result<(), MapToError>, state: PageTables, cursor: nat, drawn: seq<Drawn>, mapped: nat)

  /** The handle `map_to` returns; it must be flushed before the page is used. */
  datatype MapperFlush = MapperFlush(page: Page)

  /**
   * The frames an allocator with this cursor can still hand out, in order,
   * where `frames` is its whole frame stream (`Frames` of its memory map).
   */
  function StreamFrom(frames: seq<PhysFrame>, cursor: nat): seq<PhysFrame>
  {
    if cursor < |frames| then frames[cursor..] else []
  }

  /**
   * The frames recorded in `drawn` are the frames of the whole stream from
   * position `cursor` on, in order: what an allocator whose cursor stood at
   * `cursor` hands out over `|drawn|` successful calls.
   */
  ghost predicate TakenAt(frames: seq<PhysFrame>, cursor: nat, drawn: seq<Drawn>)
  {
    && (drawn == [] || cursor + |drawn| <= |frames|)
    && forall i :: 0 <= i < |drawn| ==> drawn[i].frame == frames[cursor + i]
  }

  /** Taking `head` at `cursor` and then `tail` where `head` ended is taking `head + tail` at `cursor`. */
  lemma TakenAtAppend(frames: seq<PhysFrame>, cursor: nat, head: seq<Drawn>, tail: seq<Drawn>)
    requires TakenAt(frames, cursor, head)
    requires TakenAt(frames, cursor + |head|, tail)
    ensures TakenAt(frames, cursor, head + tail)
  {
    forall i | 0 <= i < |head + tail|
      ensures (head + tail)[i].frame == frames[cursor + i]
    {
      if i < |head| {
        assert (head + tail)[i] == head[i];
      } else {
        var j := i - |head|;
        assert (head + tail)[i] == tail[j] && cursor + |head| + j == cursor + i;
      }
    }
  }

  /** Frames drawn to become intermediate tables. */
  function AsTables(frames: seq<PhysFrame>): seq<Drawn>
  {
    seq(|frames|, i requires 0 <= i < |frames| => Drawn(frames[i], IntermediateTable))
  }

  /**
   * `map_to(page, frame, flags, allocator)` with an allocator over the frame
   * stream `frames` whose cursor stands at `cursor`:
   * create the missing tables one frame each (failing with
   * `FrameAllocationFailed` at the first call that returns nothing), then fail
   * on a huge-page parent or an already mapped page, else install the entry.
   * Tables created before a failure stay in place.
   */
  function MapToSpec(frames: seq<PhysFrame>, pt: PageTables, cursor: nat, page: Page, frame: PhysFrame,
                     flags: set<Flag>, walk: TableWalk): Run
  {
    var available := StreamFrom(frames, cursor);
    if |available| < walk.missingTables then
      Run(Err(FrameAllocationFailed), pt.(tables := pt.tables + available),
          cursor + |available| + 1, AsTables(available), 0)
    else
      var created := available[..walk.missingTables];
      var withTables := pt.(tables := pt.tables + created);
      var next := cursor + walk.missingTables;
      if walk.hugeParent then
        Run(Err(ParentEntryHugePage), withTables, next, AsTables(created), 0)
      else if page in pt.mappings then
        Run(Err(PageAlreadyMapped), withTables, next, AsTables(created), 0)
      else
        Run(Ok(()), withTables.(mappings := pt.mappings[page := Mapping(frame, flags)],
                                unflushed := pt.unflushed + {page}),
            next, AsTables(created), 1)
  }

  /**
   * The frames `map_to` draws are the next ones of the stream, at most one per
   * missing table, and the cursor counts every call, the failing one included.
   */
  lemma MapToDrawsStream(frames: seq<PhysFrame>, pt: PageTables, cursor: nat, page: Page, frame: PhysFrame,
                         flags: set<Flag>, walk: TableWalk)
    ensures var run := MapToSpec(frames, pt, cursor, page, frame, flags, walk);
      && |run.drawn| <= walk.missingTables
      && TakenAt(frames, cursor, run.drawn)
      && run.cursor == cursor + |run.drawn| + (if run.result == Err(FrameAllocationFailed) then 1 else 0)
  {
    var available := StreamFrom(frames, cursor);
    var run := MapToSpec(frames, pt, cursor, page, frame, flags, walk);
    var taken := if |available| < walk.missingTables then available else available[..walk.missingTables];
    assert run.drawn == AsTables(taken);
  }

  /**
   * Every frame `map_to` draws becomes an intermediate table: the tables grow
   * by exactly those frames, in order, and the existing ones stay in place.
   */
  lemma MapToAppendsTables(frames: seq<PhysFrame>, pt: PageTables, cursor: nat, page: Page, frame: PhysFrame,
                           flags: set<Flag>, walk: TableWalk)
    ensures var run := MapToSpec(frames, pt, cursor, page, frame, flags, walk);
      && (forall i :: 0 <= i < |run.drawn| ==> run.drawn[i].use == IntermediateTable)
      && |run.state.tables| == |pt.tables| + |run.drawn|
      && run.state.tables[..|pt.tables|] == pt.tables
      && (forall i :: 0 <= i < |run.drawn| ==> run.state.tables[|pt.tables| + i] == run.drawn[i].frame)
  {
    var available := StreamFrom(frames, cursor);
    var run := MapToSpec(frames, pt, cursor, page, frame, flags, walk);
    var taken := if |available| < walk.missingTables then available else available[..walk.missingTables];
    assert run.drawn == AsTables(taken);
    assert run.state.tables == pt.tables + taken;
  }

  /**
   * `map_to` never disturbs an existing entry; it installs `page` with the
   * given frame and flags exactly when it succeeds, and only then.
   */
  lemma MapToEffect(frames: seq<PhysFrame>, pt: PageTables, cursor: nat, page: Page, frame: PhysFrame,
                    flags: set<Flag>, walk: TableWalk)
    ensures var run := MapToSpec(frames, pt, cursor, page, frame, flags, walk);
      && (run.result.Ok? <==> !walk.hugeParent && page !in pt.mappings && walk.missingTables <= |StreamFrom(frames, cursor)|)
      && (run.result.Ok? ==> run.state.mappings == pt.mappings[page := Mapping(frame, flags)]
                             && run.state.unflushed == pt.unflushed + {page} && run.mapped == 1)
      && (run.result.Err? ==> run.state.mappings == pt.mappings && run.state.unflushed == pt.unflushed
                              && run.mapped == 0)
  {
  }

  /**
   * Which check made `map_to` fail: too few frames for the missing tables, a
   * huge-page parent, or an entry already present, tested in that order.
   */
  lemma MapToErrorCause(frames: seq<PhysFrame>, pt: PageTables, cursor: nat, page: Page, frame: PhysFrame,
                        flags: set<Flag>, walk: TableWalk)
    ensures var run := MapToSpec(frames, pt, cursor, page, frame, flags, walk);
      && (run.result == Err(FrameAllocationFailed) <==> |StreamFrom(frames, cursor)| < walk.missingTables)
      && (run.result == Err(ParentEntryHugePage) <==>
            walk.missingTables <= |StreamFrom(frames, cursor)| && walk.hugeParent)
      && (run.result == Err(PageAlreadyMapped) <==>
            walk.missingTables <= |StreamFrom(frames, cursor)| && !walk.hugeParent && page in pt.mappings)
  {
  }

  /** The mapper object: `OffsetPageTable` over the active level-4 table. */
  class Mapper {
    var mappings: map<Page, Mapping>
    var tables: seq<PhysFrame>
    var unflushed: set<Page>

    function State(): PageTables
      reads this
    {
      PageTables(mappings, tables, unflushed)
    }

    /** The mapper over the active tables, whatever they hold at boot. */
    constructor (initial: PageTables)
      ensures State() == initial
    {
      mappings := initial.mappings;
      tables := initial.tables;
      unflushed := initial.unflushed;
    }

    /**
     * `map_to`: creates the missing intermediate tables with frames drawn from
     * `allocator`, then installs `page -> frame` with `flags`, or fails.
     */
    method MapTo(page: Page, frame: PhysFrame, flags: set<Flag>, allocator: Allocator, walk: TableWalk)
      returns (r: Result<MapperFlush, MapToError>)
      requires allocator.Valid()
      modifies this, allocator
      ensures allocator.Valid()
      ensures var run := MapToSpec(Frames(allocator.memoryMap), old(State()), old(allocator.next), page, frame, flags, walk);
        && State() == run.state
        && allocator.next == run.cursor
        && (r.Ok? <==> run.result.Ok?)
        && (r.Ok? ==> r.value == MapperFlush(page))
        && (r.Err? ==> run.result == Err(r.error))
    {
      ghost var m := allocator.memoryMap;
      ghost var start := allocator.next;
      ghost var available := StreamFrom(Frames(m), start);
      ghost var run := MapToSpec(Frames(m), old(State()), start, page, frame, flags, walk);
      var k := 0;
      while k < walk.missingTables
        invariant k <= walk.missingTables && k <= |available|
        invariant allocator.Valid() && allocator.memoryMap == m
        invariant allocator.next == start + k
        invariant tables == old(tables) + available[..k]
        invariant mappings == old(mappings) && unflushed == old(unflushed)
      {
        var table := allocator.AllocateFrame();
        if table.None? {
          assert available[..k] == available;
          return Err(FrameAllocationFailed);
        }
        assert available[..k + 1] == available[..k] + [table.value];
        tables := tables + [table.value];
        k := k + 1;
      }
      if walk.hugeParent {
        return Err(ParentEntryHugePage);
      }
      if page in mappings {
        return Err(PageAlreadyMapped);
      }
      mappings := mappings[page := Mapping(frame, flags)];
      unflushed := unflushed + {page};
      return Ok(MapperFlush(page));
    }

    /** `MapperFlush::flush`: the page's entry is no longer stale in the translation cache. */
    method Flush(handle: MapperFlush)
      modifies this
      ensures State() == old(State()).(unflushed := old(unflushed) - {handle.page})
    {
      unflushed := unflushed - {handle.page};
    }
  }
}
