/** The write-back page cache, and what makes it invisible to its clients. */
module BufferPool {
  import opened Common
  import opened ClockSweep

  type Bytes = seq<bv8>

  function ZeroPage(): Bytes { seq(PAGE_SIZE, _ => 0) }

  datatype PageId = PageId(table: int, no: int)

  /** One frame of the pool; `id` is None while the frame holds no page. */
  datatype Frame = Frame(id: Option<PageId>, data: Bytes, pin: nat, dirty: bool)

  /** The data files: reading past the end of a file leaves the caller's buffer as it was. */
  class PageFiles {
    var pages: map<PageId, Bytes>

    constructor ()
      ensures pages == map[]
    {
      pages := map[];
    }

    method ReadPage(pid: PageId, buffer: Bytes) returns (data: Bytes)
      ensures data == if pid in pages then pages[pid] else buffer
    {
      return if pid in pages then pages[pid] else buffer;
    }

    method WritePage(pid: PageId, data: Bytes)
      modifies this
      ensures pages == old(pages)[pid := data]
    {
      pages := pages[pid := data];
    }
  }

  function DirtyCount(frames: seq<Frame>): nat {
    if frames == [] then 0
    else DirtyCount(frames[..|frames| - 1]) + if frames[|frames| - 1].dirty then 1 else 0
  }

  lemma {:induction false} DirtyCountUpdate(frames: seq<Frame>, f: nat, x: Frame)
    requires f < |frames|
    ensures DirtyCount(frames[f := x]) ==
      DirtyCount(frames) - (if frames[f].dirty then 1 else 0) + if x.dirty then 1 else 0
    decreases |frames|
  {
    var n := |frames| - 1;
    if f == n {
      assert frames[f := x][..n] == frames[..n];
    } else {
      assert frames[f := x][..n] == frames[..n][f := x];
      DirtyCountUpdate(frames[..n], f, x);
    }
  }

  /** The frame agrees with the page table and the free list, and a clean frame with the file. */
  ghost predicate FrameOk(x: Frame, f: nat, free: seq<nat>, table: map<PageId, nat>, disk: map<PageId, Bytes>,
                          touched: set<nat>) {
    && (f in touched ==> x.pin > 0)
    && (x.id.None? ==> f in free && x.pin == 0 && !x.dirty)
    && (x.id.Some? ==> f !in free && x.id.value in table && table[x.id.value] == f)
    && (x.id.Some? && !x.dirty && f !in touched ==> x.id.value in disk && disk[x.id.value] == x.data)
  }

  ghost predicate FramesOk(frames: seq<Frame>, free: seq<nat>, table: map<PageId, nat>, disk: map<PageId, Bytes>,
                           touched: set<nat>) {
    && (forall f :: 0 <= f < |frames| ==> FrameOk(frames[f], f, free, table, disk, touched))
    && (forall p :: p in table ==> table[p] < |frames| && frames[table[p]].id == Some(p))
    && (forall f :: f in free ==> f < |frames| && frames[f].id.None?)
    && (forall i, j :: 0 <= i < j < |free| ==> free[i] != free[j])
    && (forall f :: f in touched ==> f < |frames|)
  }

  /** Every live page has a number below its table's counter and is in the pool or in its file. */
  ghost predicate LiveOk(live: set<PageId>, table: map<PageId, nat>, disk: map<PageId, Bytes>, next: map<int, int>) {
    && (forall p :: p in live ==> p.table in next && p.no < next[p.table] && (p in table || p in disk))
    && (forall p :: p in table ==> p in live)
  }

  /** The page's content as clients see it: the frame if resident, else the file. */
  ghost function ContentOf(p: PageId, frames: seq<Frame>, table: map<PageId, nat>, disk: map<PageId, Bytes>): Bytes {
    if p in table && table[p] < |frames| then frames[table[p]].data else if p in disk then disk[p] else []
  }

  ghost function ViewOf(live: set<PageId>, frames: seq<Frame>, table: map<PageId, nat>,
                        disk: map<PageId, Bytes>): map<PageId, Bytes> {
    map p | p in live :: if p in live then ContentOf(p, frames, table, disk) else []
  }

  function Pins(frames: seq<Frame>): seq<nat> {
    seq(|frames|, i requires 0 <= i < |frames| => frames[i].pin)
  }

  /** Mapped frames and free frames partition the pool, and no frame serves two pages. */
  lemma PoolPartition(frames: seq<Frame>, free: seq<nat>, table: map<PageId, nat>, disk: map<PageId, Bytes>,
                      touched: set<nat>, f: nat)
    requires FramesOk(frames, free, table, disk, touched) && f < |frames|
    ensures f in free <==> !exists p :: p in table && table[p] == f
    ensures forall p, q :: p in table && q in table && table[p] == table[q] ==> p == q
  {
    assert FrameOk(frames[f], f, free, table, disk, touched);
    forall p, q | p in table && q in table && table[p] == table[q] ensures p == q {
      assert frames[table[p]].id == Some(p) && frames[table[q]].id == Some(q);
    }
  }

  class BufferManager {
    const files: PageFiles
    const lru: ClockSweepLRU
    const frames: array<Frame>
    var pageTable: map<PageId, nat>
    var freeList: seq<nat>
    var nextPageNo: map<int, int>
    var dirtyCount: int

    ghost var live: set<PageId>     // allocated and not deleted
    ghost var touched: set<nat>     // written by a client that has not unpinned dirty yet

    /** The invariant, with `free` for the free list. */
    ghost predicate ValidWith(free: seq<nat>)
      reads this, files, lru, lru.frames, frames
    {
      && frames.Length > 0 && lru.frames.Length == frames.Length
      && (forall i :: 0 <= i < frames.Length ==> lru.frames[i] <= LRU_MAX_PIN)
      && FramesOk(frames[..], free, pageTable, files.pages, touched)
      && LiveOk(live, pageTable, files.pages, nextPageNo)
      && dirtyCount == DirtyCount(frames[..])
    }

    ghost predicate Valid()
      reads this, files, lru, lru.frames, frames
    {
      ValidWith(freeList)
    }

    ghost function View(): map<PageId, Bytes>
      reads this, files, frames
    {
      ViewOf(live, frames[..], pageTable, files.pages)
    }

    /** Pinned frames keep their page and bytes. */
    ghost predicate Held(was: seq<Frame>)
      reads this, frames
    {
      && frames.Length == |was|
      && forall g :: 0 <= g < |was| && was[g].pin > 0 ==> frames[g].id == was[g].id && frames[g].data == was[g].data
    }

    constructor (files: PageFiles, capacity: nat)
      requires capacity > 0
      ensures Valid() && View() == map[] && this.files == files && fresh(frames) && fresh(lru) && fresh(lru.frames)
      ensures frames.Length == capacity && touched == {} && nextPageNo == map[]
      ensures freeList == seq(capacity, i requires 0 <= i < capacity => i) && lru.frames[..] == seq(capacity, _ => 0)
      ensures forall f :: 0 <= f < capacity ==> frames[f].pin == 0
    {
      this.files := files;
      lru := new ClockSweepLRU(capacity);
      frames := new Frame[capacity](_ => Frame(None, [], 0, false));
      freeList := seq(capacity, i requires 0 <= i < capacity => i);
      pageTable, nextPageNo, dirtyCount := map[], map[], 0;
      live, touched := {}, {};
      new;
      forall f | 0 <= f < capacity ensures f in freeList { assert freeList[f] == f; }
      NoneDirty(frames[..]);
    }

    /** The exact condition under which the search for a frame ends. */
    predicate CanMakeRoom()
      reads this, lru, lru.frames, frames
    {
      freeList != [] || CanEvict(lru.frames[..], Pins(frames[..]))
    }

    method FindVictimFrame() returns (v: nat)
      requires Valid() && CanMakeRoom()
      modifies this`freeList, lru.frames
      ensures v < frames.Length && frames[v].pin == 0
      ensures if frames[v].id.None? then ValidWith([v] + freeList) else Valid()
      ensures old(freeList) != [] ==>
        v == old(freeList)[0] && freeList == old(freeList)[1..] && lru.frames[..] == old(lru.frames[..])
    {
      hide FramesOk, LiveOk, DirtyCount, RecordLow;
      if freeList != [] {
        v := freeList[0];
        FreeFrame(frames[..], freeList, pageTable, files.pages, touched);
        freeList := freeList[1..];
        assert [v] + freeList == old(freeList);
      } else {
        v := SweepForUnpinned();
        MappedFrame(frames[..], v, freeList, pageTable, files.pages, touched);
      }
    }

    /** Ask the policy until its victim is unpinned, pinning each pinned one again. */
    method SweepForUnpinned() returns (v: nat)
      requires frames.Length > 0 && lru.frames.Length == frames.Length
      requires forall i :: 0 <= i < frames.Length ==> lru.frames[i] <= LRU_MAX_PIN
      requires CanEvict(lru.frames[..], Pins(frames[..]))
      modifies lru.frames
      ensures v < frames.Length && frames[v].pin == 0
      ensures forall i :: 0 <= i < frames.Length ==> lru.frames[i] <= LRU_MAX_PIN
    {
      ghost var pins := Pins(frames[..]);
      ghost var w: nat :| RecordLow(lru.frames[..], w) && Unpinned(pins, w);
      while true
        invariant RecordLow(lru.frames[..], w)
        invariant forall i :: 0 <= i < frames.Length ==> lru.frames[i] <= LRU_MAX_PIN
        decreases Rounds(lru.frames[w])
      {
        ghost var c := lru.frames[..];
        v := lru.Evict();
        assert forall i :: 0 <= i < |c| ==> Swept(c, v)[i] <= c[i];
        assert forall i :: 0 <= i < frames.Length ==> lru.frames[i] == Swept(c, v)[i];
        if frames[v].pin == 0 { return; }
        lru.Pin(v);
        assert lru.frames[..] == Retried(c, v);
        RetryRecords(c, v, w);
      }
    }

    /** Write a dirty frame back and forget its page. */
    method EvictFrame(f: nat)
      requires f < frames.Length && frames[f].pin == 0
      requires if frames[f].id.None? then ValidWith([f] + freeList) else Valid()
      modifies this`pageTable, this`dirtyCount, files, frames
      ensures ValidWith([f] + freeList) && View() == old(View()) && frames[f].id.None?
      ensures pageTable.Keys <= old(pageTable.Keys)
      ensures forall g :: 0 <= g < frames.Length && g != f ==> frames[g] == old(frames[g])
    {
      hide FramesOk, LiveOk, DirtyCount, ViewOf;
      if frames[f].id.None? { return; }
      var p := frames[f].id.value;
      if frames[f].dirty { WriteBack(f); }
      ghost var mid := frames[..];
      pageTable := pageTable - {p};
      frames[f] := frames[f].(id := None);
      assert frames[..] == mid[f := mid[f].(id := None)];
      DirtyCountUpdate(mid, f, mid[f].(id := None));
      ForgetOk(mid, f, freeList, old(pageTable), files.pages, touched, live);
      ForgetLive(mid, f, freeList, old(pageTable), files.pages, touched, live, nextPageNo);
    }

    /** Write a mapped frame to its file and mark it clean. */
    method WriteBack(f: nat)
      requires f < frames.Length && frames[f].id.Some? && Valid()
      modifies this`dirtyCount, files, frames
      ensures Valid() && View() == old(View())
      ensures files.pages == old(files.pages)[frames[f].id.value := frames[f].data]
      ensures frames[..] == old(frames[..])[f := old(frames[f]).(dirty := false)]
    {
      hide FramesOk, LiveOk, DirtyCount, ViewOf;
      files.WritePage(frames[f].id.value, frames[f].data);
      ghost var was := frames[..];
      if frames[f].dirty {
        frames[f] := frames[f].(dirty := false);
        dirtyCount := dirtyCount - 1;
      }
      assert frames[..] == was[f := was[f].(dirty := false)];
      DirtyCountUpdate(was, f, was[f].(dirty := false));
      WriteBackOk(was, f, freeList, pageTable, old(files.pages), touched, live);
      LiveGrows(live, pageTable, old(files.pages), files.pages, nextPageNo);
    }

    /** Pin the page and return its frame, reading it from its file if it is not in the pool. */
    method FetchPage(pid: PageId) returns (f: nat)
      requires Valid() && pid in live && (pid in pageTable || CanMakeRoom())
      modifies this`pageTable, this`freeList, this`dirtyCount, this`live, files, frames, lru.frames
      ensures Valid() && live == old(live) && View() == old(View()) && Held(old(frames[..]))
      ensures pid in pageTable && pageTable[pid] == f < frames.Length
      ensures pid in old(pageTable) ==> f == old(pageTable)[pid]
      ensures frames[f].id == Some(pid) && frames[f].data == View()[pid]
      ensures frames[f].pin == (if pid in old(pageTable) then old(Pins(frames[..]))[f] else 0) + 1
      ensures forall g :: 0 <= g < frames.Length && g != f ==> frames[g].pin == old(frames[g].pin)
    {
      hide FramesOk, LiveOk, DirtyCount, RecordLow, ViewOf;
      Lookup(pid, freeList);
      if pid in pageTable {
        f := pageTable[pid];
        AddPin(f);
        lru.Pin(f);
        return;
      }
      f := FindVictimFrame();
      EvictFrame(f);
      assert pid in old(View());
      Lookup(pid, [f] + freeList);
      var data := files.ReadPage(pid, frames[f].data);
      Install(f, pid, data, false);
      lru.Pin(f);
    }

    lemma Lookup(pid: PageId, free: seq<nat>)
      requires ValidWith(free) && pid in live
      ensures pid.table in nextPageNo && pid.no < nextPageNo[pid.table]
      ensures pid in View() && View()[pid] == ContentOf(pid, frames[..], pageTable, files.pages)
      ensures pid in pageTable ==> pageTable[pid] < frames.Length && frames[pageTable[pid]].id == Some(pid)
      ensures pid !in pageTable ==> pid in files.pages
    {
    }

    method AddPin(f: nat)
      requires Valid() && f < frames.Length && frames[f].id.Some?
      modifies frames
      ensures Valid() && View() == old(View())
      ensures frames[..] == old(frames[..])[f := old(frames[f]).(pin := old(frames[f].pin) + 1)]
    {
      hide DirtyCount;
      ghost var was := frames[..];
      frames[f] := frames[f].(pin := frames[f].pin + 1);
      assert frames[..] == was[f := frames[f]];
      DirtyCountUpdate(was, f, frames[f]);
      assert FrameOk(was[f], f, freeList, pageTable, files.pages, touched);
    }

    /** Put a page into a spare frame, pinned once. */
    method Install(f: nat, pid: PageId, data: Bytes, dirty: bool)
      requires f < frames.Length && ValidWith([f] + freeList) && frames[f].id.None?
      requires pid !in pageTable && pid.table in nextPageNo && pid.no < nextPageNo[pid.table]
      requires !dirty ==> pid in files.pages && files.pages[pid] == data
      modifies this`pageTable, this`dirtyCount, this`live, frames
      ensures Valid() && View() == old(View())[pid := data] && live == old(live) + {pid}
      ensures pageTable == old(pageTable)[pid := f]
      ensures frames[..] == old(frames[..])[f := Frame(Some(pid), data, 1, dirty)]
    {
      hide FramesOk, LiveOk, DirtyCount, ViewOf;
      ghost var was := frames[..];
      SpareFrame(was, f, [f] + freeList, pageTable, files.pages, touched);
      pageTable := pageTable[pid := f];
      frames[f] := Frame(Some(pid), data, 1, dirty);
      if dirty { dirtyCount := dirtyCount + 1; }
      assert frames[..] == was[f := Frame(Some(pid), data, 1, dirty)];
      DirtyCountUpdate(was, f, frames[f]);
      live := live + {pid};
      InstallOk(was, f, freeList, old(pageTable), files.pages, touched, old(live), pid, frames[f], nextPageNo);
    }

    /** A client that holds a pin writes into its frame. */
    method WriteData(f: nat, data: Bytes)
      requires Valid() && f < frames.Length && frames[f].pin > 0
      modifies frames, this`touched
      ensures Valid() && frames[f].id.Some? && View() == old(View())[frames[f].id.value := data]
      ensures frames[..] == old(frames[..])[f := old(frames[f]).(data := data)]
      ensures touched == old(touched) + {f}
    {
      hide DirtyCount, LiveOk;
      ghost var was := frames[..];
      assert FrameOk(was[f], f, freeList, pageTable, files.pages, touched);
      frames[f] := frames[f].(data := data);
      touched := touched + {f};
      assert frames[..] == was[f := frames[f]];
      DirtyCountUpdate(was, f, frames[f]);
      WriteOk(was, f, freeList, pageTable, files.pages, old(touched), live, data, nextPageNo);
    }

    /** Release a pin. The last one to leave a written page must say that it is dirty. */
    method UnpinPage(pid: PageId, isDirty: bool) returns (ok: bool)
      requires Valid()
      requires pid in pageTable && pageTable[pid] in touched && frames[pageTable[pid]].pin == 1 ==>
        isDirty || frames[pageTable[pid]].dirty
      modifies frames, this`dirtyCount, this`touched
      ensures Valid() && View() == old(View())
      ensures ok == (pid in pageTable && old(frames[pageTable[pid]].pin) > 0)
      ensures ok ==>
        var f := pageTable[pid];
        frames[..] ==
          old(frames[..])[f := old(frames[f]).(pin := old(frames[f].pin) - 1, dirty := old(frames[f].dirty) || isDirty)]
      ensures !ok ==> frames[..] == old(frames[..])
      ensures touched == old(touched) ||
        (ok && (isDirty || frames[pageTable[pid]].pin == 0) && touched == old(touched) - {pageTable[pid]})
      ensures ok && (isDirty || frames[pageTable[pid]].pin == 0) ==> pageTable[pid] !in touched
    {
      hide DirtyCount, LiveOk;
      if pid !in pageTable { return false; }
      var f := pageTable[pid];
      if frames[f].pin == 0 { return false; }
      ghost var was := frames[..];
      frames[f] := frames[f].(pin := frames[f].pin - 1);
      if isDirty && !frames[f].dirty {
        frames[f] := frames[f].(dirty := true);
        dirtyCount := dirtyCount + 1;
      }
      if isDirty || frames[f].pin == 0 { touched := touched - {f}; }
      assert frames[..] == was[f := frames[f]];
      DirtyCountUpdate(was, f, frames[f]);
      UnpinOk(was, f, freeList, pageTable, files.pages, old(touched), live, frames[f], touched);
      ok := true;
    }

    method FlushPage(pid: PageId) returns (ok: bool)
      requires Valid()
      modifies frames, this`dirtyCount, files
      ensures Valid() && View() == old(View()) && ok == (pid in pageTable) && Held(old(frames[..]))
      ensures ok ==> pid in View() && pid in files.pages && files.pages[pid] == View()[pid]
      ensures Pins(frames[..]) == old(Pins(frames[..]))
    {
      if pid !in pageTable { return false; }
      WriteBack(pageTable[pid]);
      ok := true;
    }

    /** Drop a page without writing it; a pinned page stays. */
    method DeletePage(pid: PageId) returns (ok: bool)
      requires Valid()
      modifies this, frames
      ensures Valid() && Held(old(frames[..])) && ok == !(pid in old(pageTable) && old(frames[pageTable[pid]].pin) > 0)
      ensures live == (if ok then old(live) - {pid} else old(live))
      ensures View() == if ok then old(View()) - {pid} else old(View())
      ensures Pins(frames[..]) == old(Pins(frames[..])) && nextPageNo == old(nextPageNo) && touched == old(touched)
    {
      hide DirtyCount, LiveOk, ViewOf, FramesOk;
      if pid !in pageTable {
        DropLive(live, frames[..], pageTable, files.pages, nextPageNo, pid);
        live := live - {pid};
        return true;
      }
      Mapped(pid);
      var f := pageTable[pid];
      if frames[f].pin > 0 { return false; }
      ghost var was := frames[..];
      pageTable := pageTable - {pid};
      if frames[f].dirty {
        frames[f] := frames[f].(dirty := false);
        dirtyCount := dirtyCount - 1;
      }
      frames[f] := frames[f].(id := None);
      freeList := freeList + [f];
      live := live - {pid};
      assert frames[..] == was[f := frames[f]];
      DirtyCountUpdate(was, f, frames[f]);
      DeleteOk(was, f, old(freeList), old(pageTable), files.pages, touched, old(live), nextPageNo);
      ok := true;
    }

    lemma Mapped(pid: PageId)
      requires Valid() && pid in pageTable
      ensures pageTable[pid] < frames.Length && frames[pageTable[pid]].id == Some(pid)
    {
    }

    /** First half of a flush: the dirty unpinned frames, as they are now. */
    method FlushCandidates() returns (candidates: seq<nat>)
      requires Valid()
      ensures forall f: nat :: f in candidates <==> f < frames.Length && frames[f].dirty && frames[f].pin == 0
    {
      hide DirtyCount, LiveOk;
      candidates := [];
      var todo := pageTable.Keys;
      while todo != {}
        invariant todo <= pageTable.Keys
        invariant forall f: nat :: f in candidates ==> f < frames.Length && frames[f].dirty && frames[f].pin == 0
        invariant forall p :: p in pageTable && p !in todo ==>
          (frames[pageTable[p]].dirty && frames[pageTable[p]].pin == 0 ==> pageTable[p] in candidates)
        decreases |todo|
      {
        assert (exists p :: p in todo) || todo == {};
        var p :| p in todo;
        var f := pageTable[p];
        if frames[f].dirty && frames[f].pin == 0 { candidates := candidates + [f]; }
        todo := todo - {p};
      }
      forall f: nat | f < frames.Length && frames[f].dirty && frames[f].pin == 0 ensures f in candidates {
        DirtyMapped(f);
      }
    }

    /** Second half, one locked section per frame: anything may have happened since it was a candidate. */
    method FlushCandidate(f: nat)
      requires Valid() && f < frames.Length
      modifies this`dirtyCount, files, frames
      ensures Valid() && View() == old(View()) && Held(old(frames[..]))
      ensures Pins(frames[..]) == old(Pins(frames[..]))
      ensures frames[f].dirty ==> frames[f].pin > 0
    {
      hide FramesOk, LiveOk, DirtyCount, ViewOf;
      DirtyMapped(f);
      if !frames[f].dirty || frames[f].pin != 0 { return; }
      if frames[f].id.None? { return; }
      WriteBack(f);
    }

    /** Shutdown: after the final flush the files alone hold every live page. */
    method Close()
      requires Valid() && touched == {}
      modifies files
      ensures forall p :: p in live ==> p in files.pages && files.pages[p] == old(View())[p]
    {
      hide DirtyCount, LiveOk, FrameOk, ViewOf;
      ghost var disk, view := files.pages, View();
      CleanOnDisk();
      Stored(disk, view);
      var todo := pageTable.Keys;
      while todo != {}
        invariant todo <= pageTable.Keys
        invariant forall p :: p in disk ==> p in files.pages
        invariant forall p :: p in disk && p !in pageTable ==> files.pages[p] == disk[p]
        invariant forall p :: p in pageTable && (p !in todo || !frames[pageTable[p]].dirty) ==>
          p in files.pages && files.pages[p] == frames[pageTable[p]].data
        decreases |todo|
      {
        assert (exists p :: p in todo) || todo == {};
        var p :| p in todo;
        if frames[pageTable[p]].dirty { files.WritePage(p, frames[pageTable[p]].data); }
        todo := todo - {p};
      }
    }

    // Where the content of each live page is.
    lemma Stored(disk: map<PageId, Bytes>, view: map<PageId, Bytes>)
      requires Valid() && disk == files.pages && view == View()
      ensures forall p :: p in live ==> p in view && (p in pageTable || p in disk)
      ensures forall p :: p in live && p in pageTable ==> view[p] == frames[pageTable[p]].data
      ensures forall p :: p in live && p !in pageTable ==> view[p] == disk[p]
    {
    }

    lemma CleanOnDisk()
      requires Valid() && touched == {}
      ensures forall p :: p in pageTable && !frames[pageTable[p]].dirty ==>
        p in files.pages && files.pages[p] == frames[pageTable[p]].data
    {
      forall p | p in pageTable && !frames[pageTable[p]].dirty
        ensures p in files.pages && files.pages[p] == frames[pageTable[p]].data
      {
        assert FrameOk(frames[pageTable[p]], pageTable[p], freeList, pageTable, files.pages, touched);
      }
    }

    lemma DirtyMapped(f: nat)
      requires Valid() && f < frames.Length
      ensures frames[f].dirty ==>
        frames[f].id.Some? && frames[f].id.value in pageTable && pageTable[frames[f].id.value] == f
    {
      assert FrameOk(frames[f], f, freeList, pageTable, files.pages, touched);
    }

    /** Allocate the table's next page, zeroed, pinned and dirty. */
    method NewPage(table: int) returns (f: nat)
      requires Valid() && CanMakeRoom()
      modifies this, files, frames, lru.frames
      ensures Valid() && Held(old(frames[..])) && f < frames.Length
      ensures var pid := PageId(table, if table in old(nextPageNo) then old(nextPageNo)[table] else 0);
        && pid !in old(live) && live == old(live) + {pid} && View() == old(View())[pid := ZeroPage()]
        && nextPageNo == old(nextPageNo)[table := pid.no + 1]
        && |frames[f].data| == PAGE_SIZE && (forall i :: 0 <= i < PAGE_SIZE ==> frames[f].data[i] == 0)
        && frames[f] == Frame(Some(pid), ZeroPage(), 1, true) && pid in pageTable && pageTable[pid] == f
      ensures forall g :: 0 <= g < frames.Length && g != f ==> frames[g].pin == old(frames[g].pin)
      ensures touched == old(touched)
      ensures old(freeList) != [] ==> (
        && f == old(freeList)[0] && freeList == old(freeList)[1..]
        && lru.frames[..] == old(lru.frames[..])[f := PinnedOnce(old(lru.frames[..])[f])])
    {
      hide FramesOk, LiveOk, DirtyCount, RecordLow, ViewOf;
      f := FindVictimFrame();
      EvictFrame(f);
      var no := if table in nextPageNo then nextPageNo[table] else 0;
      var pid := PageId(table, no);
      NewLive(live, pageTable, files.pages, nextPageNo, pid);
      nextPageNo := nextPageNo[table := no + 1];
      Install(f, pid, ZeroPage(), true);
      lru.Pin(f);
    }
  }

  lemma SpareFrame(frames: seq<Frame>, f: nat, free: seq<nat>, table: map<PageId, nat>, disk: map<PageId, Bytes>,
                   touched: set<nat>)
    requires FramesOk(frames, free, table, disk, touched) && f < |frames| && frames[f].id.None?
    ensures !frames[f].dirty && frames[f].pin == 0
  {
    assert FrameOk(frames[f], f, free, table, disk, touched);
  }

  lemma InstallOk(frames: seq<Frame>, f: nat, free: seq<nat>, table: map<PageId, nat>, disk: map<PageId, Bytes>,
                  touched: set<nat>, live: set<PageId>, pid: PageId, x: Frame, next: map<int, int>)
    requires FramesOk(frames, [f] + free, table, disk, touched) && f < |frames| && frames[f].id.None?
    requires x.id == Some(pid) && x.pin == 1 && pid !in table && LiveOk(live, table, disk, next)
    requires pid.table in next && pid.no < next[pid.table]
    requires !x.dirty ==> pid in disk && disk[pid] == x.data
    ensures FramesOk(frames[f := x], free, table[pid := f], disk, touched)
    ensures LiveOk(live + {pid}, table[pid := f], disk, next)
    ensures ViewOf(live + {pid}, frames[f := x], table[pid := f], disk) ==
      ViewOf(live, frames, table, disk)[pid := x.data]
  {
    hide ViewOf;
    var frames', table' := frames[f := x], table[pid := f];
    FreeTail(f, free);
    forall g | 0 <= g < |frames| ensures FrameOk(frames'[g], g, free, table', disk, touched) {
      assert FrameOk(frames[g], g, [f] + free, table, disk, touched);
      assert FrameOk(frames[f], f, [f] + free, table, disk, touched);
    }
    InstallView(frames, f, table, disk, live, pid, x);
  }

  lemma FreeTail(f: nat, free: seq<nat>)
    requires forall i, j :: 0 <= i < j < |[f] + free| ==> ([f] + free)[i] != ([f] + free)[j]
    ensures f !in free
    ensures forall g :: g in [f] + free <==> g == f || g in free
    ensures forall i, j :: 0 <= i < j < |free| ==> free[i] != free[j]
  {
    var all := [f] + free;
    forall i | 0 <= i < |free| ensures free[i] != f {
      assert all[0] == f && all[i + 1] == free[i];
    }
    forall i, j | 0 <= i < j < |free| ensures free[i] != free[j] {
      assert all[i + 1] == free[i] && all[j + 1] == free[j];
    }
  }

  lemma InstallView(frames: seq<Frame>, f: nat, table: map<PageId, nat>, disk: map<PageId, Bytes>, live: set<PageId>,
                    pid: PageId, x: Frame)
    requires f < |frames| && frames[f].id.None?
    requires forall p :: p in table ==> table[p] < |frames| && frames[table[p]].id == Some(p)
    ensures ViewOf(live + {pid}, frames[f := x], table[pid := f], disk) ==
      ViewOf(live, frames, table, disk)[pid := x.data]
  {
    var frames', table' := frames[f := x], table[pid := f];
    forall p | p in live && p != pid ensures ContentOf(p, frames', table', disk) == ContentOf(p, frames, table, disk) {
      if p in table { assert frames[table[p]].id == Some(p); }
    }
  }

  lemma WriteOk(frames: seq<Frame>, f: nat, free: seq<nat>, table: map<PageId, nat>, disk: map<PageId, Bytes>,
                touched: set<nat>, live: set<PageId>, data: Bytes, next: map<int, int>)
    requires FramesOk(frames, free, table, disk, touched) && f < |frames| && frames[f].id.Some? && frames[f].pin > 0
    requires LiveOk(live, table, disk, next)
    ensures var frames' := frames[f := frames[f].(data := data)];
      && FramesOk(frames', free, table, disk, touched + {f})
      && ViewOf(live, frames', table, disk) == ViewOf(live, frames, table, disk)[frames[f].id.value := data]
  {
    var frames', touched' := frames[f := frames[f].(data := data)], touched + {f};
    forall g | 0 <= g < |frames| ensures FrameOk(frames'[g], g, free, table, disk, touched') {
      assert FrameOk(frames[g], g, free, table, disk, touched);
    }
    var pid := frames[f].id.value;
    assert FrameOk(frames[f], f, free, table, disk, touched);
    forall p | p in live && p != pid ensures ContentOf(p, frames', table, disk) == ContentOf(p, frames, table, disk) {
      if p in table { assert frames[table[p]].id == Some(p); }
    }
  }

  lemma UnpinOk(frames: seq<Frame>, f: nat, free: seq<nat>, table: map<PageId, nat>, disk: map<PageId, Bytes>,
                touched: set<nat>, live: set<PageId>, x: Frame, touched': set<nat>)
    requires FramesOk(frames, free, table, disk, touched) && f < |frames| && frames[f].id.Some? && frames[f].pin > 0
    requires x.id == frames[f].id && x.data == frames[f].data
    requires x.pin == frames[f].pin - 1 && (frames[f].dirty ==> x.dirty)
    requires touched' == touched || touched' == touched - {f}
    requires f in touched' ==> x.pin > 0
    requires f in touched && f !in touched' ==> x.dirty
    ensures FramesOk(frames[f := x], free, table, disk, touched')
    ensures ViewOf(live, frames[f := x], table, disk) == ViewOf(live, frames, table, disk)
  {
    assert FrameOk(frames[f], f, free, table, disk, touched);
    var frames' := frames[f := x];
    forall g | 0 <= g < |frames| ensures FrameOk(frames'[g], g, free, table, disk, touched') {
      assert FrameOk(frames[g], g, free, table, disk, touched);
    }
  }

  lemma DropLive(live: set<PageId>, frames: seq<Frame>, table: map<PageId, nat>, disk: map<PageId, Bytes>,
                 next: map<int, int>, pid: PageId)
    requires LiveOk(live, table, disk, next) && pid !in table
    ensures LiveOk(live - {pid}, table, disk, next)
    ensures ViewOf(live - {pid}, frames, table, disk) == ViewOf(live, frames, table, disk) - {pid}
  {
  }

  lemma DeleteOk(frames: seq<Frame>, f: nat, free: seq<nat>, table: map<PageId, nat>, disk: map<PageId, Bytes>,
                 touched: set<nat>, live: set<PageId>, next: map<int, int>)
    requires FramesOk(frames, free, table, disk, touched) && f < |frames| && frames[f].id.Some? && frames[f].pin == 0
    requires LiveOk(live, table, disk, next)
    ensures var pid, frames' := frames[f].id.value, frames[f := frames[f].(id := None, dirty := false)];
      && FramesOk(frames', free + [f], table - {pid}, disk, touched) && LiveOk(live - {pid}, table - {pid}, disk, next)
      && ViewOf(live - {pid}, frames', table - {pid}, disk) == ViewOf(live, frames, table, disk) - {pid}
  {
    var pid, frames' := frames[f].id.value, frames[f := frames[f].(id := None, dirty := false)];
    assert FrameOk(frames[f], f, free, table, disk, touched);
    forall g | 0 <= g < |frames| ensures FrameOk(frames'[g], g, free + [f], table - {pid}, disk, touched) {
      assert FrameOk(frames[g], g, free, table, disk, touched);
    }
    forall p | p in live && p != pid
      ensures ContentOf(p, frames', table - {pid}, disk) == ContentOf(p, frames, table, disk)
    {
      if p in table { assert frames[table[p]].id == Some(p); }
    }
  }

  lemma NewLive(live: set<PageId>, table: map<PageId, nat>, disk: map<PageId, Bytes>, next: map<int, int>, pid: PageId)
    requires LiveOk(live, table, disk, next)
    requires pid.no == if pid.table in next then next[pid.table] else 0
    ensures pid !in live && pid !in table
    ensures LiveOk(live, table, disk, next[pid.table := pid.no + 1])
  {
  }

  lemma FreeFrame(frames: seq<Frame>, free: seq<nat>, table: map<PageId, nat>, disk: map<PageId, Bytes>,
                  touched: set<nat>)
    requires FramesOk(frames, free, table, disk, touched) && free != []
    ensures free[0] < |frames| && frames[free[0]].id.None? && frames[free[0]].pin == 0
  {
    assert free[0] in free;
    assert FrameOk(frames[free[0]], free[0], free, table, disk, touched);
  }

  lemma MappedFrame(frames: seq<Frame>, f: nat, free: seq<nat>, table: map<PageId, nat>, disk: map<PageId, Bytes>,
                    touched: set<nat>)
    requires FramesOk(frames, free, table, disk, touched) && f < |frames| && free == []
    ensures frames[f].id.Some?
  {
    assert FrameOk(frames[f], f, free, table, disk, touched);
  }

  lemma LiveGrows(live: set<PageId>, table: map<PageId, nat>, disk: map<PageId, Bytes>, more: map<PageId, Bytes>,
                  next: map<int, int>)
    requires LiveOk(live, table, disk, next) && disk.Keys <= more.Keys
    ensures LiveOk(live, table, more, next)
  {
  }

  lemma ForgetLive(frames: seq<Frame>, f: nat, free: seq<nat>, table: map<PageId, nat>, disk: map<PageId, Bytes>,
                   touched: set<nat>, live: set<PageId>, next: map<int, int>)
    requires FramesOk(frames, free, table, disk, touched) && f < |frames| && frames[f].id.Some?
    requires !frames[f].dirty && frames[f].pin == 0 && LiveOk(live, table, disk, next)
    ensures LiveOk(live, table - {frames[f].id.value}, disk, next)
  {
    assert FrameOk(frames[f], f, free, table, disk, touched);
  }

  /** Writing a frame back changes neither the invariant nor what clients see. */
  lemma WriteBackOk(frames: seq<Frame>, f: nat, free: seq<nat>, table: map<PageId, nat>, disk: map<PageId, Bytes>,
                    touched: set<nat>, live: set<PageId>)
    requires FramesOk(frames, free, table, disk, touched) && f < |frames| && frames[f].id.Some?
    ensures var frames' := frames[f := frames[f].(dirty := false)];
      var disk' := disk[frames[f].id.value := frames[f].data];
      && FramesOk(frames', free, table, disk', touched)
      && ViewOf(live, frames', table, disk') == ViewOf(live, frames, table, disk)
  {
    var p := frames[f].id.value;
    var frames', disk' := frames[f := frames[f].(dirty := false)], disk[p := frames[f].data];
    forall g | 0 <= g < |frames| ensures FrameOk(frames'[g], g, free, table, disk', touched) {
      assert FrameOk(frames[g], g, free, table, disk, touched) && FrameOk(frames[f], f, free, table, disk, touched);
    }
  }

  /** A clean unpinned frame can forget its page: the file has the content. */
  lemma ForgetOk(frames: seq<Frame>, f: nat, free: seq<nat>, table: map<PageId, nat>, disk: map<PageId, Bytes>,
                 touched: set<nat>, live: set<PageId>)
    requires FramesOk(frames, free, table, disk, touched) && f < |frames| && frames[f].id.Some?
    requires !frames[f].dirty && frames[f].pin == 0
    ensures var frames', table' := frames[f := frames[f].(id := None)], table - {frames[f].id.value};
      && FramesOk(frames', [f] + free, table', disk, touched)
      && frames[f].id.value in disk
      && ViewOf(live, frames', table', disk) == ViewOf(live, frames, table, disk)
  {
    var p := frames[f].id.value;
    var frames', table' := frames[f := frames[f].(id := None)], table - {p};
    assert FrameOk(frames[f], f, free, table, disk, touched);
    forall g | 0 <= g < |frames| ensures FrameOk(frames'[g], g, [f] + free, table', disk, touched) {
      assert FrameOk(frames[g], g, free, table, disk, touched);
    }
  }

  lemma {:induction false} NoneDirty(frames: seq<Frame>)
    requires forall f :: 0 <= f < |frames| ==> !frames[f].dirty
    ensures DirtyCount(frames) == 0
    decreases |frames|
  {
    if frames != [] { NoneDirty(frames[..|frames| - 1]); }
  }
}
