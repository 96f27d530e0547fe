/** Runs of clients and the background flusher on the page cache, with any number of pins outstanding,
    against a plain memory. */
module BufferClients {
  import opened Common
  import opened ClockSweep
  import opened BufferPool

  /** One step of some client, or of the flusher. */
  datatype Request =
    | Fetch(pid: PageId)                  // pin the page and read it
    | Look(pid: PageId)                   // read through a pin still held
    | Write(pid: PageId, data: Bytes)     // write through a pin still held
    | Unpin(pid: PageId, dirty: bool)
    | Alloc(table: int)                   // a new page, pinned
    | Drop(pid: PageId)
    | Sync(pid: PageId)
    | Flusher(frame: nat)

  datatype Answer = Data(data: Bytes) | Flag(ok: bool) | Nothing

  /** The pins held on a page, and whether it was written since it was last unpinned dirty. */
  datatype Hold = Hold(pins: nat, written: bool)

  type Holds = map<PageId, Hold>

  /** The memory clients believe in: page contents, the next page number of each table, and their pins. */
  datatype Memory = Memory(pages: map<PageId, Bytes>, next: map<int, int>, holds: Holds)

  /** Pages are allocated before use, read and written under a pin, and the last pin to leave a written
      page says that it is dirty. */
  predicate Allowed(m: Memory, r: Request) {
    match r
    case Fetch(pid) => pid in m.pages
    case Look(pid) => pid in m.holds && pid in m.pages
    case Write(pid, _) => pid in m.holds && pid in m.pages
    case Unpin(pid, dirty) => pid in m.holds && m.holds[pid].pins == 1 && m.holds[pid].written ==> dirty
    case _ => true
  }

  function Pinned(holds: Holds, pid: PageId): Holds {
    holds[pid := if pid in holds then holds[pid].(pins := holds[pid].pins + 1) else Hold(1, false)]
  }

  function Released(holds: Holds, pid: PageId, dirty: bool): Holds {
    if pid !in holds then holds
    else if holds[pid].pins <= 1 then holds - {pid}
    else holds[pid := Hold(holds[pid].pins - 1, holds[pid].written && !dirty)]
  }

  function NewPageId(m: Memory, table: int): PageId {
    PageId(table, if table in m.next then m.next[table] else 0)
  }

  function After(m: Memory, r: Request): Memory {
    match r
    case Fetch(pid) => m.(holds := Pinned(m.holds, pid))
    case Write(pid, data) =>
      var pins := if pid in m.holds then m.holds[pid].pins else 0;
      m.(pages := m.pages[pid := data], holds := m.holds[pid := Hold(pins, true)])
    case Unpin(pid, dirty) => m.(holds := Released(m.holds, pid, dirty))
    case Alloc(table) =>
      var pid := NewPageId(m, table);
      Memory(m.pages[pid := ZeroPage()], m.next[table := pid.no + 1], Pinned(m.holds, pid))
    case Drop(pid) => if pid in m.holds then m else m.(pages := m.pages - {pid})
    case _ => m
  }

  function Reply(m: Memory, r: Request): Answer {
    match r
    case Fetch(pid) => Data(if pid in m.pages then m.pages[pid] else [])
    case Look(pid) => Data(if pid in m.pages then m.pages[pid] else [])
    case Unpin(pid, _) => Flag(pid in m.holds)
    case Drop(pid) => Flag(pid !in m.holds)
    case _ => Nothing
  }

  function MemoryAfter(m: Memory, rs: seq<Request>): Memory {
    if rs == [] then m else After(MemoryAfter(m, rs[..|rs| - 1]), rs[|rs| - 1])
  }

  function Replies(m: Memory, rs: seq<Request>): seq<Answer> {
    if rs == [] then [] else
      var n := |rs| - 1;
      Replies(m, rs[..n]) + [Reply(MemoryAfter(m, rs[..n]), rs[n])]
  }

  ghost predicate AllAllowed(m: Memory, rs: seq<Request>) {
    forall i :: 0 <= i < |rs| ==> Allowed(MemoryAfter(m, rs[..i]), rs[i])
  }

  // ---- what the memory answers ----

  /** The request writes, allocates or drops the page. */
  predicate Changes(m: Memory, r: Request, pid: PageId) {
    match r
    case Write(p, _) => p == pid
    case Alloc(table) => NewPageId(m, table) == pid
    case Drop(p) => p == pid
    case _ => false
  }

  lemma {:induction false} ContentKept(m: Memory, rs: seq<Request>, k: nat, n: nat, pid: PageId)
    requires k <= n <= |rs| && pid in MemoryAfter(m, rs[..k]).pages
    requires forall j :: k <= j < n ==> !Changes(MemoryAfter(m, rs[..j]), rs[j], pid)
    ensures pid in MemoryAfter(m, rs[..n]).pages
    ensures MemoryAfter(m, rs[..n]).pages[pid] == MemoryAfter(m, rs[..k]).pages[pid]
    decreases n - k
  {
    if k < n {
      ContentKept(m, rs, k, n - 1, pid);
      assert rs[..n][..n - 1] == rs[..n - 1];
    }
  }

  /** A read gets what was last written to the page, or zeros if it was only allocated, whatever happened in between
      and however often the page left the cache. */
  lemma LastWriteRead(m: Memory, rs: seq<Request>, i: nat, n: nat, pid: PageId)
    requires i < n <= |rs| && Changes(MemoryAfter(m, rs[..i]), rs[i], pid) && !rs[i].Drop?
    requires forall j :: i < j < n ==> !Changes(MemoryAfter(m, rs[..j]), rs[j], pid)
    ensures var answer := Reply(MemoryAfter(m, rs[..n]), Fetch(pid));
      && answer.Data? && answer == Reply(MemoryAfter(m, rs[..n]), Look(pid))
      && (rs[i].Write? ==> answer.data == rs[i].data)
      && (rs[i].Alloc? ==> |answer.data| == PAGE_SIZE && forall b :: b in answer.data ==> b == 0)
  {
    assert rs[..i + 1][..i] == rs[..i];
    ContentKept(m, rs, i + 1, n, pid);
  }

  // ---- pins and frames ----

  /** What the pool's invariant says about frames and page table. */
  ghost predicate Mapping(frames: seq<Frame>, table: map<PageId, nat>, touched: set<nat>) {
    && (forall f :: 0 <= f < |frames| && frames[f].id.Some? ==>
         frames[f].id.value in table && table[frames[f].id.value] == f)
    && (forall p :: p in table ==> table[p] < |frames| && frames[table[p]].id == Some(p))
    && (forall f :: 0 <= f < |frames| && frames[f].pin > 0 ==> frames[f].id.Some?)
    && (forall f :: f in touched ==> f < |frames| && frames[f].pin > 0)
  }

  /** The frames' pins are the clients' pins, and the written frames those the clients wrote. */
  ghost predicate Agree(frames: seq<Frame>, table: map<PageId, nat>, touched: set<nat>, holds: Holds) {
    && (forall p :: p in holds ==>
          && p in table && table[p] < |frames| && frames[table[p]].pin == holds[p].pins > 0
          && (table[p] in touched <==> holds[p].written))
    && (forall f :: 0 <= f < |frames| && frames[f].pin > 0 ==> frames[f].id.Some? && frames[f].id.value in holds)
  }

  /** Pages pinned before and after are in the same frame. */
  ghost predicate Stay(table: map<PageId, nat>, table': map<PageId, nat>, holds: Holds, holds': Holds) {
    forall p :: p in holds && p in holds' && p in table && p in table' ==> table'[p] == table[p]
  }

  lemma MappingOf(frames: seq<Frame>, free: seq<nat>, table: map<PageId, nat>, disk: map<PageId, Bytes>,
                  touched: set<nat>)
    requires FramesOk(frames, free, table, disk, touched)
    ensures Mapping(frames, table, touched)
  {
    forall f | 0 <= f < |frames|
      ensures frames[f].id.Some? ==> frames[f].id.value in table && table[frames[f].id.value] == f
      ensures frames[f].pin > 0 ==> frames[f].id.Some?
      ensures f in touched ==> frames[f].pin > 0
    {
      assert FrameOk(frames[f], f, free, table, disk, touched);
    }
  }

  /** Pinned frames keep their page. */
  ghost predicate KeepIds(was: seq<Frame>, frames: seq<Frame>) {
    |frames| == |was| && forall g :: 0 <= g < |was| && was[g].pin > 0 ==> frames[g].id == was[g].id
  }

  /** A frame was pinned once more for page `pid`. */
  lemma PinAgrees(was: seq<Frame>, table: map<PageId, nat>, touched: set<nat>, holds: Holds,
                  frames: seq<Frame>, table': map<PageId, nat>, f: nat, pid: PageId)
    requires Mapping(was, table, touched) && Agree(was, table, touched, holds)
    requires Mapping(frames, table', touched) && KeepIds(was, frames) && f < |frames| && frames[f].id == Some(pid)
    requires frames[f].pin == (if pid in table then was[f].pin else 0) + 1
    requires pid in table ==> table[pid] == f
    requires forall g :: 0 <= g < |frames| && g != f ==> frames[g].pin == was[g].pin
    ensures Agree(frames, table', touched, Pinned(holds, pid)) && Stay(table, table', holds, Pinned(holds, pid))
  {
    var holds' := Pinned(holds, pid);
    if pid !in table { assert was[f].pin == 0; }
    forall p | p in holds'
      ensures p in table' && table'[p] < |frames| && frames[table'[p]].pin == holds'[p].pins > 0
      ensures table'[p] in touched <==> holds'[p].written
      ensures p in holds && p in table ==> table'[p] == table[p]
    {
      if p in holds { assert frames[table[p]].id == Some(p); }
    }
  }

  /** Nothing changed for any pinned frame. */
  lemma SameAgrees(was: seq<Frame>, table: map<PageId, nat>, touched: set<nat>, holds: Holds,
                   frames: seq<Frame>, table': map<PageId, nat>)
    requires Mapping(was, table, touched) && Agree(was, table, touched, holds)
    requires Mapping(frames, table', touched) && KeepIds(was, frames) && Pins(frames) == Pins(was)
    ensures Agree(frames, table', touched, holds) && Stay(table, table', holds, holds)
  {
    forall g | 0 <= g < |frames| ensures frames[g].pin == was[g].pin {
      assert Pins(frames)[g] == Pins(was)[g];
    }
    forall p | p in holds
      ensures p in table' && table'[p] == table[p]
    {
      assert frames[table[p]].id == Some(p);
    }
  }

  lemma ReleaseAgrees(was: seq<Frame>, table: map<PageId, nat>, touched: set<nat>, holds: Holds,
                      x: Frame, f: nat, pid: PageId, dirty: bool, touched': set<nat>)
    requires Mapping(was, table, touched) && Agree(was, table, touched, holds)
    requires pid in table && table[pid] == f && pid in holds && f < |was| && was[f].pin > 0
    requires x.pin == was[f].pin - 1 && x.id == was[f].id
    requires touched' == if dirty || x.pin == 0 then touched - {f} else touched
    ensures Agree(was[f := x], table, touched', Released(holds, pid, dirty))
  {
    var frames := was[f := x];
    forall p | p in holds && p != pid ensures table[p] != f {
      assert was[table[p]].id == Some(p);
    }
    forall g | 0 <= g < |frames| && frames[g].pin > 0
      ensures frames[g].id.Some? && frames[g].id.value in Released(holds, pid, dirty)
    {
    }
  }

  /** The cache and everything its clients hold. */
  class Clients {
    const pool: BufferManager
    ghost var holds: Holds     // the pins that are out

    constructor (pool: BufferManager)
      requires pool.Valid() && pool.touched == {} && forall f :: 0 <= f < pool.frames.Length ==> pool.frames[f].pin == 0
      ensures this.pool == pool && holds == map[] && Valid()
    {
      this.pool := pool;
      holds := map[];
      new;
      MappingNow();
    }

    lemma MappingNow()
      requires pool.Valid()
      ensures Mapping(pool.frames[..], pool.pageTable, pool.touched)
    {
      MappingOf(pool.frames[..], pool.freeList, pool.pageTable, pool.files.pages, pool.touched);
    }

    ghost predicate Valid()
      reads this, pool, pool.files, pool.lru, pool.lru.frames, pool.frames
    {
      pool.Valid() && Agree(pool.frames[..], pool.pageTable, pool.touched, holds)
    }

    ghost function Seen(): Memory
      reads this, pool, pool.files, pool.frames
    {
      Memory(pool.View(), pool.nextPageNo, holds)
    }

    /** A request that needs a frame finds its page resident, or room for it. */
    predicate Ready(r: Request)
      reads pool, pool.lru, pool.lru.frames, pool.frames
    {
      match r
      case Fetch(pid) => pid in pool.pageTable || pool.CanMakeRoom()
      case Alloc(_) => pool.CanMakeRoom()
      case _ => true
    }

    lemma SeenLive()
      ensures Seen().pages.Keys == pool.live
    {
    }

    /** The bytes of a held page's frame are the page's content. */
    lemma HeldFrame(pid: PageId)
      requires Valid() && pid in holds
      ensures pid in pool.pageTable && pool.pageTable[pid] < pool.frames.Length
      ensures var x := pool.frames[pool.pageTable[pid]];
        x.id == Some(pid) && x.pin == holds[pid].pins > 0 && pid in Seen().pages && x.data == Seen().pages[pid]
    {
    }

    method DoFetch(pid: PageId) returns (data: Bytes)
      requires Valid() && pid in Seen().pages && Ready(Fetch(pid))
      modifies this`holds, pool, pool.files, pool.frames, pool.lru.frames
      ensures Valid() && Seen() == old(After(Seen(), Fetch(pid))) && data == old(Seen()).pages[pid]
      ensures Stay(old(pool.pageTable), pool.pageTable, old(holds), holds)
    {
      hide FramesOk, LiveOk, DirtyCount, ViewOf, CanEvict, Agree, Mapping, Stay;
      SeenLive();
      MappingNow();
      ghost var was, table := pool.frames[..], pool.pageTable;
      Resident(pid);
      var f := pool.FetchPage(pid);
      data := pool.frames[f].data;
      MappingNow();
      PinAgrees(was, table, pool.touched, holds, pool.frames[..], pool.pageTable, f, pid);
      holds := Pinned(holds, pid);
    }

    lemma Resident(pid: PageId)
      requires pool.Valid()
      ensures pid in pool.pageTable ==>
        pool.pageTable[pid] < pool.frames.Length && pool.frames[pool.pageTable[pid]].id == Some(pid)
    {
    }

    method DoLook(pid: PageId) returns (data: Bytes)
      requires Valid() && pid in holds
      ensures pid in Seen().pages && data == Seen().pages[pid]
    {
      HeldFrame(pid);
      data := pool.frames[pool.pageTable[pid]].data;
    }

    method DoWrite(pid: PageId, data: Bytes)
      requires Valid() && pid in holds
      modifies this`holds, pool, pool.files, pool.frames, pool.lru.frames
      ensures Valid() && Seen() == old(After(Seen(), Write(pid, data)))
      ensures pool.pageTable == old(pool.pageTable)
    {
      hide FramesOk, LiveOk, DirtyCount, ViewOf;
      HeldFrame(pid);
      MappingNow();
      pool.WriteData(pool.pageTable[pid], data);
      holds := holds[pid := Hold(holds[pid].pins, true)];
    }

    lemma HeldIffPinned(pid: PageId)
      requires Valid()
      ensures pid in pool.pageTable ==> pool.pageTable[pid] < pool.frames.Length
      ensures pid in holds <==> pid in pool.pageTable && pool.frames[pool.pageTable[pid]].pin > 0
      ensures pid in holds ==>
        && pool.frames[pool.pageTable[pid]].pin == holds[pid].pins
        && (pool.pageTable[pid] in pool.touched <==> holds[pid].written)
    {
      MappingNow();
    }

    method DoUnpin(pid: PageId, dirty: bool) returns (ok: bool)
      requires Valid() && Allowed(Seen(), Unpin(pid, dirty))
      modifies this`holds, pool, pool.files, pool.frames, pool.lru.frames
      ensures Valid() && Seen() == old(After(Seen(), Unpin(pid, dirty))) && ok == (pid in old(holds))
      ensures pool.pageTable == old(pool.pageTable)
    {
      hide FramesOk, LiveOk, DirtyCount, ViewOf, Agree, Mapping;
      MappingNow();
      HeldIffPinned(pid);
      ghost var was, touched := pool.frames[..], pool.touched;
      ok := pool.UnpinPage(pid, dirty);
      if ok {
        ghost var f := pool.pageTable[pid];
        ReleaseAgrees(was, pool.pageTable, touched, holds, pool.frames[f], f, pid, dirty, pool.touched);
        holds := Released(holds, pid, dirty);
      }
    }

    method DoAlloc(table: int)
      requires Valid() && Ready(Alloc(table))
      modifies this`holds, pool, pool.files, pool.frames, pool.lru.frames
      ensures Valid() && Seen() == old(After(Seen(), Alloc(table)))
      ensures Stay(old(pool.pageTable), pool.pageTable, old(holds), holds)
    {
      hide FramesOk, LiveOk, DirtyCount, ViewOf, CanEvict, Agree, Mapping, Stay;
      MappingNow();
      ghost var was, table', pid := pool.frames[..], pool.pageTable, NewPageId(Seen(), table);
      NotMapped(pid);
      var f := pool.NewPage(table);
      MappingNow();
      PinAgrees(was, table', pool.touched, holds, pool.frames[..], pool.pageTable, f, pid);
      holds := Pinned(holds, pid);
    }

    // The page number handed out next belongs to no page in the pool.
    lemma NotMapped(pid: PageId)
      requires pool.Valid() && pid == NewPageId(Seen(), pid.table)
      ensures pid !in pool.pageTable
    {
    }

    method DoDrop(pid: PageId) returns (ok: bool)
      requires Valid()
      modifies this`holds, pool, pool.files, pool.frames, pool.lru.frames
      ensures Valid() && Seen() == old(After(Seen(), Drop(pid))) && ok == (pid !in holds) && holds == old(holds)
      ensures Stay(old(pool.pageTable), pool.pageTable, holds, holds)
    {
      hide FramesOk, LiveOk, DirtyCount, ViewOf, Stay;
      MappingNow();
      ghost var was, table := pool.frames[..], pool.pageTable;
      ok := pool.DeletePage(pid);
      MappingNow();
      SameAgrees(was, table, pool.touched, holds, pool.frames[..], pool.pageTable);
    }

    method DoSync(pid: PageId)
      requires Valid()
      modifies this`holds, pool, pool.files, pool.frames, pool.lru.frames
      ensures Valid() && Seen() == old(Seen())
      ensures Stay(old(pool.pageTable), pool.pageTable, holds, holds)
    {
      hide FramesOk, LiveOk, DirtyCount, ViewOf, Agree, Mapping, Stay;
      MappingNow();
      ghost var was, table := pool.frames[..], pool.pageTable;
      var ok := pool.FlushPage(pid);
      MappingNow();
      SameAgrees(was, table, pool.touched, holds, pool.frames[..], pool.pageTable);
    }

    method DoFlush(frame: nat)
      requires Valid()
      modifies this`holds, pool, pool.files, pool.frames, pool.lru.frames
      ensures Valid() && Seen() == old(Seen())
      ensures Stay(old(pool.pageTable), pool.pageTable, holds, holds)
    {
      hide FramesOk, LiveOk, DirtyCount, ViewOf, Agree, Mapping, Stay;
      MappingNow();
      ghost var was, table := pool.frames[..], pool.pageTable;
      if frame < pool.frames.Length { pool.FlushCandidate(frame); }
      MappingNow();
      SameAgrees(was, table, pool.touched, holds, pool.frames[..], pool.pageTable);
    }

    method Do(r: Request) returns (answer: Answer)
      requires Valid() && Allowed(Seen(), r) && Ready(r)
      modifies this`holds, pool, pool.files, pool.frames, pool.lru.frames
      ensures Valid() && Seen() == old(After(Seen(), r)) && answer == old(Reply(Seen(), r))
      ensures Stay(old(pool.pageTable), pool.pageTable, old(holds), holds)
    {
      hide FramesOk, LiveOk, DirtyCount, ViewOf, Agree, Mapping, Pinned, Released, FrameOk;
      answer := Nothing;
      match r
      case Fetch(pid) =>
        var data := DoFetch(pid);
        answer := Data(data);
      case Look(pid) =>
        var data := DoLook(pid);
        answer := Data(data);
      case Write(pid, data) => DoWrite(pid, data);
      case Unpin(pid, dirty) =>
        var ok := DoUnpin(pid, dirty);
        answer := Flag(ok);
      case Alloc(table) => DoAlloc(table);
      case Drop(pid) =>
        var ok := DoDrop(pid);
        answer := Flag(ok);
      case Sync(pid) => DoSync(pid);
      case Flusher(frame) => DoFlush(frame);
    }

    /** Any interleaving of clients and flusher, up to the first request that finds no room: the cache,
        however it evicts and flushes, answers like the plain memory, and a page that stays pinned stays
        in its frame. */
    method Serve(rs: seq<Request>) returns (answers: seq<Answer>, done: nat)
      requires Valid() && AllAllowed(Seen(), rs)
      modifies this`holds, pool, pool.files, pool.frames, pool.lru.frames
      ensures Valid() && done <= |rs| && (done < |rs| ==> !Ready(rs[done]))
      ensures Seen() == MemoryAfter(old(Seen()), rs[..done]) && answers == Replies(old(Seen()), rs[..done])
      ensures forall p :: HeldThroughout(old(Seen()), rs[..done], p) ==>
        p in old(pool.pageTable) && p in pool.pageTable && pool.pageTable[p] == old(pool.pageTable)[p]
    {
      hide FramesOk, LiveOk, DirtyCount, ViewOf, Agree, Mapping, After, Reply, Allowed, FrameOk;
      ghost var m, table := Seen(), pool.pageTable;
      answers, done := [], 0;
      StartHeld(m, rs);
      while done < |rs|
        invariant done <= |rs| && Valid()
        invariant Seen() == MemoryAfter(m, rs[..done]) && answers == Replies(m, rs[..done])
        invariant forall p :: HeldThroughout(m, rs[..done], p) ==>
          p in holds && p in table && p in pool.pageTable && pool.pageTable[p] == table[p]
      {
        assert rs[..done + 1][..done] == rs[..done];
        assert Allowed(MemoryAfter(m, rs[..done]), rs[done]);
        if !Ready(rs[done]) { return; }
        var answer := Do(rs[done]);
        answers := answers + [answer];
        done := done + 1;
        forall p | HeldThroughout(m, rs[..done], p)
          ensures p in holds && p in table && p in pool.pageTable && pool.pageTable[p] == table[p]
        {
          HeldBefore(m, rs, done, p);
          HeldMapped(p);
        }
      }
    }

    lemma HeldMapped(p: PageId)
      requires Valid() && p in holds
      ensures p in pool.pageTable
    {
    }

    lemma StartHeld(m: Memory, rs: seq<Request>)
      requires Valid() && m == Seen()
      ensures forall p :: HeldThroughout(m, rs[..0], p) ==> p in holds && p in pool.pageTable
    {
      assert rs[..0] == [];
      forall p | HeldThroughout(m, rs[..0], p) ensures p in holds {
        assert HeldAt(m, rs[..0], 0, p);
      }
    }
  }

  /** Page `p` is pinned at every point of the run. */
  ghost predicate HeldThroughout(m: Memory, rs: seq<Request>, p: PageId) {
    forall i :: 0 <= i <= |rs| ==> HeldAt(m, rs, i, p)
  }

  ghost predicate HeldAt(m: Memory, rs: seq<Request>, i: nat, p: PageId)
    requires i <= |rs|
  {
    p in MemoryAfter(m, rs[..i]).holds
  }

  lemma HeldBefore(m: Memory, rs: seq<Request>, n: nat, p: PageId)
    requires 0 < n <= |rs| && HeldThroughout(m, rs[..n], p)
    ensures HeldThroughout(m, rs[..n - 1], p) && p in MemoryAfter(m, rs[..n]).holds
  {
    var before, run := rs[..n - 1], rs[..n];
    assert HeldAt(m, run, n, p) && run[..n] == run;
    forall i | 0 <= i <= |before| ensures HeldAt(m, before, i, p) {
      assert HeldAt(m, run, i, p) && before[..i] == run[..i];
    }
  }

  /** Two pages allocated in a new pool of two frames, and the second one let go: its frame is free to go,
      and yet no search for a victim ever finds it. */
  method Starve(files: PageFiles, table: int) returns (pool: BufferManager)
    modifies files
    ensures pool.Valid() && pool.frames.Length == 2 && pool.frames[1].pin == 0 && !pool.CanMakeRoom()
    ensures pool.freeList == [] && forall k :: !FoundIn(pool.lru.frames[..], Pins(pool.frames[..]), k)
  {
    hide FramesOk, LiveOk, DirtyCount, ViewOf;
    pool := new BufferManager(files, 2);
    var a := pool.NewPage(table);
    var b := pool.NewPage(table);
    assert pool.frames[0].pin == 1;
    var ok := pool.UnpinPage(PageId(table, 1), true);
    ghost var c, pins := pool.lru.frames[..], Pins(pool.frames[..]);
    assert c == [1, 1];
    assert pins[0] == 1;
    forall k: nat ensures !FoundIn(c, pins, k) { FrameZeroStarves(c, pins, k); }
    SearchEndsIff(c, pins);
  }
}
