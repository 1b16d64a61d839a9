/** `BufferManagerImpl`: a bounded cache of pages, each in a frame with a pin
    count and a dirty flag, in front of a disk manager. */
module BufferManagers {
  import opened Common
  import opened PageIds

  /** A page as the buffer manager sees it: its id and its bytes. The buffer
      manager never edits a page's bytes; it hands pages out and writes them back. */
  datatype Page = Page(id: SimplePageId, data: seq<bv8>)

  /** What the disk manager holds and has been asked to do: the bytes stored
      per page id, and the log of page reads and page writes requested. */
  datatype DiskState = DiskState(stored: map<SimplePageId, seq<bv8>>, readLog: seq<SimplePageId>, writeLog: seq<SimplePageId>)

  /** The disk after `data` is written as page `pid`. */
  function AfterWrite(d: DiskState, pid: SimplePageId, data: seq<bv8>): (r: DiskState)
    ensures r.stored.Keys == d.stored.Keys + {pid} && r.stored[pid] == data
    ensures forall q :: q in d.stored && q != pid ==> r.stored[q] == d.stored[q]
    ensures r.writeLog == d.writeLog + [pid] && r.readLog == d.readLog
  {
    DiskState(d.stored[pid := data], d.readLog, d.writeLog + [pid])
  }

  /** The disk after page `pid` is read. */
  function AfterRead(d: DiskState, pid: SimplePageId): (r: DiskState)
    ensures r.stored == d.stored && r.writeLog == d.writeLog && r.readLog == d.readLog + [pid]
  {
    DiskState(d.stored, d.readLog + [pid], d.writeLog)
  }

  /** Stand-in for the `DiskManager` the buffer manager calls. */
  class Disk {
    var state: DiskState

    constructor (stored: map<SimplePageId, seq<bv8>>)
      ensures state == DiskState(stored, [], [])
    {
      state := DiskState(stored, [], []);
    }

    /** `readPage`: the page holding the stored bytes; fails for a page never
        stored. */
    method ReadPage(pid: SimplePageId) returns (r: Result<Page>)
      modifies this
      ensures state == AfterRead(old(state), pid)
      ensures r.Ok? <==> pid in state.stored
      ensures r.Ok? ==> r.value == Page(pid, state.stored[pid])
      ensures r.Fail? ==> r.error == DiskError
    {
      state := AfterRead(state, pid);
      if pid !in state.stored {
        return Fail(DiskError);
      }
      return Ok(Page(pid, state.stored[pid]));
    }

    /** `writePage`: the page's current bytes are stored under its id. */
    method WritePage(page: Page)
      modifies this
      ensures state == AfterWrite(old(state), page.id, page.data)
    {
      state := AfterWrite(state, page.id, page.data);
    }
  }

  /** `BufferManagerImpl.Frame`: a cached page, how many users have it pinned,
      and whether any of them dirtied it. */
  datatype Frame = Frame(page: Page, pinCount: int, isDirty: bool)

  /** A frame `evict` may choose: unpinned, and clean unless dirty pages may be evicted. */
  predicate Eligible(f: Frame, allowEvictDirty: bool)
  {
    f.pinCount <= 0 && (allowEvictDirty || !f.isDirty)
  }

  /** Some cached frame is eligible for eviction. */
  predicate CanEvict(cache: map<SimplePageId, Frame>, allowEvictDirty: bool)
  {
    exists pid :: pid in cache && Eligible(cache[pid], allowEvictDirty)
  }

  /** The page ids whose frames are dirty. */
  function DirtyKeys(cache: map<SimplePageId, Frame>): set<SimplePageId>
  {
    set pid | pid in cache && cache[pid].isDirty
  }

  /** The cache without the frame evicted, if any. */
  function Without(cache: map<SimplePageId, Frame>, victim: Option<SimplePageId>): (r: map<SimplePageId, Frame>)
    ensures victim.None? ==> r == cache
    ensures victim.Some? ==> r == cache - {victim.value}
  {
    if victim.Some? then cache - {victim.value} else cache
  }

  /** The most frames the cache ever holds: `numPages`, and none when that is negative. */
  function Capacity(numPages: int): nat
  {
    if numPages < 0 then 0 else numPages
  }

  class BufferManager {
    var allowEvictDirty: bool
    const numPages: int
    const dm: Disk
    var cache: map<SimplePageId, Frame>

    /** The cache never holds more than `numPages` frames, pin counts never go
        negative, and every frame holds the page its key names. */
    ghost predicate Valid()
      reads this
    {
      && |cache| <= Capacity(numPages)
      && (forall pid :: pid in cache ==> cache[pid].pinCount >= 0)
      && (forall pid :: pid in cache ==> cache[pid].page.id == pid)
    }

    /** `BufferManagerImpl(numPages, dm)`: an empty cache; dirty pages are not
        candidates for eviction. */
    constructor (numPages: int, dm: Disk)
      ensures Valid()
      ensures this.numPages == numPages && this.dm == dm
      ensures cache == map[] && !allowEvictDirty
    {
      this.numPages := numPages;
      this.dm := dm;
      cache := map[];
      allowEvictDirty := false;
    }

    /** `isDirty`: false for a page that is not cached. */
    method IsDirty(pid: SimplePageId) returns (b: bool)
      ensures b <==> pid in cache && cache[pid].isDirty
      ensures pid !in cache ==> !b
    {
      if pid !in cache {
        return false;
      }
      return cache[pid].isDirty;
    }

    /** `inBufferPool`. */
    method InBufferPool(pid: SimplePageId) returns (b: bool)
      ensures b <==> pid in cache
    {
      return pid in cache;
    }

    /** `getFrame`: BufferManagerException for a page that is not cached. */
    method GetFrame(pid: SimplePageId) returns (r: Result<Frame>)
      ensures r.Ok? <==> pid in cache
      ensures r.Ok? ==> r.value == cache[pid]
      ensures r.Fail? ==> r.error == BufferManagerError
    {
      if pid !in cache {
        return Fail(BufferManagerError);
      }
      return Ok(cache[pid]);
    }

    /** `getPage`: the cached page object itself; BufferManagerException for a
        page that is not cached. */
    method GetPage(pid: SimplePageId) returns (r: Result<Page>)
      requires Valid()
      ensures r.Ok? <==> pid in cache
      ensures r.Ok? ==> r.value == cache[pid].page && r.value.id == pid
      ensures r.Fail? ==> r.error == BufferManagerError
    {
      if pid !in cache {
        return Fail(BufferManagerError);
      }
      return Ok(cache[pid].page);
    }

    /** `evictDirty`: sets whether dirty frames are candidates for eviction. */
    method EvictDirty(allow: bool)
      modifies this
      ensures allowEvictDirty == allow && cache == old(cache)
    {
      allowEvictDirty := allow;
    }

    /** `evict`: some eligible frame (the first in the map's iteration order,
        which is not modelled) is written to disk — clean or not — and removed;
        BufferManagerException, with nothing changed, when no frame is eligible. */
    method Evict() returns (s: Status, ghost victim: SimplePageId)
      requires Valid()
      modifies this, dm
      ensures Valid()
      ensures allowEvictDirty == old(allowEvictDirty)
      ensures s.Done? <==> CanEvict(old(cache), allowEvictDirty)
      ensures s.Failed? ==> s.error == BufferManagerError && cache == old(cache) && dm.state == old(dm.state)
      ensures s.Done? ==> victim in old(cache) && Eligible(old(cache)[victim], allowEvictDirty)
      ensures s.Done? ==> cache == old(cache) - {victim}
      ensures s.Done? ==> dm.state == AfterWrite(old(dm.state), victim, old(cache)[victim].page.data)
    {
      victim := SimplePageId(0, 0);
      var keys := cache.Keys;
      while keys != {}
        invariant keys <= cache.Keys
        invariant allowEvictDirty == old(allowEvictDirty)
        invariant cache == old(cache) && dm.state == old(dm.state)
        invariant forall pid :: pid in cache && pid !in keys ==> !Eligible(cache[pid], allowEvictDirty)
        decreases keys
      {
        var pid :| pid in keys;
        var frame := GetFrame(pid);
        var dirty := IsDirty(pid);
        if allowEvictDirty || !dirty {
          if frame.value.pinCount <= 0 {
            dm.WritePage(frame.value.page);
            cache := cache - {pid};
            victim := pid;
            return Done, victim;
          }
        }
        keys := keys - {pid};
      }
      return Failed(BufferManagerError), victim;
    }

    /** `pinPage`: a cached page gets one more pin and no disk access; an
        uncached one is first given room (by evicting when the cache is full),
        then read from disk into a new frame with one pin and a clean flag.
        `victim` names the frame evicted, if any. */
    method PinPage(pid: SimplePageId) returns (r: Result<Page>, ghost victim: Option<SimplePageId>)
      requires Valid()
      modifies this, dm
      ensures Valid()
      ensures allowEvictDirty == old(allowEvictDirty)
      // a hit
      ensures pid in old(cache) ==> victim == None && dm.state == old(dm.state) && r == Ok(old(cache)[pid].page)
      ensures pid in old(cache) ==> cache == old(cache)[pid := old(cache)[pid].(pinCount := old(cache)[pid].pinCount + 1)]
      // a miss
      ensures pid !in old(cache) ==> MissOutcome(old(cache), old(dm.state), numPages, allowEvictDirty, pid, r, victim, cache, dm.state)
    {
      if pid !in cache {
        r, victim := PinMissing(pid);
        return;
      }
      victim := None;
      var frame := cache[pid];
      cache := cache[pid := frame.(pinCount := frame.pinCount + 1)];
      return Ok(frame.page), victim;
    }

    /** The branch of `pinPage` for a page that is not cached. */
    method PinMissing(pid: SimplePageId) returns (r: Result<Page>, ghost victim: Option<SimplePageId>)
      requires Valid() && pid !in cache
      modifies this, dm
      ensures Valid()
      ensures allowEvictDirty == old(allowEvictDirty)
      ensures MissOutcome(old(cache), old(dm.state), numPages, allowEvictDirty, pid, r, victim, cache, dm.state)
    {
      ghost var cache0, disk0 := cache, dm.state;
      victim := None;
      if numPages <= |cache| {
        var s, v := Evict();
        if s.Failed? {
          return Fail(s.error), None;
        }
        victim := Some(v);
      }
      var read := dm.ReadPage(pid);
      if read.Fail? {
        MissAfterRead(cache0, disk0, numPages, allowEvictDirty, pid, victim, read, cache, dm.state);
        return Fail(read.error), victim;
      }
      var page := read.value;
      var frame := Frame(page, 0, false);
      cache := cache[pid := frame.(pinCount := frame.pinCount + 1)];
      MissAfterRead(cache0, disk0, numPages, allowEvictDirty, pid, victim, read, cache, dm.state);
      return Ok(page), victim;
    }

    /** `unpinPage`: BufferManagerException, with nothing changed, when the page
        is not cached or not pinned; otherwise one pin fewer, and the dirty flag
        is raised if the caller dirtied the page but never lowered. */
    method UnpinPage(pid: SimplePageId, isDirty: bool) returns (s: Status)
      requires Valid()
      modifies this
      ensures Valid()
      ensures allowEvictDirty == old(allowEvictDirty)
      ensures s.Failed? <==> pid !in old(cache) || old(cache)[pid].pinCount == 0
      ensures s.Failed? ==> s.error == BufferManagerError && cache == old(cache)
      ensures s.Done? ==> cache == old(cache)[pid := Frame(old(cache)[pid].page, old(cache)[pid].pinCount - 1, old(cache)[pid].isDirty || isDirty)]
    {
      if pid !in cache {
        return Failed(BufferManagerError);
      }
      var frame := cache[pid];
      if frame.pinCount == 0 {
        return Failed(BufferManagerError);
      }
      if !frame.isDirty {
        frame := frame.(isDirty := isDirty);
      }
      frame := frame.(pinCount := frame.pinCount - 1);
      cache := cache[pid := frame];
      return Done;
    }

    /** `flushPage`: a dirty page is written and marked clean; a clean one is
        left alone; BufferManagerException for a page that is not cached. */
    method FlushPage(pid: SimplePageId) returns (s: Status)
      requires Valid()
      modifies this, dm
      ensures Valid()
      ensures allowEvictDirty == old(allowEvictDirty)
      ensures s.Failed? <==> pid !in old(cache)
      ensures s.Failed? ==> s.error == BufferManagerError && cache == old(cache) && dm.state == old(dm.state)
      ensures s.Done? ==> cache == old(cache)[pid := old(cache)[pid].(isDirty := false)]
      ensures s.Done? ==> dm.state == if old(cache)[pid].isDirty then AfterWrite(old(dm.state), pid, old(cache)[pid].page.data) else old(dm.state)
    {
      var frame := GetFrame(pid);
      if frame.Fail? {
        return Failed(frame.error);
      }
      if frame.value.isDirty {
        dm.WritePage(frame.value.page);
        cache := cache[pid := frame.value.(isDirty := false)];
      }
      return Done;
    }

    /** `flushAllPages`: every dirty page is written exactly once and every
        frame ends clean; nothing else about the frames changes. */
    method FlushAllPages()
      requires Valid()
      modifies this, dm
      ensures Valid()
      ensures allowEvictDirty == old(allowEvictDirty)
      ensures cache == MarkClean(old(cache), old(cache).Keys)
      ensures dm.state.stored == StoreAll(old(dm.state).stored, PageData(old(cache)), DirtyKeys(old(cache)))
      ensures dm.state.readLog == old(dm.state).readLog
      ensures |dm.state.writeLog| >= |old(dm.state).writeLog| && dm.state.writeLog[..|old(dm.state).writeLog|] == old(dm.state).writeLog
      ensures multiset(dm.state.writeLog[|old(dm.state).writeLog|..]) == multiset(DirtyKeys(old(cache)))
    {
      ghost var cache0, disk0 := cache, dm.state;
      ghost var datas := PageData(cache);
      var keys := cache.Keys;
      ghost var written: seq<SimplePageId> := [];
      FlushProgressStart(cache0, disk0, datas);
      while keys != {}
        invariant Valid()
        invariant allowEvictDirty == old(allowEvictDirty)
        invariant keys <= cache0.Keys
        invariant FlushProgress(cache0, disk0, datas, cache0.Keys - keys, cache, dm.state, written)
        decreases keys
      {
        var pid :| pid in keys;
        FlushProgressStep(cache0, disk0, datas, keys, cache, dm.state, written, pid);
        ghost var dirty := cache[pid].isDirty;
        var s := FlushPage(pid);
        keys := keys - {pid};
        if dirty {
          written := written + [pid];
        }
      }
      FlushProgressEnd(cache0, disk0, datas, cache, dm.state, written);
    }

    /** `discardPage`: the frame is dropped without being written, whether dirty
        or not; no-op for a page that is not cached; no other frame changes. */
    method DiscardPage(pid: SimplePageId)
      requires Valid()
      modifies this
      ensures Valid()
      ensures allowEvictDirty == old(allowEvictDirty)
      ensures cache == old(cache) - {pid}
      ensures pid !in old(cache) ==> cache == old(cache)
    {
      var present := InBufferPool(pid);
      if present {
        cache := cache - {pid};
      }
    }
  }


  /** What `pinPage` does for a page `pid` that is not in `cache0`: when the
      cache is full it evicts first (failing, with nothing changed, when no
      frame is eligible); then it reads the page once, and on success caches it
      in a new frame with one pin and a clean flag. */
  ghost predicate MissOutcome(cache0: map<SimplePageId, Frame>, disk0: DiskState, numPages: int, allowEvictDirty: bool,
                              pid: SimplePageId, r: Result<Page>, victim: Option<SimplePageId>,
                              cache: map<SimplePageId, Frame>, disk: DiskState)
  {
    && (victim.Some? <==> numPages <= |cache0| && CanEvict(cache0, allowEvictDirty))
    && (victim.Some? ==> victim.value in cache0 && Eligible(cache0[victim.value], allowEvictDirty))
    && (numPages <= |cache0| && victim.None? ==>
          r == Fail(BufferManagerError) && cache == cache0 && disk == disk0)
    && (numPages > |cache0| || victim.Some? ==>
          && disk == AfterRead(AfterEvict(cache0, disk0, victim), pid)
          && (r.Ok? <==> pid in disk0.stored)
          && (r.Fail? ==> r.error == DiskError && cache == Without(cache0, victim))
          && (r.Ok? ==> r.value == Page(pid, disk0.stored[pid]))
          && (r.Ok? ==> cache == Without(cache0, victim)[pid := Frame(r.value, 1, false)]))
  }

  /** The disk after the eviction, if any, that precedes a read: the victim's
      page is written whether it is dirty or not. */
  function AfterEvict(cache: map<SimplePageId, Frame>, disk: DiskState, victim: Option<SimplePageId>): (r: DiskState)
    requires victim.Some? ==> victim.value in cache
    ensures victim.None? ==> r == disk
    ensures victim.Some? ==> r == AfterWrite(disk, victim.value, cache[victim.value].page.data)
  {
    if victim.Some? then AfterWrite(disk, victim.value, cache[victim.value].page.data) else disk
  }

  /** Once the miss branch has made room (or had room) and read the page, its
      outcome is the one `pinPage` promises. */
  lemma MissAfterRead(cache0: map<SimplePageId, Frame>, disk0: DiskState, numPages: int, allowEvictDirty: bool,
                      pid: SimplePageId, victim: Option<SimplePageId>, read: Result<Page>,
                      cache: map<SimplePageId, Frame>, disk: DiskState)
    requires pid !in cache0
    requires victim.Some? <==> numPages <= |cache0|
    requires victim.Some? ==> victim.value in cache0 && Eligible(cache0[victim.value], allowEvictDirty)
    requires disk == AfterRead(AfterEvict(cache0, disk0, victim), pid)
    requires read.Ok? <==> pid in disk.stored
    requires read.Ok? ==> read.value == Page(pid, disk.stored[pid])
    requires read.Fail? ==> read.error == DiskError && cache == Without(cache0, victim)
    requires read.Ok? ==> cache == Without(cache0, victim)[pid := Frame(read.value, 1, false)]
    ensures MissOutcome(cache0, disk0, numPages, allowEvictDirty, pid, read, victim, cache, disk)
  {
    if victim.Some? {
      assert victim.value != pid;
      assert CanEvict(cache0, allowEvictDirty);
    }
  }

  /** The bytes of every cached page. */
  function PageData(cache: map<SimplePageId, Frame>): (r: map<SimplePageId, seq<bv8>>)
    ensures r.Keys == cache.Keys
    ensures forall pid :: pid in cache ==> r[pid] == cache[pid].page.data
  {
    map pid | pid in cache :: cache[pid].page.data
  }

  /** The cache with the frames named in `ks` marked clean. */
  function MarkClean(cache: map<SimplePageId, Frame>, ks: set<SimplePageId>): (r: map<SimplePageId, Frame>)
    ensures r.Keys == cache.Keys
    ensures forall pid :: pid in cache ==> r[pid].page == cache[pid].page && r[pid].pinCount == cache[pid].pinCount
    ensures forall pid :: pid in cache ==> r[pid].isDirty == (cache[pid].isDirty && pid !in ks)
  {
    map pid | pid in cache :: if pid in ks then cache[pid].(isDirty := false) else cache[pid]
  }

  /** The disk contents after the pages in `ks` are written with the bytes in `datas`. */
  function StoreAll(stored: map<SimplePageId, seq<bv8>>, datas: map<SimplePageId, seq<bv8>>, ks: set<SimplePageId>): (r: map<SimplePageId, seq<bv8>>)
    requires ks <= datas.Keys
    ensures r.Keys == stored.Keys + ks
    ensures forall pid :: pid in ks ==> r[pid] == datas[pid]
    ensures forall pid :: pid in stored && pid !in ks ==> r[pid] == stored[pid]
  {
    map pid | pid in stored.Keys + ks :: if pid in ks then datas[pid] else stored[pid]
  }

  lemma MarkCleanStep(cache0: map<SimplePageId, Frame>, done: set<SimplePageId>, pid: SimplePageId)
    requires pid in cache0 && pid !in done
    ensures MarkClean(cache0, done + {pid}) == MarkClean(cache0, done)[pid := MarkClean(cache0, done)[pid].(isDirty := false)]
  {
  }

  lemma StoreAllStep(stored: map<SimplePageId, seq<bv8>>, datas: map<SimplePageId, seq<bv8>>, ks: set<SimplePageId>, pid: SimplePageId)
    requires ks <= datas.Keys && pid in datas
    ensures StoreAll(stored, datas, ks + {pid}) == StoreAll(stored, datas, ks)[pid := datas[pid]]
  {
  }

  lemma MultisetOfSetAdd(s: set<SimplePageId>, x: SimplePageId)
    requires x !in s
    ensures multiset(s + {x}) == multiset(s) + multiset{x}
  {
  }

  lemma IntersectStep(a: set<SimplePageId>, d: set<SimplePageId>, x: SimplePageId)
    ensures a * (d + {x}) == if x in a then a * d + {x} else a * d
  {
  }

  /** How far `flushAllPages` has got once the frames in `done` are flushed:
      those frames are clean, the dirty ones among them have been written, in
      the order recorded by `written`, each once. */
  ghost predicate FlushProgress(cache0: map<SimplePageId, Frame>, disk0: DiskState, datas: map<SimplePageId, seq<bv8>>,
                                done: set<SimplePageId>, cache: map<SimplePageId, Frame>, disk: DiskState, written: seq<SimplePageId>)
  {
    && datas == PageData(cache0)
    && cache == MarkClean(cache0, done)
    && DirtyKeys(cache0) * done <= datas.Keys
    && disk.stored == StoreAll(disk0.stored, datas, DirtyKeys(cache0) * done)
    && disk.readLog == disk0.readLog
    && disk.writeLog == disk0.writeLog + written
    && multiset(written) == multiset(DirtyKeys(cache0) * done)
  }

  lemma FlushProgressStart(cache0: map<SimplePageId, Frame>, disk0: DiskState, datas: map<SimplePageId, seq<bv8>>)
    requires datas == PageData(cache0)
    ensures FlushProgress(cache0, disk0, datas, cache0.Keys - cache0.Keys, cache0, disk0, [])
  {
    assert cache0.Keys - cache0.Keys == {};
    assert DirtyKeys(cache0) * {} == {};
    assert MarkClean(cache0, {}) == cache0;
    assert disk0.writeLog + [] == disk0.writeLog;
  }

  /** Flushing one more frame extends the progress by that frame. */
  lemma FlushProgressStep(cache0: map<SimplePageId, Frame>, disk0: DiskState, datas: map<SimplePageId, seq<bv8>>,
                          keys: set<SimplePageId>, cache: map<SimplePageId, Frame>, disk: DiskState, written: seq<SimplePageId>,
                          pid: SimplePageId)
    requires keys <= cache0.Keys && pid in keys
    requires FlushProgress(cache0, disk0, datas, cache0.Keys - keys, cache, disk, written)
    ensures pid in cache && cache[pid] == cache0[pid]
    ensures var dirty := cache[pid].isDirty;
      FlushProgress(cache0, disk0, datas, cache0.Keys - (keys - {pid}),
        cache[pid := cache[pid].(isDirty := false)],
        if dirty then AfterWrite(disk, pid, datas[pid]) else disk,
        if dirty then written + [pid] else written)
  {
    var done := cache0.Keys - keys;
    assert cache0.Keys - (keys - {pid}) == done + {pid};
    var dirtySet := DirtyKeys(cache0);
    MarkCleanStep(cache0, done, pid);
    IntersectStep(dirtySet, done, pid);
    if cache[pid].isDirty {
      assert pid in dirtySet;
      StoreAllStep(disk0.stored, datas, dirtySet * done, pid);
      MultisetOfSetAdd(dirtySet * done, pid);
      assert disk0.writeLog + (written + [pid]) == disk0.writeLog + written + [pid];
    } else {
      assert pid !in dirtySet;
    }
  }

  /** Once every frame is flushed, the progress is the whole of `flushAllPages`'s promise. */
  lemma FlushProgressEnd(cache0: map<SimplePageId, Frame>, disk0: DiskState, datas: map<SimplePageId, seq<bv8>>,
                         cache: map<SimplePageId, Frame>, disk: DiskState, written: seq<SimplePageId>)
    requires FlushProgress(cache0, disk0, datas, cache0.Keys - {}, cache, disk, written)
    ensures cache == MarkClean(cache0, cache0.Keys)
    ensures disk.stored == StoreAll(disk0.stored, datas, DirtyKeys(cache0))
    ensures disk.readLog == disk0.readLog
    ensures |disk.writeLog| >= |disk0.writeLog| && disk.writeLog[..|disk0.writeLog|] == disk0.writeLog
    ensures multiset(disk.writeLog[|disk0.writeLog|..]) == multiset(DirtyKeys(cache0))
  {
    assert cache0.Keys - {} == cache0.Keys;
    assert DirtyKeys(cache0) * cache0.Keys == DirtyKeys(cache0);
    assert disk.writeLog[|disk0.writeLog|..] == written;
  }
}
