/** A write-back cache of table pages with pins. */
module BufferPool {
  // Whatever the pool loads, evicts or flushes, every page reads as before: only SetRows modifies
  // `view`, and `Valid` says that `view` is what the pool and the disk together show.

  import opened Wrappers
  import opened Collections
  import opened Binary
  import opened PageCodec

  datatype PageKey = PageKey(table: string, id: int)

  datatype BufferPage = BufferPage(rows: seq<Row>, pinCount: int, dirty: bool, lastAccess: int)

  type Pool = map<PageKey, BufferPage>

  /** Each table's file, as pages of PAGE_SIZE bytes. */
  type Files = map<string, seq<Bytes>>

  type Catalog = map<string, Schema>

  const MAX_TIME: int := 0x7FFF_FFFF_FFFF_FFFF

  // ---------- what a page reads as ----------

  function SchemaOf(catalog: Catalog, table: string): Schema {
    if table in catalog then catalog[table] else []
  }

  function PagesOf(files: Files, table: string): seq<Bytes> {
    if table in files then files[table] else []
  }

  function DiskRows(files: Files, catalog: Catalog, k: PageKey): seq<Row> {
    var pages := PagesOf(files, k.table);
    if 0 <= k.id < |pages| then ReadPage(SchemaOf(catalog, k.table), pages[k.id]) else []
  }

  /** The page in the pool, else the page on disk. */
  function ViewOf(pool: Pool, files: Files, catalog: Catalog, k: PageKey): seq<Row> {
    if k in pool then pool[k].rows else DiskRows(files, catalog, k)
  }

  /** What every page reads as. */
  type View = PageKey -> seq<Row>

  function Reading(pool: Pool, files: Files, catalog: Catalog): View {
    k => ViewOf(pool, files, catalog, k)
  }

  function WithRows(view: View, k: PageKey, rows: seq<Row>): View {
    other => if other == k then rows else view(other)
  }

  ghost predicate Shows(view: View, pool: Pool, files: Files, catalog: Catalog) {
    forall k :: view(k) == ViewOf(pool, files, catalog, k)
  }

  // ---------- flushing ----------

  /** The file reaches up to page n; what is added is zero. */
  function Extended(pages: seq<Bytes>, n: nat): (r: seq<Bytes>)
    ensures |r| >= n && |r| >= |pages| && r[..|pages|] == pages
    ensures forall i :: |pages| <= i < |r| ==> r[i] == Zeros(PAGE_SIZE)
    ensures |r| == if |pages| < n then n else |pages|
    decreases n - |pages|
  {
    if |pages| >= n then pages else Extended(pages + [Zeros(PAGE_SIZE)], n)
  }

  function Flushed(files: Files, k: PageKey, page: Bytes): Files
    requires k.id >= 0
  {
    files[k.table := Extended(PagesOf(files, k.table), k.id + 1)[k.id := page]]
  }

  lemma ZeroPage(schema: Schema)
    ensures ReadPage(schema, Zeros(PAGE_SIZE)) == []
  {
  }

  /** A flush puts on disk those of the page's rows that fit, up to the first that starts with zero,
      and leaves every other page as it was. */
  lemma FlushReads(files: Files, catalog: Catalog, k: PageKey, rows: seq<Row>, other: PageKey)
    requires k.id >= 0 && SchemaOf(catalog, k.table) != [] && AllComplete(rows, SchemaOf(catalog, k.table))
    ensures WritePage(rows, SchemaOf(catalog, k.table)).Some?
    ensures var schema := SchemaOf(catalog, k.table);
      && DiskRows(Flushed(files, k, WritePage(rows, schema).value), catalog, other) ==
           (if other == k then Visible(rows[..Fitting(rows, schema, PAGE_SIZE)], schema) else DiskRows(files, catalog, other))
      && (Visible(rows[..Fitting(rows, schema, PAGE_SIZE)], schema) == rows <==> PageFits(rows, schema))
  {
    var schema := SchemaOf(catalog, k.table);
    PageRoundTrip(rows, schema);
    ZeroPage(schema);
    var pages := PagesOf(files, k.table);
    var pages' := Extended(pages, k.id + 1);
    if other.table == k.table && other != k && 0 <= other.id < |pages| {
      assert pages'[..|pages|][other.id] == pages[other.id];
    }
  }

  // ---------- the invariant ----------

  /** The page can be written to disk and read back. */
  ghost predicate Flushable(schemaCache: Catalog, k: PageKey, rows: seq<Row>) {
    k.id >= 0 && k.table in schemaCache && PageFits(rows, schemaCache[k.table])
  }

  /** A page that differs from the disk can be flushed, and is dirty or still pinned. */
  ghost predicate PageSound(files: Files, catalog: Catalog, schemaCache: Catalog, k: PageKey, page: BufferPage) {
    && page.pinCount >= 0 && page.lastAccess < MAX_TIME
    && (page.dirty || page.rows != DiskRows(files, catalog, k) ==> Flushable(schemaCache, k, page.rows))
    && (!page.dirty && page.pinCount == 0 ==> page.rows == DiskRows(files, catalog, k))
  }

  ghost predicate PoolSound(pool: Pool, files: Files, catalog: Catalog, schemaCache: Catalog) {
    forall k :: k in pool ==> PageSound(files, catalog, schemaCache, k, pool[k])
  }

  /** The least recently used among the unpinned pages. */
  ghost predicate IsVictim(pool: Pool, k: PageKey) {
    && k in pool && pool[k].pinCount == 0
    && forall other :: other in pool && pool[other].pinCount == 0 ==> pool[k].lastAccess <= pool[other].lastAccess
  }

  ghost predicate SameView(pool: Pool, files: Files, pool': Pool, files': Files, catalog: Catalog) {
    forall k :: ViewOf(pool', files', catalog, k) == ViewOf(pool, files, catalog, k)
  }

  /** Flushing one sound page keeps the others sound. */
  lemma FlushKeeps(pool: Pool, files: Files, catalog: Catalog, schemaCache: Catalog, k: PageKey)
    requires PoolSound(pool, files, catalog, schemaCache) && k in pool && Flushable(schemaCache, k, pool[k].rows)
    requires forall t :: t in schemaCache ==> t in catalog && catalog[t] == schemaCache[t]
    ensures WritePage(pool[k].rows, schemaCache[k.table]).Some?
    ensures var files' := Flushed(files, k, WritePage(pool[k].rows, schemaCache[k.table]).value);
      && (forall other :: DiskRows(files', catalog, other) == if other == k then pool[k].rows else DiskRows(files, catalog, other))
      && PoolSound(pool, files', catalog, schemaCache) && SameView(pool, files, pool, files', catalog)
      && PageSound(files', catalog, schemaCache, k, pool[k].(dirty := false))
  {
    FlushReads(files, catalog, k, pool[k].rows, k);
    var files' := Flushed(files, k, WritePage(pool[k].rows, schemaCache[k.table]).value);
    forall other
      ensures DiskRows(files', catalog, other) == if other == k then pool[k].rows else DiskRows(files, catalog, other)
    {
      FlushReads(files, catalog, k, pool[k].rows, other);
    }
    forall other | other in pool
      ensures PageSound(files', catalog, schemaCache, other, pool[other])
    {
      assert PageSound(files, catalog, schemaCache, other, pool[other]);
    }
  }

  /** Exactly the pages of `done` were written: they read on disk as they do in the view. */
  ghost predicate WrittenBack(files: Files, files': Files, catalog: Catalog, view: View, done: set<PageKey>) {
    forall k :: DiskRows(files', catalog, k) == if k in done then view(k) else DiskRows(files, catalog, k)
  }

  function DirtyAmong(pool: Pool, done: set<PageKey>): set<PageKey> {
    set k | k in done && k in pool && pool[k].dirty
  }

  /** The pages of `done` are clean. */
  function Cleaned(pool: Pool, done: set<PageKey>): Pool {
    map k | k in pool :: if k in done then pool[k].(dirty := false) else pool[k]
  }

  /** A page whose rows stay as they are can get other marks. */
  lemma RemarkedIsSound(pool: Pool, files: Files, catalog: Catalog, schemaCache: Catalog, view: View, k: PageKey, page: BufferPage)
    requires PoolSound(pool, files, catalog, schemaCache) && Shows(view, pool, files, catalog) && k in pool
    requires PageSound(files, catalog, schemaCache, k, page) && page.rows == pool[k].rows
    ensures PoolSound(pool[k := page], files, catalog, schemaCache) && Shows(view, pool[k := page], files, catalog)
    ensures |pool[k := page]| == |pool|
    ensures page == pool[k].(dirty := false) ==> pool[k := page] == Cleaned(pool, {k})
  {
    assert pool[k := page].Keys == pool.Keys;
  }

  /** The dirty pages among `done` were written and are clean; nothing else has changed. */
  ghost predicate FlushedSoFar(pool: Pool, pool': Pool, files: Files, files': Files, catalog: Catalog, view: View, done: set<PageKey>) {
    pool' == Cleaned(pool, done) && WrittenBack(files, files', catalog, view, DirtyAmong(pool, done))
  }

  lemma NothingWrittenBack(files: Files, catalog: Catalog, view: View, pool: Pool)
    ensures FlushedSoFar(pool, pool, files, files, catalog, view, {})
  {
  }

  lemma MoreWrittenBack(files: Files, files1: Files, files2: Files, catalog: Catalog, view: View, pool: Pool, done: set<PageKey>, k: PageKey)
    requires WrittenBack(files, files1, catalog, view, DirtyAmong(pool, done)) && k !in done
    requires WrittenBack(files1, files2, catalog, view, DirtyAmong(Cleaned(pool, done), {k}))
    ensures WrittenBack(files, files2, catalog, view, DirtyAmong(pool, done + {k}))
    ensures Cleaned(Cleaned(pool, done), {k}) == Cleaned(pool, done + {k})
  {
  }

  // ---------- the pool ----------

  ghost predicate AllPinned(pool: Pool) {
    forall k :: k in pool ==> pool[k].pinCount != 0
  }

  /** At most one page was evicted: the other ones are as they were. */
  ghost predicate OthersKept(pool: Pool, pool': Pool, k: PageKey) {
    && (forall other :: other in pool' && other != k ==> other in pool && pool'[other] == pool[other])
    && (forall other :: other in pool && other !in pool' ==> IsVictim(pool, other))
  }

  ghost predicate IsLast(pool: Pool, files: Files, table: string, last: int) {
    && last >= -1 && |PagesOf(files, table)| - 1 <= last
    && (forall k :: k in pool && k.table == table ==> k.id <= last)
    && (last == -1 || last == |PagesOf(files, table)| - 1 || PageKey(table, last) in pool)
  }

  class BufferManager {
    const capacity: nat
    var pool: Pool
    var schemaCache: Catalog
    var files: Files
    ghost const catalog: Catalog
    ghost var view: View

    ghost predicate Valid()
      reads this
    {
      && |pool| <= capacity
      && (forall t :: t in schemaCache ==> t in catalog && catalog[t] == schemaCache[t])
      && PoolSound(pool, files, catalog, schemaCache)
      && Shows(view, pool, files, catalog)
    }

    ghost function Disk(k: PageKey): seq<Row>
      reads this
    {
      DiskRows(files, catalog, k)
    }

    constructor (capacity: nat, files: Files, ghost catalog: Catalog)
      ensures Valid() && pool == map[] && this.files == files && this.catalog == catalog && this.capacity == capacity
    {
      this.capacity, pool, schemaCache, this.files, this.catalog := capacity, map[], map[], files, catalog;
      view := Reading(map[], files, catalog);
    }

    method RegisterSchema(table: string, schema: Schema)
      requires Valid() && table in catalog && catalog[table] == schema
      modifies this`schemaCache
      ensures Valid() && schemaCache == old(schemaCache)[table := schema]
    {
      schemaCache := schemaCache[table := schema];
      forall k | k in pool
        ensures PageSound(files, catalog, schemaCache, k, pool[k])
      {
        assert PageSound(files, catalog, old(schemaCache), k, pool[k]);
      }
    }

    /** The loop for the victim. */
    method FindVictim() returns (found: bool, victim: PageKey)
      requires Valid()
      ensures found <==> exists k :: k in pool && pool[k].pinCount == 0
      ensures found ==> IsVictim(pool, victim)
    {
      found, victim := false, PageKey("", 0);
      var oldest := MAX_TIME;
      var todo := pool.Keys;
      while todo != {}
        invariant todo <= pool.Keys
        invariant found ==> victim in pool && pool[victim].pinCount == 0 && pool[victim].lastAccess == oldest
        invariant !found ==> oldest == MAX_TIME
        invariant forall k :: k in pool && k !in todo && pool[k].pinCount == 0 ==> found && oldest <= pool[k].lastAccess
        decreases todo
      {
        var k := Pick(todo);
        todo := todo - {k};
        assert PageSound(files, catalog, schemaCache, k, pool[k]);
        if pool[k].pinCount == 0 && pool[k].lastAccess < oldest {
          found, victim, oldest := true, k, pool[k].lastAccess;
        }
      }
    }

    method FlushPageInternal(k: PageKey)
      requires Valid() && k in pool && Flushable(schemaCache, k, pool[k].rows)
      modifies this`files
      ensures Valid() && Disk(k) == pool[k].rows && forall other :: other != k ==> Disk(other) == old(Disk(other))
      ensures PageSound(files, catalog, schemaCache, k, pool[k].(dirty := false))
      ensures WrittenBack(old(files), files, catalog, view, {k})
    {
      FlushKeeps(pool, files, catalog, schemaCache, k);
      files := Flushed(files, k, WritePage(pool[k].rows, schemaCache[k.table]).value);
    }

    /** Fails when every page is pinned. */
    method EvictPage() returns (ok: bool, ghost victim: PageKey)
      requires Valid()
      modifies this`pool, this`files
      ensures Valid()
      ensures ok <==> exists k :: k in old(pool) && old(pool)[k].pinCount == 0
      ensures ok ==> IsVictim(old(pool), victim) && pool == old(pool) - {victim} && |pool| == |old(pool)| - 1
      ensures !ok ==> pool == old(pool) && files == old(files)
    {
      var v;
      ok, v := FindVictim();
      victim := v;
      if ok {
        assert PageSound(files, catalog, schemaCache, v, pool[v]);
        if pool[v].dirty {
          FlushPageInternal(v);
        }
        RemovalSize(pool, v);
        pool := pool - {v};
      }
    }

    static lemma RemovalSize(pool: Pool, k: PageKey)
      requires k in pool
      ensures |pool - {k}| == |pool| - 1
    {
      assert (pool - {k}).Keys == pool.Keys - {k};
    }

    static lemma InsertSize(pool: Pool, k: PageKey, page: BufferPage)
      ensures |pool[k := page]| <= |pool| + 1
    {
      assert pool[k := page].Keys == pool.Keys + {k};
    }

    /** A page its holder has changed is unpinned as dirty. */
    ghost predicate MayUnpin(k: PageKey, markDirty: bool)
      requires k in pool
      reads this
    {
      if markDirty then Flushable(schemaCache, k, pool[k].rows)
      else pool[k].dirty || pool[k].pinCount > 1 || pool[k].rows == Disk(k)
    }

    /** The page in the pool and pinned; whatever else happens, every page reads as before. It
        fails, and changes nothing, when the page is not in a full pool whose pages are all pinned. */
    method GetPage(table: string, id: int, schema: Schema, now: int) returns (ok: bool)
      requires Valid() && schema == SchemaOf(catalog, table) && now < MAX_TIME
      modifies this`pool, this`files
      ensures Valid()
      ensures !ok <==> PageKey(table, id) !in old(pool) && |old(pool)| >= capacity && AllPinned(old(pool))
      ensures !ok ==> pool == old(pool) && files == old(files)
      ensures ok ==> var k := PageKey(table, id);
        && k in pool && pool[k].lastAccess == now
        && pool[k].pinCount == (if k in old(pool) then old(pool)[k].pinCount else 0) + 1
        && (pool[k].dirty <==> k in old(pool) && old(pool)[k].dirty)
        && OthersKept(old(pool), pool, k) && MayUnpin(k, false)
    {
      var k := PageKey(table, id);
      if k in pool {
        assert PageSound(files, catalog, schemaCache, k, pool[k]);
        pool := pool[k := pool[k].(pinCount := pool[k].pinCount + 1, lastAccess := now)];
        return true;
      }
      ok := MakeRoom();
      if ok {
        Load(k, BufferPage(LoadPage(table, id, schema), 1, false, now));
      }
    }

    /** The file's page, decoded; nothing beyond its end. */
    function LoadPage(table: string, id: int, schema: Schema): seq<Row>
      reads this
    {
      var pages := PagesOf(files, table);
      if 0 <= id < |pages| then ReadPage(schema, pages[id]) else []
    }

    /** Evicts if the pool is full. */
    method MakeRoom() returns (ok: bool)
      requires Valid()
      modifies this`pool, this`files
      ensures Valid()
      ensures !ok <==> |old(pool)| >= capacity && AllPinned(old(pool))
      ensures !ok ==> pool == old(pool) && files == old(files)
      ensures ok ==> |pool| < capacity && (pool == old(pool) || exists v :: IsVictim(old(pool), v) && pool == old(pool) - {v})
    {
      if |pool| < capacity {
        return true;
      }
      ghost var victim;
      ok, victim := EvictPage();
    }

    method Load(k: PageKey, page: BufferPage)
      requires Valid() && k !in pool && |pool| < capacity
      requires PageSound(files, catalog, schemaCache, k, page) && page.rows == Disk(k)
      modifies this`pool
      ensures Valid() && pool == old(pool)[k := page]
    {
      InsertSize(pool, k, page);
      pool := pool[k := page];
    }

    /** An empty page whose number is beyond all of the table's pages. */
    method NewPage(table: string, now: int) returns (ok: bool, id: int)
      requires Valid() && table in schemaCache && schemaCache[table] != [] && now < MAX_TIME
      modifies this`pool, this`files
      ensures Valid()
      ensures !ok <==> |old(pool)| >= capacity && AllPinned(old(pool))
      ensures !ok ==> pool == old(pool) && files == old(files)
      ensures IsLast(old(pool), old(files), table, id - 1)
      ensures ok ==> var k := PageKey(table, id);
        && k !in old(pool) && |PagesOf(old(files), table)| <= id
        && k in pool && pool[k] == BufferPage([], 1, true, now) && OthersKept(old(pool), pool, k)
    {
      var last := GetMaxPageId(table);
      id := last + 1;
      NothingBeyond(PageKey(table, id));
      ok := MakeRoom();
      if ok {
        assert view(PageKey(table, id)) == [];
        Load(PageKey(table, id), BufferPage([], 1, true, now));
      }
    }

    /** Beyond the last page there is nothing, in the pool or on disk. */
    lemma NothingBeyond(k: PageKey)
      requires Valid() && k.table in schemaCache && schemaCache[k.table] != [] && IsLast(pool, files, k.table, k.id - 1)
      ensures k !in pool && |PagesOf(files, k.table)| <= k.id && view(k) == []
      ensures Flushable(schemaCache, k, [])
    {
    }

    method UnpinPage(table: string, id: int, markDirty: bool)
      requires Valid()
      requires PageKey(table, id) in pool ==> MayUnpin(PageKey(table, id), markDirty)
      modifies this`pool
      ensures Valid()
      ensures var k := PageKey(table, id);
        pool == if k in old(pool) then
            var page := old(pool)[k];
            old(pool)[k := page.(pinCount := if page.pinCount > 0 then page.pinCount - 1 else 0, dirty := page.dirty || markDirty)]
          else old(pool)
    {
      var k := PageKey(table, id);
      if k in pool {
        var page := pool[k];
        assert PageSound(files, catalog, schemaCache, k, page);
        if page.pinCount > 0 {
          page := page.(pinCount := page.pinCount - 1);
        }
        if markDirty {
          page := page.(dirty := true);
        }
        RemarkedIsSound(pool, files, catalog, schemaCache, view, k, page);
        pool := pool[k := page];
      }
    }

    /** What the holder of a pin does to a page's rows. */
    method SetRows(k: PageKey, rows: seq<Row>)
      requires Valid() && k in pool && pool[k].pinCount > 0 && Flushable(schemaCache, k, rows)
      modifies this`pool, this`view
      ensures Valid() && pool == old(pool)[k := old(pool)[k].(rows := rows)]
      ensures view == WithRows(old(view), k, rows)
    {
      assert PageSound(files, catalog, schemaCache, k, pool[k]);
      pool := pool[k := pool[k].(rows := rows)];
      view := WithRows(view, k, rows);
      assert pool.Keys == old(pool).Keys;
    }

    /** The largest page number in the pool or on disk, -1 without any. */
    method GetMaxPageId(table: string) returns (last: int)
      requires Valid()
      ensures IsLast(pool, files, table, last)
    {
      last := -1;
      var todo := pool.Keys;
      while todo != {}
        invariant todo <= pool.Keys && last >= -1
        invariant forall k :: k in pool && k !in todo && k.table == table ==> k.id <= last
        invariant last == -1 || PageKey(table, last) in pool
        decreases todo
      {
        var k := Pick(todo);
        todo := todo - {k};
        if k.table == table && k.id > last {
          last := k.id;
          assert k == PageKey(table, last);
        }
      }
      if |PagesOf(files, table)| - 1 > last {
        last := |PagesOf(files, table)| - 1;
      }
    }

    method FlushDirty(k: PageKey)
      requires Valid() && k in pool && pool[k].dirty
      modifies this`pool, this`files
      ensures Valid() && pool == Cleaned(old(pool), {k})
      ensures WrittenBack(old(files), files, catalog, view, {k})
    {
      assert PageSound(files, catalog, schemaCache, k, pool[k]);
      FlushPageInternal(k);
      RemarkedIsSound(pool, files, catalog, schemaCache, view, k, pool[k].(dirty := false));
      pool := pool[k := pool[k].(dirty := false)];
    }

    /** One page to disk, if it is in the pool and dirty. */
    method FlushPage(k: PageKey)
      requires Valid()
      modifies this`pool, this`files
      ensures Valid() && pool == Cleaned(old(pool), {k})
      ensures WrittenBack(old(files), files, catalog, view, DirtyAmong(old(pool), {k}))
    {
      if k in pool && pool[k].dirty {
        FlushDirty(k);
      }
    }

    /** One round of the loop, with the pages of `done` written. */
    method FlushNext(k: PageKey, ghost pool0: Pool, ghost files0: Files, ghost done: set<PageKey>)
      requires Valid() && k !in done && FlushedSoFar(pool0, pool, files0, files, catalog, view, done)
      modifies this`pool, this`files
      ensures Valid() && FlushedSoFar(pool0, pool, files0, files, catalog, view, done + {k})
    {
      ghost var before := files;
      FlushPage(k);
      MoreWrittenBack(files0, before, files, catalog, view, pool0, done, k);
    }

    /** Every dirty page to disk. */
    method FlushAll()
      requires Valid()
      modifies this`pool, this`files
      ensures Valid() && FlushedSoFar(old(pool), pool, old(files), files, catalog, view, old(pool).Keys)
    {
      var todo := pool.Keys;
      ghost var pool0, files0, all := pool, files, pool.Keys;
      NothingWrittenBack(files, catalog, view, pool);
      assert all - todo == {};
      while todo != {}
        invariant Valid() && todo <= all && FlushedSoFar(pool0, pool, files0, files, catalog, view, all - todo)
        decreases todo
      {
        var k := Pick(todo);
        FlushNext(k, pool0, files0, all - todo);
        assert all - (todo - {k}) == (all - todo) + {k};
        todo := todo - {k};
      }
      assert all - todo == pool0.Keys;
    }

    lemma CleanIsViewed()
      requires Valid()
      ensures forall k :: k in pool ==> view(k) == pool[k].rows
      ensures forall k :: k !in pool ==> view(k) == DiskRows(files, catalog, k)
    {
    }

    lemma WhenDiskIsView(pool0: Pool, files0: Files)
      requires Valid() && FlushedSoFar(pool0, pool, files0, files, catalog, view, pool0.Keys)
      requires forall k :: k in pool0 ==> view(k) == pool0[k].rows
      requires forall k :: k !in pool0 ==> view(k) == DiskRows(files0, catalog, k)
      ensures (forall k :: Disk(k) == view(k)) <==>
        forall k :: k in pool0 && !pool0[k].dirty ==> pool0[k].rows == DiskRows(files0, catalog, k)
    {
      if forall k :: Disk(k) == view(k) {
        forall k | k in pool0 && !pool0[k].dirty
          ensures pool0[k].rows == DiskRows(files0, catalog, k)
        {
          assert Disk(k) == view(k);
        }
      }
    }

    /** With no page pinned it is. */
    lemma UnpinnedIsOnDisk()
      requires Valid() && forall k :: k in pool ==> pool[k].pinCount == 0
      ensures forall k :: k in pool && !pool[k].dirty ==> pool[k].rows == DiskRows(files, catalog, k)
    {
      forall k | k in pool && !pool[k].dirty
        ensures pool[k].rows == DiskRows(files, catalog, k)
      {
        assert PageSound(files, catalog, schemaCache, k, pool[k]);
      }
    }

    /** The same loop. The disk is then the view if and only if no clean page differed from its disk,
        which only a pinned one can. */
    method Checkpoint()
      requires Valid()
      modifies this`pool, this`files
      ensures Valid() && FlushedSoFar(old(pool), pool, old(files), files, catalog, view, old(pool).Keys)
      ensures (forall k :: Disk(k) == view(k)) <==>
        forall k :: k in old(pool) && !old(pool)[k].dirty ==> old(pool)[k].rows == old(DiskRows(files, catalog, k))
      ensures (forall k :: k in old(pool) ==> old(pool)[k].pinCount == 0) ==> forall k :: Disk(k) == view(k)
    {
      ghost var pool0, files0 := pool, files;
      if forall k :: k in pool ==> pool[k].pinCount == 0 {
        UnpinnedIsOnDisk();
      }
      CleanIsViewed();
      FlushAll();
      WhenDiskIsView(pool0, files0);
    }
  }
}
