/** What every step of a cached read keeps. */
module BlockCacheInv {
  import opened Bits
  import opened Blocks
  import opened BlockCache
  import opened Lookup
  import opened Lru
  import opened Wrappers

  // ----- Jobs on their way -----

  function Range(a: nat, b: nat): multiset<nat>
    decreases b - a
  {
    if b <= a then multiset{} else Range(a, b - 1) + multiset{b - 1}
  }

  lemma {:induction false} InRange(a: nat, b: nat, x: nat)
    ensures Range(a, b)[x] == if a <= x < b then 1 else 0
    decreases b - a
  {
    if a < b {
      InRange(a, b - 1, x);
    }
  }

  function OfJob(j: Job, c: nat): multiset<nat> {
    if j.client == c then multiset{j.block} else multiset{}
  }

  /** The blocks queued for client `c`. */
  function Queued(q: seq<Job>, c: nat): multiset<nat> {
    if q == [] then multiset{} else Queued(q[..|q| - 1], c) + OfJob(q[|q| - 1], c)
  }

  lemma {:induction false} QueuedFront(q: seq<Job>, c: nat)
    requires q != []
    ensures Queued(q, c) == OfJob(q[0], c) + Queued(q[1..], c)
    decreases |q|
  {
    if |q| > 1 {
      QueuedFront(q[..|q| - 1], c);
      assert q[..|q| - 1][1..] == q[1..][..|q[1..]| - 1];
    }
  }

  /** The block a worker has yet to deliver to client `c`. */
  function Before(w: Worker, c: nat): multiset<nat> {
    match w
    case Asleep => multiset{}
    case Ready => multiset{}
    case Finishing(_) => multiset{}
    case _ => OfJob(w.job, c)
  }

  /** The block a worker has delivered to client `c` but not counted off. */
  function Behind(w: Worker, c: nat): multiset<nat> {
    match w
    case Finishing(j) => OfJob(j, c)
    case _ => multiset{}
  }

  function Undelivered(ws: seq<Worker>, c: nat): multiset<nat> {
    if ws == [] then multiset{} else Undelivered(ws[..|ws| - 1], c) + Before(ws[|ws| - 1], c)
  }

  function Uncounted(ws: seq<Worker>, c: nat): multiset<nat> {
    if ws == [] then multiset{} else Uncounted(ws[..|ws| - 1], c) + Behind(ws[|ws| - 1], c)
  }

  lemma Rearrange(a: multiset<nat>, b: multiset<nat>, x: multiset<nat>, y: multiset<nat>, z: multiset<nat>)
    requires a + x == b + y
    ensures (a + z) + x == (b + z) + y
  {
    assert (a + z) + x == (a + x) + z;
    assert (b + z) + y == (b + y) + z;
  }

  lemma {:induction false} UndeliveredChanges(ws: seq<Worker>, w: nat, now: Worker, c: nat)
    requires w < |ws|
    ensures Undelivered(ws[w := now], c) + Before(ws[w], c) == Undelivered(ws, c) + Before(now, c)
    decreases |ws|
  {
    hide Before;
    var n := |ws| - 1;
    if w < n {
      UndeliveredChanges(ws[..n], w, now, c);
      assert ws[w := now][..n] == ws[..n][w := now];
      Rearrange(Undelivered(ws[..n][w := now], c), Undelivered(ws[..n], c), Before(ws[w], c), Before(now, c), Before(ws[n], c));
    } else {
      assert ws[w := now][..n] == ws[..n];
    }
  }

  lemma {:induction false} UncountedChanges(ws: seq<Worker>, w: nat, now: Worker, c: nat)
    requires w < |ws|
    ensures Uncounted(ws[w := now], c) + Behind(ws[w], c) == Uncounted(ws, c) + Behind(now, c)
    decreases |ws|
  {
    hide Behind;
    var n := |ws| - 1;
    if w < n {
      UncountedChanges(ws[..n], w, now, c);
      assert ws[w := now][..n] == ws[..n][w := now];
      Rearrange(Uncounted(ws[..n][w := now], c), Uncounted(ws[..n], c), Behind(ws[w], c), Behind(now, c), Behind(ws[n], c));
    } else {
      assert ws[w := now][..n] == ws[..n];
    }
  }

  /** A worker that goes on with a job of another client is nothing to `c`. */
  lemma OtherClient(ws: seq<Worker>, w: nat, now: Worker, c: nat)
    requires w < |ws| && Before(ws[w], c) == Before(now, c) && Behind(ws[w], c) == Behind(now, c)
    ensures Undelivered(ws[w := now], c) == Undelivered(ws, c) && Uncounted(ws[w := now], c) == Uncounted(ws, c)
  {
    hide Before, Behind;
    UndeliveredChanges(ws, w, now, c);
    UncountedChanges(ws, w, now, c);
    Cancel(Undelivered(ws[w := now], c), Undelivered(ws, c), Before(now, c));
    Cancel(Uncounted(ws[w := now], c), Uncounted(ws, c), Behind(now, c));
  }

  lemma Cancel(a: multiset<nat>, b: multiset<nat>, x: multiset<nat>)
    requires a + x == b + x
    ensures a == b
  {
    assert (a + x) - x == a && (b + x) - x == b;
  }

  // ----- One client -----

  /** Where the range of a read ends: at the first block past it. */
  function StopAt(bs: seq<Block>, i: nat, end: nat): (r: nat)
    requires i <= |bs|
    ensures i <= r <= |bs| && (r < |bs| ==> end <= bs[r].uoff)
    ensures forall k | i <= k < r :: bs[k].uoff < end
    decreases |bs| - i
  {
    if i == |bs| || end <= bs[i].uoff then i else StopAt(bs, i + 1, end)
  }

  function First(f: File, req: Request): (i: nat)
    ensures i <= |f.blocks|
  {
    Search(f.blocks, req.offset, 0, |f.blocks|)
  }

  function Last(f: File, req: Request): (i: nat)
    ensures First(f, req) <= i <= |f.blocks|
  {
    StopAt(f.blocks, First(f, req), End(req))
  }

  /** Where a read should stop: at its end, or at the end of the file. */
  function Bound(f: File, req: Request): nat {
    if End(req) < |f.content| then End(req) else |f.content|
  }

  /** The part of the buffer that block `b` covers holds what the file holds there. */
  ghost predicate Filled(f: File, req: Request, buf: seq<byte>, b: nat)
    requires b < |f.blocks|
  {
    forall p: nat | Lo(f, req, b) <= p < Hi(f, req, b) :: Right(f, req, buf, p)
  }

  /** The buffer holds what the file holds at position `p`. */
  ghost predicate Right(f: File, req: Request, buf: seq<byte>, p: nat) {
    req.offset <= p < req.offset + |buf| && p < |f.content| && buf[p - req.offset] == f.content[p]
  }

  /** A call in progress: its range, and what has come of the blocks called back. */
  ghost predicate Calling(f: File, cl: Client) {
    && GoodFile(f) && |cl.buf| == cl.req.size && End(cl.req) < OFF_END
    && First(f, cl.req) <= cl.it <= Last(f, cl.req) && First(f, cl.req) < |f.blocks|
    && cl.req.offset <= cl.max <= Bound(f, cl.req)
    && (forall b | b in cl.called :: First(f, cl.req) <= b < Last(f, cl.req) && Filled(f, cl.req, cl.buf, b) && Hi(f, cl.req, b) <= cl.max)
  }

  /** Client `cl`, with blocks `q` queued, `u` undelivered and `d` delivered but not counted off. */
  ghost predicate ClientOK(f: File, cl: Client, q: multiset<nat>, u: multiset<nat>, d: multiset<nat>) {
    var first, last := First(f, cl.req), Last(f, cl.req);
    match cl.phase
    case Idle => q == u == d == multiset{}
    case Failed => q == u == d == multiset{} && |f.content| <= cl.req.offset
    case WantCache =>
      Calling(f, cl) && q == u == d == multiset{} && cl.it == first && cl.need == [] && cl.called == multiset{} && cl.sent == 0
    case Scanning =>
      Calling(f, cl) && q == u == d == multiset{} && cl.called + multiset(cl.need) == Range(first, cl.it) && cl.sent == 0
    case RaisingHit =>
      Calling(f, cl) && q == u == d == multiset{} && cl.called + multiset(cl.need) == Range(first, cl.it) && cl.sent == 0
      && cl.it < last && Filled(f, cl.req, cl.buf, cl.it)
    case Enqueueing =>
      && Calling(f, cl) && cl.it == last && cl.sent <= |cl.need| && 0 < |cl.need|
      && cl.called + multiset(cl.need[cl.sent..]) + q + u == Range(first, last)
      && cl.remain == |cl.need| == |cl.need[cl.sent..]| + |q| + |u| + |d|
    case Waiting =>
      && Calling(f, cl) && cl.it == last && cl.called + q + u == Range(first, last)
      && cl.remain == |q| + |u| + |d| && 0 < cl.remain
    case Woken => Calling(f, cl) && q == u == d == multiset{} && cl.called == Range(first, last) && cl.remain == 0
    case Done => Calling(f, cl) && q == u == d == multiset{} && cl.called == Range(first, last)
  }

  ghost predicate ClientAt(cfg: Config, s: State, c: nat)
    requires c < |s.clients|
  {
    ClientOK(FileOf(cfg, s.clients[c]), s.clients[c], Queued(s.queue, c), Undelivered(s.workers, c), Uncounted(s.workers, c))
  }

  // ----- Everything -----

  /** Whatever the cache holds for a block is the block's data. */
  ghost predicate CacheOK(cfg: Config, cache: seq<Entry<Key, seq<byte>>>) {
    forall e, i: nat | e in cache && e.key.file < |cfg.files| && i < |cfg.files[e.key.file].blocks|
      && cfg.files[e.key.file].blocks[i].coff == e.key.offset :: e.value == Data(cfg.files[e.key.file], i)
  }

  /** A worker's data is its block's, and what it has copied is in place. */
  ghost predicate WorkerOK(cfg: Config, clients: seq<Client>, w: Worker) {
    !w.Asleep? && !w.Ready? ==>
      && w.job.client < |clients|
      && var cl := clients[w.job.client]; var f := FileOf(cfg, cl);
         && w.job.block < |f.blocks|
         && (w.Adding? || w.Delivering? ==> w.data == Data(f, w.job.block))
         && (w.RaisingFound? || w.RaisingNew? ==> Filled(f, cl.req, cl.buf, w.job.block))
  }

  predicate HoldsCache(cl: Client) {
    cl.phase == Scanning || cl.phase == RaisingHit
  }

  /** The cache mutex is held by the thread it says, and no other acts as if it held it. */
  ghost predicate OwnerOK(s: State) {
    && (forall c | 0 <= c < |s.clients| :: HoldsCache(s.clients[c]) <==> s.owner == ByClient(c))
    && (forall w | 0 <= w < |s.workers| :: s.workers[w].RaisingFound? <==> s.owner == ByWorker(w))
    && (s.owner.ByClient? ==> s.owner.c < |s.clients|) && (s.owner.ByWorker? ==> s.owner.w < |s.workers|)
  }

  /** Work in the queue means some worker is not asleep. */
  ghost predicate Attended(s: State) {
    s.queue != [] ==> exists w: nat :: w < |s.workers| && s.workers[w] != Asleep
  }

  ghost predicate Inv(cfg: Config, s: State) {
    && GoodConfig(cfg) && CacheOK(cfg, s.cache) && OwnerOK(s) && Attended(s) && 0 < |s.workers|
    && (forall c: nat | c < |s.clients| :: ClientAt(cfg, s, c))
    && (forall w: nat | w < |s.workers| :: WorkerOK(cfg, s.clients, s.workers[w]))
    && (forall j | j in s.queue :: j.client < |s.clients| && j.block < |FileOf(cfg, s.clients[j.client]).blocks|)
  }

  // ----- Frames -----

  /** A client's buffer keeps what has been put into it. */
  ghost predicate Keeps(cfg: Config, cl: Client, cl': Client) {
    var f := FileOf(cfg, cl);
    cl'.req == cl.req && forall b: nat | b < |f.blocks| && Filled(f, cl.req, cl.buf, b) :: Filled(f, cl.req, cl'.buf, b)
  }

  lemma WorkersKept(cfg: Config, clients: seq<Client>, c: nat, cl': Client, w: Worker)
    requires c < |clients| && Keeps(cfg, clients[c], cl') && WorkerOK(cfg, clients, w)
    ensures WorkerOK(cfg, clients[c := cl'], w)
  {
    hide Filled;
  }

  /** A step of client `c` alone. */
  lemma ClientStep(cfg: Config, s: State, s': State, c: nat)
    requires Inv(cfg, s) && c < |s.clients| == |s'.clients| && s'.clients == s.clients[c := s'.clients[c]]
    requires s'.queue == s.queue && s'.workers == s.workers
    requires Keeps(cfg, s.clients[c], s'.clients[c]) && ClientAt(cfg, s', c)
    requires CacheOK(cfg, s'.cache) && OwnerOK(s')
    ensures Inv(cfg, s')
  {
    hide Keeps, ClientOK, WorkerOK, CacheOK, OwnerOK, Queued, Undelivered, Uncounted;
    forall d: nat | d < |s.clients|
      ensures ClientAt(cfg, s', d)
    {
      assert ClientAt(cfg, s, d);
    }
    forall w: nat | w < |s.workers|
      ensures WorkerOK(cfg, s'.clients, s'.workers[w])
    {
      WorkersKept(cfg, s.clients, c, s'.clients[c], s.workers[w]);
    }
    JobsKept(cfg, s, s', c);
  }

  lemma JobsKept(cfg: Config, s: State, s': State, c: nat)
    requires c < |s.clients| == |s'.clients| && s'.clients == s.clients[c := s'.clients[c]] && Keeps(cfg, s.clients[c], s'.clients[c])
    ensures forall j: Job | j.client < |s.clients| && j.block < |FileOf(cfg, s.clients[j.client]).blocks| ::
              j.block < |FileOf(cfg, s'.clients[j.client]).blocks|
  {
  }

  /** A step of worker `w` for its client. */
  lemma WorkerStep(cfg: Config, s: State, s': State, w: nat)
    requires Inv(cfg, s) && w < |s.workers| == |s'.workers| && s'.workers == s.workers[w := s'.workers[w]] && s'.queue == s.queue
    requires !s.workers[w].Asleep? && !s.workers[w].Ready? && s'.workers[w] != Asleep
    requires s'.workers[w].Ready? || s'.workers[w].job == s.workers[w].job
    requires var c := s.workers[w].job.client;
             c < |s.clients| == |s'.clients| && s'.clients == s.clients[c := s'.clients[c]] && Keeps(cfg, s.clients[c], s'.clients[c])
             && ClientAt(cfg, s', c)
    requires WorkerOK(cfg, s'.clients, s'.workers[w]) && CacheOK(cfg, s'.cache) && OwnerOK(s')
    ensures Inv(cfg, s')
  {
    hide Keeps, ClientOK, WorkerOK, CacheOK, OwnerOK, Queued, Undelivered, Uncounted;
    var c := s.workers[w].job.client;
    forall d: nat | d < |s.clients|
      ensures ClientAt(cfg, s', d)
    {
      assert ClientAt(cfg, s, d);
      if d != c {
        OtherClient(s.workers, w, s'.workers[w], d);
      }
    }
    forall v: nat | v < |s.workers|
      ensures WorkerOK(cfg, s'.clients, s'.workers[v])
    {
      if v != w {
        WorkersKept(cfg, s.clients, c, s'.clients[c], s.workers[v]);
      }
    }
    JobsKept(cfg, s, s', c);
  }

  // ----- The callback -----

  lemma BlockBounds(f: File, b: nat)
    requires GoodFile(f) && b < |f.blocks|
    ensures f.blocks[b].uoff + f.blocks[b].usize <= |f.content|
    ensures |Data(f, b)| == f.blocks[b].usize
  {
    if b < |f.blocks| - 1 {
      TiledOrder(f.blocks, 0, b, |f.blocks| - 1);
    }
  }

  /** A block of the range meets the request. */
  lemma RangeBlock(f: File, req: Request, b: nat)
    requires GoodFile(f) && First(f, req) <= b < Last(f, req)
    ensures b < |f.blocks| && f.blocks[b].uoff < End(req) && req.offset <= f.blocks[b].uoff + f.blocks[b].usize
    ensures req.offset <= Lo(f, req, b) <= Hi(f, req, b) <= Bound(f, req)
  {
    LookupExact(f.blocks, req.offset);
    BlockBounds(f, b);
    if First(f, req) < b {
      TiledOrder(f.blocks, 0, First(f, req), b);
    }
  }

  /** What the copy leaves at position `p` of the file. */
  lemma CopyAt(f: File, req: Request, b: nat, buf: seq<byte>, p: nat)
    requires GoodFile(f) && First(f, req) <= b < Last(f, req) && |buf| == req.size && req.offset <= p < End(req)
    ensures b < |f.blocks| && InBounds(f, req, b, buf, Data(f, b)) && |Copy(f, req, b, buf, Data(f, b))| == |buf|
    ensures Hi(f, req, b) <= |f.content|
    ensures Copy(f, req, b, buf, Data(f, b))[p - req.offset] ==
            if Lo(f, req, b) <= p < Hi(f, req, b) then f.content[p] else buf[p - req.offset]
  {
    hide First, Last, GoodFile, Bound, Lo, Hi, Data, Copy, InBounds;
    RangeBlock(f, req, b);
    BlockBounds(f, b);
    CopyIs(f, req, b, buf);
    var lo, hi, u := Lo(f, req, b), Hi(f, req, b), f.blocks[b].uoff;
    Overwritten(buf, Data(f, b), lo - req.offset, hi - req.offset, lo - u, p - req.offset);
    if lo <= p < hi {
      DataAt(f, b, p);
    }
  }

  lemma CopyIs(f: File, req: Request, b: nat, buf: seq<byte>)
    requires b < |f.blocks| && |Data(f, b)| == f.blocks[b].usize && |buf| == req.size && req.offset <= Lo(f, req, b) <= Hi(f, req, b)
    ensures var lo, hi, u, data := Lo(f, req, b), Hi(f, req, b), f.blocks[b].uoff, Data(f, b);
            && InBounds(f, req, b, buf, data) && u <= lo && hi <= u + |data| && hi - req.offset <= |buf|
            && Copy(f, req, b, buf, data) == buf[..lo - req.offset] + data[lo - u..hi - u] + buf[hi - req.offset..]
  {
    hide Data;
  }

  lemma DataAt(f: File, b: nat, p: nat)
    requires b < |f.blocks| && f.blocks[b].uoff <= p < f.blocks[b].uoff + f.blocks[b].usize <= |f.content|
    ensures p - f.blocks[b].uoff < |Data(f, b)| && Data(f, b)[p - f.blocks[b].uoff] == f.content[p]
  {
  }

  lemma Overwritten(buf: seq<byte>, data: seq<byte>, at: nat, to: nat, from: nat, i: nat)
    requires at <= to <= |buf| && from + (to - at) <= |data| && i < |buf|
    ensures var now := buf[..at] + data[from..from + (to - at)] + buf[to..];
            |now| == |buf| && now[i] == if at <= i < to then data[from + (i - at)] else buf[i]
  {
  }

  lemma CopyFills(f: File, req: Request, b: nat, buf: seq<byte>)
    requires GoodFile(f) && First(f, req) <= b < Last(f, req) && |buf| == req.size
    ensures b < |f.blocks| && InBounds(f, req, b, buf, Data(f, b))
    ensures var buf' := Copy(f, req, b, buf, Data(f, b));
            && |buf'| == |buf| && Filled(f, req, buf', b)
            && forall b': nat | b' < |f.blocks| && Filled(f, req, buf, b') :: Filled(f, req, buf', b')
  {
    hide First, Last, GoodFile, Copy;
    RangeBlock(f, req, b);
    CopyShape(f, req, b, buf);
    var buf' := Copy(f, req, b, buf, Data(f, b));
    forall p: nat | Lo(f, req, b) <= p < Hi(f, req, b)
      ensures Right(f, req, buf', p)
    {
      CopyAt(f, req, b, buf, p);
    }
    forall b': nat | b' < |f.blocks| && Filled(f, req, buf, b')
      ensures Filled(f, req, buf', b')
    {
      CopyKeeps(f, req, b, buf, b');
    }
  }

  lemma CopyKeeps(f: File, req: Request, b: nat, buf: seq<byte>, b': nat)
    requires GoodFile(f) && First(f, req) <= b < Last(f, req) && |buf| == req.size
    requires b < |f.blocks| && b' < |f.blocks| && Filled(f, req, buf, b')
    ensures Filled(f, req, Copy(f, req, b, buf, Data(f, b)), b')
  {
    hide First, Last, GoodFile, Copy, Lo, Hi, InBounds;
    var buf' := Copy(f, req, b, buf, Data(f, b));
    CopyShape(f, req, b, buf);
    forall p: nat | Lo(f, req, b') <= p < Hi(f, req, b')
      ensures Right(f, req, buf', p)
    {
      assert Right(f, req, buf, p);
      CopyAt(f, req, b, buf, p);
    }
  }

  lemma CopyShape(f: File, req: Request, b: nat, buf: seq<byte>)
    requires GoodFile(f) && First(f, req) <= b < Last(f, req) && |buf| == req.size
    ensures b < |f.blocks| && InBounds(f, req, b, buf, Data(f, b)) && |Copy(f, req, b, buf, Data(f, b))| == |buf|
  {
    hide First, Last, GoodFile;
    RangeBlock(f, req, b);
    BlockBounds(f, b);
  }

  lemma FoundData(cfg: Config, cache: seq<Entry<Key, seq<byte>>>, cl: Client, b: nat)
    requires CacheOK(cfg, cache) && cl.req.file < |cfg.files| && b < |cfg.files[cl.req.file].blocks|
    requires IndexOf(cache, KeyOf(cfg, cl, b)) < |cache|
    ensures Value(cache, KeyOf(cfg, cl, b)) == Data(cfg.files[cl.req.file], b)
  {
    var e := cache[IndexOf(cache, KeyOf(cfg, cl, b))];
    assert e in cache;
  }

  lemma FindKeeps(cfg: Config, cache: seq<Entry<Key, seq<byte>>>, k: Key)
    requires CacheOK(cfg, cache)
    ensures CacheOK(cfg, Find(cache, k).es)
  {
    assert forall e | e in Find(cache, k).es :: e in cache;
  }

  /** Adding a block's data, whatever is evicted for it, is harmless: no other
      block of the file has its key. */
  lemma AddKeeps(cfg: Config, cache: seq<Entry<Key, seq<byte>>>, cl: Client, b: nat)
    requires GoodConfig(cfg) && CacheOK(cfg, cache) && cl.req.file < |cfg.files| && b < |cfg.files[cl.req.file].blocks|
    ensures var data := Data(cfg.files[cl.req.file], b);
            CacheOK(cfg, Add(cache, cfg.cacheMax, KeyOf(cfg, cl, b), data, |data|).es)
  {
    hide Data;
    var f := cfg.files[cl.req.file];
    var data, k := Data(f, b), KeyOf(cfg, cl, b);
    var es := Add(cache, cfg.cacheMax, k, data, |data|).es;
    assert GoodFile(f);
    forall e, i: nat | e in es && e.key.file < |cfg.files| && i < |cfg.files[e.key.file].blocks|
      && cfg.files[e.key.file].blocks[i].coff == e.key.offset
      ensures e.value == Data(cfg.files[e.key.file], i)
    {
      if e in cache {
      } else {
        assert e == Entry(k, data, |data|);
        assert i == b;
      }
    }
  }

  // ----- Client steps -----

  lemma SameReq(cfg: Config, cl: Client, cl': Client)
    requires cl'.req == cl.req && cl'.buf == cl.buf
    ensures Keeps(cfg, cl, cl') && FileOf(cfg, cl') == FileOf(cfg, cl)
  {
  }

  lemma LockCacheStep(cfg: Config, s: State, c: nat)
    requires Inv(cfg, s) && Enabled(cfg, s, LockCache(c))
    ensures Inv(cfg, Do(cfg, s, LockCache(c)))
  {
    hide Queued, Undelivered, Uncounted, Calling, WorkerOK, CacheOK, Keeps;
    var s' := Do(cfg, s, LockCache(c));
    SameReq(cfg, s.clients[c], s'.clients[c]);
    assert ClientAt(cfg, s, c);
    SameCall(FileOf(cfg, s.clients[c]), s.clients[c], s'.clients[c]);
    assert Range(First(FileOf(cfg, s.clients[c]), s.clients[c].req), s.clients[c].it) == multiset{};
    ClientStep(cfg, s, s', c);
  }

  /** Nothing but the phase and the bookkeeping of jobs changes. */
  lemma SameCall(f: File, cl: Client, cl': Client)
    requires cl'.req == cl.req && cl'.it == cl.it && cl'.buf == cl.buf && cl'.max == cl.max && cl'.called == cl.called
    ensures Calling(f, cl') == Calling(f, cl)
  {
  }

  lemma InFiles(cfg: Config, cl: Client)
    requires Calling(FileOf(cfg, cl), cl)
    ensures cl.req.file < |cfg.files| && FileOf(cfg, cl) == cfg.files[cl.req.file]
    ensures More(cfg, cl) <==> cl.it < Last(FileOf(cfg, cl), cl.req)
  {
  }

  /** A call goes on after the copy of a callback... */
  lemma CallingCopy(cfg: Config, cl: Client, b: nat, cl': Client)
    requires var f := FileOf(cfg, cl); Calling(f, cl) && First(f, cl.req) <= b < Last(f, cl.req)
    requires var f := FileOf(cfg, cl);
             b < |f.blocks| && cl' == cl.(buf := Copy(f, cl.req, b, cl.buf, Data(f, b)), phase := cl'.phase)
    ensures Calling(FileOf(cfg, cl), cl') && Filled(FileOf(cfg, cl), cl.req, cl'.buf, b) && Keeps(cfg, cl, cl')
  {
    hide First, Last, GoodFile, Copy, Filled, Data;
    CopyFills(FileOf(cfg, cl), cl.req, b, cl.buf);
  }

  /** ... and after raising the maximum. */
  lemma CallingRaise(f: File, cl: Client, b: nat, cl': Client)
    requires Calling(f, cl) && First(f, cl.req) <= b < Last(f, cl.req) && b < |f.blocks| && Filled(f, cl.req, cl.buf, b)
    requires cl' == Raised(f, cl, b).(phase := cl'.phase, it := cl'.it) && First(f, cl.req) <= cl'.it <= Last(f, cl.req)
    ensures Calling(f, cl')
  {
    hide First, Last, GoodFile, Filled;
    RangeBlock(f, cl.req, b);
    assert forall x | x in cl'.called :: x in cl.called || x == b;
  }

  lemma OwnerKept(s: State, s': State)
    requires OwnerOK(s) && s'.owner == s.owner && s'.workers == s.workers && |s'.clients| == |s.clients|
    requires forall c | 0 <= c < |s.clients| :: HoldsCache(s'.clients[c]) == HoldsCache(s.clients[c])
    ensures OwnerOK(s')
  {
  }

  lemma OwnerReleased(s: State, s': State, c: nat)
    requires OwnerOK(s) && c < |s.clients| && HoldsCache(s.clients[c])
    requires s'.owner == Nobody && s'.workers == s.workers && |s'.clients| == |s.clients| && s'.clients == s.clients[c := s'.clients[c]]
    requires !HoldsCache(s'.clients[c])
    ensures OwnerOK(s')
  {
  }

  lemma ScanHitStep(cfg: Config, s: State, c: nat)
    requires Inv(cfg, s) && Enabled(cfg, s, ScanHit(c))
    ensures Inv(cfg, Do(cfg, s, ScanHit(c)))
  {
    hide Calling, WorkerOK, CacheOK, Keeps, First, Last, Copy, Filled, OwnerOK, Data;
    var s', cl := Do(cfg, s, ScanHit(c)), s.clients[c];
    assert ClientAt(cfg, s, c);
    InFiles(cfg, cl);
    FoundData(cfg, s.cache, cl, cl.it);
    FindKeeps(cfg, s.cache, KeyOf(cfg, cl, cl.it));
    CallBounds(FileOf(cfg, cl), cl);
    CallingCopy(cfg, cl, cl.it, s'.clients[c]);
    OwnerKept(s, s');
    ClientStep(cfg, s, s', c);
  }

  lemma CallBounds(f: File, cl: Client)
    requires Calling(f, cl)
    ensures First(f, cl.req) <= cl.it <= Last(f, cl.req) && First(f, cl.req) < |f.blocks|
  {
  }

  lemma RaiseHitStep(cfg: Config, s: State, c: nat)
    requires Inv(cfg, s) && Enabled(cfg, s, RaiseHit(c))
    ensures Inv(cfg, Do(cfg, s, RaiseHit(c)))
  {
    hide Queued, Undelivered, Uncounted, Calling, WorkerOK, CacheOK, Keeps, First, Last, Filled, OwnerOK;
    var s', cl := Do(cfg, s, RaiseHit(c)), s.clients[c];
    var f := FileOf(cfg, cl);
    assert ClientAt(cfg, s, c);
    CallBounds(f, cl);
    CallingRaise(f, cl, cl.it, s'.clients[c]);
    SameReq(cfg, cl, s'.clients[c]);
    assert Range(First(f, cl.req), cl.it + 1) == Range(First(f, cl.req), cl.it) + multiset{cl.it};
    OwnerKept(s, s');
    ClientStep(cfg, s, s', c);
  }

  lemma ScanMissStep(cfg: Config, s: State, c: nat)
    requires Inv(cfg, s) && Enabled(cfg, s, ScanMiss(c))
    ensures Inv(cfg, Do(cfg, s, ScanMiss(c)))
  {
    hide Queued, Undelivered, Uncounted, Calling, WorkerOK, CacheOK, Keeps, First, Last, Filled, OwnerOK;
    var s', cl := Do(cfg, s, ScanMiss(c)), s.clients[c];
    var f := FileOf(cfg, cl);
    assert ClientAt(cfg, s, c);
    InFiles(cfg, cl);
    CallBounds(f, cl);
    NextBlock(f, cl, s'.clients[c]);
    SameReq(cfg, cl, s'.clients[c]);
    assert Range(First(f, cl.req), cl.it + 1) == Range(First(f, cl.req), cl.it) + multiset{cl.it};
    assert multiset(cl.need + [cl.it]) == multiset(cl.need) + multiset{cl.it};
    OwnerKept(s, s');
    ClientStep(cfg, s, s', c);
  }

  lemma NextBlock(f: File, cl: Client, cl': Client)
    requires Calling(f, cl) && cl.it < Last(f, cl.req)
    requires cl' == cl.(it := cl.it + 1, need := cl'.need)
    ensures Calling(f, cl')
  {
  }

  lemma ScanEndStep(cfg: Config, s: State, c: nat)
    requires Inv(cfg, s) && Enabled(cfg, s, ScanEnd(c))
    ensures Inv(cfg, Do(cfg, s, ScanEnd(c)))
  {
    hide Calling, WorkerOK, CacheOK, Keeps, First, Last, Filled, OwnerOK, Queued, Undelivered, Uncounted, Range;
    var s', cl := Do(cfg, s, ScanEnd(c)), s.clients[c];
    var f := FileOf(cfg, cl);
    assert ClientAt(cfg, s, c);
    InFiles(cfg, cl);
    CallBounds(f, cl);
    SameCall(f, cl, s'.clients[c]);
    SameReq(cfg, cl, s'.clients[c]);
    assert cl.need[0..] == cl.need;
    OwnerReleased(s, s', c);
    ClientStep(cfg, s, s', c);
  }

  lemma StartWaitStep(cfg: Config, s: State, c: nat)
    requires Inv(cfg, s) && Enabled(cfg, s, StartWait(c))
    ensures Inv(cfg, Do(cfg, s, StartWait(c)))
  {
    hide Range, Queued, Undelivered, Uncounted, Calling, WorkerOK, CacheOK, Keeps, First, Last, Filled, OwnerOK;
    var s', cl := Do(cfg, s, StartWait(c)), s.clients[c];
    assert ClientAt(cfg, s, c);
    SameCall(FileOf(cfg, cl), cl, s'.clients[c]);
    SameReq(cfg, cl, s'.clients[c]);
    assert cl.need[cl.sent..] == [];
    OwnerKept(s, s');
    ClientStep(cfg, s, s', c);
  }

  lemma ReturnStep(cfg: Config, s: State, c: nat)
    requires Inv(cfg, s) && Enabled(cfg, s, Return(c))
    ensures Inv(cfg, Do(cfg, s, Return(c)))
  {
    hide Range, Queued, Undelivered, Uncounted, Calling, WorkerOK, CacheOK, Keeps, First, Last, Filled, OwnerOK;
    var s', cl := Do(cfg, s, Return(c)), s.clients[c];
    assert ClientAt(cfg, s, c);
    SameCall(FileOf(cfg, cl), cl, s'.clients[c]);
    SameReq(cfg, cl, s'.clients[c]);
    OwnerKept(s, s');
    ClientStep(cfg, s, s', c);
  }

  lemma CollectStep(cfg: Config, s: State, c: nat)
    requires Inv(cfg, s) && Enabled(cfg, s, Collect(c))
    ensures Inv(cfg, Do(cfg, s, Collect(c)))
  {
    hide Range, Queued, Undelivered, Uncounted, Calling, WorkerOK, CacheOK, Keeps, First, Last, Filled, OwnerOK;
    var s', cl := Do(cfg, s, Collect(c)), s.clients[c];
    assert ClientAt(cfg, s, c);
    SameReq(cfg, cl, s'.clients[c]);
    OwnerKept(s, s');
    ClientStep(cfg, s, s', c);
  }

  // ----- Beginning a call -----

  lemma {:induction false} NoneQueued(q: seq<Job>, c: nat, j: Job)
    requires Queued(q, c) == multiset{} && j in q
    ensures j.client != c
    decreases |q|
  {
    if j != q[|q| - 1] {
      NoneQueued(q[..|q| - 1], c, j);
    }
  }

  lemma {:induction false} NoneHeld(ws: seq<Worker>, c: nat, w: nat)
    requires Undelivered(ws, c) == multiset{} && Uncounted(ws, c) == multiset{} && w < |ws|
    ensures ws[w].Asleep? || ws[w].Ready? || ws[w].job.client != c
    decreases |ws|
  {
    if w < |ws| - 1 {
      NoneHeld(ws[..|ws| - 1], c, w);
    }
  }

  lemma BeginStep(cfg: Config, s: State, c: nat, req: Request, buf: seq<byte>)
    requires Inv(cfg, s) && Enabled(cfg, s, Begin(c, req, buf))
    ensures Inv(cfg, Do(cfg, s, Begin(c, req, buf)))
  {
    hide CacheOK, Queued, Undelivered, Uncounted, Filled, GoodFile;
    var s' := Do(cfg, s, Begin(c, req, buf));
    assert ClientAt(cfg, s, c);
    forall d: nat | d < |s.clients|
      ensures ClientAt(cfg, s', d)
    {
      if d == c {
        BeganOK(cfg, req, buf);
      } else {
        assert ClientAt(cfg, s, d);
      }
    }
    forall w: nat | w < |s.workers|
      ensures WorkerOK(cfg, s'.clients, s'.workers[w])
    {
      NoneHeld(s.workers, c, w);
      assert WorkerOK(cfg, s.clients, s.workers[w]);
    }
    forall j | j in s'.queue
      ensures j.client < |s'.clients| && j.block < |FileOf(cfg, s'.clients[j.client]).blocks|
    {
      NoneQueued(s.queue, c, j);
    }
    OwnerKept(s, s');
  }

  lemma BeganOK(cfg: Config, req: Request, buf: seq<byte>)
    requires GoodConfig(cfg) && req.file < |cfg.files| && End(req) < OFF_END && |buf| == req.size
    ensures var cl := Began(cfg, req, buf);
            ClientOK(FileOf(cfg, cl), cl, multiset{}, multiset{}, multiset{}) && !HoldsCache(cl)
  {
    hide Filled;
    var f := cfg.files[req.file];
    assert GoodFile(f);
    LookupExact(f.blocks, req.offset);
  }

  // ----- The queue -----

  lemma QueuedMore(q: seq<Job>, j: Job, c: nat)
    ensures Queued(q + [j], c) == Queued(q, c) + OfJob(j, c)
  {
    assert (q + [j])[..|q|] == q;
  }

  lemma EnqueueStep(cfg: Config, s: State, c: nat, wake: Option<nat>)
    requires Inv(cfg, s) && Enabled(cfg, s, Enqueue(c, wake))
    ensures Inv(cfg, Do(cfg, s, Enqueue(c, wake)))
  {
    hide CacheOK, Calling, Filled, Keeps, OwnerOK, WorkerOK, ClientAt, ClientOK;
    var s', cl := Do(cfg, s, Enqueue(c, wake)), s.clients[c];
    SameReq(cfg, cl, s'.clients[c]);
    forall d: nat | d < |s.clients|
      ensures ClientAt(cfg, s', d)
    {
      assert ClientAt(cfg, s, d);
      EnqueueClient(cfg, s, c, wake, d);
    }
    forall w: nat | w < |s.workers|
      ensures WorkerOK(cfg, s'.clients, s'.workers[w])
    {
      WorkersKept(cfg, s.clients, c, s'.clients[c], s.workers[w]);
      ReadyOK(cfg, s'.clients);
    }
    assert ClientAt(cfg, s, c);
    EnqueueValid(cfg, s, c);
    JobsKept(cfg, s, s', c);
    OwnerWoke(s, s', wake);
    assert Attended(s') by {
      assert s'.workers[if wake.Some? then wake.value else 0] != Asleep;
    }
  }

  lemma EnqueueClient(cfg: Config, s: State, c: nat, wake: Option<nat>, d: nat)
    requires Enabled(cfg, s, Enqueue(c, wake)) && d < |s.clients| && ClientAt(cfg, s, d)
    ensures ClientAt(cfg, Do(cfg, s, Enqueue(c, wake)), d)
  {
    hide Queued, Undelivered, Uncounted, Calling, Range, First, Last, Keeps;
    var s', cl := Do(cfg, s, Enqueue(c, wake)), s.clients[c];
    var j := Job(c, cl.need[cl.sent]);
    QueuedMore(s.queue, j, d);
    WokeNothing(s.workers, wake, d);
    if d == c {
      var f := FileOf(cfg, cl);
      SameReq(cfg, cl, s'.clients[c]);
      SameCall(f, cl, s'.clients[c]);
      Sent(f, cl, s'.clients[c], Queued(s.queue, c), Undelivered(s.workers, c), Uncounted(s.workers, c));
    } else {
      assert Queued(s.queue, d) + multiset{} == Queued(s.queue, d);
    }
  }

  lemma EnqueueValid(cfg: Config, s: State, c: nat)
    requires c < |s.clients| && ClientAt(cfg, s, c) && s.clients[c].phase == Enqueueing && s.clients[c].sent < |s.clients[c].need|
    ensures s.clients[c].need[s.clients[c].sent] < |FileOf(cfg, s.clients[c]).blocks|
  {
    hide Calling, Queued, Undelivered, Uncounted, First, Last, Range;
    SentInRange(FileOf(cfg, s.clients[c]), s.clients[c], Queued(s.queue, c), Undelivered(s.workers, c));
  }

  lemma ReadyOK(cfg: Config, clients: seq<Client>)
    ensures WorkerOK(cfg, clients, Ready)
  {
  }

  lemma WokeNothing(ws: seq<Worker>, wake: Option<nat>, c: nat)
    requires MayWake(ws, wake)
    ensures Undelivered(Woke(ws, wake), c) == Undelivered(ws, c) && Uncounted(Woke(ws, wake), c) == Uncounted(ws, c)
  {
    if wake.Some? {
      OtherClient(ws, wake.value, Ready, c);
    }
  }

  lemma OwnerWoke(s: State, s': State, wake: Option<nat>)
    requires OwnerOK(s) && MayWake(s.workers, wake) && s'.owner == s.owner && s'.workers == Woke(s.workers, wake)
    requires |s'.clients| == |s.clients| && forall c | 0 <= c < |s.clients| :: HoldsCache(s'.clients[c]) == HoldsCache(s.clients[c])
    ensures OwnerOK(s')
  {
  }

  lemma Sent(f: File, cl: Client, cl': Client, q: multiset<nat>, u: multiset<nat>, d: multiset<nat>)
    requires ClientOK(f, cl, q, u, d) && cl.phase == Enqueueing && cl.sent < |cl.need|
    requires cl' == cl.(sent := cl.sent + 1) && Calling(f, cl')
    ensures ClientOK(f, cl', q + multiset{cl.need[cl.sent]}, u, d)
  {
    hide Calling, Range, First, Last;
    var b, rest := cl.need[cl.sent], cl.need[cl.sent + 1..];
    assert cl.need[cl.sent..] == [b] + rest;
    assert multiset(cl.need[cl.sent..]) == multiset{b} + multiset(rest);
    assert cl.called + multiset(rest) + (q + multiset{b}) + u == cl.called + multiset(cl.need[cl.sent..]) + q + u;
  }

  lemma SentInRange(f: File, cl: Client, q: multiset<nat>, u: multiset<nat>)
    requires cl.sent < |cl.need| && cl.called + multiset(cl.need[cl.sent..]) + q + u == Range(First(f, cl.req), Last(f, cl.req))
    ensures cl.need[cl.sent] < |f.blocks|
  {
    hide First, Last, Range;
    var b := cl.need[cl.sent];
    assert cl.need[cl.sent..][0] == b;
    assert b in cl.called + multiset(cl.need[cl.sent..]) + q + u;
    InRange(First(f, cl.req), Last(f, cl.req), b);
  }

  lemma SleepStep(cfg: Config, s: State, w: nat)
    requires Inv(cfg, s) && Enabled(cfg, s, Sleep(w))
    ensures Inv(cfg, Do(cfg, s, Sleep(w)))
  {
    hide CacheOK, Queued, Undelivered, Uncounted, ClientOK, Filled;
    var s' := Do(cfg, s, Sleep(w));
    forall d: nat | d < |s.clients|
      ensures ClientAt(cfg, s', d)
    {
      assert ClientAt(cfg, s, d);
      OtherClient(s.workers, w, Asleep, d);
    }
  }

  /** A job taken off the queue is still on its way. */
  lemma TakenOff(f: File, cl: Client, q: multiset<nat>, u: multiset<nat>, d: multiset<nat>, x: multiset<nat>, q': multiset<nat>)
    requires ClientOK(f, cl, q, u, d) && q == x + q'
    ensures ClientOK(f, cl, q', u + x, d)
  {
    hide Calling, Range, First, Last;
    assert |q| == |x| + |q'|;
    assert |u + x| == |u| + |x|;
    if q == multiset{} {
      assert x == multiset{} && q' == multiset{};
    }
    assert q + u == q' + (u + x);
    assert cl.called + q + u == cl.called + q' + (u + x);
    if cl.phase == Enqueueing && cl.sent <= |cl.need| {
      var n := multiset(cl.need[cl.sent..]);
      assert cl.called + n + q + u == cl.called + n + q' + (u + x);
    }
  }

  lemma FetchStep(cfg: Config, s: State, w: nat)
    requires Inv(cfg, s) && Enabled(cfg, s, Fetch(w))
    ensures Inv(cfg, Do(cfg, s, Fetch(w)))
  {
    hide CacheOK, ClientAt, Filled;
    var s' := Do(cfg, s, Fetch(w));
    forall d: nat | d < |s.clients|
      ensures ClientAt(cfg, s', d)
    {
      assert ClientAt(cfg, s, d);
      FetchClient(cfg, s, w, d);
    }
    assert s'.workers[w] != Asleep;
    assert s.queue[0] in s.queue && forall x | x in s'.queue :: x in s.queue;
  }

  lemma FetchClient(cfg: Config, s: State, w: nat, d: nat)
    requires Enabled(cfg, s, Fetch(w)) && d < |s.clients| && ClientAt(cfg, s, d)
    ensures ClientAt(cfg, Do(cfg, s, Fetch(w)), d)
  {
    hide Queued, Undelivered, Uncounted, ClientOK;
    var s', j := Do(cfg, s, Fetch(w)), s.queue[0];
    QueuedFront(s.queue, d);
    UndeliveredChanges(s.workers, w, Checking(j), d);
    UncountedChanges(s.workers, w, Checking(j), d);
    Cancel(Undelivered(s'.workers, d), Undelivered(s.workers, d) + OfJob(j, d), multiset{});
    Cancel(Uncounted(s'.workers, d), Uncounted(s.workers, d), multiset{});
    TakenOff(FileOf(cfg, s.clients[d]), s.clients[d], Queued(s.queue, d), Undelivered(s.workers, d), Uncounted(s.workers, d),
             OfJob(j, d), Queued(s.queue[1..], d));
  }

  // ----- Worker steps -----

  lemma {:induction false} InUndelivered(ws: seq<Worker>, c: nat, w: nat)
    requires w < |ws|
    ensures Before(ws[w], c) <= Undelivered(ws, c) && Behind(ws[w], c) <= Uncounted(ws, c)
    decreases |ws|
  {
    hide Before, Behind;
    if w < |ws| - 1 {
      InUndelivered(ws[..|ws| - 1], c, w);
    }
  }

  /** The job a worker holds: its block is in its client's range, and its client is queueing or waiting. */
  lemma HeldJob(cfg: Config, s: State, w: nat)
    requires Inv(cfg, s) && JobAt(cfg, s, w)
    ensures var job := s.workers[w].job; var cl := s.clients[job.client]; var f := FileOf(cfg, cl);
            && ClientAt(cfg, s, job.client) && WorkerOK(cfg, s.clients, s.workers[w])
            && (cl.phase == Enqueueing || cl.phase == Waiting) && Calling(f, cl)
            && cl.req.file < |cfg.files| && f == cfg.files[cl.req.file] && GoodFile(f)
            && (!s.workers[w].Finishing? ==> First(f, cl.req) <= job.block < Last(f, cl.req))
  {
    hide Queued, Undelivered, Uncounted, First, Last, Range, CacheOK, OwnerOK, Attended, WorkerOK;
    var job := s.workers[w].job;
    var c := job.client;
    var cl := s.clients[c];
    assert ClientAt(cfg, s, c);
    InUndelivered(s.workers, c, w);
    if s.workers[w].Finishing? {
      assert job.block in Uncounted(s.workers, c);
    } else {
      assert job.block in Undelivered(s.workers, c);
      InRange(First(FileOf(cfg, cl), cl.req), Last(FileOf(cfg, cl), cl.req), job.block);
      InSum(FileOf(cfg, cl), cl, Queued(s.queue, c), Undelivered(s.workers, c), Uncounted(s.workers, c), job.block);
    }
  }

  lemma InSum(f: File, cl: Client, q: multiset<nat>, u: multiset<nat>, d: multiset<nat>, b: nat)
    requires ClientOK(f, cl, q, u, d) && b in u
    ensures (cl.phase == Enqueueing || cl.phase == Waiting) && b in Range(First(f, cl.req), Last(f, cl.req))
  {
    hide Calling, Range, First, Last;
    if cl.phase == Enqueueing {
      assert b in cl.called + multiset(cl.need[cl.sent..]) + q + u;
    } else if cl.phase == Waiting {
      assert b in cl.called + q + u;
    }
  }

  lemma OwnerWorker(s: State, s': State, w: nat)
    requires OwnerOK(s) && w < |s.workers| == |s'.workers| && s'.workers == s.workers[w := s'.workers[w]]
    requires |s'.clients| == |s.clients| && forall c | 0 <= c < |s.clients| :: HoldsCache(s'.clients[c]) == HoldsCache(s.clients[c])
    requires if s'.workers[w].RaisingFound? then s.owner == Nobody && s'.owner == ByWorker(w)
             else if s.workers[w].RaisingFound? then s'.owner == Nobody else s'.owner == s.owner
    ensures OwnerOK(s')
  {
  }

  lemma CheckHitStep(cfg: Config, s: State, w: nat)
    requires Inv(cfg, s) && Enabled(cfg, s, CheckHit(w))
    ensures Inv(cfg, Do(cfg, s, CheckHit(w)))
  {
    hide Queued, Undelivered, Uncounted, Calling, CacheOK, Keeps, First, Last, Copy, Filled, OwnerOK, Data, GoodFile, Range, Attended;
    var s', job := Do(cfg, s, CheckHit(w)), s.workers[w].job;
    var cl := s.clients[job.client];
    HeldJob(cfg, s, w);
    FoundData(cfg, s.cache, cl, job.block);
    FindKeeps(cfg, s.cache, KeyOf(cfg, cl, job.block));
    CallingCopy(cfg, cl, job.block, s'.clients[job.client]);
    OtherClient(s.workers, w, RaisingFound(job), job.client);
    OwnerWorker(s, s', w);
    WorkerStep(cfg, s, s', w);
  }

  lemma CheckMissStep(cfg: Config, s: State, w: nat)
    requires Inv(cfg, s) && Enabled(cfg, s, CheckMiss(w))
    ensures Inv(cfg, Do(cfg, s, CheckMiss(w)))
  {
    hide Queued, Undelivered, Uncounted, Calling, CacheOK, First, Last, Copy, Filled, OwnerOK, Data, GoodFile, Range, Attended;
    var s', job := Do(cfg, s, CheckMiss(w)), s.workers[w].job;
    HeldJob(cfg, s, w);
    OtherClient(s.workers, w, Decompressing(job), job.client);
    OwnerWorker(s, s', w);
    assert s'.clients == s.clients[job.client := s'.clients[job.client]];
    WorkerStep(cfg, s, s', w);
  }

  lemma DecompressStep(cfg: Config, s: State, w: nat)
    requires Inv(cfg, s) && Enabled(cfg, s, Decompress(w))
    ensures Inv(cfg, Do(cfg, s, Decompress(w)))
  {
    hide Queued, Undelivered, Uncounted, Calling, CacheOK, First, Last, Copy, Filled, OwnerOK, Data, GoodFile, Range, Attended;
    var s', job := Do(cfg, s, Decompress(w)), s.workers[w].job;
    HeldJob(cfg, s, w);
    OtherClient(s.workers, w, s'.workers[w], job.client);
    OwnerWorker(s, s', w);
    assert s'.clients == s.clients[job.client := s'.clients[job.client]];
    WorkerStep(cfg, s, s', w);
  }

  lemma AddToCacheStep(cfg: Config, s: State, w: nat)
    requires Inv(cfg, s) && Enabled(cfg, s, AddToCache(w))
    ensures Inv(cfg, Do(cfg, s, AddToCache(w)))
  {
    hide Queued, Undelivered, Uncounted, Calling, CacheOK, First, Last, Copy, Filled, OwnerOK, Data, GoodFile, Range, Attended;
    var s', job := Do(cfg, s, AddToCache(w)), s.workers[w].job;
    HeldJob(cfg, s, w);
    AddKeeps(cfg, s.cache, s.clients[job.client], job.block);
    OtherClient(s.workers, w, s'.workers[w], job.client);
    OwnerWorker(s, s', w);
    assert s'.clients == s.clients[job.client := s'.clients[job.client]];
    WorkerStep(cfg, s, s', w);
  }

  lemma DeliverStep(cfg: Config, s: State, w: nat)
    requires Inv(cfg, s) && Enabled(cfg, s, Deliver(w))
    ensures Inv(cfg, Do(cfg, s, Deliver(w)))
  {
    hide Queued, Undelivered, Uncounted, Calling, CacheOK, Keeps, First, Last, Copy, Filled, OwnerOK, Data, GoodFile, Range, Attended;
    var s', job := Do(cfg, s, Deliver(w)), s.workers[w].job;
    HeldJob(cfg, s, w);
    CallingCopy(cfg, s.clients[job.client], job.block, s'.clients[job.client]);
    OtherClient(s.workers, w, s'.workers[w], job.client);
    OwnerWorker(s, s', w);
    WorkerStep(cfg, s, s', w);
  }

  /** A completed callback moves its block from undelivered to called back. */
  lemma CalledBack(f: File, cl: Client, q: multiset<nat>, u: multiset<nat>, d: multiset<nat>, b: nat,
                   cl': Client, u': multiset<nat>, d': multiset<nat>)
    requires ClientOK(f, cl, q, u, d) && (cl.phase == Enqueueing || cl.phase == Waiting)
    requires b < |f.blocks| && cl' == Raised(f, cl, b) && Calling(f, cl')
    requires u == u' + multiset{b} && d' == d + multiset{b}
    ensures ClientOK(f, cl', q, u', d')
  {
    hide Calling, Range, First, Last, Hi;
    assert |u| == |u'| + 1 && |d'| == |d| + 1;
    assert (cl.called + multiset{b}) + q + u' == cl.called + q + u;
    if cl.phase == Enqueueing {
      var n := multiset(cl.need[cl.sent..]);
      assert (cl.called + multiset{b}) + n + q + u' == cl.called + n + q + u;
    }
  }

  lemma RaiseStep(cfg: Config, s: State, s': State, w: nat)
    requires Inv(cfg, s) && JobAt(cfg, s, w) && (s.workers[w].RaisingFound? || s.workers[w].RaisingNew?)
    requires s'.cache == s.cache && s'.queue == s.queue && s'.workers == s.workers[w := Finishing(s.workers[w].job)]
    requires s'.owner == if s.workers[w].RaisingFound? then Nobody else s.owner
    requires var job := s.workers[w].job; var cl := s.clients[job.client];
             s'.clients == s.clients[job.client := Raised(FileOf(cfg, cl), cl, job.block)]
    ensures Inv(cfg, s')
  {
    hide Queued, Undelivered, Uncounted, Calling, CacheOK, First, Last, Filled, OwnerOK, GoodFile, Range, Attended, Hi;
    var job := s.workers[w].job;
    var c := job.client;
    var cl := s.clients[c];
    var f := FileOf(cfg, cl);
    HeldJob(cfg, s, w);
    CallBounds(f, cl);
    CallingRaise(f, cl, job.block, s'.clients[c]);
    UndeliveredChanges(s.workers, w, Finishing(job), c);
    UncountedChanges(s.workers, w, Finishing(job), c);
    Cancel(Undelivered(s.workers, c), Undelivered(s'.workers, c) + multiset{job.block}, multiset{});
    Cancel(Uncounted(s'.workers, c), Uncounted(s.workers, c) + multiset{job.block}, multiset{});
    CalledBack(f, cl, Queued(s.queue, c), Undelivered(s.workers, c), Uncounted(s.workers, c), job.block,
               s'.clients[c], Undelivered(s'.workers, c), Uncounted(s'.workers, c));
    OwnerWorker(s, s', w);
    SameReq(cfg, cl, s'.clients[c]);
    WorkerStep(cfg, s, s', w);
  }

  /** Counting a job off; the last one wakes the client, which is waiting. */
  lemma CountedOff(f: File, cl: Client, q: multiset<nat>, u: multiset<nat>, d: multiset<nat>, b: nat, cl': Client, d': multiset<nat>)
    requires ClientOK(f, cl, q, u, d) && cl.phase == Waiting && Calling(f, cl') && d == d' + multiset{b}
    requires cl' == cl.(remain := cl.remain - 1, phase := if cl.remain == 1 then Woken else Waiting)
    ensures ClientOK(f, cl', q, u, d')
  {
    hide Calling, Range, First, Last;
    assert |d| == |d'| + 1;
    if cl.remain == 1 {
      assert q == multiset{} && u == multiset{} && d' == multiset{};
    }
  }

  lemma FinishStep(cfg: Config, s: State, w: nat)
    requires Inv(cfg, s) && Enabled(cfg, s, Finish(w))
    ensures Inv(cfg, Do(cfg, s, Finish(w)))
  {
    hide Queued, Undelivered, Uncounted, Calling, CacheOK, First, Last, Filled, OwnerOK, GoodFile, Range, Attended;
    var s', job := Do(cfg, s, Finish(w)), s.workers[w].job;
    var c := job.client;
    var cl := s.clients[c];
    var f := FileOf(cfg, cl);
    HeldJob(cfg, s, w);
    UndeliveredChanges(s.workers, w, Ready, c);
    UncountedChanges(s.workers, w, Ready, c);
    Cancel(Undelivered(s.workers, c), Undelivered(s'.workers, c), multiset{});
    Cancel(Uncounted(s.workers, c), Uncounted(s'.workers, c) + multiset{job.block}, multiset{});
    SameCall(f, cl, s'.clients[c]);
    CountedOff(f, cl, Queued(s.queue, c), Undelivered(s.workers, c), Uncounted(s.workers, c), job.block,
               s'.clients[c], Uncounted(s'.workers, c));
    OwnerWorker(s, s', w);
    SameReq(cfg, cl, s'.clients[c]);
    WorkerStep(cfg, s, s', w);
  }

  // ----- Every run -----

  /** Every step keeps the invariant. */
  lemma StepKeeps(cfg: Config, s: State, step: Step)
    requires Inv(cfg, s) && Enabled(cfg, s, step)
    ensures Inv(cfg, Do(cfg, s, step))
  {
    hide Inv;
    match step
    case Begin(c, req, buf) => BeginStep(cfg, s, c, req, buf);
    case LockCache(c) => LockCacheStep(cfg, s, c);
    case ScanHit(c) => ScanHitStep(cfg, s, c);
    case RaiseHit(c) => RaiseHitStep(cfg, s, c);
    case ScanMiss(c) => ScanMissStep(cfg, s, c);
    case ScanEnd(c) => ScanEndStep(cfg, s, c);
    case Enqueue(c, wake) => EnqueueStep(cfg, s, c, wake);
    case StartWait(c) => StartWaitStep(cfg, s, c);
    case Return(c) => ReturnStep(cfg, s, c);
    case Collect(c) => CollectStep(cfg, s, c);
    case Sleep(w) => SleepStep(cfg, s, w);
    case Fetch(w) => FetchStep(cfg, s, w);
    case CheckHit(w) => CheckHitStep(cfg, s, w);
    case RaiseFound(w) => RaiseStep(cfg, s, Do(cfg, s, step), w);
    case CheckMiss(w) => CheckMissStep(cfg, s, w);
    case Decompress(w) => DecompressStep(cfg, s, w);
    case AddToCache(w) => AddToCacheStep(cfg, s, w);
    case Deliver(w) => DeliverStep(cfg, s, w);
    case RaiseNew(w) => RaiseStep(cfg, s, Do(cfg, s, step), w);
    case Finish(w) => FinishStep(cfg, s, w);
  }

  /** No calls in progress, nothing cached, every worker about to look at the queue. */
  ghost predicate Initial(s: State) {
    && s.cache == [] && s.owner == Nobody && s.queue == [] && 0 < |s.workers|
    && (forall w | 0 <= w < |s.workers| :: s.workers[w] == Ready)
    && (forall c | 0 <= c < |s.clients| :: s.clients[c].phase == Idle)
  }

  /** `steps` can be taken one after another from `s`. */
  ghost predicate Runs(cfg: Config, s: State, steps: seq<Step>)
    decreases |steps|
  {
    steps != [] ==> Enabled(cfg, s, steps[0]) && Runs(cfg, Do(cfg, s, steps[0]), steps[1..])
  }

  ghost function RunTo(cfg: Config, s: State, steps: seq<Step>): State
    requires Runs(cfg, s, steps)
    decreases |steps|
  {
    if steps == [] then s else RunTo(cfg, Do(cfg, s, steps[0]), steps[1..])
  }

  lemma {:induction false} NoJobsAtAll(ws: seq<Worker>, c: nat)
    requires forall w | 0 <= w < |ws| :: ws[w] == Ready
    ensures Undelivered(ws, c) == multiset{} && Uncounted(ws, c) == multiset{}
    decreases |ws|
  {
    if ws != [] {
      NoJobsAtAll(ws[..|ws| - 1], c);
    }
  }

  lemma InitialOK(cfg: Config, s: State)
    requires GoodConfig(cfg) && Initial(s)
    ensures Inv(cfg, s)
  {
    hide Undelivered, Uncounted;
    forall c: nat | c < |s.clients|
      ensures ClientAt(cfg, s, c)
    {
      NoJobsAtAll(s.workers, c);
    }
  }

  lemma {:induction false} RunKeeps(cfg: Config, s: State, steps: seq<Step>)
    requires Inv(cfg, s) && Runs(cfg, s, steps)
    ensures Inv(cfg, RunTo(cfg, s, steps))
    decreases |steps|
  {
    hide Inv, Do, Enabled;
    if steps != [] {
      StepKeeps(cfg, s, steps[0]);
      RunKeeps(cfg, Do(cfg, s, steps[0]), steps[1..]);
    }
  }
}
