/** What cached reads achieve in every run: the right bytes, no deadlock, an end. */
module BlockCacheRuns {
  import opened Bits
  import opened Blocks
  import opened BlockCache
  import opened BlockCacheInv
  import opened Lookup
  import opened Lru
  import opened Wrappers

  // ----- Every read returns the right bytes -----

  /** What a read at offset `req.offset` should deliver. */
  ghost predicate ReadRight(f: File, req: Request, buf: seq<byte>, n: int) {
    && req.offset < |f.content| && n == Bound(f, req) - req.offset && 0 <= n <= |buf| == req.size
    && buf[..n] == f.content[req.offset..req.offset + n]
  }

  /** The block that holds a position of the range is in the range. */
  lemma HoldingBlock(f: File, req: Request, p: nat) returns (b: nat)
    requires GoodFile(f) && req.offset <= p < Bound(f, req)
    ensures First(f, req) <= b < Last(f, req) && Lo(f, req, b) <= p < Hi(f, req, b)
  {
    b := Search(f.blocks, p, 0, |f.blocks|);
    LookupExact(f.blocks, p);
    LookupExact(f.blocks, req.offset);
    var first, last := First(f, req), Last(f, req);
    if b < first {
      TiledOrder(f.blocks, 0, b, first);
    }
    if last < b {
      TiledOrder(f.blocks, 0, last, b);
    }
  }

  lemma RightAt(f: File, cl: Client, p: nat)
    requires Calling(f, cl) && cl.called == Range(First(f, cl.req), Last(f, cl.req)) && cl.req.offset <= p < Bound(f, cl.req)
    ensures Right(f, cl.req, cl.buf, p) && p < cl.max
  {
    hide First, Last, Range, Lo, Hi, Right;
    var b := HoldingBlock(f, cl.req, p);
    InRange(First(f, cl.req), Last(f, cl.req), b);
    assert b in cl.called;
  }

  lemma FinishedCall(f: File, cl: Client)
    requires Calling(f, cl) && cl.called == Range(First(f, cl.req), Last(f, cl.req))
    ensures ReadRight(f, cl.req, cl.buf, cl.max - cl.req.offset)
  {
    hide Filled, Lo, Hi, First, Last, Range, GoodFile;
    var req, n := cl.req, Bound(f, cl.req) - cl.req.offset;
    OffsetInside(f, req);
    forall i: nat | i < n
      ensures cl.buf[i] == f.content[req.offset + i]
    {
      RightAt(f, cl, req.offset + i);
    }
    if req.offset < Bound(f, req) {
      RightAt(f, cl, Bound(f, req) - 1);
    }
    assert cl.buf[..n] == f.content[req.offset..req.offset + n];
  }

  lemma OffsetInside(f: File, req: Request)
    requires GoodFile(f) && First(f, req) < |f.blocks|
    ensures req.offset < |f.content|
  {
    LookupExact(f.blocks, req.offset);
  }

  /** In every run, a read that finishes has filled the caller's buffer with
      exactly the bytes asked for that the file has, and one that fails was
      past the end; every block of the range was called back exactly once. */
  lemma EveryReadRight(cfg: Config, s0: State, steps: seq<Step>, c: nat)
    requires GoodConfig(cfg) && Initial(s0) && Runs(cfg, s0, steps)
    requires c < |RunTo(cfg, s0, steps).clients|
    ensures var cl := RunTo(cfg, s0, steps).clients[c]; var f := FileOf(cfg, cl);
            && (cl.phase == Done ==> ReadRight(f, cl.req, cl.buf, cl.max - cl.req.offset))
            && (cl.phase == Done ==> forall b: nat :: cl.called[b] == if First(f, cl.req) <= b < Last(f, cl.req) then 1 else 0)
            && (cl.phase == Failed ==> |f.content| <= cl.req.offset)
  {
    hide Initial, Calling, Queued, Undelivered, Uncounted, First, Last, Range, ReadRight;
    InitialOK(cfg, s0);
    RunKeeps(cfg, s0, steps);
    var s := RunTo(cfg, s0, steps);
    var cl := s.clients[c];
    var f := FileOf(cfg, cl);
    assert ClientAt(cfg, s, c);
    if cl.phase == Done {
      FinishedCall(f, cl);
      forall b: nat
        ensures cl.called[b] == if First(f, cl.req) <= b < Last(f, cl.req) then 1 else 0
      {
        InRange(First(f, cl.req), Last(f, cl.req), b);
      }
    }
  }

  // ----- The completion protocol -----

  /** The counter always counts the call's jobs not yet past the decrement. */
  lemma RemainCounts(cfg: Config, s: State, c: nat)
    requires Inv(cfg, s) && c < |s.clients|
    ensures var cl := s.clients[c]; var out := |Queued(s.queue, c)| + |Undelivered(s.workers, c)| + |Uncounted(s.workers, c)|;
            match cl.phase
            case Enqueueing => cl.remain == |cl.need| - cl.sent + out
            case Waiting => cl.remain == out && 0 < out
            case Woken => cl.remain == 0 && out == 0
            case _ => out == 0
  {
    hide Queued, Undelivered, Uncounted, Calling;
    assert ClientAt(cfg, s, c);
  }

  /** The signal that ends a call finds it waiting: it cannot come too early. */
  lemma SignalFindsWaiter(cfg: Config, s: State, w: nat)
    requires Inv(cfg, s) && Enabled(cfg, s, Finish(w))
    ensures s.clients[s.workers[w].job.client].phase == Waiting
  {
    hide Inv, ClientAt, WorkerOK, Calling;
    HeldJob(cfg, s, w);
  }

  /** Every copy of a callback stays inside the block's data and the caller's buffer. */
  lemma CopiesInBounds(cfg: Config, s: State, step: Step)
    requires Inv(cfg, s) && Enabled(cfg, s, step)
    ensures match step
            case ScanHit(c) =>
              var cl := s.clients[c]; var f := FileOf(cfg, cl);
              cl.it < |f.blocks| && InBounds(f, cl.req, cl.it, cl.buf, Value(s.cache, KeyOf(cfg, cl, cl.it)))
            case CheckHit(w) =>
              var job := s.workers[w].job; var cl := s.clients[job.client];
              InBounds(FileOf(cfg, cl), cl.req, job.block, cl.buf, Value(s.cache, KeyOf(cfg, cl, job.block)))
            case Deliver(w) =>
              var job := s.workers[w].job; var cl := s.clients[job.client];
              InBounds(FileOf(cfg, cl), cl.req, job.block, cl.buf, s.workers[w].data)
            case _ => true
  {
    hide Queued, Undelivered, Uncounted, Data, InBounds, Filled, First, Last, Range, OwnerOK, CacheOK, Attended;
    match step
    case ScanHit(c) =>
      var cl := s.clients[c];
      assert ClientAt(cfg, s, c);
      InFiles(cfg, cl);
      FoundData(cfg, s.cache, cl, cl.it);
      CopyFills(FileOf(cfg, cl), cl.req, cl.it, cl.buf);
    case CheckHit(w) =>
      var job := s.workers[w].job;
      var cl := s.clients[job.client];
      HeldJob(cfg, s, w);
      FoundData(cfg, s.cache, cl, job.block);
      CopyFills(FileOf(cfg, cl), cl.req, job.block, cl.buf);
    case Deliver(w) =>
      var job := s.workers[w].job;
      var cl := s.clients[job.client];
      HeldJob(cfg, s, w);
      CopyFills(FileOf(cfg, cl), cl.req, job.block, cl.buf);
    case _ =>
  }

  // ----- No deadlock -----

  ghost predicate CanStep(cfg: Config, s: State) {
    exists step :: Enabled(cfg, s, step) && !step.Begin?
  }

  lemma Possible(cfg: Config, s: State, step: Step)
    requires Enabled(cfg, s, step) && !step.Begin?
    ensures CanStep(cfg, s)
  {
  }

  lemma OwnerCanStep(cfg: Config, s: State)
    requires Inv(cfg, s) && s.owner != Nobody
    ensures CanStep(cfg, s)
  {
    hide CanStep, ClientAt, CacheOK, Attended, WorkerOK;
    match s.owner
    case ByClient(c) => HolderCanStep(cfg, s, c);
    case ByWorker(w) =>
      JobValid(cfg, s, w);
      Possible(cfg, s, RaiseFound(w));
  }

  lemma HolderCanStep(cfg: Config, s: State, c: nat)
    requires Inv(cfg, s) && c < |s.clients| && HoldsCache(s.clients[c])
    ensures CanStep(cfg, s)
  {
    hide CanStep, Queued, Undelivered, Uncounted, Calling, Filled, CacheOK, Attended, WorkerOK, OwnerOK, Cached, More;
    var cl := s.clients[c];
    assert ClientAt(cfg, s, c);
    if cl.phase == Scanning {
      Possible(cfg, s, if !More(cfg, cl) then ScanEnd(c) else if Cached(cfg, s, cl, cl.it) then ScanHit(c) else ScanMiss(c));
    } else {
      CallBounds(FileOf(cfg, cl), cl);
      Possible(cfg, s, RaiseHit(c));
    }
  }

  lemma JobValid(cfg: Config, s: State, w: nat)
    requires Inv(cfg, s) && w < |s.workers| && !s.workers[w].Asleep? && !s.workers[w].Ready?
    ensures JobAt(cfg, s, w)
  {
    hide ClientAt, CacheOK, OwnerOK, Attended;
    assert WorkerOK(cfg, s.clients, s.workers[w]);
  }

  lemma QueueingCanStep(cfg: Config, s: State, c: nat)
    requires Inv(cfg, s) && c < |s.clients| && s.clients[c].phase == Enqueueing
    ensures CanStep(cfg, s)
  {
    hide CanStep, Queued, Undelivered, Uncounted, Calling, CacheOK, OwnerOK, Attended, WorkerOK;
    assert ClientAt(cfg, s, c);
    if s.clients[c].sent == |s.clients[c].need| {
      Possible(cfg, s, StartWait(c));
    } else if w: nat :| w < |s.workers| && s.workers[w] == Asleep {
      Possible(cfg, s, Enqueue(c, Some(w)));
    } else {
      Possible(cfg, s, Enqueue(c, None));
    }
  }

  lemma WorkerCanStep(cfg: Config, s: State, w: nat)
    requires Inv(cfg, s) && s.owner == Nobody && w < |s.workers| && s.workers[w] != Asleep
    ensures CanStep(cfg, s)
  {
    hide CanStep, Inv, Cached;
    if s.workers[w] == Ready {
      Possible(cfg, s, if s.queue == [] then Sleep(w) else Fetch(w));
    } else {
      JobValid(cfg, s, w);
      NotRaising(cfg, s, w);
      var job := s.workers[w].job;
      match s.workers[w]
      case Checking(_) =>
        Possible(cfg, s, if Cached(cfg, s, s.clients[job.client], job.block) then CheckHit(w) else CheckMiss(w));
      case Decompressing(_) => Possible(cfg, s, Decompress(w));
      case Adding(_, _) => Possible(cfg, s, AddToCache(w));
      case Delivering(_, _) => Possible(cfg, s, Deliver(w));
      case RaisingNew(_) => Possible(cfg, s, RaiseNew(w));
      case Finishing(_) =>
        if s.clients[job.client].phase == Enqueueing {
          QueueingCanStep(cfg, s, job.client);
        } else {
          Possible(cfg, s, Finish(w));
        }
    }
  }

  lemma NotRaising(cfg: Config, s: State, w: nat)
    requires Inv(cfg, s) && s.owner == Nobody && w < |s.workers|
    ensures !s.workers[w].RaisingFound?
  {
    hide ClientAt, CacheOK, Attended, WorkerOK;
  }

  /** As long as some call is unfinished, some thread can go on with one. */
  lemma NoDeadlock(cfg: Config, s: State, c: nat)
    requires Inv(cfg, s) && c < |s.clients| && s.clients[c].phase != Idle
    ensures CanStep(cfg, s)
  {
    hide Queued, Undelivered, Uncounted, Calling, CacheOK, OwnerOK, WorkerOK, CanStep;
    if s.owner != Nobody {
      OwnerCanStep(cfg, s);
    } else if w: nat :| w < |s.workers| && s.workers[w] != Asleep {
      WorkerCanStep(cfg, s, w);
    } else {
      NobodyElse(cfg, s, c);
    }
  }

  /** With the cache free and every worker asleep, nothing is queued, so the
      call is not waiting for anyone. */
  lemma NobodyElse(cfg: Config, s: State, c: nat)
    requires Inv(cfg, s) && c < |s.clients| && s.clients[c].phase != Idle && s.owner == Nobody
    requires forall w: nat | w < |s.workers| :: s.workers[w] == Asleep
    ensures CanStep(cfg, s)
  {
    hide CanStep, Undelivered, Uncounted, Calling, CacheOK, WorkerOK;
    assert ClientAt(cfg, s, c);
    AllAsleep(s.workers, c);
    assert s.queue == [];
    match s.clients[c].phase
    case Failed => Possible(cfg, s, Collect(c));
    case WantCache => Possible(cfg, s, LockCache(c));
    case Enqueueing => QueueingCanStep(cfg, s, c);
    case Woken => Possible(cfg, s, Return(c));
    case Done => Possible(cfg, s, Collect(c));
    case _ =>
  }

  lemma {:induction false} AllAsleep(ws: seq<Worker>, c: nat)
    requires forall w: nat | w < |ws| :: ws[w] == Asleep
    ensures Undelivered(ws, c) == multiset{} && Uncounted(ws, c) == multiset{}
    decreases |ws|
  {
    if ws != [] {
      AllAsleep(ws[..|ws| - 1], c);
    }
  }

  // ----- What the cache holds -----

  /** How many bytes of data the cache holds. */
  function Held(cache: seq<Entry<Key, seq<byte>>>): nat {
    if cache == [] then 0 else Held(cache[..|cache| - 1]) + |cache[|cache| - 1].value|
  }

  /** Every entry weighs what its data does, all of them together no more than
      the capacity, and no key is there twice. */
  ghost predicate WithinLimit(cfg: Config, cache: seq<Entry<Key, seq<byte>>>) {
    && (forall e | e in cache :: e.weight == |e.value|) && Weight(cache) <= cfg.cacheMax && Distinct(Keys(cache))
  }

  lemma {:induction false} WeightIsHeld(cache: seq<Entry<Key, seq<byte>>>)
    requires forall e | e in cache :: e.weight == |e.value|
    ensures Weight(cache) == Held(cache)
    decreases |cache|
  {
    if cache != [] {
      WeightIsHeld(cache[..|cache| - 1]);
    }
  }

  lemma MovedWithin(cfg: Config, cache: seq<Entry<Key, seq<byte>>>, k: Key, cache': seq<Entry<Key, seq<byte>>>)
    requires WithinLimit(cfg, cache) && Moved(cache, k, cache')
    ensures WithinLimit(cfg, cache')
  {
    hide Weight, Distinct, Keys;
    var i: nat :| i < |cache| && cache[i].key == k && cache' == [cache[i]] + cache[..i] + cache[i + 1..];
    WeightToFront(cache, i);
    assert cache' == ToFront(cache, i);
    MovedDistinct(cache, i);
  }

  lemma MovedDistinct(cache: seq<Entry<Key, seq<byte>>>, i: nat)
    requires Distinct(Keys(cache)) && i < |cache|
    ensures Distinct(Keys(ToFront(cache, i)))
  {
    hide Distinct;
    FrontDistinct(Keys(cache), i);
    assert Keys(ToFront(cache, i)) == ToFront(Keys(cache), i);
  }

  lemma AdmittedWithin(cfg: Config, cache: seq<Entry<Key, seq<byte>>>, e: Entry<Key, seq<byte>>, cache': seq<Entry<Key, seq<byte>>>)
    requires WithinLimit(cfg, cache) && e.weight == |e.value| && e.key !in Keys(cache) && Admitted(cache, cfg.cacheMax, e, cache')
    ensures WithinLimit(cfg, cache')
  {
    hide Weight;
    var m: nat :| m <= |cache| && cache' == [e] + cache[..m] && e.weight + Weight(cache[..m]) <= cfg.cacheMax;
    WeightAppend([e], cache[..m]);
    OneWeight(e);
    assert Keys(cache') == [e.key] + Keys(cache)[..m];
  }

  lemma WithinStep(cfg: Config, s: State, step: Step)
    requires Enabled(cfg, s, step) && WithinLimit(cfg, s.cache)
    ensures WithinLimit(cfg, Do(cfg, s, step).cache)
  {
    hide WithinLimit, Add, Find, Moved, Admitted, IndexOf, Keys;
    match step
    case ScanHit(c) => FoundWithin(cfg, s.cache, KeyOf(cfg, s.clients[c], s.clients[c].it));
    case CheckHit(w) =>
      var job := s.workers[w].job;
      FoundWithin(cfg, s.cache, KeyOf(cfg, s.clients[job.client], job.block));
    case AddToCache(w) =>
      var job, data := s.workers[w].job, s.workers[w].data;
      var k := KeyOf(cfg, s.clients[job.client], job.block);
      AddExactly(s.cache, cfg.cacheMax, k, data, |data|);
      var cache' := Add(s.cache, cfg.cacheMax, k, data, |data|).es;
      if k in Keys(s.cache) {
        MovedWithin(cfg, s.cache, k, cache');
      } else if |data| <= cfg.cacheMax {
        AdmittedWithin(cfg, s.cache, Entry(k, data, |data|), cache');
      }
    case _ =>
  }

  lemma FoundWithin(cfg: Config, cache: seq<Entry<Key, seq<byte>>>, k: Key)
    requires WithinLimit(cfg, cache)
    ensures WithinLimit(cfg, Find(cache, k).es)
  {
    hide WithinLimit, Find, Moved, IndexOf, Keys;
    FindExactly(cache, k);
    if Find(cache, k).hit {
      MovedWithin(cfg, cache, k, Find(cache, k).es);
    }
  }

  lemma {:induction false} RunWithin(cfg: Config, s: State, steps: seq<Step>)
    requires WithinLimit(cfg, s.cache) && Runs(cfg, s, steps)
    ensures WithinLimit(cfg, RunTo(cfg, s, steps).cache)
    decreases |steps|
  {
    hide WithinLimit, Do, Enabled;
    if steps != [] {
      WithinStep(cfg, s, steps[0]);
      RunWithin(cfg, Do(cfg, s, steps[0]), steps[1..]);
    }
  }

  /** In every run, the data in the cache never exceeds its capacity, and no
      block is there twice. */
  lemma CacheWithinLimit(cfg: Config, s0: State, steps: seq<Step>)
    requires Initial(s0) && Runs(cfg, s0, steps)
    ensures var cache := RunTo(cfg, s0, steps).cache;
            && Held(cache) <= cfg.cacheMax && Distinct(Keys(cache))
            && forall e | e in cache :: e.weight == |e.value|
  {
    RunWithin(cfg, s0, steps);
    WeightIsHeld(RunTo(cfg, s0, steps).cache);
  }

  /** A block that has been decompressed and fits the cache is in it, in front,
      with its data; and for it just as much goes as must. */
  lemma AddedIsCached(cfg: Config, s: State, w: nat)
    requires Inv(cfg, s) && Enabled(cfg, s, AddToCache(w)) && |s.workers[w].data| <= cfg.cacheMax
    ensures var job, cache' := s.workers[w].job, Do(cfg, s, AddToCache(w)).cache;
            var k := KeyOf(cfg, s.clients[job.client], job.block);
            && cache' != [] && cache'[0].key == k && cache'[0].value == s.workers[w].data
            && (k !in Keys(s.cache) ==> Admitted(s.cache, cfg.cacheMax, Entry(k, s.workers[w].data, |s.workers[w].data|), cache'))
  {
    hide Queued, Undelivered, Uncounted, Calling, First, Last, Filled, OwnerOK, Range, Attended, Data, Add, IndexOf, Keys, Weight, GoodFile;
    var job, data := s.workers[w].job, s.workers[w].data;
    var k := KeyOf(cfg, s.clients[job.client], job.block);
    HeldJob(cfg, s, w);
    AddExactly(s.cache, cfg.cacheMax, k, data, |data|);
    if k in Keys(s.cache) {
      var i: nat :| i < |s.cache| && s.cache[i].key == k && Add(s.cache, cfg.cacheMax, k, data, |data|).es[0] == s.cache[i];
      assert s.cache[i] in s.cache;
    }
  }
}
