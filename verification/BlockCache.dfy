/** Reading through the shared block cache (`OpenCompressedFile::read`,
    `BlockCache`, `ThreadPool`): any number of clients and workers, as a state
    machine over their steps. The critical sections of the pool's queue, of the
    callback mutex and of a worker's decrement block on nothing inside and are
    single steps; the cache mutex and a call's condition variable are held
    across steps. Jobs throw nothing, and only a signal wakes a waiting thread. */
module BlockCache {
  import opened Bits
  import opened Blocks
  import opened Lookup
  import opened Lru
  import opened Wrappers

  // ----- Files and requests -----

  datatype File = File(blocks: seq<Block>, content: seq<byte>)

  /** One past the largest `off_t`. */
  const OFF_END: nat := 0x8000_0000_0000_0000

  /** What the index builders guarantee. */
  ghost predicate GoodFile(f: File) {
    && Tiled(f.blocks, 0) && UncompressedSize(f.blocks) == |f.content| < OFF_END
    && (f.blocks != [] ==> f.blocks[0].usize != 0)
    && (forall i, j | 0 <= i < j < |f.blocks| :: f.blocks[i].coff != f.blocks[j].coff)
  }

  datatype Config = Config(files: seq<File>, cacheMax: nat)

  ghost predicate GoodConfig(cfg: Config) {
    forall f | f in cfg.files :: GoodFile(f)
  }

  datatype Request = Request(file: nat, offset: nat, size: nat)

  function End(req: Request): nat {
    req.offset + req.size
  }

  /** `decompressBlock`. */
  function Data(f: File, b: nat): seq<byte>
    requires b < |f.blocks|
  {
    var lo, hi := f.blocks[b].uoff, f.blocks[b].uoff + f.blocks[b].usize;
    if lo <= hi <= |f.content| then f.content[lo..hi] else []
  }

  datatype Key = Key(file: nat, offset: nat)

  // ----- Threads -----

  datatype Job = Job(client: nat, block: nat)

  datatype Phase =
    | Idle       // no call in progress
    | Failed     // findBlock threw
    | WantCache  // about to lock the cache
    | Scanning   // holds the cache: going through the blocks of the range
    | RaisingHit // holds the cache: has copied a cached block, about to raise max
    | Enqueueing // holds the condition variable: queueing jobs
    | Waiting    // in wait()
    | Woken      // signalled
    | Done       // about to return max - offset

  /** One call of `read`. `called` collects the blocks whose callback is complete. */
  datatype Client = Client(phase: Phase, req: Request, it: nat, need: seq<nat>, sent: nat, remain: int,
                           buf: seq<byte>, max: nat, called: multiset<nat>)

  datatype Worker =
    | Asleep                               // waiting for the queue
    | Ready                                // about to look at the queue
    | Checking(job: Job)                   // about to look in the cache
    | RaisingFound(job: Job)               // holds the cache: has copied, about to raise max
    | Decompressing(job: Job)
    | Adding(job: Job, data: seq<byte>)    // about to add to the cache
    | Delivering(job: Job, data: seq<byte>) // about to copy
    | RaisingNew(job: Job)                 // has copied, about to raise max
    | Finishing(job: Job)                  // about to decrement remain

  datatype Owner = Nobody | ByClient(c: nat) | ByWorker(w: nat)

  datatype State = State(cache: seq<Entry<Key, seq<byte>>>, owner: Owner, queue: seq<Job>,
                         clients: seq<Client>, workers: seq<Worker>)

  // ----- The callback -----

  function Lo(f: File, req: Request, b: nat): nat
    requires b < |f.blocks|
  {
    if req.offset < f.blocks[b].uoff then f.blocks[b].uoff else req.offset
  }

  function Hi(f: File, req: Request, b: nat): nat
    requires b < |f.blocks|
  {
    var end := f.blocks[b].uoff + f.blocks[b].usize;
    if End(req) < end then End(req) else end
  }

  /** The copy stays inside the block and inside the caller's buffer. */
  predicate InBounds(f: File, req: Request, b: nat, buf: seq<byte>, data: seq<byte>)
    requires b < |f.blocks|
  {
    && f.blocks[b].uoff <= Lo(f, req, b) <= Hi(f, req, b) <= f.blocks[b].uoff + |data|
    && req.offset <= Lo(f, req, b) && Hi(f, req, b) - req.offset <= |buf|
  }

  /** The memcpy. What it does out of bounds is of no interest: it never is. */
  function Copy(f: File, req: Request, b: nat, buf: seq<byte>, data: seq<byte>): seq<byte>
    requires b < |f.blocks|
  {
    if InBounds(f, req, b, buf, data) then
      var lo, hi, u := Lo(f, req, b), Hi(f, req, b), f.blocks[b].uoff;
      buf[..lo - req.offset] + data[lo - u..hi - u] + buf[hi - req.offset..]
    else []
  }

  // ----- Steps -----

  datatype Step =
    | Begin(c: nat, req: Request, buf: seq<byte>)
    | LockCache(c: nat)
    | ScanHit(c: nat)
    | RaiseHit(c: nat)
    | ScanMiss(c: nat)
    | ScanEnd(c: nat)
    | Enqueue(c: nat, wake: Option<nat>)
    | StartWait(c: nat)
    | Return(c: nat)
    | Collect(c: nat)
    | Sleep(w: nat)
    | Fetch(w: nat)
    | CheckHit(w: nat)
    | RaiseFound(w: nat)
    | CheckMiss(w: nat)
    | Decompress(w: nat)
    | AddToCache(w: nat)
    | Deliver(w: nat)
    | RaiseNew(w: nat)
    | Finish(w: nat)

  function FileOf(cfg: Config, cl: Client): File {
    if cl.req.file < |cfg.files| then cfg.files[cl.req.file] else File([], [])
  }

  /** The iterator stands at a block of the range. */
  predicate More(cfg: Config, cl: Client) {
    cl.it < |FileOf(cfg, cl).blocks| && FileOf(cfg, cl).blocks[cl.it].uoff < End(cl.req)
  }

  function KeyOf(cfg: Config, cl: Client, b: nat): Key {
    Key(cl.req.file, if b < |FileOf(cfg, cl).blocks| then FileOf(cfg, cl).blocks[b].coff else 0)
  }

  predicate Cached(cfg: Config, s: State, cl: Client, b: nat) {
    IndexOf(s.cache, KeyOf(cfg, cl, b)) < |s.cache|
  }

  predicate JobAt(cfg: Config, s: State, w: nat) {
    w < |s.workers| && !s.workers[w].Asleep? && !s.workers[w].Ready?
    && s.workers[w].job.client < |s.clients|
    && s.workers[w].job.block < |FileOf(cfg, s.clients[s.workers[w].job.client]).blocks|
  }

  /** A signal wakes a sleeping worker if there is one. */
  predicate MayWake(workers: seq<Worker>, wake: Option<nat>) {
    match wake
    case Some(w) => w < |workers| && workers[w] == Asleep
    case None => forall w | 0 <= w < |workers| :: workers[w] != Asleep
  }

  predicate Enabled(cfg: Config, s: State, step: Step) {
    match step
    case Begin(c, req, buf) =>
      c < |s.clients| && s.clients[c].phase == Idle && req.file < |cfg.files| && End(req) < OFF_END && |buf| == req.size
    case LockCache(c) => c < |s.clients| && s.clients[c].phase == WantCache && s.owner == Nobody
    case ScanHit(c) =>
      c < |s.clients| && s.clients[c].phase == Scanning && More(cfg, s.clients[c]) && Cached(cfg, s, s.clients[c], s.clients[c].it)
    case RaiseHit(c) => c < |s.clients| && s.clients[c].phase == RaisingHit && s.clients[c].it < |FileOf(cfg, s.clients[c]).blocks|
    case ScanMiss(c) =>
      c < |s.clients| && s.clients[c].phase == Scanning && More(cfg, s.clients[c]) && !Cached(cfg, s, s.clients[c], s.clients[c].it)
    case ScanEnd(c) => c < |s.clients| && s.clients[c].phase == Scanning && !More(cfg, s.clients[c])
    case Enqueue(c, wake) =>
      c < |s.clients| && s.clients[c].phase == Enqueueing && s.clients[c].sent < |s.clients[c].need| && MayWake(s.workers, wake)
    case StartWait(c) => c < |s.clients| && s.clients[c].phase == Enqueueing && s.clients[c].sent == |s.clients[c].need|
    case Return(c) => c < |s.clients| && s.clients[c].phase == Woken
    case Collect(c) => c < |s.clients| && (s.clients[c].phase == Done || s.clients[c].phase == Failed)
    case Sleep(w) => w < |s.workers| && s.workers[w] == Ready && s.queue == []
    case Fetch(w) => w < |s.workers| && s.workers[w] == Ready && s.queue != []
    case CheckHit(w) =>
      JobAt(cfg, s, w) && s.workers[w].Checking? && s.owner == Nobody
      && Cached(cfg, s, s.clients[s.workers[w].job.client], s.workers[w].job.block)
    case RaiseFound(w) => JobAt(cfg, s, w) && s.workers[w].RaisingFound?
    case CheckMiss(w) =>
      JobAt(cfg, s, w) && s.workers[w].Checking? && s.owner == Nobody
      && !Cached(cfg, s, s.clients[s.workers[w].job.client], s.workers[w].job.block)
    case Decompress(w) => JobAt(cfg, s, w) && s.workers[w].Decompressing?
    case AddToCache(w) => JobAt(cfg, s, w) && s.workers[w].Adding? && s.owner == Nobody
    case Deliver(w) => JobAt(cfg, s, w) && s.workers[w].Delivering?
    case RaiseNew(w) => JobAt(cfg, s, w) && s.workers[w].RaisingNew?
    case Finish(w) =>
      JobAt(cfg, s, w) && s.workers[w].Finishing? && s.clients[s.workers[w].job.client].phase != Enqueueing
  }

  function Raised(f: File, cl: Client, b: nat): Client
    requires b < |f.blocks|
  {
    cl.(max := if cl.max < Hi(f, cl.req, b) then Hi(f, cl.req, b) else cl.max, called := cl.called + multiset{b})
  }

  function Value(es: seq<Entry<Key, seq<byte>>>, k: Key): seq<byte>
    requires IndexOf(es, k) < |es|
  {
    es[IndexOf(es, k)].value
  }

  function Began(cfg: Config, req: Request, buf: seq<byte>): Client
    requires req.file < |cfg.files|
  {
    var bs := cfg.files[req.file].blocks;
    var i := Search(bs, req.offset, 0, |bs|);
    Client(if i < |bs| then WantCache else Failed, req, i, [], 0, 0, buf, req.offset, multiset{})
  }

  function Woke(workers: seq<Worker>, wake: Option<nat>): seq<Worker>
    requires wake.Some? ==> wake.value < |workers|
  {
    if wake.Some? then workers[wake.value := Ready] else workers
  }

  function Do(cfg: Config, s: State, step: Step): State
    requires Enabled(cfg, s, step)
  {
    match step
    case Begin(c, req, buf) => s.(clients := s.clients[c := Began(cfg, req, buf)])
    case LockCache(c) => s.(owner := ByClient(c), clients := s.clients[c := s.clients[c].(phase := Scanning)])
    case ScanHit(c) =>
      var cl := s.clients[c];
      var k := KeyOf(cfg, cl, cl.it);
      s.(cache := Find(s.cache, k).es,
         clients := s.clients[c := cl.(phase := RaisingHit, buf := Copy(FileOf(cfg, cl), cl.req, cl.it, cl.buf, Value(s.cache, k)))])
    case RaiseHit(c) =>
      var cl := s.clients[c];
      s.(clients := s.clients[c := Raised(FileOf(cfg, cl), cl, cl.it).(phase := Scanning, it := cl.it + 1)])
    case ScanMiss(c) =>
      var cl := s.clients[c];
      s.(clients := s.clients[c := cl.(need := cl.need + [cl.it], it := cl.it + 1)])
    case ScanEnd(c) =>
      var cl := s.clients[c];
      s.(owner := Nobody,
         clients := s.clients[c := if cl.need == [] then cl.(phase := Done) else cl.(phase := Enqueueing, remain := |cl.need|)])
    case Enqueue(c, wake) =>
      var cl := s.clients[c];
      s.(queue := s.queue + [Job(c, cl.need[cl.sent])], workers := Woke(s.workers, wake),
         clients := s.clients[c := cl.(sent := cl.sent + 1)])
    case StartWait(c) => s.(clients := s.clients[c := s.clients[c].(phase := Waiting)])
    case Return(c) => s.(clients := s.clients[c := s.clients[c].(phase := Done)])
    case Collect(c) => s.(clients := s.clients[c := s.clients[c].(phase := Idle)])
    case Sleep(w) => s.(workers := s.workers[w := Asleep])
    case Fetch(w) => s.(queue := s.queue[1..], workers := s.workers[w := Checking(s.queue[0])])
    case CheckHit(w) =>
      var job := s.workers[w].job;
      var cl := s.clients[job.client];
      var k := KeyOf(cfg, cl, job.block);
      s.(cache := Find(s.cache, k).es, owner := ByWorker(w), workers := s.workers[w := RaisingFound(job)],
         clients := s.clients[job.client := cl.(buf := Copy(FileOf(cfg, cl), cl.req, job.block, cl.buf, Value(s.cache, k)))])
    case RaiseFound(w) =>
      var job := s.workers[w].job;
      var cl := s.clients[job.client];
      s.(owner := Nobody, workers := s.workers[w := Finishing(job)],
         clients := s.clients[job.client := Raised(FileOf(cfg, cl), cl, job.block)])
    case CheckMiss(w) => s.(workers := s.workers[w := Decompressing(s.workers[w].job)])
    case Decompress(w) =>
      var job := s.workers[w].job;
      s.(workers := s.workers[w := Adding(job, Data(FileOf(cfg, s.clients[job.client]), job.block))])
    case AddToCache(w) =>
      var job, data := s.workers[w].job, s.workers[w].data;
      s.(cache := Add(s.cache, cfg.cacheMax, KeyOf(cfg, s.clients[job.client], job.block), data, |data|).es,
         workers := s.workers[w := Delivering(job, data)])
    case Deliver(w) =>
      var job, data := s.workers[w].job, s.workers[w].data;
      var cl := s.clients[job.client];
      s.(workers := s.workers[w := RaisingNew(job)],
         clients := s.clients[job.client := cl.(buf := Copy(FileOf(cfg, cl), cl.req, job.block, cl.buf, data))])
    case RaiseNew(w) =>
      var job := s.workers[w].job;
      var cl := s.clients[job.client];
      s.(workers := s.workers[w := Finishing(job)], clients := s.clients[job.client := Raised(FileOf(cfg, cl), cl, job.block)])
    case Finish(w) =>
      var job := s.workers[w].job;
      var cl := s.clients[job.client];
      s.(workers := s.workers[w := Ready],
         clients := s.clients[job.client :=
           cl.(remain := cl.remain - 1, phase := if cl.remain == 1 && cl.phase == Waiting then Woken else cl.phase)])
  }
}
