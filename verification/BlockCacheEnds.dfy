/** Every cached read ends: the work a read can cause is bounded by the blocks of
    its file, whatever the schedule, and threads only stop when all are done. */
module BlockCacheEnds {
  import opened Blocks
  import opened BlockCache
  import opened BlockCacheInv
  import opened BlockCacheRuns
  import opened Lookup
  import opened Lru
  import opened Wrappers

  /** The blocks a read may still have to look at. */
  function Ahead(cfg: Config, cl: Client): nat {
    var n := |FileOf(cfg, cl).blocks|;
    if cl.it < n then n - cl.it else 0
  }

  /** At most how many steps a call may still cause, apart from its queued jobs.
      A block costs most when it has to be queued. */
  function CallWork(cfg: Config, cl: Client): nat {
    match cl.phase
    case Idle => 0
    case Failed => 1
    case Done => 1
    case Woken => 2
    case Waiting => 3
    case Enqueueing => 4 + if cl.sent < |cl.need| then 12 * (|cl.need| - cl.sent) else 0
    case RaisingHit => 4 + 14 * Ahead(cfg, cl) + 12 * |cl.need|
    case Scanning => 5 + 14 * Ahead(cfg, cl) + 12 * |cl.need|
    case WantCache => 6 + 14 * Ahead(cfg, cl) + 12 * |cl.need|
  }

  function WorkerWork(w: Worker): nat {
    match w
    case Asleep => 0
    case Ready => 1
    case Finishing(_) => 3
    case RaisingNew(_) => 4
    case RaisingFound(_) => 4
    case Delivering(_, _) => 5
    case Adding(_, _) => 6
    case Decompressing(_) => 7
    case Checking(_) => 8
  }

  function CallsWork(cfg: Config, cls: seq<Client>): nat {
    if cls == [] then 0 else CallsWork(cfg, cls[..|cls| - 1]) + CallWork(cfg, cls[|cls| - 1])
  }

  function WorkersWork(ws: seq<Worker>): nat {
    if ws == [] then 0 else WorkersWork(ws[..|ws| - 1]) + WorkerWork(ws[|ws| - 1])
  }

  function Work(cfg: Config, s: State): nat {
    CallsWork(cfg, s.clients) + WorkersWork(s.workers) + 9 * |s.queue|
  }

  lemma {:induction false} CallChanges(cfg: Config, cls: seq<Client>, c: nat, now: Client)
    requires c < |cls|
    ensures CallsWork(cfg, cls[c := now]) == CallsWork(cfg, cls) - CallWork(cfg, cls[c]) + CallWork(cfg, now)
    decreases |cls|
  {
    hide CallWork;
    var n := |cls| - 1;
    if c < n {
      CallChanges(cfg, cls[..n], c, now);
      assert cls[c := now][..n] == cls[..n][c := now];
    } else {
      assert cls[c := now][..n] == cls[..n];
    }
  }

  lemma {:induction false} WorkerChanges(ws: seq<Worker>, w: nat, now: Worker)
    requires w < |ws|
    ensures WorkersWork(ws[w := now]) == WorkersWork(ws) - WorkerWork(ws[w]) + WorkerWork(now)
    decreases |ws|
  {
    hide WorkerWork;
    var n := |ws| - 1;
    if w < n {
      WorkerChanges(ws[..n], w, now);
      assert ws[w := now][..n] == ws[..n][w := now];
    } else {
      assert ws[w := now][..n] == ws[..n];
    }
  }

  predicate OfCaller(step: Step) {
    && !step.Enqueue? && !step.Sleep? && !step.Fetch? && !step.CheckHit? && !step.RaiseFound? && !step.CheckMiss?
    && !step.Decompress? && !step.AddToCache? && !step.Deliver? && !step.RaiseNew? && !step.Finish?
  }

  /** What a step adds to the work: only a new call adds any. */
  function Allowance(cfg: Config, step: Step): nat {
    match step
    case Begin(_, req, _) => 7 + 14 * if req.file < |cfg.files| then |cfg.files[req.file].blocks| else 0
    case _ => 0
  }

  lemma CallerShrinks(cfg: Config, s: State, step: Step)
    requires Enabled(cfg, s, step) && OfCaller(step)
    ensures Work(cfg, Do(cfg, s, step)) + 1 <= Work(cfg, s) + Allowance(cfg, step)
  {
    hide Search, Find, Copy, Hi, Cached, IndexOf, CallsWork, WorkersWork;
    CallChanges(cfg, s.clients, step.c, Do(cfg, s, step).clients[step.c]);
  }

  lemma EnqueueShrinks(cfg: Config, s: State, c: nat, wake: Option<nat>)
    requires Enabled(cfg, s, Enqueue(c, wake))
    ensures Work(cfg, Do(cfg, s, Enqueue(c, wake))) + 1 <= Work(cfg, s)
  {
    hide CallsWork, WorkersWork;
    CallChanges(cfg, s.clients, c, s.clients[c].(sent := s.clients[c].sent + 1));
    if wake.Some? {
      WorkerChanges(s.workers, wake.value, Ready);
    }
  }

  lemma QueueShrinks(cfg: Config, s: State, step: Step)
    requires Enabled(cfg, s, step) && (step.Sleep? || step.Fetch?)
    ensures Work(cfg, Do(cfg, s, step)) + 1 <= Work(cfg, s)
  {
    hide CallsWork, WorkersWork;
    WorkerChanges(s.workers, step.w, Do(cfg, s, step).workers[step.w]);
  }

  lemma JobShrinks(cfg: Config, s: State, s': State, w: nat, c: nat)
    requires w < |s.workers| == |s'.workers| && s'.workers == s.workers[w := s'.workers[w]] && s'.queue == s.queue
    requires c < |s.clients| == |s'.clients| && s'.clients == s.clients[c := s'.clients[c]]
    requires WorkerWork(s'.workers[w]) < WorkerWork(s.workers[w]) && CallWork(cfg, s'.clients[c]) <= CallWork(cfg, s.clients[c])
    ensures Work(cfg, s') + 1 <= Work(cfg, s)
  {
    hide CallsWork, WorkersWork, WorkerWork, CallWork;
    WorkerChanges(s.workers, w, s'.workers[w]);
    CallChanges(cfg, s.clients, c, s'.clients[c]);
  }

  lemma WorkerShrinks(cfg: Config, s: State, step: Step)
    requires Enabled(cfg, s, step) && !OfCaller(step) && !step.Enqueue? && !step.Sleep? && !step.Fetch?
    ensures Work(cfg, Do(cfg, s, step)) + 1 <= Work(cfg, s)
  {
    hide Find, Add, Copy, Hi, Cached, Work, IndexOf, Data;
    var s', w := Do(cfg, s, step), step.w;
    var c := s.workers[w].job.client;
    assert s'.clients == s.clients[c := s'.clients[c]];
    JobShrinks(cfg, s, s', w, c);
  }

  lemma StepShrinks(cfg: Config, s: State, step: Step)
    requires Enabled(cfg, s, step)
    ensures Work(cfg, Do(cfg, s, step)) + 1 <= Work(cfg, s) + Allowance(cfg, step)
  {
    hide Do, Enabled, Work;
    if OfCaller(step) {
      CallerShrinks(cfg, s, step);
    } else if step.Enqueue? {
      EnqueueShrinks(cfg, s, step.c, step.wake);
    } else if step.Sleep? || step.Fetch? {
      QueueShrinks(cfg, s, step);
    } else {
      WorkerShrinks(cfg, s, step);
    }
  }

  function Allowances(cfg: Config, steps: seq<Step>): nat {
    if steps == [] then 0 else Allowance(cfg, steps[0]) + Allowances(cfg, steps[1..])
  }

  /** No schedule goes on for ever: a run is at most as long as the work it
      started with and the work its new calls bring, fourteen steps a block. */
  lemma {:induction false} RunsEnd(cfg: Config, s: State, steps: seq<Step>)
    requires Runs(cfg, s, steps)
    ensures |steps| + Work(cfg, RunTo(cfg, s, steps)) <= Work(cfg, s) + Allowances(cfg, steps)
    decreases |steps|
  {
    hide Do, Enabled, Work, Allowance;
    if steps != [] {
      StepShrinks(cfg, s, steps[0]);
      RunsEnd(cfg, Do(cfg, s, steps[0]), steps[1..]);
    }
  }

  /** When no thread can go on, every call has returned. */
  lemma EveryCallReturns(cfg: Config, s0: State, steps: seq<Step>)
    requires GoodConfig(cfg) && Initial(s0) && Runs(cfg, s0, steps)
    requires !CanStep(cfg, RunTo(cfg, s0, steps))
    ensures forall c: nat | c < |RunTo(cfg, s0, steps).clients| :: RunTo(cfg, s0, steps).clients[c].phase == Idle
  {
    hide CanStep, Inv, Initial;
    InitialOK(cfg, s0);
    RunKeeps(cfg, s0, steps);
    forall c: nat | c < |RunTo(cfg, s0, steps).clients|
      ensures RunTo(cfg, s0, steps).clients[c].phase == Idle
    {
      if RunTo(cfg, s0, steps).clients[c].phase != Idle {
        NoDeadlock(cfg, RunTo(cfg, s0, steps), c);
      }
    }
  }
}
