// The warm path of the pull-through mirror (mirror/proxy.go): on a manifest miss the
// proxy walks the manifest graph with pools of at most four workers, uploads what a
// manifest refers to, and only then PUTs the manifest into a registry that checks
// references.  Everything happens in one storage path of the writer.
//
// One call of warmAndPutManifest is a Frame; the goroutines it started are the workers
// of its pool; a worker that warms a child manifest holds the child's own Frame, so the
// running program is a tree.  Step performs one atomic action somewhere in that tree,
// and a Choice says which one and how the network answered.
module Warm {
  type Digest = string

  const FAN_OUT := 4

  // A parsed manifest body.  An absent descriptor has the empty digest.
  datatype Manifest =
    | Image(config: Digest, layers: seq<Digest>)
    | Index(children: seq<Digest>)
    | Unparsable

  // bodies: the one body each digest can name; served: the manifests upstream still
  // serves; sizes: the Content-Length of each blob upstream serves (0 or less: absent).
  datatype World = World(bodies: map<Digest, Manifest>, served: set<Digest>, sizes: map<Digest, int>)

  // What the writer holds under one storage path.
  datatype Store = Store(blobs: set<Digest>, manifests: set<Digest>, tags: map<string, Digest>)

  // What became of a frame's own PUT.  Callers only see it in the log: the call applied it, was
  // refused, failed, or was skipped because the pool had an error.
  datatype PutResult = Applied | Refused | Failed | Skipped

  datatype Pc = Loop | Put | Returned(put: PutResult) | Aborted
  datatype Frame = Frame(ref: string, body: Digest, next: nat, pool: seq<Worker>, err: bool, pc: Pc)
  datatype Worker = Worker(d: Digest, pc: WorkerPc)
  // Exited: finished without warming a manifest of its own; Left: finished after its frame
  // returned (whose own workers may still be running if the context was cancelled).
  datatype WorkerPc = Head | Fetch | Warming(frame: Frame) | Exited | Left(frame: Frame)

  // A fault may hide an effect that did take place (a lost reply).
  datatype Reply = Ok | Fault(applied: bool)
  datatype Choice =
    | Dispatch | Abort | Wait | PutNow(reply: Reply) | Work(i: nat, reply: Reply) | Inside(i: nat, sub: Choice)
  datatype Outcome = Stuck | Next(s: Store, f: Frame)
  datatype Effect = Blocked | Did(s: Store, pc: WorkerPc, failed: bool)

  // The descriptors warmAndPutManifest loops over, which are also the references the
  // registry checks.
  function Refs(m: Manifest): seq<Digest> {
    match m
    case Image(config, layers) => (if config != "" then [config] else []) + layers
    case Index(children) => children
    case Unparsable => []
  }

  predicate Has(s: Store, index: bool, d: Digest) {
    if index then d in s.manifests else d in s.blobs
  }

  // The registry's check on a manifest PUT.
  predicate Accepts(s: Store, m: Manifest) {
    !m.Unparsable? && forall r | r in Refs(m) :: Has(s, m.Index?, r)
  }

  function PutManifest(w: World, s: Store, ref: string, d: Digest): Store
    requires d in w.bodies
  {
    if Accepts(s, w.bodies[d]) then s.(manifests := s.manifests + {d}, tags := s.tags[ref := d]) else s
  }

  function PutResultOf(reply: Reply, accepted: bool): PutResult {
    if !reply.Ok? then Failed else if accepted then Applied else Refused
  }

  // uploadBlobFromUpstream can only succeed for a blob served with a positive length.
  predicate Uploadable(w: World, d: Digest) {
    d != "" && d in w.sizes && w.sizes[d] > 0
  }

  predicate Servable(w: World, d: Digest) {
    d in w.served && d in w.bodies && !w.bodies[d].Unparsable?
  }

  function Start(ref: string, d: Digest): Frame {
    Frame(ref, d, 0, [], false, Loop)
  }

  predicate Running(wk: Worker) { wk.pc.Head? || wk.pc.Fetch? || wk.pc.Warming? }

  function Busy(pool: seq<Worker>): nat {
    if pool == [] then 0 else Busy(pool[..|pool| - 1]) + if Running(pool[|pool| - 1]) then 1 else 0
  }

  // Taking the next descriptor: skipped when it has no digest, otherwise given a worker.
  function Dispatched(f: Frame, d: Digest): Frame {
    if d == "" then f.(next := f.next + 1) else f.(next := f.next + 1, pool := f.pool + [Worker(d, Head)])
  }

  // One atomic action of a frame or of something below it.
  function Step(w: World, cancelled: bool, s: Store, f: Frame, c: Choice): Outcome
    requires f.body in w.bodies
    decreases c
  {
    var m := w.bodies[f.body];
    match c
    case Dispatch =>
      if !f.pc.Loop? || f.next >= |Refs(m)| then Stuck
      else if Refs(m)[f.next] != "" && Busy(f.pool) >= FAN_OUT then Stuck
      else Next(s, Dispatched(f, Refs(m)[f.next]))
    case Abort =>
      if f.pc.Loop? && f.next < |Refs(m)| && Refs(m)[f.next] != "" && cancelled
      then Next(s, f.(pc := Aborted)) else Stuck
    case Wait =>
      if f.pc.Loop? && f.next >= |Refs(m)| && Busy(f.pool) == 0
      then Next(s, f.(pc := if f.err then Returned(Skipped) else Put)) else Stuck
    case PutNow(reply) =>
      if !f.pc.Put? then Stuck
      else Next(if reply == Fault(false) then s else PutManifest(w, s, f.ref, f.body),
                f.(pc := Returned(PutResultOf(reply, Accepts(s, m)))))
    case Work(i, reply) =>
      if i >= |f.pool| then Stuck
      else (match WorkerStep(w, s, m.Index?, f.pool[i], reply)
            case Blocked => Stuck
            case Did(s', pc, failed) => Next(s', SetPc(f, i, pc).(err := f.err || failed)))
    case Inside(i, sub) =>
      if i >= |f.pool| then Stuck
      else match f.pool[i].pc
        case Warming(g) =>
          if g.body !in w.bodies then Stuck
          else (match Step(w, cancelled, s, g, sub)
                case Stuck => Stuck
                case Next(s', g') => Next(s', SetPc(f, i, Warming(g'))))
        case Left(g) =>
          if g.body !in w.bodies then Stuck
          else (match Step(w, cancelled, s, g, sub)
                case Stuck => Stuck
                case Next(s', g') => Next(s', SetPc(f, i, Left(g'))))
        case _ => Stuck
  }

  function SetPc(f: Frame, i: nat, pc: WorkerPc): Frame
    requires i < |f.pool|
  {
    f.(pool := f.pool[i := f.pool[i].(pc := pc)])
  }

  // A worker's own action: the HEAD probe, then the fetch, then leaving the pool.  Only a
  // failed fetch is an error for the pool; a child warm that came back always counts as done.
  function WorkerStep(w: World, s: Store, index: bool, wk: Worker, reply: Reply): Effect {
    match wk.pc
    case Head => Did(s, if reply.Ok? && Has(s, index, wk.d) then Exited else Fetch, false)
    case Fetch =>
      if !index then
        Did(if Uploadable(w, wk.d) && reply != Fault(false) then s.(blobs := s.blobs + {wk.d}) else s,
            Exited, !(reply.Ok? && Uploadable(w, wk.d)))
      else if reply.Ok? && Servable(w, wk.d) then Did(s, Warming(Start(wk.d, wk.d)), false)
      else Did(s, Exited, true)
    case Warming(g) => if g.pc.Returned? || g.pc.Aborted? then Did(s, Left(g), false) else Blocked
    case _ => Blocked
  }

  // ---- invariants -------------------------------------------------------------------

  function Named(ds: seq<Digest>): seq<Digest> {
    if ds == [] then [] else Named(ds[..|ds| - 1]) + if ds[|ds| - 1] == "" then [] else [ds[|ds| - 1]]
  }

  function Digests(pool: seq<Worker>): seq<Digest> {
    seq(|pool|, i requires 0 <= i < |pool| => pool[i].d)
  }

  predicate Grows(s: Store, t: Store) {
    s.blobs <= t.blobs && s.manifests <= t.manifests && s.tags.Keys <= t.tags.Keys
  }

  // Growth by content that upstream really serves.
  ghost predicate Earned(w: World, s: Store, t: Store) {
    && Grows(s, t)
    && (forall d | d in t.manifests :: d in s.manifests || d in w.served)
    && (forall d | d in t.blobs :: d in s.blobs || Uploadable(w, d))
  }

  // Every stored manifest has everything it refers to beside it.
  ghost predicate StoreComplete(w: World, s: Store) {
    forall d | d in s.manifests :: d in w.bodies && Accepts(s, w.bodies[d])
  }

  ghost predicate Sound(w: World, cancelled: bool, s: Store, f: Frame)
    decreases f
  {
    && Servable(w, f.body)
    && f.next <= |Refs(w.bodies[f.body])|
    && Digests(f.pool) == Named(Refs(w.bodies[f.body])[..f.next])
    && Busy(f.pool) <= FAN_OUT
    && (f.pc.Put? || f.pc.Returned? ==> f.next == |Refs(w.bodies[f.body])| && Busy(f.pool) == 0)
    && (f.pc.Put? ==> !f.err)
    && (f.pc.Returned? ==> (f.pc.put.Skipped? <==> f.err))
    && (f.pc.Aborted? ==> cancelled)
    && (forall i | 0 <= i < |f.pool| :: WorkerSound(w, cancelled, s, w.bodies[f.body].Index?, f.err, f.pool[i]))
  }

  ghost predicate WorkerSound(w: World, cancelled: bool, s: Store, index: bool, err: bool, wk: Worker)
    decreases wk
  {
    && (wk.pc.Warming? || wk.pc.Left? ==> index)
    && (wk.pc.Exited? ==> err || Has(s, index, wk.d))
    && (wk.pc.Warming? || wk.pc.Left? ==>
          wk.pc.frame.body == wk.d && wk.pc.frame.ref == wk.d && Sound(w, cancelled, s, wk.pc.frame))
    && (wk.pc.Left? ==> wk.pc.frame.pc.Returned? || wk.pc.frame.pc.Aborted?)
  }

  lemma BusyZero(pool: seq<Worker>, i: nat)
    requires i < |pool| && Busy(pool) == 0
    ensures !Running(pool[i])
  {
    if i < |pool| - 1 { BusyZero(pool[..|pool| - 1], i); }
  }

  lemma BusyUpdate(pool: seq<Worker>, i: nat, wk: Worker)
    requires i < |pool|
    ensures Busy(pool[i := wk]) == Busy(pool) - (if Running(pool[i]) then 1 else 0) + (if Running(wk) then 1 else 0)
  {
    var p, q := pool[..|pool| - 1], pool[i := wk][..|pool| - 1];
    if i < |pool| - 1 {
      assert q == p[i := wk];
      BusyUpdate(p, i, wk);
    } else {
      assert q == p;
    }
  }

  // Invariants survive growth of the store and cancellation of the context.
  lemma SoundGrows(w: World, cancelled: bool, cancelled': bool, s: Store, t: Store, f: Frame)
    requires Sound(w, cancelled, s, f) && Grows(s, t) && (cancelled ==> cancelled')
    ensures Sound(w, cancelled', t, f)
    decreases f
  {
    forall i | 0 <= i < |f.pool|
      ensures WorkerSound(w, cancelled', t, w.bodies[f.body].Index?, f.err, f.pool[i])
    {
      var wk := f.pool[i];
      assert WorkerSound(w, cancelled, s, w.bodies[f.body].Index?, f.err, wk);
      if wk.pc.Warming? || wk.pc.Left? { SoundGrows(w, cancelled, cancelled', s, t, wk.pc.frame); }
    }
  }

  lemma ReplaceWorker(w: World, cancelled: bool, s: Store, t: Store, f: Frame, i: nat, pc: WorkerPc, err: bool)
    requires Sound(w, cancelled, s, f) && Grows(s, t) && i < |f.pool| && (f.err ==> err)
    requires WorkerSound(w, cancelled, t, w.bodies[f.body].Index?, err, Worker(f.pool[i].d, pc))
    requires Running(Worker(f.pool[i].d, pc)) ==> Running(f.pool[i])
    requires f.pc.Loop? || f.pc.Aborted? || err == f.err
    ensures Sound(w, cancelled, t, SetPc(f, i, pc).(err := err))
  {
    var g := SetPc(f, i, pc).(err := err);
    BusyUpdate(f.pool, i, Worker(f.pool[i].d, pc));
    assert Digests(g.pool) == Digests(f.pool);
    SoundGrows(w, cancelled, cancelled, s, t, f);
    forall j | 0 <= j < |g.pool|
      ensures WorkerSound(w, cancelled, t, w.bodies[f.body].Index?, g.err, g.pool[j])
    {
      if j != i { assert WorkerSound(w, cancelled, t, w.bodies[f.body].Index?, f.err, f.pool[j]); }
    }
  }

  lemma StartSound(w: World, cancelled: bool, s: Store, ref: string, d: Digest)
    requires Servable(w, d)
    ensures Sound(w, cancelled, s, Start(ref, d))
  {
    assert Refs(w.bodies[d])[..0] == [];
    assert Digests([]) == [];
  }

  lemma NamedStep(ds: seq<Digest>, n: nat)
    requires n < |ds|
    ensures Named(ds[..n + 1]) == Named(ds[..n]) + if ds[n] == "" then [] else [ds[n]]
  {
    assert ds[..n + 1][..n] == ds[..n];
  }

  lemma AddWorker(pool: seq<Worker>, d: Digest)
    ensures Digests(pool + [Worker(d, Head)]) == Digests(pool) + [d]
    ensures Busy(pool + [Worker(d, Head)]) == Busy(pool) + 1
  {
    assert (pool + [Worker(d, Head)])[..|pool|] == pool;
  }

  lemma DispatchSound(w: World, cancelled: bool, s: Store, f: Frame, d: Digest)
    requires Sound(w, cancelled, s, f) && f.pc.Loop? && f.next < |Refs(w.bodies[f.body])|
    requires Refs(w.bodies[f.body])[f.next] == d && (d == "" || Busy(f.pool) < FAN_OUT)
    ensures Sound(w, cancelled, s, Dispatched(f, d))
  {
    NamedStep(Refs(w.bodies[f.body]), f.next);
    if d != "" { AddWorker(f.pool, d); }
    DispatchedWorkers(w, cancelled, s, f, d);
  }

  lemma DispatchedWorkers(w: World, cancelled: bool, s: Store, f: Frame, d: Digest)
    requires Sound(w, cancelled, s, f)
    ensures forall j | 0 <= j < |Dispatched(f, d).pool| ::
              WorkerSound(w, cancelled, s, w.bodies[f.body].Index?, f.err, Dispatched(f, d).pool[j])
  {
    forall j | 0 <= j < |Dispatched(f, d).pool|
      ensures WorkerSound(w, cancelled, s, w.bodies[f.body].Index?, f.err, Dispatched(f, d).pool[j])
    {
      if j < |f.pool| { WorkerSoundAt(w, cancelled, s, f, j); }
    }
  }

  lemma SetPcSound(w: World, cancelled: bool, s: Store, f: Frame, pc: Pc)
    requires Sound(w, cancelled, s, f)
    requires pc.Put? || pc.Returned? ==> f.next == |Refs(w.bodies[f.body])| && Busy(f.pool) == 0
    requires (pc.Put? ==> !f.err) && (pc.Returned? ==> (pc.put.Skipped? <==> f.err)) && (pc.Aborted? ==> cancelled)
    ensures Sound(w, cancelled, s, f.(pc := pc))
  {
    var g := f.(pc := pc);
    forall j | 0 <= j < |g.pool| ensures WorkerSound(w, cancelled, s, w.bodies[f.body].Index?, g.err, g.pool[j]) {
      WorkerSoundAt(w, cancelled, s, f, j);
    }
  }

  lemma PutSound(w: World, cancelled: bool, s: Store, f: Frame, reply: Reply)
    requires Sound(w, cancelled, s, f) && f.pc.Put? && StoreComplete(w, s)
    ensures KeepsSound(w, cancelled, s, f, PutNow(reply))
  {
    var put := Returned(PutResultOf(reply, Accepts(s, w.bodies[f.body])));
    if reply == Fault(false) {
      SetPcSound(w, cancelled, s, f, put);
    } else {
      var t := PutManifest(w, s, f.ref, f.body);
      PutKeepsComplete(w, s, f.ref, f.body);
      SoundGrows(w, cancelled, cancelled, s, t, f);
      SetPcSound(w, cancelled, t, f, put);
    }
  }

  lemma WorkCaseSound(w: World, cancelled: bool, s: Store, f: Frame, i: nat, reply: Reply)
    requires Sound(w, cancelled, s, f) && StoreComplete(w, s)
    requires Step(w, cancelled, s, f, Work(i, reply)).Next?
    ensures KeepsSound(w, cancelled, s, f, Work(i, reply))
  {
    WorkerSoundAt(w, cancelled, s, f, i);
    WorkSound(w, cancelled, s, w.bodies[f.body].Index?, f.err, f.pool[i], reply);
    var e := WorkerStep(w, s, w.bodies[f.body].Index?, f.pool[i], reply);
    ReplaceWorker(w, cancelled, s, e.s, f, i, e.pc, f.err || e.failed);
  }

  // The same worker state around another frame.
  function Rewrap(pc: WorkerPc, g: Frame): WorkerPc
    requires pc.Warming? || pc.Left?
  {
    if pc.Warming? then Warming(g) else Left(g)
  }

  lemma InsideStep(w: World, cancelled: bool, s: Store, f: Frame, i: nat, sub: Choice)
    requires f.body in w.bodies && Step(w, cancelled, s, f, Inside(i, sub)).Next?
    ensures i < |f.pool| && (f.pool[i].pc.Warming? || f.pool[i].pc.Left?) && f.pool[i].pc.frame.body in w.bodies
    ensures var n := Step(w, cancelled, s, f.pool[i].pc.frame, sub);
            n.Next? && Step(w, cancelled, s, f, Inside(i, sub)) == Next(n.s, SetPc(f, i, Rewrap(f.pool[i].pc, n.f)))
  {}

  lemma InsideSound(w: World, cancelled: bool, s: Store, t: Store, f: Frame, i: nat, g: Frame)
    requires Sound(w, cancelled, s, f) && Grows(s, t)
    requires i < |f.pool| && (f.pool[i].pc.Warming? || f.pool[i].pc.Left?)
    requires Sound(w, cancelled, t, g) && g.body == f.pool[i].pc.frame.body && g.ref == f.pool[i].pc.frame.ref
    requires f.pool[i].pc.frame.pc.Returned? || f.pool[i].pc.frame.pc.Aborted? ==> g.pc == f.pool[i].pc.frame.pc
    ensures Sound(w, cancelled, t, SetPc(f, i, Rewrap(f.pool[i].pc, g)))
  {
    WorkerSoundAt(w, cancelled, s, f, i);
    var pc := Rewrap(f.pool[i].pc, g);
    ReplaceWorker(w, cancelled, s, t, f, i, pc, f.err);
    assert SetPc(f, i, pc) == SetPc(f, i, pc).(err := f.err);
  }

  // What one action keeps.
  ghost predicate KeepsSound(w: World, cancelled: bool, s: Store, f: Frame, c: Choice)
    requires f.body in w.bodies && Step(w, cancelled, s, f, c).Next?
  {
    var n := Step(w, cancelled, s, f, c);
    && Earned(w, s, n.s) && StoreComplete(w, n.s) && Sound(w, cancelled, n.s, n.f)
    && n.f.body == f.body && n.f.ref == f.ref
    && (f.pc.Returned? || f.pc.Aborted? ==> n.f.pc == f.pc)
  }

  // Every atomic action keeps the invariants, whatever the network answers.
  lemma {:induction false} StepSound(w: World, cancelled: bool, s: Store, f: Frame, c: Choice)
    requires Sound(w, cancelled, s, f) && StoreComplete(w, s)
    requires Step(w, cancelled, s, f, c).Next?
    ensures KeepsSound(w, cancelled, s, f, c)
    decreases c
  {
    match c
    case Dispatch => DispatchSound(w, cancelled, s, f, Refs(w.bodies[f.body])[f.next]);
    case Abort => SetPcSound(w, cancelled, s, f, Aborted);
    case Wait => SetPcSound(w, cancelled, s, f, if f.err then Returned(Skipped) else Put);
    case PutNow(reply) => PutSound(w, cancelled, s, f, reply);
    case Work(i, reply) => WorkCaseSound(w, cancelled, s, f, i, reply);
    case Inside(i, sub) =>
      InsideStep(w, cancelled, s, f, i, sub);
      WorkerSoundAt(w, cancelled, s, f, i);
      var g := f.pool[i].pc.frame;
      StepSound(w, cancelled, s, g, sub);
      var n := Step(w, cancelled, s, g, sub);
      InsideSound(w, cancelled, s, n.s, f, i, n.f);
  }

  lemma WorkerSoundAt(w: World, cancelled: bool, s: Store, f: Frame, i: nat)
    requires Sound(w, cancelled, s, f) && i < |f.pool|
    ensures WorkerSound(w, cancelled, s, w.bodies[f.body].Index?, f.err, f.pool[i])
    ensures f.pc.Put? || f.pc.Returned? ==> !Running(f.pool[i])
  {
    if f.pc.Put? || f.pc.Returned? { BusyZero(f.pool, i); }
  }

  lemma WorkSound(w: World, cancelled: bool, s: Store, index: bool, err: bool, wk: Worker, reply: Reply)
    requires WorkerSound(w, cancelled, s, index, err, wk) && StoreComplete(w, s)
    requires WorkerStep(w, s, index, wk, reply).Did?
    ensures var e := WorkerStep(w, s, index, wk, reply);
            && Earned(w, s, e.s) && StoreComplete(w, e.s) && Running(wk)
            && WorkerSound(w, cancelled, e.s, index, err || e.failed, Worker(wk.d, e.pc))
  {
    var e := WorkerStep(w, s, index, wk, reply);
    BlobsKeepComplete(w, s, e.s);
    if e.pc.Warming? { StartSound(w, cancelled, s, wk.d, wk.d); }
  }

  lemma BlobsKeepComplete(w: World, s: Store, t: Store)
    requires StoreComplete(w, s) && s.blobs <= t.blobs && t.manifests == s.manifests
    ensures StoreComplete(w, t)
  {
    forall d | d in t.manifests ensures d in w.bodies && Accepts(t, w.bodies[d]) {
      assert Accepts(s, w.bodies[d]);
    }
  }

  lemma PutKeepsComplete(w: World, s: Store, ref: string, d: Digest)
    requires d in w.bodies && StoreComplete(w, s)
    ensures StoreComplete(w, PutManifest(w, s, ref, d)) && Grows(s, PutManifest(w, s, ref, d))
  {
    var t := PutManifest(w, s, ref, d);
    forall e | e in t.manifests ensures e in w.bodies && Accepts(t, w.bodies[e]) {
      assert Accepts(s, w.bodies[e]);
    }
  }

  // ---- several requests warming one repository ---------------------------------------

  datatype Request = Request(cancelled: bool, frame: Frame)
  datatype System = System(store: Store, reqs: seq<Request>)
  // Upload is the blob path of another request (handleBlob) finishing an upload.
  datatype Event = Arrive(ref: string, d: Digest) | Cancel(r: nat) | Act(r: nat, c: Choice) | Upload(d: Digest)

  function SystemStep(w: World, y: System, e: Event): System
    requires forall q | q in y.reqs :: q.frame.body in w.bodies
  {
    match e
    case Arrive(ref, d) =>
      if Servable(w, d) then y.(reqs := y.reqs + [Request(false, Start(ref, d))]) else y
    case Cancel(r) =>
      if r < |y.reqs| then y.(reqs := y.reqs[r := y.reqs[r].(cancelled := true)]) else y
    case Upload(d) =>
      if Uploadable(w, d) then y.(store := y.store.(blobs := y.store.blobs + {d})) else y
    case Act(r, c) =>
      if r >= |y.reqs| then y
      else match Step(w, y.reqs[r].cancelled, y.store, y.reqs[r].frame, c)
           case Stuck => y
           case Next(s, f) => System(s, y.reqs[r := y.reqs[r].(frame := f)])
  }

  ghost predicate SystemSound(w: World, y: System) {
    && StoreComplete(w, y.store)
    && forall q | q in y.reqs :: q.frame.body in w.bodies && Sound(w, q.cancelled, y.store, q.frame)
  }

  lemma SystemStepSound(w: World, y: System, e: Event)
    requires SystemSound(w, y)
    ensures SystemSound(w, SystemStep(w, y, e)) && Earned(w, y.store, SystemStep(w, y, e).store)
  {
    var z := SystemStep(w, y, e);
    match e {
      case Arrive(ref, d) =>
        if |z.reqs| > |y.reqs| { StartSound(w, false, y.store, ref, d); }
      case Act(r, c) =>
        if r < |y.reqs| && Step(w, y.reqs[r].cancelled, y.store, y.reqs[r].frame, c).Next? {
          assert y.reqs[r] in y.reqs;
          StepSound(w, y.reqs[r].cancelled, y.store, y.reqs[r].frame, c);
        }
      case _ =>
    }
    if e.Upload? { BlobsKeepComplete(w, y.store, z.store); }
    forall q | q in z.reqs ensures q.frame.body in w.bodies && Sound(w, q.cancelled, z.store, q.frame) {
      var k :| 0 <= k < |z.reqs| && z.reqs[k] == q;
      if k < |y.reqs| {
        assert y.reqs[k] in y.reqs;
        if !(e.Act? && k == e.r) {
          SoundGrows(w, y.reqs[k].cancelled, q.cancelled, y.store, z.store, y.reqs[k].frame);
        }
      }
    }
  }

  // The state after a sequence of events, starting from a store and no requests.
  function Run(w: World, s0: Store, es: seq<Event>): (y: System)
    requires StoreComplete(w, s0)
    ensures SystemSound(w, y) && Earned(w, s0, y.store)
  {
    if es == [] then System(s0, [])
    else
      var y := Run(w, s0, es[..|es| - 1]);
      SystemStepSound(w, y, es[|es| - 1]);
      SystemStep(w, y, es[|es| - 1])
  }

  // ---- what every reachable state guarantees -----------------------------------------

  // g is f or the frame of a worker somewhere below f.
  ghost predicate Within(g: Frame, f: Frame)
    decreases f
  {
    g == f || exists i | 0 <= i < |f.pool| ::
      (f.pool[i].pc.Warming? || f.pool[i].pc.Left?) && Within(g, f.pool[i].pc.frame)
  }

  // No goroutine is left anywhere below f.
  ghost predicate Quiet(f: Frame)
    decreases f
  {
    && (f.pc.Returned? || f.pc.Aborted?)
    && forall i | 0 <= i < |f.pool| :: !Running(f.pool[i]) && (f.pool[i].pc.Left? ==> Quiet(f.pool[i].pc.frame))
  }

  lemma {:induction false} SoundWithin(w: World, cancelled: bool, s: Store, f: Frame, g: Frame)
    requires Sound(w, cancelled, s, f) && Within(g, f)
    ensures Sound(w, cancelled, s, g)
    decreases f
  {
    if g != f {
      var i :| 0 <= i < |f.pool| && (f.pool[i].pc.Warming? || f.pool[i].pc.Left?) && Within(g, f.pool[i].pc.frame);
      assert WorkerSound(w, cancelled, s, w.bodies[f.body].Index?, f.err, f.pool[i]);
      SoundWithin(w, cancelled, s, f.pool[i].pc.frame, g);
    }
  }

  lemma {:induction false} NamedHolds(ds: seq<Digest>, d: Digest)
    ensures d in Named(ds) <==> d in ds && d != ""
  {
    if ds != [] {
      NamedHolds(ds[..|ds| - 1], d);
      assert ds == ds[..|ds| - 1] + [ds[|ds| - 1]];
    }
  }

  lemma WorkerFor(w: World, cancelled: bool, s: Store, f: Frame, d: Digest) returns (i: nat)
    requires Sound(w, cancelled, s, f) && f.next == |Refs(w.bodies[f.body])|
    requires d in Refs(w.bodies[f.body]) && d != ""
    ensures i < |f.pool| && f.pool[i].d == d
    ensures WorkerSound(w, cancelled, s, w.bodies[f.body].Index?, f.err, f.pool[i])
  {
    var ds := Refs(w.bodies[f.body]);
    assert ds[..f.next] == ds;
    NamedHolds(ds, d);
    i :| 0 <= i < |f.pool| && Digests(f.pool)[i] == d;
    assert WorkerSound(w, cancelled, s, w.bodies[f.body].Index?, f.err, f.pool[i]);
  }

  // About to PUT: an image has its config and all its layers stored; an index has, for
  // every child, the child stored or a child warm that came back (perhaps unsuccessfully).
  lemma PutGuard(w: World, cancelled: bool, s: Store, f: Frame, d: Digest)
    requires Sound(w, cancelled, s, f) && f.pc.Put? && d in Refs(w.bodies[f.body]) && d != ""
    ensures w.bodies[f.body].Image? ==> d in s.blobs
    ensures w.bodies[f.body].Index? ==>
              d in s.manifests || exists i :: 0 <= i < |f.pool| && f.pool[i].d == d && f.pool[i].pc.Left?
  {
    var i := WorkerFor(w, cancelled, s, f, d);
    BusyZero(f.pool, i);
  }

  lemma {:induction false} ReturnedIsQuiet(w: World, s: Store, f: Frame)
    requires Sound(w, false, s, f) && f.pc.Returned?
    ensures Quiet(f)
    decreases f
  {
    forall i | 0 <= i < |f.pool|
      ensures !Running(f.pool[i]) && (f.pool[i].pc.Left? ==> Quiet(f.pool[i].pc.frame))
    {
      assert WorkerSound(w, false, s, w.bodies[f.body].Index?, f.err, f.pool[i]);
      BusyZero(f.pool, i);
      if f.pool[i].pc.Left? { ReturnedIsQuiet(w, s, f.pool[i].pc.frame); }
    }
  }

  // Under every interleaving, fault and cancellation: pools hold at most four workers, an
  // image is PUT only over its stored blobs, and a call whose context was not cancelled
  // returns only after every goroutine below it has finished.
  lemma WarmSafety(w: World, s0: Store, es: seq<Event>, r: nat, g: Frame)
    requires StoreComplete(w, s0) && r < |Run(w, s0, es).reqs| && Within(g, Run(w, s0, es).reqs[r].frame)
    ensures Busy(g.pool) <= FAN_OUT && g.body in w.bodies
    ensures g.pc.Put? && w.bodies[g.body].Image? ==>
              forall d | d in Refs(w.bodies[g.body]) && d != "" :: d in Run(w, s0, es).store.blobs
    ensures g.pc.Returned? && !Run(w, s0, es).reqs[r].cancelled ==> Quiet(g)
  {
    var y := Run(w, s0, es);
    assert y.reqs[r] in y.reqs;
    SoundWithin(w, y.reqs[r].cancelled, y.store, y.reqs[r].frame, g);
    if g.pc.Put? && w.bodies[g.body].Image? {
      forall d | d in Refs(w.bodies[g.body]) && d != "" ensures d in y.store.blobs {
        PutGuard(w, y.reqs[r].cancelled, y.store, g, d);
      }
    }
    if g.pc.Returned? && !y.reqs[r].cancelled { ReturnedIsQuiet(w, y.store, g); }
  }

  // ---- why a child can be missing at its index's PUT -----------------------------------

  // Something went wrong in this very frame: it was cancelled, one of its fetches or uploads
  // failed, its PUT call failed, or its manifest refers to an empty digest, which no registry has.
  ghost predicate Culprit(w: World, f: Frame) {
    f.body in w.bodies &&
    (f.pc.Aborted? || f.err || f.pc == Returned(Failed) || "" in Refs(w.bodies[f.body]))
  }

  ghost predicate Blamed(w: World, f: Frame)
    decreases f
  {
    Culprit(w, f) || exists i | 0 <= i < |f.pool| ::
      (f.pool[i].pc.Warming? || f.pool[i].pc.Left?) && Blamed(w, f.pool[i].pc.frame)
  }

  // Every frame that reports an applied PUT is stored; every other one that came back has a culprit
  // in it or below.
  ghost predicate Explained(w: World, s: Store, f: Frame)
    decreases f
  {
    && (f.pc == Returned(Applied) ==> f.body in s.manifests)
    && (f.pc.Returned? && f.pc.put != Applied ==> Blamed(w, f))
    && forall i | 0 <= i < |f.pool| :: WorkerExplained(w, s, f.pool[i])
  }

  ghost predicate WorkerExplained(w: World, s: Store, wk: Worker)
    decreases wk
  {
    wk.pc.Warming? || wk.pc.Left? ==> Explained(w, s, wk.pc.frame)
  }

  lemma {:induction false} ExplainedGrows(w: World, s: Store, t: Store, f: Frame)
    requires Explained(w, s, f) && Grows(s, t)
    ensures Explained(w, t, f)
    decreases f
  {
    forall i | 0 <= i < |f.pool|
      ensures WorkerExplained(w, t, f.pool[i])
    {
      assert WorkerExplained(w, s, f.pool[i]);
      if f.pool[i].pc.Warming? || f.pool[i].pc.Left? { ExplainedGrows(w, s, t, f.pool[i].pc.frame); }
    }
  }

  // A missing child of an index at its PUT: its warm came back without an applied PUT.
  lemma MissingChild(w: World, cancelled: bool, s: Store, f: Frame, d: Digest)
    requires Sound(w, cancelled, s, f) && Explained(w, s, f) && f.pc.Put? && w.bodies[f.body].Index?
    requires d in Refs(w.bodies[f.body]) && d != "" && d !in s.manifests
    ensures exists i :: 0 <= i < |f.pool| && f.pool[i].d == d && f.pool[i].pc.Left?
    ensures forall i | 0 <= i < |f.pool| && f.pool[i].d == d && f.pool[i].pc.Left? ::
              f.pool[i].pc.frame.pc != Returned(Applied) && Blamed(w, f.pool[i].pc.frame)
  {
    PutGuard(w, cancelled, s, f, d);
    forall i | 0 <= i < |f.pool| && f.pool[i].d == d && f.pool[i].pc.Left?
      ensures f.pool[i].pc.frame.pc != Returned(Applied) && Blamed(w, f.pool[i].pc.frame)
    {
      WorkerSoundAt(w, cancelled, s, f, i);
      assert WorkerExplained(w, s, f.pool[i]);
      var g := f.pool[i].pc.frame;
      assert g.body == d && Sound(w, cancelled, s, g) && Explained(w, s, g);
      if g.pc.Aborted? { assert Culprit(w, g); }
    }
  }

  lemma RefusedIsBlamed(w: World, cancelled: bool, s: Store, f: Frame)
    requires Sound(w, cancelled, s, f) && Explained(w, s, f) && f.pc.Put? && !Accepts(s, w.bodies[f.body])
    ensures Blamed(w, f)
  {
    var m := w.bodies[f.body];
    if "" !in Refs(m) {
      var r :| r in Refs(m) && !Has(s, m.Index?, r);
      PutGuard(w, cancelled, s, f, r);
      if m.Index? {
        MissingChild(w, cancelled, s, f, r);
        var i :| 0 <= i < |f.pool| && f.pool[i].d == r && f.pool[i].pc.Left?;
        assert Blamed(w, f.pool[i].pc.frame);
      }
    }
  }

  // The pool is the same and what is wrong stays wrong.
  lemma SamePoolBlamed(w: World, f: Frame, g: Frame)
    requires g.pool == f.pool && Blamed(w, f) && (Culprit(w, f) ==> Culprit(w, g))
    ensures Blamed(w, g)
  {
    if !Culprit(w, f) {
      var i :| 0 <= i < |f.pool| && (f.pool[i].pc.Warming? || f.pool[i].pc.Left?) && Blamed(w, f.pool[i].pc.frame);
      assert Blamed(w, g.pool[i].pc.frame);
    }
  }

  // A worker changed, and if it held a frame it holds one that is at least as much to blame.
  lemma ChangedWorkerBlamed(w: World, f: Frame, i: nat, pc: WorkerPc, err: bool)
    requires i < |f.pool| && (f.err ==> err) && Blamed(w, f)
    requires (f.pool[i].pc.Warming? || f.pool[i].pc.Left?) && Blamed(w, f.pool[i].pc.frame) ==>
               (pc.Warming? || pc.Left?) && Blamed(w, pc.frame)
    ensures Blamed(w, SetPc(f, i, pc).(err := err))
  {
    var g := SetPc(f, i, pc).(err := err);
    if Culprit(w, f) {
      assert Culprit(w, g);
    } else {
      var j :| 0 <= j < |f.pool| && (f.pool[j].pc.Warming? || f.pool[j].pc.Left?) && Blamed(w, f.pool[j].pc.frame);
      assert g.pool[j].pc == if j == i then pc else f.pool[j].pc;
      assert Blamed(w, g.pool[j].pc.frame);
    }
  }

  lemma DispatchedBlamed(w: World, f: Frame, d: Digest)
    requires Blamed(w, f)
    ensures Blamed(w, Dispatched(f, d))
  {
    var g := Dispatched(f, d);
    if Culprit(w, f) {
      assert Culprit(w, g);
    } else {
      var j :| 0 <= j < |f.pool| && (f.pool[j].pc.Warming? || f.pool[j].pc.Left?) && Blamed(w, f.pool[j].pc.frame);
      assert g.pool[j] == f.pool[j] && Blamed(w, g.pool[j].pc.frame);
    }
  }

  // Blame is never lifted.
  lemma {:induction false} StepKeepsBlame(w: World, cancelled: bool, s: Store, f: Frame, c: Choice)
    requires f.body in w.bodies && Step(w, cancelled, s, f, c).Next? && Blamed(w, f)
    ensures Blamed(w, Step(w, cancelled, s, f, c).f)
    decreases c
  {
    match c
    case Dispatch => DispatchedBlamed(w, f, Refs(w.bodies[f.body])[f.next]);
    case Abort => SamePoolBlamed(w, f, Step(w, cancelled, s, f, c).f);
    case Wait => SamePoolBlamed(w, f, Step(w, cancelled, s, f, c).f);
    case PutNow(reply) => SamePoolBlamed(w, f, Step(w, cancelled, s, f, c).f);
    case Work(i, reply) =>
      var e := WorkerStep(w, s, w.bodies[f.body].Index?, f.pool[i], reply);
      ChangedWorkerBlamed(w, f, i, e.pc, f.err || e.failed);
    case Inside(i, sub) =>
      InsideStep(w, cancelled, s, f, i, sub);
      var g := f.pool[i].pc.frame;
      if Blamed(w, g) { StepKeepsBlame(w, cancelled, s, g, sub); }
      var pc := Rewrap(f.pool[i].pc, Step(w, cancelled, s, g, sub).f);
      ChangedWorkerBlamed(w, f, i, pc, f.err);
      assert SetPc(f, i, pc) == SetPc(f, i, pc).(err := f.err);
  }

  lemma PutExplained(w: World, cancelled: bool, s: Store, f: Frame, reply: Reply)
    requires Sound(w, cancelled, s, f) && Explained(w, s, f) && f.pc.Put? && StoreComplete(w, s)
    ensures var n := Step(w, cancelled, s, f, PutNow(reply)); Explained(w, n.s, n.f)
  {
    var n := Step(w, cancelled, s, f, PutNow(reply));
    PutKeepsComplete(w, s, f.ref, f.body);
    ExplainedGrows(w, s, n.s, f);
    if n.f.pc == Returned(Refused) {
      RefusedIsBlamed(w, cancelled, s, f);
      SamePoolBlamed(w, f, n.f);
    }
    assert n.f.pc == Returned(Failed) ==> Culprit(w, n.f);
  }

  lemma ReplacedExplained(w: World, s: Store, t: Store, f: Frame, i: nat, pc: WorkerPc, err: bool)
    requires Explained(w, s, f) && Grows(s, t) && i < |f.pool|
    requires WorkerExplained(w, t, Worker(f.pool[i].d, pc))
    requires f.pc.Returned? && f.pc.put != Applied ==> Blamed(w, SetPc(f, i, pc).(err := err))
    ensures Explained(w, t, SetPc(f, i, pc).(err := err))
  {
    var g := SetPc(f, i, pc).(err := err);
    ExplainedGrows(w, s, t, f);
    forall j | 0 <= j < |g.pool|
      ensures WorkerExplained(w, t, g.pool[j])
    {
      if j != i { assert WorkerExplained(w, t, f.pool[j]); }
    }
  }

  lemma WorkExplained(w: World, cancelled: bool, s: Store, f: Frame, i: nat, reply: Reply)
    requires Sound(w, cancelled, s, f) && Explained(w, s, f) && StoreComplete(w, s)
    requires Step(w, cancelled, s, f, Work(i, reply)).Next?
    ensures var n := Step(w, cancelled, s, f, Work(i, reply)); Explained(w, n.s, n.f)
  {
    WorkerSoundAt(w, cancelled, s, f, i);
    WorkSound(w, cancelled, s, w.bodies[f.body].Index?, f.err, f.pool[i], reply);
    var e := WorkerStep(w, s, w.bodies[f.body].Index?, f.pool[i], reply);
    assert WorkerExplained(w, s, f.pool[i]);
    ReplacedExplained(w, s, e.s, f, i, e.pc, f.err || e.failed);
  }

  lemma {:induction false} StepExplained(w: World, cancelled: bool, s: Store, f: Frame, c: Choice)
    requires Sound(w, cancelled, s, f) && Explained(w, s, f) && StoreComplete(w, s)
    requires Step(w, cancelled, s, f, c).Next?
    ensures var n := Step(w, cancelled, s, f, c); Explained(w, n.s, n.f)
    decreases c
  {
    match c
    case Dispatch =>
      var g := Step(w, cancelled, s, f, c).f;
      forall j | 0 <= j < |g.pool|
        ensures WorkerExplained(w, s, g.pool[j])
      {
        if j < |f.pool| { assert WorkerExplained(w, s, f.pool[j]); }
      }
    case Abort => assert forall j | 0 <= j < |f.pool| :: WorkerExplained(w, s, f.pool[j]);
    case Wait =>
      var g := Step(w, cancelled, s, f, c).f;
      assert forall j | 0 <= j < |f.pool| :: WorkerExplained(w, s, f.pool[j]);
      assert f.err ==> Culprit(w, g);
    case PutNow(reply) => PutExplained(w, cancelled, s, f, reply);
    case Work(i, reply) => WorkExplained(w, cancelled, s, f, i, reply);
    case Inside(i, sub) =>
      InsideStep(w, cancelled, s, f, i, sub);
      WorkerSoundAt(w, cancelled, s, f, i);
      assert WorkerExplained(w, s, f.pool[i]);
      var g := f.pool[i].pc.frame;
      StepSound(w, cancelled, s, g, sub);
      StepExplained(w, cancelled, s, g, sub);
      var n := Step(w, cancelled, s, g, sub);
      var pc := Rewrap(f.pool[i].pc, n.f);
      assert SetPc(f, i, pc) == SetPc(f, i, pc).(err := f.err);
      if Blamed(w, f) { StepKeepsBlame(w, cancelled, s, f, c); }
      ReplacedExplained(w, s, n.s, f, i, pc, f.err);
  }

  lemma SystemStepExplained(w: World, y: System, e: Event)
    requires SystemSound(w, y) && forall q | q in y.reqs :: Explained(w, y.store, q.frame)
    ensures var z := SystemStep(w, y, e); forall q | q in z.reqs :: Explained(w, z.store, q.frame)
  {
    var z := SystemStep(w, y, e);
    SystemStepSound(w, y, e);
    forall q | q in z.reqs
      ensures Explained(w, z.store, q.frame)
    {
      var k :| 0 <= k < |z.reqs| && z.reqs[k] == q;
      if k < |y.reqs| {
        var q0 := y.reqs[k];
        assert q0 in y.reqs;
        if e.Act? && k == e.r && Step(w, q0.cancelled, y.store, q0.frame, e.c).Next? {
          StepExplained(w, q0.cancelled, y.store, q0.frame, e.c);
        } else {
          ExplainedGrows(w, y.store, z.store, q0.frame);
        }
      }
    }
  }

  lemma {:induction false} RunExplained(w: World, s0: Store, es: seq<Event>)
    requires StoreComplete(w, s0)
    ensures var y := Run(w, s0, es); forall q | q in y.reqs :: Explained(w, y.store, q.frame)
  {
    if es != [] {
      RunExplained(w, s0, es[..|es| - 1]);
      SystemStepExplained(w, Run(w, s0, es[..|es| - 1]), es[|es| - 1]);
    }
  }

  lemma {:induction false} ExplainedWithin(w: World, s: Store, f: Frame, g: Frame)
    requires Explained(w, s, f) && Within(g, f)
    ensures Explained(w, s, g)
    decreases f
  {
    if g != f {
      var i :| 0 <= i < |f.pool| && (f.pool[i].pc.Warming? || f.pool[i].pc.Left?) && Within(g, f.pool[i].pc.frame);
      assert WorkerExplained(w, s, f.pool[i]);
      ExplainedWithin(w, s, f.pool[i].pc.frame, g);
    }
  }

  // In every run, at its PUT an index has all its children stored if each child warm that came back
  // reports an applied PUT.  A missing child's warms came back without one, and each of them holds a
  // frame, its own or one below, in which something went wrong.
  lemma IndexPutIsComplete(w: World, s0: Store, es: seq<Event>, r: nat, g: Frame)
    requires StoreComplete(w, s0) && r < |Run(w, s0, es).reqs| && Within(g, Run(w, s0, es).reqs[r].frame)
    requires g.pc.Put? && g.body in w.bodies && w.bodies[g.body].Index?
    ensures (forall i | 0 <= i < |g.pool| && g.pool[i].pc.Left? :: g.pool[i].pc.frame.pc == Returned(Applied)) ==>
              forall d | d in Refs(w.bodies[g.body]) && d != "" :: d in Run(w, s0, es).store.manifests
    ensures forall d | d in Refs(w.bodies[g.body]) && d != "" && d !in Run(w, s0, es).store.manifests ::
              && (exists i :: 0 <= i < |g.pool| && g.pool[i].d == d && g.pool[i].pc.Left?)
              && (forall i | 0 <= i < |g.pool| && g.pool[i].d == d && g.pool[i].pc.Left? ::
                    g.pool[i].pc.frame.pc != Returned(Applied) && Blamed(w, g.pool[i].pc.frame))
  {
    var y := Run(w, s0, es);
    assert y.reqs[r] in y.reqs;
    SoundWithin(w, y.reqs[r].cancelled, y.store, y.reqs[r].frame, g);
    RunExplained(w, s0, es);
    ExplainedWithin(w, y.store, y.reqs[r].frame, g);
    forall d | d in Refs(w.bodies[g.body]) && d != "" && d !in y.store.manifests
      ensures exists i :: 0 <= i < |g.pool| && g.pool[i].d == d && g.pool[i].pc.Left?
      ensures forall i | 0 <= i < |g.pool| && g.pool[i].d == d && g.pool[i].pc.Left? ::
                g.pool[i].pc.frame.pc != Returned(Applied) && Blamed(w, g.pool[i].pc.frame)
    {
      MissingChild(w, y.reqs[r].cancelled, y.store, g, d);
    }
  }

  // The number of busy workers is the number of goroutines that have not left the pool.
  lemma {:induction false} BusyCounts(pool: seq<Worker>)
    ensures Busy(pool) == |set i | 0 <= i < |pool| && !pool[i].pc.Exited? && !pool[i].pc.Left?|
  {
    var all := set i | 0 <= i < |pool| && !pool[i].pc.Exited? && !pool[i].pc.Left?;
    if pool == [] {
      assert all == {};
    } else {
      var n := |pool| - 1;
      BusyCounts(pool[..n]);
      var before := set i | 0 <= i < n && !pool[..n][i].pc.Exited? && !pool[..n][i].pc.Left?;
      assert all == before + if Running(pool[n]) then {n} else {};
    }
  }

  // In the fields of the manifests.  Every frame of a run warms a parsed manifest that upstream serves,
  // with at most four goroutines in its pool.  At the PUT of an image its config, if it names one, and
  // every named layer are stored.
  lemma FrameInFields(w: World, s0: Store, es: seq<Event>, r: nat, g: Frame)
    requires StoreComplete(w, s0) && r < |Run(w, s0, es).reqs| && Within(g, Run(w, s0, es).reqs[r].frame)
    ensures g.body in w.served && g.body in w.bodies && w.bodies[g.body] != Unparsable
    ensures |set i | 0 <= i < |g.pool| && !g.pool[i].pc.Exited? && !g.pool[i].pc.Left?| <= 4
    ensures forall config, layers | g.pc.Put? && w.bodies[g.body] == Image(config, layers) ::
              && (config != "" ==> config in Run(w, s0, es).store.blobs)
              && (forall l | l in layers && l != "" :: l in Run(w, s0, es).store.blobs)
  {
    var y := Run(w, s0, es);
    assert y.reqs[r] in y.reqs;
    SoundWithin(w, y.reqs[r].cancelled, y.store, y.reqs[r].frame, g);
    WarmSafety(w, s0, es, r, g);
    BusyCounts(g.pool);
    forall config, layers | g.pc.Put? && w.bodies[g.body] == Image(config, layers)
      ensures config != "" ==> config in y.store.blobs
      ensures forall l | l in layers && l != "" :: l in y.store.blobs
    {
      assert config != "" ==> config in Refs(w.bodies[g.body]);
      assert forall l | l in layers :: l in Refs(w.bodies[g.body]);
    }
  }

  // A warm comes back without having tried its PUT exactly when one of its fetches or uploads failed.
  lemma SkippedExactly(w: World, s0: Store, es: seq<Event>, r: nat, g: Frame)
    requires StoreComplete(w, s0) && r < |Run(w, s0, es).reqs| && Within(g, Run(w, s0, es).reqs[r].frame)
    ensures g.pc.Returned? ==> (g.pc.put == Skipped <==> g.err)
  {
    var y := Run(w, s0, es);
    assert y.reqs[r] in y.reqs;
    SoundWithin(w, y.reqs[r].cancelled, y.store, y.reqs[r].frame, g);
  }

  // Standing before a reference, the loop goes on while fewer than four goroutines are busy, and gives
  // up only under a cancelled context; a reference without a name holds it up in neither way.
  lemma BeforeReference(w: World, cancelled: bool, s: Store, f: Frame, d: Digest)
    requires f.body in w.bodies && f.pc.Loop? && f.next < |Refs(w.bodies[f.body])|
    requires Refs(w.bodies[f.body])[f.next] == d
    ensures Step(w, cancelled, s, f, Dispatch).Next? <==>
            d == "" || |set i | 0 <= i < |f.pool| && !f.pool[i].pc.Exited? && !f.pool[i].pc.Left?| < 4
    ensures Step(w, cancelled, s, f, Abort).Next? <==> d != "" && cancelled
  {
    BusyCounts(f.pool);
  }

  // A lost reply hides what happened: the manifest may be stored and tagged though the PUT reports a
  // failure, the blob stored though its upload counts as failed.  A child manifest is not warmed then.
  lemma LostReplies(w: World, cancelled: bool, s: Store, f: Frame, i: nat)
    requires f.body in w.bodies
    ensures f.pc.Put? && Accepts(s, w.bodies[f.body]) ==>
              var n := Step(w, cancelled, s, f, PutNow(Fault(true)));
              && n.Next? && n.f.pc == Returned(Failed) && f.body in n.s.manifests
              && n.s.tags == s.tags[f.ref := f.body]
    ensures i < |f.pool| && f.pool[i].pc.Fetch? ==>
              var n, d := Step(w, cancelled, s, f, Work(i, Fault(true))), f.pool[i].d;
              && n.Next? && n.f.err && n.f.pool[i] == Worker(d, Exited) && n.s.manifests == s.manifests
              && (!w.bodies[f.body].Index? && d != "" && d in w.sizes && w.sizes[d] > 0 ==> d in n.s.blobs)
  {}

  ghost predicate Warms(y: System, ref: string, d: Digest) {
    exists r :: 0 <= r < |y.reqs| && y.reqs[r].frame.ref == ref && y.reqs[r].frame.body == d
  }

  predicate Arrived(w: World, es: seq<Event>, ref: string, d: Digest) {
    Arrive(ref, d) in es && d in w.served && d in w.bodies && w.bodies[d] != Unparsable
  }

  // The requests of a run are the arrivals whose manifest upstream serves and that parses.
  lemma {:induction false} RequestsAreArrivals(w: World, s0: Store, es: seq<Event>, ref: string, d: Digest)
    requires StoreComplete(w, s0)
    ensures Warms(Run(w, s0, es), ref, d) <==> Arrived(w, es, ref, d)
  {
    if es != [] {
      var before, e := es[..|es| - 1], es[|es| - 1];
      var y := Run(w, s0, before);
      RequestsAreArrivals(w, s0, before, ref, d);
      assert es == before + [e];
      StepKeepsRequests(w, y, e, ref, d);
    }
  }

  lemma StepKeepsRequests(w: World, y: System, e: Event, ref: string, d: Digest)
    requires SystemSound(w, y)
    ensures Warms(SystemStep(w, y, e), ref, d) <==> Warms(y, ref, d) || Arrived(w, [e], ref, d)
  {
    var z := SystemStep(w, y, e);
    forall r | 0 <= r < |y.reqs|
      ensures r < |z.reqs| && z.reqs[r].frame.ref == y.reqs[r].frame.ref
      ensures z.reqs[r].frame.body == y.reqs[r].frame.body
    {
      var q := y.reqs[r];
      assert q in y.reqs;
      if e.Act? && e.r == r && Step(w, q.cancelled, y.store, q.frame, e.c).Next? {
        StepSound(w, q.cancelled, y.store, q.frame, e.c);
      }
    }
    if Arrived(w, [e], ref, d) { assert z.reqs[|y.reqs|].frame == Start(ref, d); }
  }

  // An upload finished by another request is in the store from then on.
  lemma {:induction false} UploadsLand(w: World, s0: Store, es: seq<Event>, d: Digest)
    requires StoreComplete(w, s0) && Upload(d) in es && d != "" && d in w.sizes && w.sizes[d] > 0
    ensures d in Run(w, s0, es).store.blobs
  {
    var before, e := es[..|es| - 1], es[|es| - 1];
    assert es == before + [e];
    SystemStepSound(w, Run(w, s0, before), e);
    if Upload(d) in before { UploadsLand(w, s0, before, d); }
  }

  // Every manifest that the store ever holds parses; an image has its config, if it names one, and all
  // its layers beside it, an index all its children.  What a run adds was served upstream, blobs with a
  // positive length, and every tag names a stored manifest.
  lemma {:induction false} StoreInFields(w: World, s0: Store, es: seq<Event>, d: Digest)
    requires StoreComplete(w, s0)
    ensures var s := Run(w, s0, es).store;
            d in s.manifests ==>
              && d in w.bodies && w.bodies[d] != Unparsable && (d in s0.manifests || d in w.served)
              && (forall config, layers | w.bodies[d] == Image(config, layers) ::
                    (config != "" ==> config in s.blobs) && forall l | l in layers :: l in s.blobs)
              && (forall children | w.bodies[d] == Index(children) :: forall c | c in children :: c in s.manifests)
    ensures d in Run(w, s0, es).store.blobs ==> d in s0.blobs || (d != "" && d in w.sizes && w.sizes[d] > 0)
  {
    var s := Run(w, s0, es).store;
    if d in s.manifests {
      assert Accepts(s, w.bodies[d]);
      var m := w.bodies[d];
      assert forall r | r in Refs(m) :: Has(s, m.Index?, r);
      match m {
        case Image(config, layers) =>
          assert config != "" ==> config in Refs(m);
          assert forall l | l in layers :: l in Refs(m);
        case Index(children) => assert forall c | c in children :: c in Refs(m) && Has(s, true, c);
        case Unparsable =>
      }
    }
  }

  ghost predicate TagsStored(s: Store) { forall t | t in s.tags :: s.tags[t] in s.manifests }

  lemma {:induction false} StepKeepsTags(w: World, cancelled: bool, s: Store, f: Frame, c: Choice)
    requires f.body in w.bodies && TagsStored(s) && Step(w, cancelled, s, f, c).Next?
    ensures TagsStored(Step(w, cancelled, s, f, c).s)
    decreases c
  {
    if c.Inside? {
      InsideStep(w, cancelled, s, f, c.i, c.sub);
      StepKeepsTags(w, cancelled, s, f.pool[c.i].pc.frame, c.sub);
    }
  }

  lemma {:induction false} RunKeepsTags(w: World, s0: Store, es: seq<Event>)
    requires StoreComplete(w, s0) && TagsStored(s0)
    ensures TagsStored(Run(w, s0, es).store)
  {
    if es != [] {
      var y, e := Run(w, s0, es[..|es| - 1]), es[|es| - 1];
      RunKeepsTags(w, s0, es[..|es| - 1]);
      if e.Act? && e.r < |y.reqs| && Step(w, y.reqs[e.r].cancelled, y.store, y.reqs[e.r].frame, e.c).Next? {
        StepKeepsTags(w, y.reqs[e.r].cancelled, y.store, y.reqs[e.r].frame, e.c);
      }
    }
  }

  // A PUT answered with success names its reference after the manifest, and only such a one reports it.
  lemma PutNames(w: World, cancelled: bool, s: Store, f: Frame, reply: Reply)
    requires f.body in w.bodies && f.pc.Put?
    ensures var n := Step(w, cancelled, s, f, PutNow(reply));
            && n.Next? && n.f.pc.Returned? && n.s.blobs == s.blobs
            && (n.f.pc.put.Applied? ==> reply.Ok? && n.s.tags == s.tags[f.ref := f.body] && f.body in n.s.manifests)
            && (!n.f.pc.put.Applied? && reply != Fault(true) ==> n.s == s)
  {}

  // A worker whose probe finds its item stored leaves without fetching it; any other probe fetches.
  lemma ProbeSkips(w: World, s: Store, d: Digest, index: bool, reply: Reply)
    ensures WorkerStep(w, s, index, Worker(d, Head), reply) ==
            Did(s, if reply.Ok? && (if index then d in s.manifests else d in s.blobs) then Exited else Fetch, false)
  {}

  // A descent through index children.
  ghost predicate Chain(w: World, path: seq<Digest>)
    decreases |path|
  {
    path != [] && (|path| == 1 ||
      var p := path[..|path| - 1];
      Chain(w, p) && p[|p| - 1] in w.bodies && w.bodies[p[|p| - 1]].Index?
      && path[|path| - 1] in w.bodies[p[|p| - 1]].children)
  }

  // Everything reachable from a stored manifest is stored, in every reachable state.
  lemma {:induction false} StoredIsTransitivelyComplete(w: World, s0: Store, es: seq<Event>, path: seq<Digest>)
    requires StoreComplete(w, s0) && Chain(w, path) && path[0] in Run(w, s0, es).store.manifests
    ensures var s := Run(w, s0, es).store; var d := path[|path| - 1];
            && d in s.manifests && d in w.bodies
            && forall r | r in Refs(w.bodies[d]) :: Has(s, w.bodies[d].Index?, r)
    decreases |path|
  {
    var s := Run(w, s0, es).store;
    if |path| > 1 {
      var p := path[..|path| - 1];
      StoredIsTransitivelyComplete(w, s0, es, p);
      assert path[|path| - 1] in Refs(w.bodies[p[|p| - 1]]);
      assert Has(s, true, path[|path| - 1]);
    }
    var d := path[|path| - 1];
    assert d in s.manifests;
    assert Accepts(s, w.bodies[d]);
  }

  // ---- completeness without faults ---------------------------------------------------

  ghost predicate Clean(c: Choice) {
    match c
    case PutNow(reply) => reply.Ok?
    case Work(_, reply) => reply.Ok?
    case Inside(_, sub) => Clean(sub)
    case Abort => false
    case _ => true
  }

  // Nothing goes wrong for request r; the others may meet any fault.
  ghost predicate CleanRun(es: seq<Event>, r: nat) {
    forall e | e in es :: !(e.Cancel? && e.r == r) && (e.Act? && e.r == r ==> Clean(e.c))
  }

  // The empty digest names nothing.
  ghost predicate WellNamed(w: World, s0: Store) {
    "" !in w.bodies && "" !in s0.blobs && StoreComplete(w, s0)
  }

  ghost predicate Obtainable(w: World, s0: Store, K: set<Digest>, index: bool, r: Digest) {
    if index then r in s0.manifests || (r in K && r in w.served) else r in s0.blobs || Uploadable(w, r)
  }

  // A blob that the store has or upstream serves with a positive length.
  predicate BlobAtHand(w: World, s0: Store, d: Digest) {
    d in s0.blobs || (d != "" && d in w.sizes && w.sizes[d] > 0)
  }

  // The manifest d parses, and all it needs is in K, in the store or upstream: an image its config, if
  // it names one, and every layer; an index every child.
  ghost predicate ClosedAt(w: World, s0: Store, K: set<Digest>, d: Digest) {
    d in w.bodies &&
    match w.bodies[d]
    case Image(config, layers) =>
      (config != "" ==> BlobAtHand(w, s0, config)) && forall l | l in layers :: BlobAtHand(w, s0, l)
    case Index(children) => forall c | c in children :: c in s0.manifests || (c in K && c in w.served)
    case Unparsable => false
  }

  // K is a set of manifests each of which has all it needs in K, in the store or upstream.
  ghost predicate Closed(w: World, s0: Store, K: set<Digest>) {
    forall d | d in K :: ClosedAt(w, s0, K, d)
  }

  // In terms of the references that the workers loop over and the registry checks.
  lemma ClosedByRefs(w: World, s0: Store, K: set<Digest>, d: Digest)
    ensures ClosedAt(w, s0, K, d) <==> d in w.bodies && !w.bodies[d].Unparsable? &&
                                       forall r | r in Refs(w.bodies[d]) :: Obtainable(w, s0, K, w.bodies[d].Index?, r)
  {
    if d in w.bodies {
      var m := w.bodies[d];
      match m {
        case Image(config, layers) =>
          assert forall l :: l in Refs(m) <==> (l == config && l != "") || l in layers;
          assert config != "" ==> config in Refs(m);
          assert forall l :: Obtainable(w, s0, K, false, l) <==> BlobAtHand(w, s0, l);
        case Index(children) =>
          assert Refs(m) == children;
          assert forall c :: Obtainable(w, s0, K, true, c) <==> c in s0.manifests || (c in K && c in w.served);
        case Unparsable =>
      }
    }
  }

  ghost predicate Cacheable(w: World, s0: Store, d: Digest) {
    exists K: set<Digest> :: d in K && Closed(w, s0, K)
  }

  // A frame of a fault-free warm of a manifest in K.
  ghost predicate Kept(w: World, K: set<Digest>, s0: Store, s: Store, f: Frame)
    decreases f
  {
    && f.body in K && f.body in w.bodies && !f.err && !f.pc.Aborted?
    && (f.pc.Returned? ==> f.pc.put.Applied? && f.body in s.manifests && f.ref in s.tags)
    && forall i | 0 <= i < |f.pool| :: WorkerKept(w, K, s0, s, w.bodies[f.body].Index?, f.pool[i])
  }

  ghost predicate WorkerKept(w: World, K: set<Digest>, s0: Store, s: Store, index: bool, wk: Worker)
    decreases wk
  {
    && Obtainable(w, s0, K, index, wk.d)
    && (wk.pc.Fetch? ==> !Has(s0, index, wk.d))
    && (wk.pc.Warming? || wk.pc.Left? ==> Kept(w, K, s0, s, wk.pc.frame))
  }

  lemma {:induction false} KeptGrows(w: World, K: set<Digest>, s0: Store, s: Store, t: Store, f: Frame)
    requires Kept(w, K, s0, s, f) && Grows(s, t)
    ensures Kept(w, K, s0, t, f)
    decreases f
  {
    forall i | 0 <= i < |f.pool| ensures WorkerKept(w, K, s0, t, w.bodies[f.body].Index?, f.pool[i]) {
      assert WorkerKept(w, K, s0, s, w.bodies[f.body].Index?, f.pool[i]);
      if f.pool[i].pc.Warming? || f.pool[i].pc.Left? { KeptGrows(w, K, s0, s, t, f.pool[i].pc.frame); }
    }
  }

  // No PUT of a kept frame is refused.
  lemma KeptPutAccepted(w: World, K: set<Digest>, s0: Store, s: Store, f: Frame)
    requires WellNamed(w, s0) && Closed(w, s0, K) && Grows(s0, s)
    requires Sound(w, false, s, f) && Kept(w, K, s0, s, f) && f.pc.Put?
    ensures Accepts(s, w.bodies[f.body])
  {
    var index := w.bodies[f.body].Index?;
    ClosedByRefs(w, s0, K, f.body);
    forall r | r in Refs(w.bodies[f.body]) ensures Has(s, index, r) {
      assert Obtainable(w, s0, K, index, r);
      if !Has(s0, index, r) {
        assert r != "" by { if index { assert r in w.bodies; } }
        PutGuard(w, false, s, f, r);
        if index && exists i :: 0 <= i < |f.pool| && f.pool[i].d == r && f.pool[i].pc.Left? {
          var i :| 0 <= i < |f.pool| && f.pool[i].d == r && f.pool[i].pc.Left?;
          assert WorkerSound(w, false, s, index, f.err, f.pool[i]);
          assert WorkerKept(w, K, s0, s, index, f.pool[i]);
          assert Kept(w, K, s0, s, f.pool[i].pc.frame);
        }
      }
    }
  }

  lemma ReplaceKept(w: World, K: set<Digest>, s0: Store, s: Store, t: Store, f: Frame, i: nat, pc: WorkerPc)
    requires Kept(w, K, s0, s, f) && Grows(s, t) && i < |f.pool|
    requires WorkerKept(w, K, s0, t, w.bodies[f.body].Index?, Worker(f.pool[i].d, pc))
    ensures Kept(w, K, s0, t, SetPc(f, i, pc))
  {
    KeptGrows(w, K, s0, s, t, f);
    var g := SetPc(f, i, pc);
    forall j | 0 <= j < |g.pool| ensures WorkerKept(w, K, s0, t, w.bodies[f.body].Index?, g.pool[j]) {
      if j != i { assert WorkerKept(w, K, s0, t, w.bodies[f.body].Index?, f.pool[j]); }
    }
  }

  lemma {:induction false} StepKept(w: World, K: set<Digest>, s0: Store, s: Store, f: Frame, c: Choice)
    requires WellNamed(w, s0) && Closed(w, s0, K) && Grows(s0, s) && StoreComplete(w, s)
    requires Sound(w, false, s, f) && Kept(w, K, s0, s, f) && Clean(c)
    requires Step(w, false, s, f, c).Next?
    ensures Kept(w, K, s0, Step(w, false, s, f, c).s, Step(w, false, s, f, c).f)
    decreases c
  {
    var index := w.bodies[f.body].Index?;
    match c
    case Dispatch =>
      var g := Step(w, false, s, f, c).f;
      ClosedByRefs(w, s0, K, f.body);
      forall j | 0 <= j < |g.pool| ensures WorkerKept(w, K, s0, s, index, g.pool[j]) {
        if j < |f.pool| { assert WorkerKept(w, K, s0, s, index, f.pool[j]); }
        else { assert Obtainable(w, s0, K, index, Refs(w.bodies[f.body])[f.next]); }
      }
    case Abort => assert false;
    case Wait =>
    case PutNow(reply) =>
      KeptPutAccepted(w, K, s0, s, f);
      KeptGrows(w, K, s0, s, Step(w, false, s, f, c).s, f);
    case Work(i, reply) =>
      WorkerSoundAt(w, false, s, f, i);
      WorkKept(w, K, s0, s, index, f.pool[i], reply);
      var e := WorkerStep(w, s, index, f.pool[i], reply);
      ReplaceKept(w, K, s0, s, e.s, f, i, e.pc);
      assert SetPc(f, i, e.pc) == SetPc(f, i, e.pc).(err := f.err || e.failed);
    case Inside(i, sub) =>
      WorkerSoundAt(w, false, s, f, i);
      assert WorkerKept(w, K, s0, s, index, f.pool[i]);
      var g := f.pool[i].pc.frame;
      StepSound(w, false, s, g, sub);
      StepKept(w, K, s0, s, g, sub);
      var n := Step(w, false, s, g, sub);
      ReplaceKept(w, K, s0, s, n.s, f, i, if f.pool[i].pc.Warming? then Warming(n.f) else Left(n.f));
  }

  lemma WorkKept(w: World, K: set<Digest>, s0: Store, s: Store, index: bool, wk: Worker, reply: Reply)
    requires Closed(w, s0, K) && Grows(s0, s) && WorkerKept(w, K, s0, s, index, wk)
    requires reply.Ok? && WorkerStep(w, s, index, wk, reply).Did?
    ensures var e := WorkerStep(w, s, index, wk, reply);
            !e.failed && WorkerKept(w, K, s0, e.s, index, Worker(wk.d, e.pc)) && Grows(s, e.s)
  {
  }

  lemma SystemStepKept(w: World, K: set<Digest>, s0: Store, y: System, e: Event, r: nat)
    requires WellNamed(w, s0) && Closed(w, s0, K) && Grows(s0, y.store) && SystemSound(w, y)
    requires r < |y.reqs| && !y.reqs[r].cancelled && Kept(w, K, s0, y.store, y.reqs[r].frame)
    requires !(e.Cancel? && e.r == r) && (e.Act? && e.r == r ==> Clean(e.c))
    ensures var z := SystemStep(w, y, e);
            r < |z.reqs| && !z.reqs[r].cancelled && Kept(w, K, s0, z.store, z.reqs[r].frame)
  {
    assert y.reqs[r] in y.reqs;
    var f := y.reqs[r].frame;
    if e.Act? && e.r == r {
      if Step(w, false, y.store, f, e.c).Next? { StepKept(w, K, s0, y.store, f, e.c); }
    } else {
      SystemStepSound(w, y, e);
      KeptGrows(w, K, s0, y.store, SystemStep(w, y, e).store, f);
    }
  }

  lemma {:induction false} RunKept(w: World, s0: Store, K: set<Digest>, es: seq<Event>, r: nat)
    requires WellNamed(w, s0) && Closed(w, s0, K) && CleanRun(es, r)
    requires r < |Run(w, s0, es).reqs| && Run(w, s0, es).reqs[r].frame.body in K
    ensures !Run(w, s0, es).reqs[r].cancelled
    ensures Kept(w, K, s0, Run(w, s0, es).store, Run(w, s0, es).reqs[r].frame)
  {
    var before, e := es[..|es| - 1], es[|es| - 1];
    var y := Run(w, s0, before);
    assert e in es && CleanRun(before, r);
    if r < |y.reqs| {
      SameRoot(w, y, e, r);
      RunKept(w, s0, K, before, r);
      SystemStepKept(w, K, s0, y, e, r);
    }
  }

  lemma SameRoot(w: World, y: System, e: Event, r: nat)
    requires SystemSound(w, y) && r < |y.reqs|
    ensures var z := SystemStep(w, y, e); r < |z.reqs| && z.reqs[r].frame.body == y.reqs[r].frame.body
  {
    assert y.reqs[r] in y.reqs;
    if e.Act? && e.r == r && Step(w, y.reqs[r].cancelled, y.store, y.reqs[r].frame, e.c).Next? {
      StepSound(w, y.reqs[r].cancelled, y.store, y.reqs[r].frame, e.c);
    }
  }

  // Some fault-free action is enabled in every frame that is not finished: no deadlock.
  lemma {:induction false} Progress(w: World, cancelled: bool, s: Store, f: Frame) returns (c: Choice)
    requires Sound(w, cancelled, s, f) && !Quiet(f)
    ensures Clean(c) && Step(w, cancelled, s, f, c).Next?
    decreases f
  {
    if exists i :: 0 <= i < |f.pool| && (Running(f.pool[i]) || (f.pool[i].pc.Left? && !Quiet(f.pool[i].pc.frame))) {
      var i :| 0 <= i < |f.pool| && (Running(f.pool[i]) || (f.pool[i].pc.Left? && !Quiet(f.pool[i].pc.frame)));
      assert WorkerSound(w, cancelled, s, w.bodies[f.body].Index?, f.err, f.pool[i]);
      if f.pool[i].pc.Head? || f.pool[i].pc.Fetch?
         || (f.pool[i].pc.Warming? && (f.pool[i].pc.frame.pc.Returned? || f.pool[i].pc.frame.pc.Aborted?)) {
        c := Work(i, Ok);
      } else {
        var sub := Progress(w, cancelled, s, f.pool[i].pc.frame);
        c := Inside(i, sub);
      }
    } else {
      AllStopped(f.pool);
      c := if f.pc.Put? then PutNow(Ok) else if f.next < |Refs(w.bodies[f.body])| then Dispatch else Wait;
    }
  }

  lemma {:induction false} AllStopped(pool: seq<Worker>)
    requires forall i | 0 <= i < |pool| :: !Running(pool[i])
    ensures Busy(pool) == 0
  {
    if pool != [] { AllStopped(pool[..|pool| - 1]); }
  }

  // A run without faults for request r that can go no further has cached its manifest exactly
  // when the manifest was cacheable: everything below it is in the store or served, with
  // non-empty digests, parsable manifests and positive blob sizes.  No PUT was refused.
  lemma CleanRunCompletes(w: World, s0: Store, es: seq<Event>, r: nat)
    requires WellNamed(w, s0) && CleanRun(es, r) && r < |Run(w, s0, es).reqs|
    requires var y := Run(w, s0, es); forall c | Clean(c) ::
               y.reqs[r].frame.body in w.bodies && Step(w, y.reqs[r].cancelled, y.store, y.reqs[r].frame, c).Stuck?
    ensures var y := Run(w, s0, es); var f := y.reqs[r].frame;
            && Quiet(f)
            && (f.body in y.store.manifests <==> Cacheable(w, s0, f.body))
            && (Cacheable(w, s0, f.body) ==> f.pc == Returned(Applied) && f.ref in y.store.tags)
  {
    var y := Run(w, s0, es);
    var f := y.reqs[r].frame;
    assert y.reqs[r] in y.reqs;
    if !Quiet(f) {
      var c := Progress(w, y.reqs[r].cancelled, y.store, f);
      assert false;
    }
    if Cacheable(w, s0, f.body) {
      var K: set<Digest> :| f.body in K && Closed(w, s0, K);
      RunKept(w, s0, K, es, r);
    }
    if f.body in y.store.manifests { StoredWasCacheable(w, s0, es, f.body); }
  }

  // In every run, even with faults, only cacheable manifests are ever stored.
  lemma StoredWasCacheable(w: World, s0: Store, es: seq<Event>, d: Digest)
    requires WellNamed(w, s0) && d in Run(w, s0, es).store.manifests
    ensures Cacheable(w, s0, d)
  {
    var s := Run(w, s0, es).store;
    forall e | e in s.manifests
      ensures ClosedAt(w, s0, s.manifests, e)
    {
      assert Accepts(s, w.bodies[e]);
      ClosedByRefs(w, s0, s.manifests, e);
    }
    assert Closed(w, s0, s.manifests);
  }

  lemma {:induction false} KeptWithin(w: World, K: set<Digest>, s0: Store, s: Store, f: Frame, g: Frame)
    requires Kept(w, K, s0, s, f) && Within(g, f)
    ensures Kept(w, K, s0, s, g)
    decreases f
  {
    if g != f {
      var i :| 0 <= i < |f.pool| && (f.pool[i].pc.Warming? || f.pool[i].pc.Left?) && Within(g, f.pool[i].pc.frame);
      assert WorkerKept(w, K, s0, s, w.bodies[f.body].Index?, f.pool[i]);
      KeptWithin(w, K, s0, s, f.pool[i].pc.frame, g);
    }
  }

  lemma NoPutRefused(w: World, s0: Store, es: seq<Event>, r: nat, g: Frame)
    requires WellNamed(w, s0) && CleanRun(es, r) && r < |Run(w, s0, es).reqs|
    requires Cacheable(w, s0, Run(w, s0, es).reqs[r].frame.body)
    requires Within(g, Run(w, s0, es).reqs[r].frame) && g.pc.Put?
    ensures g.body in w.bodies && Accepts(Run(w, s0, es).store, w.bodies[g.body])
  {
    var y := Run(w, s0, es);
    var K: set<Digest> :| y.reqs[r].frame.body in K && Closed(w, s0, K);
    assert y.reqs[r] in y.reqs;
    RunKept(w, s0, K, es, r);
    KeptWithin(w, K, s0, y.store, y.reqs[r].frame, g);
    SoundWithin(w, false, y.store, y.reqs[r].frame, g);
    KeptPutAccepted(w, K, s0, y.store, g);
  }

  // ---- termination ------------------------------------------------------------------

  ghost predicate Acyclic(w: World, rank: map<Digest, nat>) {
    forall d | d in w.bodies :: d in rank &&
      (w.bodies[d].Index? ==> forall c | c in w.bodies[d].children && c in w.bodies :: c in rank && rank[c] < rank[d])
  }

  // The most actions a worker for d can still take once it fetches a child manifest.
  ghost function Extra(w: World, rank: map<Digest, nat>, k: nat, index: bool, d: Digest): nat
    decreases k, 0, 0
  {
    if index && d in w.bodies && d in rank && rank[d] < k then 1 + Cost(w, rank, d) else 0
  }

  ghost function SumCost(w: World, rank: map<Digest, nat>, k: nat, index: bool, ds: seq<Digest>): nat
    decreases k, 1, |ds|
  {
    if ds == [] then 0 else 3 + Extra(w, rank, k, index, ds[0]) + SumCost(w, rank, k, index, ds[1..])
  }

  ghost function Cost(w: World, rank: map<Digest, nat>, d: Digest): nat
    requires d in w.bodies && d in rank
    decreases rank[d], 2, 0
  {
    2 + SumCost(w, rank, rank[d], w.bodies[d].Index?, Refs(w.bodies[d]))
  }

  ghost function Measure(w: World, rank: map<Digest, nat>, f: Frame): nat
    decreases f
  {
    if f.body !in w.bodies || f.body !in rank then 0 else
    var index, ds := w.bodies[f.body].Index?, Refs(w.bodies[f.body]);
    PoolMeasure(w, rank, rank[f.body], index, f.pool) +
    match f.pc
    case Loop => 2 + if f.next <= |ds| then SumCost(w, rank, rank[f.body], index, ds[f.next..]) else 0
    case Put => 1
    case _ => 0
  }

  ghost function PoolMeasure(w: World, rank: map<Digest, nat>, k: nat, index: bool, pool: seq<Worker>): nat
    decreases pool
  {
    if pool == [] then 0
    else PoolMeasure(w, rank, k, index, pool[..|pool| - 1]) + WorkerMeasure(w, rank, k, index, pool[|pool| - 1])
  }

  ghost function WorkerMeasure(w: World, rank: map<Digest, nat>, k: nat, index: bool, wk: Worker): nat
    decreases wk
  {
    match wk.pc
    case Head => 2 + Extra(w, rank, k, index, wk.d)
    case Fetch => 1 + Extra(w, rank, k, index, wk.d)
    case Warming(g) => 1 + Measure(w, rank, g)
    case Exited => 0
    case Left(g) => Measure(w, rank, g)
  }

  lemma {:induction false} PoolMeasureUpdate(w: World, rank: map<Digest, nat>, k: nat, index: bool,
                                             pool: seq<Worker>, i: nat, wk: Worker)
    requires i < |pool|
    ensures PoolMeasure(w, rank, k, index, pool[i := wk]) + WorkerMeasure(w, rank, k, index, pool[i])
         == PoolMeasure(w, rank, k, index, pool) + WorkerMeasure(w, rank, k, index, wk)
  {
    var p, q := pool[..|pool| - 1], pool[i := wk][..|pool| - 1];
    if i < |pool| - 1 {
      assert q == p[i := wk];
      PoolMeasureUpdate(w, rank, k, index, p, i, wk);
    } else {
      assert q == p;
    }
  }

  // Every atomic action, faulty or not, uses up some of the frame's measure.
  lemma {:induction false} StepDecreases(w: World, rank: map<Digest, nat>, cancelled: bool,
                                         s: Store, f: Frame, c: Choice)
    requires Acyclic(w, rank) && Sound(w, cancelled, s, f) && Step(w, cancelled, s, f, c).Next?
    ensures Measure(w, rank, Step(w, cancelled, s, f, c).f) < Measure(w, rank, f)
    decreases c
  {
    match c
    case Dispatch => DispatchDecreases(w, rank, cancelled, s, f);
    case Abort =>
    case Wait =>
    case PutNow(reply) =>
    case Work(i, reply) =>
      WorkerSoundAt(w, cancelled, s, f, i);
      PoolDigestIsRef(w, cancelled, s, f, i);
      WorkDecreases(w, rank, s, rank[f.body], w.bodies[f.body].Index?, f.pool[i], reply);
      PoolMeasureUpdate(w, rank, rank[f.body], w.bodies[f.body].Index?, f.pool, i,
                        Step(w, cancelled, s, f, c).f.pool[i]);
    case Inside(i, sub) =>
      WorkerSoundAt(w, cancelled, s, f, i);
      StepDecreases(w, rank, cancelled, s, f.pool[i].pc.frame, sub);
      PoolMeasureUpdate(w, rank, rank[f.body], w.bodies[f.body].Index?, f.pool, i,
                        Step(w, cancelled, s, f, c).f.pool[i]);
  }

  lemma DispatchDecreases(w: World, rank: map<Digest, nat>, cancelled: bool, s: Store, f: Frame)
    requires Acyclic(w, rank) && Sound(w, cancelled, s, f) && Step(w, cancelled, s, f, Dispatch).Next?
    ensures Measure(w, rank, Step(w, cancelled, s, f, Dispatch).f) < Measure(w, rank, f)
  {
    var m, k := w.bodies[f.body], rank[f.body];
    var g := Step(w, cancelled, s, f, Dispatch).f;
    var rest := Refs(m)[f.next..];
    assert rest[1..] == Refs(m)[g.next..] && rest[0] == Refs(m)[f.next];
    if Refs(m)[f.next] != "" {
      assert g.pool[..|g.pool| - 1] == f.pool;
      assert PoolMeasure(w, rank, k, m.Index?, g.pool)
          == PoolMeasure(w, rank, k, m.Index?, f.pool) + 2 + Extra(w, rank, k, m.Index?, rest[0]);
    }
  }

  lemma WorkDecreases(w: World, rank: map<Digest, nat>, s: Store, k: nat, index: bool, wk: Worker, reply: Reply)
    requires WorkerStep(w, s, index, wk, reply).Did?
    requires index && wk.d in w.bodies ==> wk.d in rank && rank[wk.d] < k
    ensures WorkerMeasure(w, rank, k, index, Worker(wk.d, WorkerStep(w, s, index, wk, reply).pc))
          < WorkerMeasure(w, rank, k, index, wk)
  {
    if index && wk.d in w.bodies { StartMeasure(w, rank, wk.d, wk.d); }
  }

  lemma StartMeasure(w: World, rank: map<Digest, nat>, ref: string, d: Digest)
    requires d in w.bodies && d in rank
    ensures Measure(w, rank, Start(ref, d)) == Cost(w, rank, d)
  {
    assert Refs(w.bodies[d])[0..] == Refs(w.bodies[d]);
  }

  lemma PoolDigestIsRef(w: World, cancelled: bool, s: Store, f: Frame, i: nat)
    requires Sound(w, cancelled, s, f) && i < |f.pool|
    ensures f.pool[i].d in Refs(w.bodies[f.body])
  {
    NamedHolds(Refs(w.bodies[f.body])[..f.next], f.pool[i].d);
    assert Digests(f.pool)[i] == f.pool[i].d;
  }

  // From any reachable state no request can take more than its measure of actions, whatever
  // the other requests do in between.
  ghost function Actions(w: World, y: System, es: seq<Event>, r: nat): nat
    requires SystemSound(w, y)
    decreases |es|
  {
    if es == [] then 0 else
    SystemStepSound(w, y, es[0]);
    Actions(w, SystemStep(w, y, es[0]), es[1..], r) +
    if es[0].Act? && es[0].r == r && r < |y.reqs| && y.reqs[r] in y.reqs
       && Step(w, y.reqs[r].cancelled, y.store, y.reqs[r].frame, es[0].c).Next? then 1 else 0
  }

  lemma {:induction false} WarmTerminates(w: World, rank: map<Digest, nat>, y: System, es: seq<Event>, r: nat)
    requires Acyclic(w, rank) && SystemSound(w, y) && r < |y.reqs|
    ensures Actions(w, y, es, r) <= Measure(w, rank, y.reqs[r].frame)
    decreases |es|
  {
    if es != [] {
      SystemStepSound(w, y, es[0]);
      SameRoot(w, y, es[0], r);
      assert y.reqs[r] in y.reqs;
      WarmTerminates(w, rank, SystemStep(w, y, es[0]), es[1..], r);
      if es[0].Act? && es[0].r == r && Step(w, y.reqs[r].cancelled, y.store, y.reqs[r].frame, es[0].c).Next? {
        StepDecreases(w, rank, y.reqs[r].cancelled, y.store, y.reqs[r].frame, es[0].c);
      }
    }
  }

  // ---- what does not hold -------------------------------------------------------------

  function Then(w: World, o: Outcome, c: Choice): Outcome {
    if o.Next? && o.f.body in w.bodies then Step(w, false, o.s, o.f, c) else Stuck
  }

  // The world of one index i whose only child c is an image without blobs.
  function Nest(i: Digest, c: Digest): World {
    World(map[c := Image("", []), i := Index([c])], {i, c}, map[])
  }

  // An index can reach its PUT although a child is missing: a failure inside the child's own
  // warm is logged and swallowed.  The child's PUT fails, the index is PUT all the same, and
  // only the registry's check refuses it.
  lemma SwallowedChildFailure(i: Digest, c: Digest)
    requires i != c && c != ""
    ensures var w := Nest(i, c);
            var o := Then(w, Then(w, Then(w, Next(Store({}, {}, map[]), Start(i, i)),
                       Dispatch), Work(0, Ok)), Work(0, Ok));               // the child's warm begins
            var p := Then(w, Then(w, o, Inside(0, Wait)), Inside(0, PutNow(Fault(false))));
            var q := Then(w, Then(w, p, Work(0, Ok)), Wait);
            q.Next? && q.f.pc.Put? && c !in q.s.manifests && !Accepts(q.s, w.bodies[i])
  {
    SwallowedBegin(i, c);
    SwallowedEnd(i, c);
    assert Refs(Nest(i, c).bodies[i]) == [c];
  }

  // The index's frame with its one worker in state pc.
  function Parent(i: Digest, c: Digest, pc: WorkerPc): Frame {
    Frame(i, i, 1, [Worker(c, pc)], false, Loop)
  }

  lemma SwallowedBegin(i: Digest, c: Digest)
    requires i != c && c != ""
    ensures var w, s := Nest(i, c), Store({}, {}, map[]);
            && Then(w, Next(s, Start(i, i)), Dispatch) == Next(s, Parent(i, c, Head))
            && Then(w, Next(s, Parent(i, c, Head)), Work(0, Ok)) == Next(s, Parent(i, c, Fetch))
            && Then(w, Next(s, Parent(i, c, Fetch)), Work(0, Ok)) == Next(s, Parent(i, c, Warming(Start(c, c))))
  {
    assert Refs(Nest(i, c).bodies[i]) == [c];
  }

  lemma SwallowedEnd(i: Digest, c: Digest)
    requires i != c && c != ""
    ensures var w, s, g := Nest(i, c), Store({}, {}, map[]), Start(c, c);
            && Then(w, Next(s, Parent(i, c, Warming(g))), Inside(0, Wait))
                 == Next(s, Parent(i, c, Warming(g.(pc := Put))))
            && Then(w, Next(s, Parent(i, c, Warming(g.(pc := Put)))), Inside(0, PutNow(Fault(false))))
                 == Next(s, Parent(i, c, Warming(g.(pc := Returned(Failed)))))
            && Then(w, Next(s, Parent(i, c, Warming(g.(pc := Returned(Failed))))), Work(0, Ok))
                 == Next(s, Parent(i, c, Left(g.(pc := Returned(Failed)))))
            && Then(w, Next(s, Parent(i, c, Left(g.(pc := Returned(Failed))))), Wait)
                 == Next(s, Parent(i, c, Left(g.(pc := Returned(Failed)))).(pc := Put))
  {
    assert Refs(Nest(i, c).bodies[i]) == [c] && Refs(Nest(i, c).bodies[c]) == [];
    AllStopped(Parent(i, c, Left(Start(c, c).(pc := Returned(Failed)))).pool);
  }
}
