// The blob path of the mirror (mirror/proxy.go, handleBlob): io.Copy reads chunks of the
// upstream body and writes each one first to a synchronous pipe and then to the client,
// while a second goroutine uploads what it reads from the pipe to the writer.  The two
// goroutines are the copier and the uploader of the state below; Step performs one atomic
// action of one of them, and a Choice says which and how it turned out.
module BlobTee {
  type Byte = bv8

  // Reading: about to read the next chunk; Piping: inside pipeW.Write with `left` unread;
  // Sending: inside the client write; Closing: about to close the pipe; Joining: waiting
  // for the uploader's result; Ended: the handler has returned.
  datatype Copier =
    | Reading
    | Piping(chunk: seq<Byte>, left: seq<Byte>)
    | Sending(chunk: seq<Byte>)
    | Closing
    | Joining
    | Ended

  // Posting: upload init; Patching: streaming the pipe; Finalising: the PUT with the digest;
  // Failed: about to close the reader with the error; Reported: result sent on the channel.
  datatype Uploader = Posting | Patching | Finalising | Failed | Reported(ok: bool)

  datatype State = State(
    size: nat,               // the Content-Length of the upstream response
    rest: seq<seq<Byte>>,    // the chunks upstream has still to deliver
    copier: Copier,
    uploader: Uploader,
    readerClosed: bool,      // the pipe's reader end was closed with an error
    writerClosed: bool,      // the pipe's writer end was closed
    cacheBroken: bool,       // resilientTee.cacheBroken
    copyErr: bool,           // io.Copy returned an error
    got: seq<Byte>,          // bytes the uploader has read from the pipe
    out: seq<Byte>,          // bytes the client has received
    finalised: bool          // the writer has committed the blob under its digest
  )

  datatype Choice =
    | ReadChunk(ok: bool) | PipeReturns | ClientWrite(sent: nat) | ClosePipe | Join
    | Post(ok: bool) | Pull(n: nat) | PatchDone(ok: bool) | Finalise(applied: bool, ok: bool) | CloseReader

  function Flatten(chunks: seq<seq<Byte>>): seq<Byte> {
    if chunks == [] then [] else chunks[0] + Flatten(chunks[1..])
  }

  function Start(body: seq<seq<Byte>>): State {
    State(|Flatten(body)|, body, Reading, Posting, false, false, false, false, [], [], false)
  }

  // The state after a choice, or the same state when the choice is not enabled.
  function Step(s: State, c: Choice): State {
    if Enabled(s, c) then Act(s, c) else s
  }

  predicate Enabled(s: State, c: Choice) {
    match c
    case ReadChunk(ok) => s.copier.Reading?
    case PipeReturns => s.copier.Piping? && (s.copier.left == [] || s.readerClosed)
    case ClientWrite(sent) => s.copier.Sending? && sent <= |s.copier.chunk|
    case ClosePipe => s.copier.Closing?
    case Join => s.copier.Joining? && s.uploader.Reported?
    case Post(ok) => s.uploader.Posting?
    case Pull(n) => s.uploader.Patching? && s.copier.Piping? && 0 < n <= |s.copier.left| && |s.got| + n <= s.size
    // The writer answers the PATCH once it holds size bytes; any other end is an error:
    // the pipe ran dry, or the request failed on the way.
    case PatchDone(ok) => s.uploader.Patching? && (ok ==> |s.got| == s.size)
    case Finalise(applied, ok) => s.uploader.Finalising? && (ok ==> applied)
    case CloseReader => s.uploader.Failed?
  }

  function Act(s: State, c: Choice): State
    requires Enabled(s, c)
  {
    match c
    case ReadChunk(ok) =>
      if !ok then s.(copier := Closing, copyErr := true)
      else if s.rest == [] then s.(copier := Closing)
      else s.(rest := s.rest[1..],
              copier := if s.cacheBroken then Sending(s.rest[0]) else Piping(s.rest[0], s.rest[0]))
    case PipeReturns =>
      s.(copier := Sending(s.copier.chunk), cacheBroken := s.copier.left != [])
    case ClientWrite(sent) =>
      var t := s.(out := s.out + s.copier.chunk[..sent]);
      if sent == |s.copier.chunk| then t.(copier := Reading) else t.(copier := Closing, copyErr := true)
    case ClosePipe => s.(copier := Joining, writerClosed := true)
    case Join => s.(copier := Ended)
    case Post(ok) => s.(uploader := if ok then Patching else Failed)
    case Pull(n) =>
      s.(got := s.got + s.copier.left[..n], copier := Piping(s.copier.chunk, s.copier.left[n..]))
    case PatchDone(ok) => s.(uploader := if ok then Finalising else Failed)
    case Finalise(applied, ok) =>
      s.(uploader := if ok then Reported(true) else Failed, finalised := s.finalised || applied)
    case CloseReader => s.(readerClosed := true, uploader := Reported(false))
  }

  function Run(s: State, cs: seq<Choice>): State {
    if cs == [] then s else Step(Run(s, cs[..|cs| - 1]), cs[|cs| - 1])
  }

  // ---- the invariant ----------------------------------------------------------------

  // The chunk that has left upstream but not yet reached the client, and its unread part.
  function InHand(c: Copier): seq<Byte> {
    match c
    case Piping(chunk, _) => chunk
    case Sending(chunk) => chunk
    case _ => []
  }

  function Unread(c: Copier): seq<Byte> {
    if c.Piping? then c.left else []
  }

  predicate Streaming(c: Copier) { c.Reading? || c.Piping? || c.Sending? }

  ghost predicate CopierInv(body: seq<Byte>, s: State) {
    && (Streaming(s.copier) ==> !s.copyErr)
    && (!s.copyErr ==> s.out + (InHand(s.copier) + Flatten(s.rest)) == body)
    && (s.copyErr ==> s.out <= body)
    && (!Streaming(s.copier) && !s.copyErr ==> s.rest == [])
  }

  ghost predicate CacheInv(body: seq<Byte>, s: State) {
    && s.got <= body
    && (Streaming(s.copier) && !s.cacheBroken ==> s.got + Unread(s.copier) == s.out + InHand(s.copier))
    && (!Streaming(s.copier) && !s.copyErr && !s.cacheBroken ==> s.got == body)
    && (s.copier.Piping? ==> !s.cacheBroken)
    && (s.cacheBroken ==> s.readerClosed)
  }

  ghost predicate UploadInv(body: seq<Byte>, s: State) {
    && s.size == |body|
    && (s.readerClosed <==> s.uploader == Reported(false))
    && (s.uploader.Finalising? || s.uploader == Reported(true) || s.finalised ==> s.got == body)
    && (s.uploader == Reported(true) ==> s.finalised)
    && (s.writerClosed <==> s.copier.Joining? || s.copier.Ended?)
    && (s.copier.Ended? ==> s.uploader.Reported?)
  }

  ghost predicate Inv(body: seq<Byte>, s: State) {
    CopierInv(body, s) && CacheInv(body, s) && UploadInv(body, s)
  }

  lemma ReadKeepsInv(body: seq<Byte>, s: State, ok: bool)
    requires Inv(body, s) && s.copier.Reading?
    ensures Inv(body, Act(s, ReadChunk(ok)))
  {
    if ok && s.rest != [] {
      assert [] + Flatten(s.rest) == s.rest[0] + Flatten(s.rest[1..]);
      if !s.cacheBroken { assert s.got + s.rest[0] == s.out + s.rest[0]; }
    }
    assert s.out <= body;
  }

  lemma ClientWriteKeepsInv(body: seq<Byte>, s: State, sent: nat)
    requires Inv(body, s) && Enabled(s, ClientWrite(sent))
    ensures Inv(body, Act(s, ClientWrite(sent)))
  {
    var chunk := s.copier.chunk;
    var tail := chunk[sent..] + Flatten(s.rest);
    assert chunk + Flatten(s.rest) == chunk[..sent] + tail;
    assert body == (s.out + chunk[..sent]) + tail;
    if sent == |chunk| { assert chunk[..sent] == chunk && tail == [] + Flatten(s.rest); }
  }

  lemma PullKeepsInv(body: seq<Byte>, s: State, n: nat)
    requires Inv(body, s) && Enabled(s, Pull(n))
    ensures Inv(body, Act(s, Pull(n)))
  {
    var left := s.copier.left;
    var got := s.got + left[..n];
    assert got + left[n..] == s.got + left;
    assert body == (s.got + left) + Flatten(s.rest);
    assert body == got + (left[n..] + Flatten(s.rest));
  }

  lemma StepKeepsInv(body: seq<Byte>, s: State, c: Choice)
    requires Inv(body, s)
    ensures Inv(body, Step(s, c))
  {
    if Enabled(s, c) {
      match c {
        case ReadChunk(ok) => ReadKeepsInv(body, s, ok);
        case ClientWrite(sent) => ClientWriteKeepsInv(body, s, sent);
        case Pull(n) => PullKeepsInv(body, s, n);
        case PipeReturns => if s.copier.left == [] { assert s.got + [] == s.got; }
        case _ =>
      }
    }
  }

  lemma {:induction false} RunKeepsInv(chunks: seq<seq<Byte>>, cs: seq<Choice>)
    ensures Inv(Flatten(chunks), Run(Start(chunks), cs))
  {
    if cs != [] {
      RunKeepsInv(chunks, cs[..|cs| - 1]);
      StepKeepsInv(Flatten(chunks), Run(Start(chunks), cs[..|cs| - 1]), cs[|cs| - 1]);
    }
  }

  // ---- what every run guarantees -----------------------------------------------------

  // For every chunking of the body and every way the uploader can fail: the cache has a
  // prefix of the body, the client too, the client has all of it once the handler ends
  // unless upstream or the client itself failed, and the digest is committed only over
  // exactly the whole body.
  lemma TeeDelivers(chunks: seq<seq<Byte>>, cs: seq<Choice>)
    ensures var s := Run(Start(chunks), cs); var body := Flatten(chunks);
            && s.got <= body && s.out <= body
            && (s.copier.Ended? && !s.copyErr ==> s.out == body)
            && (s.finalised ==> s.got == body)
  {
    RunKeepsInv(chunks, cs);
  }

  // Only an upstream read or a client write that fails makes the copy fail: whatever the
  // uploader does, a run in which neither fails delivers the body.
  predicate ClientSideFault(s: State, c: Choice) {
    c == ReadChunk(false) || (c.ClientWrite? && s.copier.Sending? && c.sent < |s.copier.chunk|)
  }

  ghost predicate Healthy(s0: State, cs: seq<Choice>) {
    cs == [] || (Healthy(s0, cs[..|cs| - 1]) && !ClientSideFault(Run(s0, cs[..|cs| - 1]), cs[|cs| - 1]))
  }

  lemma {:induction false} HealthyCopies(chunks: seq<seq<Byte>>, cs: seq<Choice>)
    requires Healthy(Start(chunks), cs)
    ensures !Run(Start(chunks), cs).copyErr
  {
    if cs != [] {
      HealthyCopies(chunks, cs[..|cs| - 1]);
      OnlyClientSideFails(Run(Start(chunks), cs[..|cs| - 1]), cs[|cs| - 1]);
    }
  }

  lemma OnlyClientSideFails(s: State, c: Choice)
    requires !s.copyErr && !ClientSideFault(s, c)
    ensures !Step(s, c).copyErr
  {
  }

  lemma UploaderCannotHurtClient(chunks: seq<seq<Byte>>, cs: seq<Choice>)
    requires Healthy(Start(chunks), cs) && Run(Start(chunks), cs).copier.Ended?
    ensures Run(Start(chunks), cs).out == Flatten(chunks)
  {
    HealthyCopies(chunks, cs);
    TeeDelivers(chunks, cs);
  }

  // A choice that is not a spontaneous failure.  The PATCH fails of itself only when the
  // pipe was closed before it carried size bytes.
  predicate Natural(s: State, c: Choice) {
    match c
    case ReadChunk(ok) => ok
    case ClientWrite(sent) => s.copier.Sending? && sent == |s.copier.chunk|
    case Post(ok) => ok
    case PatchDone(ok) => ok || (s.writerClosed && |s.got| < s.size)
    case Finalise(_, ok) => ok
    case _ => true
  }

  // When nothing fails on either side the blob also ends up committed in the cache.
  lemma HealthyRunCaches(chunks: seq<seq<Byte>>, cs: seq<Choice>)
    requires NaturalRun(Start(chunks), cs) && Run(Start(chunks), cs).copier.Ended?
    ensures var s := Run(Start(chunks), cs);
            s.finalised && s.got == Flatten(chunks) && s.out == Flatten(chunks)
  {
    NaturalNeverFails(chunks, cs);
    RunKeepsInv(chunks, cs);
  }

  ghost predicate NaturalRun(s0: State, cs: seq<Choice>) {
    cs == [] || (NaturalRun(s0, cs[..|cs| - 1]) && Natural(Run(s0, cs[..|cs| - 1]), cs[|cs| - 1]))
  }

  lemma {:induction false} NaturalNeverFails(chunks: seq<seq<Byte>>, cs: seq<Choice>)
    requires NaturalRun(Start(chunks), cs)
    ensures Unfailed(Run(Start(chunks), cs))
  {
    if cs != [] {
      NaturalNeverFails(chunks, cs[..|cs| - 1]);
      RunKeepsInv(chunks, cs[..|cs| - 1]);
      NaturalStep(Flatten(chunks), Run(Start(chunks), cs[..|cs| - 1]), cs[|cs| - 1]);
    }
  }

  predicate Unfailed(s: State) {
    !s.copyErr && !s.uploader.Failed? && s.uploader != Reported(false)
  }

  lemma NaturalStep(body: seq<Byte>, s: State, c: Choice)
    requires Inv(body, s) && Unfailed(s) && Natural(s, c)
    ensures Unfailed(Step(s, c))
  {
  }

  // The uploader has failed, and has not committed before.
  predicate Lost(s: State) {
    !s.finalised && (s.uploader.Failed? || s.uploader == Reported(false))
  }

  lemma {:induction false} LostStays(s: State, cs: seq<Choice>)
    requires Lost(s)
    ensures Lost(Run(s, cs))
  {
    if cs != [] {
      LostStays(s, cs[..|cs| - 1]);
      LostStep(Run(s, cs[..|cs| - 1]), cs[|cs| - 1]);
    }
  }

  lemma LostStep(s: State, c: Choice)
    requires Lost(s)
    ensures Lost(Step(s, c))
  {}

  // A refused upload, or a stream that broke before the writer held it all, never leads to a commit.
  lemma FailedUploadNeverCommits(chunks: seq<seq<Byte>>, cs: seq<Choice>, c: Choice, more: seq<Choice>)
    requires c == Post(false) || c == PatchDone(false)
    requires Enabled(Run(Start(chunks), cs), c)
    ensures !Run(Step(Run(Start(chunks), cs), c), more).finalised
  {
    NotCommittedBefore(chunks, cs);
    LostStays(Step(Run(Start(chunks), cs), c), more);
  }

  // Nothing is committed before the upload was accepted and streamed.
  lemma {:induction false} NotCommittedBefore(chunks: seq<seq<Byte>>, cs: seq<Choice>)
    ensures var s := Run(Start(chunks), cs); s.uploader.Posting? || s.uploader.Patching? ==> !s.finalised
  {
    if cs != [] {
      NotCommittedBefore(chunks, cs[..|cs| - 1]);
      StepBeforeCommit(Run(Start(chunks), cs[..|cs| - 1]), cs[|cs| - 1]);
    }
  }

  lemma StepBeforeCommit(s: State, c: Choice)
    requires s.uploader.Posting? || s.uploader.Patching? ==> !s.finalised
    ensures Step(s, c).uploader.Posting? || Step(s, c).uploader.Patching? ==> !Step(s, c).finalised
  {}

  // The uploader is missing bytes that the client has or is about to get, beyond those still offered.
  predicate Short(s: State) {
    |s.got| + |Unread(s.copier)| < |s.out| + |InHand(s.copier)|
  }

  // Until the copying fails, the cache copy is given up exactly when a byte was kept from it.
  lemma {:induction false} CacheBrokenExactly(chunks: seq<seq<Byte>>, cs: seq<Choice>)
    ensures var s := Run(Start(chunks), cs); !s.copyErr ==> (s.cacheBroken <==> Short(s))
  {
    RunKeepsInv(chunks, cs);
    if cs != [] {
      var s := Run(Start(chunks), cs[..|cs| - 1]);
      CacheBrokenExactly(chunks, cs[..|cs| - 1]);
      RunKeepsInv(chunks, cs[..|cs| - 1]);
      if cs[|cs| - 1].PipeReturns? { PipeReturnsShort(Flatten(chunks), s); } else { StepKeepsShort(s, cs[|cs| - 1]); }
    } else {
      assert !Short(Start(chunks));
    }
  }

  lemma StepKeepsShort(s: State, c: Choice)
    requires !c.PipeReturns? && (!s.copyErr ==> (s.cacheBroken <==> Short(s)))
    ensures !Step(s, c).copyErr ==> (Step(s, c).cacheBroken <==> Short(Step(s, c)))
  {
    if Enabled(s, c) {
      match c
      case Pull(n) => assert |s.got + s.copier.left[..n]| + |s.copier.left[n..]| == |s.got| + |s.copier.left|;
      case ClientWrite(sent) => assert |s.out + s.copier.chunk[..sent]| == |s.out| + sent;
      case _ =>
    }
  }

  lemma PipeReturnsShort(body: seq<Byte>, s: State)
    requires Inv(body, s) && (!s.copyErr ==> (s.cacheBroken <==> Short(s)))
    ensures !Step(s, PipeReturns).copyErr ==> (Step(s, PipeReturns).cacheBroken <==> Short(Step(s, PipeReturns)))
  {
    if Enabled(s, PipeReturns) { assert |s.got + Unread(s.copier)| == |s.out + InHand(s.copier)|; }
  }

  // How many bytes the client took over a run.
  function Taken(s0: State, cs: seq<Choice>): nat {
    if cs == [] then 0
    else
      var before, c := cs[..|cs| - 1], cs[|cs| - 1];
      Taken(s0, before) + if c.ClientWrite? && Enabled(Run(s0, before), c) then c.sent else 0
  }

  // The client has exactly as many bytes as its writes took, also when the last one was short.
  lemma {:induction false} ClientHasWhatItTook(chunks: seq<seq<Byte>>, cs: seq<Choice>)
    ensures |Run(Start(chunks), cs).out| == Taken(Start(chunks), cs)
  {
    if cs != [] {
      ClientHasWhatItTook(chunks, cs[..|cs| - 1]);
      StepTakes(Run(Start(chunks), cs[..|cs| - 1]), cs[|cs| - 1]);
    }
  }

  lemma StepTakes(s: State, c: Choice)
    ensures |Step(s, c).out| == |s.out| + if c.ClientWrite? && Enabled(s, c) then c.sent else 0
  {
    if Enabled(s, c) {
      match c
      case ClientWrite(sent) => assert |s.copier.chunk[..sent]| == sent;
      case _ =>
    }
  }

  // A commit whose reply is lost stands, over the whole body, though the upload reports an error.
  lemma LostCommitStands(chunks: seq<seq<Byte>>, cs: seq<Choice>, more: seq<Choice>)
    requires Run(Start(chunks), cs).uploader.Finalising?
    ensures var s := Run(Step(Run(Start(chunks), cs), Finalise(true, false)), more);
            s.finalised && s.got == Flatten(chunks) && s.uploader != Reported(true)
  {
    var s := Step(Run(Start(chunks), cs), Finalise(true, false));
    RunKeepsInv(chunks, cs);
    CommitStands(Flatten(chunks), s, more);
  }

  predicate Unreported(body: seq<Byte>, s: State) {
    s.finalised && s.got == body && (s.uploader.Failed? || s.uploader == Reported(false))
  }

  lemma {:induction false} CommitStands(body: seq<Byte>, s: State, cs: seq<Choice>)
    requires Unreported(body, s)
    ensures Unreported(body, Run(s, cs))
  {
    if cs != [] {
      CommitStands(body, s, cs[..|cs| - 1]);
      CommitStays(body, Run(s, cs[..|cs| - 1]), cs[|cs| - 1]);
    }
  }

  lemma CommitStays(body: seq<Byte>, s: State, c: Choice)
    requires Unreported(body, s)
    ensures Unreported(body, Step(s, c))
  {}

  // ---- no deadlock, and termination ----------------------------------------------------

  // No reachable state is stuck before the handler has ended, even if nothing fails.
  lemma NeverStuck(chunks: seq<seq<Byte>>, cs: seq<Choice>) returns (c: Choice)
    requires !Run(Start(chunks), cs).copier.Ended?
    ensures Enabled(Run(Start(chunks), cs), c) && Natural(Run(Start(chunks), cs), c)
  {
    var s := Run(Start(chunks), cs);
    RunKeepsInv(chunks, cs);
    match s.copier {
      case Reading => c := ReadChunk(true);
      case Sending(chunk) => c := ClientWrite(|chunk|);
      case Closing => c := ClosePipe;
      case Piping(chunk, left) =>
        if left == [] || s.readerClosed { c := PipeReturns; }
        else {
          PipedFits(Flatten(chunks), s);
          match s.uploader {
            case Posting => c := Post(true);
            case Patching => c := Pull(|left|);
            case Failed => c := CloseReader;
            case Finalising => assert false;
            case Reported(ok) => assert false;
          }
        }
      case Joining =>
        match s.uploader {
          case Posting => c := Post(true);
          case Patching => c := PatchDone(|s.got| == s.size);
          case Finalising => c := Finalise(true, true);
          case Failed => c := CloseReader;
          case Reported(ok) => c := Join;
        }
    }
  }

  lemma PipedFits(body: seq<Byte>, s: State)
    requires Inv(body, s) && s.copier.Piping?
    ensures |s.got| + |s.copier.left| <= s.size
  {
    assert |s.got + s.copier.left| == |s.out + s.copier.chunk|;
  }

  // The network is free at every reachable state: a read, a request or a stream may fail whenever it is
  // under way, the client may take any part of a chunk, the uploader read any part of what is offered.
  lemma EveryOutcomeIsPossible(chunks: seq<seq<Byte>>, cs: seq<Choice>, n: nat, ok: bool)
    ensures var s := Run(Start(chunks), cs);
            && (s.copier.Reading? ==> Enabled(s, ReadChunk(ok)))
            && (s.copier.Sending? ==> (Enabled(s, ClientWrite(n)) <==> n <= |s.copier.chunk|))
            && (s.uploader.Posting? ==> Enabled(s, Post(ok)))
            && (s.uploader.Patching? ==> Enabled(s, PatchDone(false)))
            && (s.uploader.Patching? ==> (Enabled(s, PatchDone(true)) <==> s.got == Flatten(chunks)))
            && (s.uploader.Patching? && s.copier.Piping? ==>
                  (Enabled(s, Pull(n)) <==> 0 < n <= |s.copier.left|))
            && (s.uploader.Finalising? ==> Enabled(s, Finalise(ok, false)) && Enabled(s, Finalise(true, ok)))
  {
    var s, body := Run(Start(chunks), cs), Flatten(chunks);
    RunKeepsInv(chunks, cs);
    if s.copier.Piping? { PipedFits(body, s); }
    assert s.got <= body;
    assert |s.got| == |body| ==> s.got == body;
  }

  // Every enabled choice uses up some of this measure, so every run ends.
  function Measure(s: State): nat {
    4 * |s.rest| + CopierMeasure(s.copier) + UploaderMeasure(s.uploader) + Bytes(s)
  }

  // The bytes that can still be pulled through the pipe.
  function Bytes(s: State): nat { if s.size >= |s.got| then s.size - |s.got| else 0 }

  function CopierMeasure(c: Copier): nat {
    match c
    case Reading => 3
    case Piping(_, _) => 6
    case Sending(_) => 5
    case Closing => 2
    case Joining => 1
    case Ended => 0
  }

  function UploaderMeasure(u: Uploader): nat {
    match u
    case Posting => 4
    case Patching => 3
    case Finalising => 2
    case Failed => 1
    case Reported(_) => 0
  }

  lemma StepDecreases(s: State, c: Choice)
    requires Enabled(s, c)
    ensures Measure(Step(s, c)) < Measure(s)
  {
    if c.Post? || c.Pull? || c.PatchDone? || c.Finalise? || c.CloseReader? {
      UploaderDecreases(s, c);
    } else {
      CopierDecreases(s, c);
    }
  }

  lemma UploaderDecreases(s: State, c: Choice)
    requires Enabled(s, c) && (c.Post? || c.Pull? || c.PatchDone? || c.Finalise? || c.CloseReader?)
    ensures Measure(Act(s, c)) < Measure(s)
  {
  }

  lemma CopierDecreases(s: State, c: Choice)
    requires Enabled(s, c) && (c.ReadChunk? || c.PipeReturns? || c.ClientWrite? || c.ClosePipe? || c.Join?)
    ensures Measure(Act(s, c)) < Measure(s)
  {
    var t := Act(s, c);
    assert t.uploader == s.uploader && Bytes(t) == Bytes(s);
    assert 4 * |t.rest| + CopierMeasure(t.copier) < 4 * |s.rest| + CopierMeasure(s.copier);
  }

  // The number of effective actions of a run.
  function Actions(s0: State, cs: seq<Choice>): nat {
    if cs == [] then 0
    else Actions(s0, cs[..|cs| - 1]) + if Enabled(Run(s0, cs[..|cs| - 1]), cs[|cs| - 1]) then 1 else 0
  }

  lemma {:induction false} TeeTerminates(s0: State, cs: seq<Choice>)
    ensures Actions(s0, cs) + Measure(Run(s0, cs)) <= Measure(s0)
  {
    if cs != [] {
      TeeTerminates(s0, cs[..|cs| - 1]);
      if Enabled(Run(s0, cs[..|cs| - 1]), cs[|cs| - 1]) {
        StepDecreases(Run(s0, cs[..|cs| - 1]), cs[|cs| - 1]);
      }
    }
  }
}
