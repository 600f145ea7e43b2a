/** The one-slot relay of filesystem operations to the ATA driver (kernel/ata_fsop.c). Counters are unbounded here; the
    generation is a 32-bit word that skips 0, as in the code. */
module AtaFsop {
  import opened Words
  import opened OverlayImage
  import opened Buffers
  import Snap = OverlaySnapshot

  const BUFFER: nat := 8192
  const MIRROR: nat := 98304
  const REQUEST_HDR: nat := 32
  const REPLY_HDR: nat := 16
  const OUT_CAP_AT: nat := 28
  const STALE := -86
  const FS_DONE := 6
  const FS_OP: nat := 7

  const NOTE_WRITTEN: nat := 1
  const NOTE_PERSISTED: nat := 2
  const NOTE_PERSIST_FAILED: nat := 3

  datatype Phase = Free | Submitted | Fetched | Finished | Aborted
  datatype Answer = Answer(result: int, outLen: U32, sectorsRead: U32, sectorsWritten: U32)
  datatype FsJob = FsJob(op: nat, lba: nat, count: nat, generation: U32, flags: nat)
  datatype Facts = Facts(committed: bool, published: bool, result: int)
  datatype Slot = Slot(phase: Phase, generation: U32, op: nat, flags: nat, driver: int, reqLen: nat, facts: Facts,
                       answer: Answer, mirrorSize: nat,
                       ops: nat, aborts: nat, publishes: nat, persisted: nat, sectorsRead: nat, sectorsWritten: nat)

  /** What has become of the operations submitted so far. */
  datatype Ledger = Ledger(
    submissions: nat,
    left: set<U32>,   // generations no longer with the driver
    wrapped: bool,    // the generation has restarted
    frozen: bool,     // an abort was the last thing to end an operation
    facts: Facts)     // what was known when it did

  const NO_FACTS := Facts(false, false, 0)

  predicate InFlight(s: Slot) { s.phase == Submitted || s.phase == Fetched }

  /** `fsop_live`. */
  predicate Live(s: Slot, pid: int, generation: U32)
  {
    pid > 0 && pid == s.driver && generation == s.generation && InFlight(s)
  }

  /** Every submission is in flight, done or aborted, once; the facts of an aborted one stay as they were. */
  ghost predicate Accounts(s: Slot, l: Ledger)
  {
    && l.submissions == s.ops + s.aborts + (if InFlight(s) then 1 else 0)
    && (!l.wrapped ==> (forall g :: g in l.left ==> g <= s.generation) && (InFlight(s) ==> s.generation !in l.left))
    && (s.phase == Aborted ==> l.frozen) && (l.frozen ==> !InFlight(s) && s.facts == l.facts)
    && s.reqLen <= BUFFER && s.mirrorSize <= MIRROR && s.answer.outLen <= BUFFER
  }

  /** A 32-bit word as a C int. */
  function Signed(x: U32): int { if x < 0x8000_0000 then x else x - BASE }

  function AnswerOf(reply: seq<U8>): Answer
    requires |reply| >= REPLY_HDR
  {
    Answer(Signed(GetU32(reply, 0)), GetU32(reply, 4), GetU32(reply, 8), GetU32(reply, 12))
  }

  function NextGeneration(g: U32): (r: U32)
    ensures r > 0
  {
    if g == 0xFFFF_FFFF then 1 else g + 1
  }

  /** The generation that submit returns is positive, as its header promises, exactly while it is below 2^31; the last
      one before the counter restarts is returned as -1, the code of a refusal. */
  lemma GenerationIsPositive(g: U32)
    ensures Signed(NextGeneration(g)) > 0 <==> NextGeneration(g) < 0x8000_0000
    ensures Signed(NextGeneration(0xFFFF_FFFE)) == -1
  {
  }

  class Relay {
    const req: array<U8>
    const out: array<U8>
    const mirror: array<U8>
    var s: Slot
    ghost var l: Ledger

    ghost predicate Valid()
      reads this
    {
      req.Length == BUFFER && out.Length == BUFFER && mirror.Length == MIRROR && req != out && req != mirror &&
        out != mirror && Accounts(s, l)
    }

    /** `ata_fsop_init`. */
    constructor ()
      ensures Valid() && fresh(req) && fresh(out) && fresh(mirror) && s.phase == Free
      ensures s.generation == 0 && l.submissions == 0 && l.left == {}
    {
      req := new U8[BUFFER](_ => 0);
      out := new U8[BUFFER](_ => 0);
      mirror := new U8[MIRROR](_ => 0);
      s := Slot(Free, 0, 0, 0, 0, 0, NO_FACTS, Answer(0, 0, 0, 0), 0, 0, 0, 0, 0, 0, 0);
      l := Ledger(0, {}, false, false, NO_FACTS);
    }

    /** `ata_fsop_submit`: one operation at a time, each with a generation of its own. */
    method Submit(length: nat, op: nat, driver: int, flags: nat) returns (rc: int)
      requires Valid()
      modifies this
      ensures Valid()
      ensures if old(s).phase == Free && driver > 0 && REQUEST_HDR <= length <= BUFFER
              then rc == (if s.generation < 0x8000_0000 then s.generation else s.generation - 0x1_0000_0000) &&
                   s.phase == Submitted
              else rc == -1 && s == old(s) && l == old(l)
      ensures s != old(s) ==>
        s == old(s).(phase := Submitted, op := op, flags := flags, driver := driver, reqLen := length,
                     generation := if old(s).generation == 0xFFFF_FFFF then 1 else old(s).generation + 1,
                     facts := Facts(false, false, 0), answer := Answer(-1, 0, 0, 0))
      ensures s != old(s) ==> l == old(l).(submissions := old(l).submissions + 1, frozen := false,
                                           wrapped := old(l).wrapped || old(s).generation == 0xFFFF_FFFF)
    {
      if s.phase != Free || driver <= 0 || length < REQUEST_HDR || length > BUFFER { return -1; }
      l := l.(submissions := l.submissions + 1, frozen := false, wrapped := l.wrapped || s.generation == 0xFFFF_FFFF);
      s := s.(phase := Submitted, generation := NextGeneration(s.generation), op := op, flags := flags,
              driver := driver, reqLen := length,
              facts := NO_FACTS, answer := Answer(-1, 0, 0, 0));
      return Signed(s.generation);
    }

    /** `ata_fsop_fetch`: the operation goes to its driver, once. */
    method Fetch(pid: int) returns (rc: int, job: FsJob)
      requires Valid()
      modifies `s
      ensures Valid() && rc == if old(s).phase == Submitted && pid == s.driver then 1 else 0
      ensures s == if rc == 1 then old(s).(phase := Fetched) else old(s)
      ensures rc == 1 ==> job == FsJob(FS_OP, s.op, 0, s.generation, s.flags)
    {
      job := FsJob(FS_OP, s.op, 0, s.generation, s.flags);
      if s.phase != Submitted || pid != s.driver { return 0, job; }
      s := s.(phase := Fetched);
      return 1, job;
    }

    /** `ata_fsop_copy_request`. */
    method CopyRequest(pid: int, generation: U32, dst: array?<U8>, capacity: nat) returns (rc: int)
      requires Valid() && dst != req && (dst != null ==> capacity <= dst.Length)
      modifies if dst != null then {dst} else {}
      ensures rc == if dst != null && s.phase == Fetched && 0 < pid == s.driver && generation == s.generation &&
                       s.reqLen <= capacity then s.reqLen else STALE
      ensures rc >= 0 ==> dst[..s.reqLen] == req[..s.reqLen]
    {
      if dst == null || s.phase != Fetched || !Live(s, pid, generation) { return STALE; }
      if capacity < s.reqLen { return STALE; }
      CopyBytes(req, 0, dst, 0, s.reqLen);
      return s.reqLen;
    }

    /** `ata_fsop_note`: the first sector written commits the operation; a note for one that has left changes nothing.
        */
    method Note(pid: int, generation: U32, kind: nat) returns (rc: int)
      requires Valid()
      modifies `s
      ensures Valid()
      ensures rc == if kind in {NOTE_WRITTEN, NOTE_PERSISTED, NOTE_PERSIST_FAILED} && 0 < pid == s.driver &&
                       generation == s.generation && (s.phase == Submitted || s.phase == Fetched) then 0 else STALE
      ensures s == if rc != 0 || kind == NOTE_PERSIST_FAILED then old(s)
                   else if kind == NOTE_PERSISTED then old(s).(persisted := old(s).persisted + 1)
                   else old(s).(facts := old(s).facts.(committed := true))
      ensures !l.wrapped && generation in l.left ==> rc == STALE
    {
      if kind == NOTE_PERSISTED || kind == NOTE_PERSIST_FAILED {
        if !Live(s, pid, generation) { return STALE; }
        if kind == NOTE_PERSISTED { s := s.(persisted := s.persisted + 1); }
        return 0;
      }
      if kind != NOTE_WRITTEN || !Live(s, pid, generation) { return STALE; }
      s := s.(facts := s.facts.(committed := true));
      return 0;
    }

    /** `ata_fsop_publish`: the driver's overlay image becomes the kernel's mirror. */
    method Publish(pid: int, generation: U32, image: seq<U8>, result: int) returns (rc: int)
      requires Valid()
      modifies `s, mirror
      ensures Valid()
      ensures rc == if 0 < pid == s.driver && generation == s.generation &&
                       (s.phase == Submitted || s.phase == Fetched) && 16 <= |image| <= MIRROR &&
                       GetU32(image, 0) == Snap.SNAP_MAGIC then 0 else STALE
      ensures rc != 0 ==> s == old(s) && mirror[..] == old(mirror[..])
      ensures rc == 0 ==> mirror[..|image|] == image
      ensures rc == 0 ==> s == old(s).(mirrorSize := |image|, publishes := old(s).publishes + 1,
                                       facts := old(s).facts.(published := true, result := result))
      ensures !l.wrapped && generation in l.left ==> rc == STALE
    {
      hide GetU32;
      if !Live(s, pid, generation) || |image| < 16 || |image| > MIRROR { return STALE; }
      if GetU32(image, 0) != Snap.SNAP_MAGIC { return STALE; }
      PutBytes(image, mirror, 0);
      s := s.(mirrorSize := |image|, publishes := s.publishes + 1,
              facts := s.facts.(published := true, result := result));
      return 0;
    }

    /** `ata_fsop_done`: the driver's answer, with no more output than the caller asked for. */
    method Finish(pid: int, generation: U32, reply: seq<U8>) returns (rc: int)
      requires Valid()
      modifies this, out
      ensures Valid()
      ensures rc == if old(s).phase == Fetched && 0 < pid == s.driver && generation == s.generation &&
                       |reply| >= REPLY_HDR &&
                       GetU32(reply, 4) <= GetU32(req[..], OUT_CAP_AT) && GetU32(reply, 4) <= BUFFER &&
                         GetU32(reply, 4) <= |reply| - REPLY_HDR
                    then FS_DONE else STALE
      ensures rc != FS_DONE ==> s == old(s) && l == old(l) && out[..] == old(out[..])
      ensures rc == FS_DONE ==>
        var r := GetU32(reply, 0);
        s == old(s).(phase := Finished, ops := old(s).ops + 1,
                     answer := Answer(if r < 0x8000_0000 then r else r - 0x1_0000_0000, GetU32(reply, 4),
                                      GetU32(reply, 8), GetU32(reply, 12)),
                     sectorsRead := old(s).sectorsRead + GetU32(reply, 8),
                     sectorsWritten := old(s).sectorsWritten + GetU32(reply, 12))
      ensures rc == FS_DONE ==> out[..s.answer.outLen] == reply[REPLY_HDR..REPLY_HDR + s.answer.outLen]
      ensures rc == FS_DONE ==> l == old(l).(left := old(l).left + {s.generation})
      ensures !old(l).wrapped && generation in old(l).left ==> rc == STALE
    {
      hide GetU32;
      if s.phase != Fetched || !Live(s, pid, generation) || |reply| < REPLY_HDR { return STALE; }
      var r := AnswerOf(reply);
      if r.outLen > GetU32(req[..], OUT_CAP_AT) || r.outLen > BUFFER || r.outLen > |reply| - REPLY_HDR { return STALE; }
      PutBytes(reply[REPLY_HDR..REPLY_HDR + r.outLen], out, 0);
      l := l.(left := l.left + {s.generation});
      s := s.(answer := r, phase := Finished, ops := s.ops + 1, sectorsRead := s.sectorsRead + r.sectorsRead,
              sectorsWritten := s.sectorsWritten + r.sectorsWritten);
      return FS_DONE;
    }

    /** `ata_fsop_take`: the caller, whose reply holds `reply`, gets the answer and its output in full or neither; a
        finished slot is free either way. */
    method Take(dst: array?<U8>, capacity: nat, reply: Answer) returns (rc: int, answer: Answer)
      requires Valid() && dst != out && (dst != null ==> capacity <= dst.Length)
      modifies `s, if dst != null then {dst} else {}
      ensures Valid() && answer == if rc == 0 then old(s).answer else reply
      ensures rc == if old(s).phase == Finished && old(s).answer.outLen <= capacity &&
        (old(s).answer.outLen != 0 ==> dst != null) then 0 else -1
      ensures s == if old(s).phase == Finished then old(s).(phase := Free) else old(s)
      ensures rc == 0 && dst != null ==> dst[..answer.outLen] == out[..answer.outLen]
      ensures dst != null ==>
        forall k :: (if rc == 0 then answer.outLen else 0) <= k < dst.Length ==> dst[k] == old(dst[k])
    {
      if s.phase != Finished { return -1, reply; }
      if s.answer.outLen > capacity || (s.answer.outLen != 0 && dst == null) {
        s := s.(phase := Free);
        return -1, reply;
      }
      if dst != null { CopyBytes(out, 0, dst, 0, s.answer.outLen); }
      answer := s.answer;
      s := s.(phase := Free);
      return 0, answer;
    }

    /** `ata_fsop_abort`: the driver is gone; what it had committed or published is fixed from here on. */
    method AbortOp()
      requires Valid()
      modifies this
      ensures Valid()
      ensures old(s).phase != Submitted && old(s).phase != Fetched ==> s == old(s) && l == old(l)
      ensures old(s).phase == Submitted || old(s).phase == Fetched ==>
        s == old(s).(phase := Aborted, aborts := old(s).aborts + 1)
      ensures old(s).phase == Submitted || old(s).phase == Fetched ==>
        l == old(l).(left := old(l).left + {s.generation}, frozen := true, facts := s.facts)
    {
      if s.phase != Submitted && s.phase != Fetched { return; }
      s := s.(phase := Aborted, aborts := s.aborts + 1);
      l := l.(left := l.left + {s.generation}, frozen := true, facts := s.facts);
    }

    /** `ata_fsop_release`. */
    method Release()
      requires Valid()
      modifies `s
      ensures Valid() && s == if old(s).phase == Aborted || old(s).phase == Finished then old(s).(phase := Free)
        else old(s)
    {
      if s.phase == Aborted || s.phase == Finished { s := s.(phase := Free); }
    }
  }

  /** A call of the kernel or of the driver. */
  datatype Call =
    | CallSubmit(length: nat, op: nat, driver: int, flags: nat)
    | CallFetch(pid: int)
    | CallNote(pid: int, generation: U32, kind: nat)
    | CallPublish(pid: int, generation: U32, image: seq<U8>, result: int)
    | CallFinish(pid: int, generation: U32, reply: seq<U8>)
    | CallTake(capacity: nat)
    | CallAbort
    | CallRelease

  /** The answer is one the slot takes: from the driver that fetched the operation, well formed, and no longer than
      asked for. */
  predicate Answers(s: Slot, req: seq<U8>, pid: int, generation: U32, reply: seq<U8>)
    requires |req| == BUFFER
  {
    && s.phase == Fetched && Live(s, pid, generation) && |reply| >= REPLY_HDR && GetU32(reply, 4) <= BUFFER
    && GetU32(reply, 4) <= GetU32(req, OUT_CAP_AT) && GetU32(reply, 4) <= |reply| - REPLY_HDR
  }

  /** Where a call takes the slot. */
  function PhaseAfter(s: Slot, req: seq<U8>, c: Call): Phase
    requires |req| == BUFFER
  {
    match c
    case CallSubmit(length, _, driver, _) =>
      if s.phase == Free && driver > 0 && REQUEST_HDR <= length <= BUFFER then Submitted else s.phase
    case CallFetch(pid) => if s.phase == Submitted && pid == s.driver then Fetched else s.phase
    case CallFinish(pid, generation, reply) => if Answers(s, req, pid, generation, reply) then Finished else s.phase
    case CallTake(_) => if s.phase == Finished then Free else s.phase
    case CallAbort => if InFlight(s) then Aborted else s.phase
    case CallRelease => if s.phase == Aborted || s.phase == Finished then Free else s.phase
    case _ => s.phase
  }

  /** Any run of calls: the slot goes where the calls take it; every submission has been answered or aborted, once, or
      is in flight; and once an abort has ended an operation, what it had committed and published stays as it was until
      the next submission. */
  method Run(r: Relay, calls: seq<Call>) returns (ghost trace: seq<Slot>)
    requires r.Valid()
    modifies r, r.out, r.mirror
    ensures r.Valid() && |trace| == |calls| + 1 && trace[0] == old(r.s) && trace[|calls|] == r.s
    ensures forall i :: 0 <= i < |calls| ==> trace[i + 1].phase == PhaseAfter(trace[i], r.req[..], calls[i])
    ensures r.l.submissions == r.s.ops + r.s.aborts + if InFlight(r.s) then 1 else 0
    ensures old(r.l).frozen && (forall i :: 0 <= i < |calls| ==> !calls[i].CallSubmit?) ==> r.s.facts == old(r.s).facts
  {
    hide GetU32, PhaseAfter;
    ghost var facts, frozen, req := r.s.facts, r.l.frozen, r.req[..];
    trace := [r.s];
    for i := 0 to |calls|
      invariant r.Valid() && r.req[..] == req && |trace| == i + 1 && trace[0] == old(r.s) && trace[i] == r.s
      invariant forall k :: 0 <= k < i ==> trace[k + 1].phase == PhaseAfter(trace[k], req, calls[k])
      invariant frozen && (forall k :: 0 <= k < i ==> !calls[k].CallSubmit?) ==> r.l.frozen && r.s.facts == facts
    {
      Dispatch(r, calls[i]);
      trace := trace + [r.s];
    }
  }

  method Dispatch(r: Relay, c: Call)
    requires r.Valid()
    modifies r, r.out, r.mirror
    ensures r.Valid() && r.req[..] == old(r.req[..]) && r.s.phase == PhaseAfter(old(r.s), r.req[..], c)
    ensures old(r.l).frozen && !c.CallSubmit? ==> r.l.frozen && r.s.facts == old(r.s).facts
  {
    hide GetU32;
    match c {
      case CallSubmit(length, op, driver, flags) => var rc := r.Submit(length, op, driver, flags);
      case CallFetch(pid) => var rc, job := r.Fetch(pid);
      case CallNote(pid, generation, kind) => var rc := r.Note(pid, generation, kind);
      case CallPublish(pid, generation, image, result) => var rc := r.Publish(pid, generation, image, result);
      case CallFinish(pid, generation, reply) => var rc := r.Finish(pid, generation, reply);
      case CallTake(capacity) =>
        var dst := new U8[capacity];
        var rc, answer := r.Take(dst, capacity, Answer(0, 0, 0, 0));
      case CallAbort => r.AbortOp();
      case CallRelease => r.Release();
    }
  }
}
