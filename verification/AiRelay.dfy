/** The one-slot relay of generation jobs to the AI worker (kernel/ai_relay.c). Counters are unbounded here; ticks wrap
    at 32 bits as in the code, and job ids restart after 0x7FFFFFFF. */
module AiRelay {
  import opened Words

  const PROMPT_MAX: nat := 128
  const TEXT_MAX: nat := 512
  const TOKENS_MAX: nat := 64
  const TIMEOUT_TICKS: nat := 30000
  const STALL_TICKS: nat := 1500
  const LAST_ID: nat := 0x7FFF_FFFF

  const REQUIRED := -144
  const BAD_ARGUMENT := -145
  const STALE := -146

  const GENERATE: nat := 0
  const GGUF_STEP: nat := 1
  const GGUF_SESSION: nat := 2
  const SESSION_START: nat := 1
  const SESSION_STEP: nat := 2

  datatype Phase = Free | Sent | Finished | Failed
  datatype Abort = NoAbort | WorkerLost | Stalled | TimedOut | Cancelled
  datatype Job = Job(id: nat, kind: nat, max: nat, prompt: seq<U8>, rng: nat, generated: nat, tokens: seq<nat>, op: nat,
                     session: nat, promptTokens: nat)
  datatype Reply = Reply(job: nat, kind: nat, result: int, textLength: nat, text: seq<U8>, promptTokens: nat,
                         tokenCount: nat, tokens: seq<nat>,
                         rng: nat, next: nat, active: nat, resumed: nat)
  datatype Slot = Slot(phase: Phase, caller: int, worker: int, nextJob: nat, started: U32, progress: U32, abort: Abort,
                       job: Job, reply: Reply)
  datatype Stats = Stats(forwarded: nat, ggufForwarded: nat, completed: nat, ggufCompleted: nat, sessions: nat,
                         resumed: nat,
                         aborted: nat, stalls: nat, timeouts: nat, lost: nat, cancelled: nat, stale: nat, rogue: nat,
                           heartbeats: nat)

  /** How jobs have ended so far. */
  datatype Ledger = Ledger(
    plainEnded: nat, ggufEnded: nat, // jobs that ended, by family
    kernelCancelled: nat,            // cancellations of generations that never were in the slot
    dropped: nat,                    // replies whose caller was gone
    left: set<nat>,                  // ids of jobs no longer with the worker
    wrapped: bool)                   // ids have restarted

  const NO_JOB: Job := Job(0, 0, 0, [], 0, 0, [], 0, 0, 0)
  const NO_REPLY: Reply := Reply(0, 0, 0, 0, [], 0, 0, [], 0, 0, 0, 0)
  const EMPTY_SLOT: Slot := Slot(Free, 0, 0, 1, 0, 0, NoAbort, NO_JOB, NO_REPLY)
  const NO_STATS: Stats := Stats(0, 0, 0, 0, 0, 0, 0, 0, 0, 0, 0, 0, 0, 0)

  predicate InFlight(s: Slot) { s.phase == Sent || s.phase == Finished }

  function One(b: bool): nat { if b then 1 else 0 }

  /** The books: every job forwarded is in flight or has ended in exactly one of the counted ways. */
  predicate Balanced(s: Slot, t: Stats, l: Ledger)
  {
    && t.aborted == t.stalls + t.timeouts + t.lost
    && t.forwarded == l.plainEnded + One(InFlight(s) && s.job.kind == GENERATE)
    && t.ggufForwarded == l.ggufEnded + One(InFlight(s) && s.job.kind != GENERATE)
    && l.plainEnded + l.ggufEnded + l.kernelCancelled ==
      t.completed + t.ggufCompleted + t.aborted + t.cancelled + l.dropped
  }

  /** Ids given out are below the next one, and the worker's job is not one that has left. */
  ghost predicate IdsOk(s: Slot, l: Ledger)
  {
    && 1 <= s.nextJob <= LAST_ID + 1
    && (s.phase != Free ==> 1 <= s.job.id <= LAST_ID)
    && (!l.wrapped ==>
          && (forall id :: id in l.left ==> id < s.nextJob) && (s.phase != Free ==> s.job.id < s.nextJob)
          && (s.phase == Sent ==> s.job.id !in l.left))
  }

  lemma StartOk(s: Slot, t: Stats, l: Ledger)
    requires s.phase == Free && s.nextJob == 1 && l.left == {}
    requires l.plainEnded == l.ggufEnded == l.kernelCancelled == l.dropped == 0
    requires t.forwarded == t.ggufForwarded == t.completed == t.ggufCompleted == 0
    requires t.aborted == t.stalls == t.timeouts == t.lost == t.cancelled == 0
    ensures Balanced(s, t, l) && IdsOk(s, l)
  {
  }

  /** What the worker may report for a job. */
  predicate Acceptable(j: Job, r: Reply)
  {
    && r.kind == j.kind
    && if j.kind == GGUF_STEP then r.result <= 0 && r.textLength == 0 && r.tokenCount == 0
       else r.textLength < TEXT_MAX && r.textLength < j.max && r.tokenCount <= TOKENS_MAX
            && r.promptTokens <= r.tokenCount
            && (j.kind == GGUF_SESSION ==> r.active <= 1) && (r.result >= 0 ==> r.result == r.textLength)
  }

  /** The text beyond its length is cleared. */
  function Cleared(r: Reply): Reply
    requires r.textLength <= |r.text|
  {
    r.(text := r.text[..r.textLength] + seq(|r.text| - r.textLength, _ => 0))
  }

  function Stored(j: Job, r: Reply): Reply
    requires r.textLength <= |r.text|
  {
    if j.kind == GGUF_STEP then r else Cleared(r)
  }

  /** Ticks from `since` to `now`, in 32-bit arithmetic. */
  function Elapsed(now: int, since: int): nat { (now - since) % BASE }

  function FreshId(next: nat): nat { if next == 0 || next > LAST_ID then 1 else next }

  function Clamped(max: nat): nat { if max > TEXT_MAX then TEXT_MAX else max }

  /** The ledger notes when ids restart. */
  function Reopened(l: Ledger, s: Slot): Ledger { l.(wrapped := l.wrapped || s.nextJob > LAST_ID) }

  /** A slot that has just taken this job. */
  function Opened(s: Slot, j: Job, caller: int, worker: int, now: U32): Slot
  {
    Slot(Sent, caller, worker, FreshId(s.nextJob) + 1, now, now, NoAbort, j.(id := FreshId(s.nextJob)), NO_REPLY)
  }

  /** The books and the ids after a job has been opened. */
  lemma OpenedOk(s: Slot, t: Stats, l: Ledger, j: Job, caller: int, worker: int, now: U32)
    requires Balanced(s, t, l) && IdsOk(s, l) && s.phase == Free
    ensures var u := if j.kind == GENERATE then t.(forwarded := t.forwarded + 1)
                     else t.(ggufForwarded := t.ggufForwarded + 1);
      Balanced(Opened(s, j, caller, worker, now), u, Reopened(l, s))
    ensures IdsOk(Opened(s, j, caller, worker, now), Reopened(l, s))
  {
  }

  class Relay {
    var s: Slot
    var t: Stats
    ghost var l: Ledger

    ghost predicate Valid()
      reads this
    {
      Balanced(s, t, l) && IdsOk(s, l) && l.kernelCancelled <= t.cancelled && s.job.kind <= GGUF_SESSION
    }

    /** `ai_relay_init`. */
    constructor ()
      ensures Valid() && s == EMPTY_SLOT && t == NO_STATS && l == Ledger(0, 0, 0, 0, {}, false)
    {
      hide Balanced, IdsOk;
      StartOk(EMPTY_SLOT, NO_STATS, Ledger(0, 0, 0, 0, {}, false));
      s, t, l := EMPTY_SLOT, NO_STATS, Ledger(0, 0, 0, 0, {}, false);
    }

    /** The part common to the three begin calls. */
    method Open(j: Job, caller: int, worker: int, now: U32) returns (rc: int)
      requires Valid() && s.phase == Free && j.kind <= GGUF_SESSION
      modifies this
      ensures Valid() && rc == FreshId(old(s).nextJob) && rc > 0
      ensures s == Opened(old(s), j, caller, worker, now)
      ensures t == if j.kind == GENERATE then old(t).(forwarded := old(t).forwarded + 1)
        else old(t).(ggufForwarded := old(t).ggufForwarded + 1)
      ensures l == Reopened(old(l), old(s))
    {
      hide Balanced, IdsOk;
      OpenedOk(s, t, l, j, caller, worker, now);
      l := l.(wrapped := l.wrapped || s.nextJob > LAST_ID);
      if s.nextJob == 0 || s.nextJob > LAST_ID { s := s.(nextJob := 1); }
      s := s.(reply := NO_REPLY, job := j.(id := s.nextJob));
      s := s.(nextJob := s.nextJob + 1);
      s := s.(caller := caller, worker := worker, started := now, progress := now, abort := NoAbort, phase := Sent);
      if j.kind == GENERATE { t := t.(forwarded := t.forwarded + 1); }
      else { t := t.(ggufForwarded := t.ggufForwarded + 1); }
      return s.job.id;
    }

    /** `ai_relay_begin`: takes the free slot with a prompt cut to its field. */
    method Begin(caller: int, worker: int, prompt: seq<U8>, max: nat, now: U32) returns (rc: int)
      requires Valid()
      modifies this
      ensures Valid()
      ensures rc == if !(old(s).phase == Free && caller > 0 && worker > 0 && caller != worker && max >= 2) then -1
        else if old(s).nextJob > LAST_ID then 1 else old(s).nextJob
      ensures rc < 0 ==> s == old(s) && t == old(t) && l == old(l)
      ensures rc == -1 || rc > 0
      ensures rc > 0 ==> t == old(t).(forwarded := old(t).forwarded + 1) && l == Reopened(old(l), old(s))
      ensures rc > 0 ==>
        var p := s.job.prompt;
        && |p| < PROMPT_MAX && p <= prompt && (forall i :: 0 <= i < |p| ==> p[i] != 0)
        && (|p| == PROMPT_MAX - 1 || |p| == |prompt| || prompt[|p|] == 0)
      ensures rc > 0 ==>
        var j := NO_JOB.(id := rc, kind := GENERATE, prompt := s.job.prompt,
                         max := if max > TEXT_MAX then TEXT_MAX else max);
        s == Slot(Sent, caller, worker, rc + 1, now, now, NoAbort, j, NO_REPLY)
    {
      if s.phase != Free || caller <= 0 || worker <= 0 || caller == worker || max < 2 { return -1; }
      var p := CopyPrompt(prompt);
      rc := Open(NO_JOB.(kind := GENERATE, prompt := p, max := Clamped(max)), caller, worker, now);
    }

    /** `ai_relay_begin_gguf`: one sampling step. */
    method BeginStep(caller: int, worker: int, tokens: seq<nat>, generated: nat, rng: nat, now: U32) returns (rc: int)
      requires Valid()
      modifies this
      ensures Valid()
      ensures rc == if !(old(s).phase == Free && caller > 0 && worker > 0 && caller != worker) ||
                       !(0 < |tokens| <= TOKENS_MAX && generated <= |tokens|) then -1
        else if old(s).nextJob > LAST_ID then 1 else old(s).nextJob
      ensures rc < 0 ==> s == old(s) && t == old(t) && l == old(l)
      ensures rc == -1 || rc > 0
      ensures rc > 0 ==> t == old(t).(ggufForwarded := old(t).ggufForwarded + 1) && l == Reopened(old(l), old(s))
      ensures rc > 0 ==>
        var j := NO_JOB.(id := rc, kind := GGUF_STEP, rng := rng, generated := generated, tokens := tokens);
        s == Slot(Sent, caller, worker, rc + 1, now, now, NoAbort, j, NO_REPLY)
    {
      if s.phase != Free || caller <= 0 || worker <= 0 || caller == worker || |tokens| == 0 || |tokens| > TOKENS_MAX ||
        generated > |tokens| {
        return -1;
      }
      rc := Open(NO_JOB.(kind := GGUF_STEP, rng := rng, generated := generated, tokens := tokens), caller, worker, now);
    }

    /** `ai_relay_begin_gguf_session`: START with a prompt, STEP with the kernel's mirror. */
    method BeginSession(caller: int, worker: int, op: nat, session: nat, prompt: seq<U8>, max: nat, tokens: seq<nat>,
                        promptTokens: nat,
                        rng: nat, now: U32) returns (rc: int)
      requires Valid()
      modifies this
      ensures Valid()
      ensures rc == if !(old(s).phase == Free && caller > 0 && worker > 0 && caller != worker && max >= 2) ||
                       !(op == SESSION_START ||
                         (op == SESSION_STEP && 0 < |tokens| <= TOKENS_MAX && promptTokens <= |tokens|)) then -1
        else if old(s).nextJob > LAST_ID then 1 else old(s).nextJob
      ensures rc < 0 ==> s == old(s) && t == old(t) && l == old(l)
      ensures rc > 0 ==> t == old(t).(ggufForwarded := old(t).ggufForwarded + 1) && l == Reopened(old(l), old(s))
      ensures rc == -1 || rc > 0
      ensures rc > 0 && op == SESSION_START ==>
        var p := s.job.prompt;
        && |p| < PROMPT_MAX && p <= prompt && (forall i :: 0 <= i < |p| ==> p[i] != 0)
        && (|p| == PROMPT_MAX - 1 || |p| == |prompt| || prompt[|p|] == 0)
      ensures rc > 0 ==>
        var j := NO_JOB.(id := rc, kind := GGUF_SESSION, op := op, session := session,
                         max := if max > TEXT_MAX then TEXT_MAX else max);
        s == Slot(Sent, caller, worker, rc + 1, now, now, NoAbort,
                  if op == SESSION_START then j.(prompt := s.job.prompt)
                  else j.(rng := rng, tokens := tokens, promptTokens := promptTokens,
                          generated := |tokens| - promptTokens), NO_REPLY)
    {
      if s.phase != Free || caller <= 0 || worker <= 0 || caller == worker || max < 2 ||
        (op != SESSION_START && op != SESSION_STEP) ||
         (op == SESSION_STEP && (|tokens| == 0 || |tokens| > TOKENS_MAX || promptTokens > |tokens|)) {
        return -1;
      }
      var j := NO_JOB.(kind := GGUF_SESSION, op := op, session := session, max := Clamped(max));
      if op == SESSION_START {
        var p := CopyPrompt(prompt);
        j := j.(prompt := p);
      } else {
        j := j.(rng := rng, tokens := tokens, promptTokens := promptTokens, generated := |tokens| - promptTokens);
      }
      rc := Open(j, caller, worker, now);
    }

    /** `ai_relay_cancel`: the doorbell could not be sent, so the job was never forwarded. */
    method Cancel()
      requires Valid()
      modifies this
      ensures Valid() && (old(s).phase != Sent ==> s == old(s) && t == old(t) && l == old(l))
      ensures old(s).phase == Sent ==> s == old(s).(phase := Free) && l == old(l).(left := old(l).left + {s.job.id})
      ensures old(s).phase == Sent ==> t == if s.job.kind == GENERATE then old(t).(forwarded := old(t).forwarded - 1)
                                            else old(t).(ggufForwarded := old(t).ggufForwarded - 1)
    {
      if s.phase != Sent { return; }
      if s.job.kind == GGUF_STEP || s.job.kind == GGUF_SESSION {
        if t.ggufForwarded > 0 { t := t.(ggufForwarded := t.ggufForwarded - 1); }
      } else if t.forwarded > 0 {
        t := t.(forwarded := t.forwarded - 1);
      }
      l := l.(left := l.left + {s.job.id});
      s := s.(phase := Free);
    }

    /** `ai_relay_fetch`: the job, to its worker only. */
    method Fetch(sender: int, live: int, id: nat) returns (rc: int, out: Job)
      requires Valid()
      modifies this
      ensures Valid() && s == old(s) && l == old(l)
      ensures rc == if !(0 < sender == live) then REQUIRED
        else if !(old(s).phase == Sent && old(s).worker == sender && old(s).job.id == id) then STALE else 0
      ensures t == if rc == STALE then old(t).(stale := old(t).stale + 1) else old(t)
      ensures rc == 0 ==> out == s.job && (!l.wrapped ==> id !in l.left)
    {
      out := NO_JOB;
      if sender <= 0 || live <= 0 || sender != live { return REQUIRED, out; }
      if s.phase != Sent || s.worker != sender || s.job.id != id {
        t := t.(stale := t.stale + 1);
        return STALE, out;
      }
      return 0, s.job;
    }

    /** `ai_relay_complete`: stores the reply of the job in flight; a report for a job that has left changes nothing but
        the count of refusals. */
    method Complete(sender: int, live: int, reply: Reply) returns (rc: int)
      requires Valid() && |reply.text| == TEXT_MAX
      modifies this
      ensures Valid()
      ensures rc == var j := old(s).job;
        if !(0 < sender == live) then REQUIRED
        else if !(old(s).phase == Sent && old(s).worker == sender && j.id == reply.job) then STALE
        else if reply.kind != j.kind then BAD_ARGUMENT
        else if j.kind == GGUF_STEP
        then if reply.result <= 0 && reply.textLength == 0 && reply.tokenCount == 0 then 0 else BAD_ARGUMENT
        else if reply.textLength < TEXT_MAX && reply.textLength < j.max && reply.tokenCount <= TOKENS_MAX &&
                reply.promptTokens <= reply.tokenCount && (reply.result < 0 || reply.result == reply.textLength) &&
                (j.kind != GGUF_SESSION || reply.active <= 1) then 0
        else BAD_ARGUMENT
      ensures rc != 0 ==> s == old(s) && l == old(l)
      ensures t == if rc == REQUIRED then old(t).(rogue := old(t).rogue + 1) else if rc == STALE
        then old(t).(stale := old(t).stale + 1) else old(t)
      ensures rc == 0 ==>
        && s == old(s).(phase := Finished, reply := reply.(text := s.reply.text)) && |s.reply.text| == TEXT_MAX
        && (forall k :: 0 <= k < TEXT_MAX ==>
              s.reply.text[k] == if k < reply.textLength || s.job.kind == GGUF_STEP then reply.text[k] else 0)
        && l == old(l).(left := old(l).left + {s.job.id})
      ensures !old(l).wrapped && reply.job in old(l).left ==> rc != 0
    {
      if sender <= 0 || live <= 0 || sender != live {
        t := t.(rogue := t.rogue + 1);
        return REQUIRED;
      }
      if s.phase != Sent || s.worker != sender || s.job.id != reply.job {
        t := t.(stale := t.stale + 1);
        return STALE;
      }
      if reply.kind != s.job.kind { return BAD_ARGUMENT; }
      if s.job.kind == GGUF_STEP {
        if reply.result > 0 || reply.textLength != 0 || reply.tokenCount != 0 { return BAD_ARGUMENT; }
      } else {
        if reply.textLength >= TEXT_MAX || reply.textLength >= s.job.max || reply.tokenCount > TOKENS_MAX ||
           reply.promptTokens > reply.tokenCount || (s.job.kind == GGUF_SESSION && reply.active > 1) ||
           (reply.result >= 0 && reply.result != reply.textLength) {
          return BAD_ARGUMENT;
        }
      }
      l := l.(left := l.left + {s.job.id});
      s := s.(reply := if s.job.kind == GGUF_STEP then reply else Cleared(reply), phase := Finished);
      return 0;
    }

    /** `ai_relay_heartbeat`: keeps a live worker's job from being failed for the next STALL_TICKS ticks, across a wrap
        of the tick counter, unless the overall time runs out. */
    method Heartbeat(sender: int, live: int, id: nat, now: U32) returns (rc: int)
      requires Valid()
      modifies this
      ensures Valid() && l == old(l)
      ensures rc == if !(0 < sender == live) then REQUIRED
        else if !(old(s).phase == Sent && old(s).worker == sender && old(s).job.id == id) then STALE else 0
      ensures rc == 0 ==> forall later: U32, other: int ::
        ShouldFail(other, later) == if other != sender then WorkerLost
          else if (later - now) % 0x1_0000_0000 > STALL_TICKS then Stalled
          else if (later - s.started) % 0x1_0000_0000 > TIMEOUT_TICKS then TimedOut else NoAbort
      ensures s == (if rc == 0 then old(s).(progress := now) else old(s)) && t == if rc == 0
        then old(t).(heartbeats := old(t).heartbeats + 1) else old(t)
    {
      if sender <= 0 || live <= 0 || sender != live { return REQUIRED; }
      if s.phase != Sent || s.worker != sender || s.job.id != id { return STALE; }
      s := s.(progress := now);
      t := t.(heartbeats := t.heartbeats + 1);
      return 0;
    }

    /** `ai_relay_should_fail`: with a live worker, exactly when it made no progress for too long or took too long
        overall. */
    function ShouldFail(live: int, now: U32): Abort
      reads this
    {
      if s.phase != Sent then NoAbort
      else if live <= 0 || live != s.worker then WorkerLost
      else if Elapsed(now, s.progress) > STALL_TICKS then Stalled
      else if Elapsed(now, s.started) > TIMEOUT_TICKS then TimedOut
      else NoAbort
    }

    /** `ai_relay_fail`: the job leaves the worker and is counted once, by its reason. */
    method Fail(reason: Abort)
      requires Valid()
      modifies this
      ensures Valid() && (old(s).phase != Sent ==> s == old(s) && t == old(t) && l == old(l))
      ensures old(s).phase == Sent ==> s == old(s).(phase := Failed, abort := reason)
      ensures old(s).phase == Sent ==>
        t == match reason
             case Cancelled => old(t).(cancelled := old(t).cancelled + 1)
             case Stalled => old(t).(aborted := old(t).aborted + 1, stalls := old(t).stalls + 1)
             case TimedOut => old(t).(aborted := old(t).aborted + 1, timeouts := old(t).timeouts + 1)
             case _ => old(t).(aborted := old(t).aborted + 1, lost := old(t).lost + 1)
      ensures old(s).phase == Sent ==> l == Ended(old(l), s.job)
    {
      if s.phase != Sent { return; }
      s := s.(phase := Failed, abort := reason);
      l := Ended(l, s.job);
      if reason == Cancelled {
        t := t.(cancelled := t.cancelled + 1);
        return;
      }
      t := t.(aborted := t.aborted + 1);
      if reason == Stalled { t := t.(stalls := t.stalls + 1); }
      else if reason == TimedOut { t := t.(timeouts := t.timeouts + 1); }
      else { t := t.(lost := t.lost + 1); }
    }

    /** `ai_relay_note_cancelled`. */
    method NoteCancelled()
      requires Valid()
      modifies this
      ensures Valid() && s == old(s) && t == old(t).(cancelled := old(t).cancelled + 1)
      ensures l == old(l).(kernelCancelled := old(l).kernelCancelled + 1)
    {
      t := t.(cancelled := t.cancelled + 1);
      l := l.(kernelCancelled := l.kernelCancelled + 1);
    }

    /** `ai_relay_take`: the caller gets exactly the reply that was stored, once, and frees the slot. */
    method Take(caller: int) returns (phase: Phase, reply: Reply)
      requires Valid()
      modifies this
      ensures Valid()
      ensures phase == if (old(s).phase == Finished || old(s).phase == Failed) && old(s).caller == caller
        then old(s).phase else Free
      ensures phase == Free ==> s == old(s) && t == old(t) && l == old(l)
      ensures phase != Free ==> s == old(s).(phase := Free)
      ensures phase == Finished ==> reply == old(s).reply && l == Ended(old(l), s.job)
      ensures phase == Finished ==>
        t == if s.job.kind == GENERATE then old(t).(completed := old(t).completed + 1)
             else if s.job.kind == GGUF_STEP then old(t).(ggufCompleted := old(t).ggufCompleted + 1)
             else old(t).(ggufCompleted := old(t).ggufCompleted + 1, sessions := old(t).sessions + 1,
                          resumed := old(t).resumed + One(s.reply.resumed != 0))
      ensures phase == Failed ==> t == old(t) && l == old(l)
    {
      phase, reply := s.phase, NO_REPLY;
      if (phase != Finished && phase != Failed) || s.caller != caller { return Free, reply; }
      if phase == Finished {
        reply := s.reply;
        l := Ended(l, s.job);
        if s.job.kind == GGUF_STEP {
          t := t.(ggufCompleted := t.ggufCompleted + 1);
        } else if s.job.kind == GGUF_SESSION {
          t := t.(ggufCompleted := t.ggufCompleted + 1, sessions := t.sessions + 1);
          if s.reply.resumed != 0 { t := t.(resumed := t.resumed + 1); }
        } else {
          t := t.(completed := t.completed + 1);
        }
      }
      s := s.(phase := Free);
    }

    /** `ai_relay_drop_caller`: the caller is gone; a job with the worker counts as lost, a stored reply is dropped. */
    method DropCaller()
      requires Valid()
      modifies this
      ensures Valid() && s == old(s).(phase := Free)
      ensures t == if old(s).phase == Sent then old(t).(aborted := old(t).aborted + 1, lost := old(t).lost + 1)
        else old(t)
      ensures l == match old(s).phase
                   case Sent => Ended(old(l), s.job)
                   case Finished => Ended(old(l), s.job).(dropped := old(l).dropped + 1)
                   case _ => old(l)
    {
      if s.phase == Sent {
        t := t.(aborted := t.aborted + 1);
        t := t.(lost := t.lost + 1);
        l := Ended(l, s.job);
      } else if s.phase == Finished {
        l := Ended(l, s.job).(dropped := l.dropped + 1);
      }
      s := s.(phase := Free);
    }
  }

  /** A call of the kernel or of the worker. */
  datatype Call =
    | CallBegin(caller: int, worker: int, prompt: seq<U8>, max: nat, now: U32)
    | CallStep(caller: int, worker: int, tokens: seq<nat>, generated: nat, rng: nat, now: U32)
    | CallSession(caller: int, worker: int, op: nat, session: nat, prompt: seq<U8>, max: nat, tokens: seq<nat>,
                  promptTokens: nat, rng: nat, now: U32)
    | CallCancel
    | CallFetch(sender: int, live: int, id: nat)
    | CallComplete(sender: int, live: int, reply: Reply)
    | CallHeartbeat(sender: int, live: int, id: nat, now: U32)
    | CallFail(reason: Abort)
    | CallNoteCancelled
    | CallTake(caller: int)
    | CallDropCaller

  predicate Takes(s: Slot, caller: int, worker: int) { s.phase == Free && caller > 0 && worker > 0 && caller != worker }

  predicate Reports(s: Slot, sender: int, live: int, id: nat)
  {
    sender > 0 && sender == live && s.phase == Sent && s.worker == sender && s.job.id == id
  }

  /** Where a call takes the slot. */
  function PhaseAfter(s: Slot, c: Call): Phase
  {
    match c
    case CallBegin(caller, worker, _, max, _) => if Takes(s, caller, worker) && max >= 2 then Sent else s.phase
    case CallStep(caller, worker, tokens, generated, _, _) =>
      if Takes(s, caller, worker) && 0 < |tokens| <= TOKENS_MAX && generated <= |tokens| then Sent else s.phase
    case CallSession(caller, worker, op, _, _, max, tokens, promptTokens, _, _) =>
      var stepOk := op == SESSION_STEP && 0 < |tokens| <= TOKENS_MAX && promptTokens <= |tokens|;
      if Takes(s, caller, worker) && max >= 2 && (op == SESSION_START || stepOk) then Sent else s.phase
    case CallCancel => if s.phase == Sent then Free else s.phase
    case CallComplete(sender, live, reply) =>
      if Reports(s, sender, live, reply.job) && Acceptable(s.job, reply) then Finished else s.phase
    case CallFail(_) => if s.phase == Sent then Failed else s.phase
    case CallTake(caller) => if (s.phase == Finished || s.phase == Failed) && s.caller == caller then Free else s.phase
    case CallDropCaller => Free
    case _ => s.phase
  }

  /** Any run of calls: the slot goes where the calls take it; every job forwarded has ended in exactly one of the
      counted ways or is in flight, and every abort has exactly one reason. */
  method Run(r: Relay, calls: seq<Call>) returns (ghost trace: seq<Slot>)
    requires r.Valid() && forall i :: 0 <= i < |calls| && calls[i].CallComplete? ==> |calls[i].reply.text| == TEXT_MAX
    modifies r
    ensures |trace| == |calls| + 1 && trace[0] == old(r.s) && trace[|calls|] == r.s
    ensures forall i :: 0 <= i < |calls| ==> trace[i + 1].phase == PhaseAfter(trace[i], calls[i])
    ensures r.Valid() && r.t.aborted == r.t.stalls + r.t.timeouts + r.t.lost && r.l.kernelCancelled <= r.t.cancelled
    ensures r.t.forwarded + r.t.ggufForwarded == r.t.completed + r.t.ggufCompleted + r.t.aborted
            + (r.t.cancelled - r.l.kernelCancelled) + r.l.dropped + One(InFlight(r.s))
  {
    hide IdsOk, PhaseAfter;
    trace := [r.s];
    for i := 0 to |calls|
      invariant r.Valid() && |trace| == i + 1 && trace[0] == old(r.s) && trace[i] == r.s
      invariant forall k :: 0 <= k < i ==> trace[k + 1].phase == PhaseAfter(trace[k], calls[k])
    {
      Dispatch(r, calls[i]);
      trace := trace + [r.s];
    }
  }

  method Dispatch(r: Relay, c: Call)
    requires r.Valid() && (c.CallComplete? ==> |c.reply.text| == TEXT_MAX)
    modifies r
    ensures r.Valid() && r.s.phase == PhaseAfter(old(r.s), c)
  {
    hide Balanced, IdsOk;
    match c {
      case CallBegin(caller, worker, prompt, max, now) => var rc := r.Begin(caller, worker, prompt, max, now);
      case CallStep(caller, worker, tokens, generated, rng, now) =>
        var rc := r.BeginStep(caller, worker, tokens, generated, rng, now);
      case CallSession(caller, worker, op, session, prompt, max, tokens, promptTokens, rng, now) =>
        var rc := r.BeginSession(caller, worker, op, session, prompt, max, tokens, promptTokens, rng, now);
      case CallCancel => r.Cancel();
      case CallFetch(sender, live, id) => var rc, job := r.Fetch(sender, live, id);
      case CallComplete(sender, live, reply) => var rc := r.Complete(sender, live, reply);
      case CallHeartbeat(sender, live, id, now) => var rc := r.Heartbeat(sender, live, id, now);
      case CallFail(reason) => r.Fail(reason);
      case CallNoteCancelled => r.NoteCancelled();
      case CallTake(caller) => var phase, reply := r.Take(caller);
      case CallDropCaller => r.DropCaller();
    }
  }

  /** The job has ended: counted in its family, its id gone from the worker. */
  function Ended(l: Ledger, j: Job): Ledger
  {
    var m := l.(left := l.left + {j.id});
    if j.kind == GENERATE then m.(plainEnded := m.plainEnded + 1) else m.(ggufEnded := m.ggufEnded + 1)
  }

  /** The prompt up to its terminator, as far as the field holds it. */
  method CopyPrompt(prompt: seq<U8>) returns (p: seq<U8>)
    ensures |p| < PROMPT_MAX && p <= prompt && (forall i :: 0 <= i < |p| ==> p[i] != 0)
    ensures |p| == PROMPT_MAX - 1 || |p| == |prompt| || prompt[|p|] == 0
  {
    p := [];
    while |p| < |prompt| && prompt[|p|] != 0 && |p| + 1 < PROMPT_MAX
      invariant |p| < PROMPT_MAX && p <= prompt && forall i :: 0 <= i < |p| ==> p[i] != 0
      decreases |prompt| - |p|
    {
      p := p + [prompt[|p|]];
    }
  }
}
