/** Safety of whole firmware-update runs: any number of calls, from either world, with any platform answers. */
module FwuRuns {
  import opened Bytes
  import opened FwuModel
  import opened FwuInvariant
  import opened FwuSteps
  import opened Wrappers

  // ----- reading the log

  function TrackOf(log: seq<Event>, id: ImageId): Track {
    if log == [] then FRESH else Observe(TrackOf(log[..|log| - 1], id), id, log[|log| - 1])
  }

  /** The bytes offered for `id` since its last first block, in order. */
  function Offered(log: seq<Event>, id: ImageId): seq<byte> {
    if log == [] then []
    else
      var before, ev := Offered(log[..|log| - 1], id), log[|log| - 1];
      if ev.Quiet? || ev.id != id then before
      else if ev.Supplied? then (if ev.first then [] else before) + ev.block
      else if ev.Released? then []
      else before
  }

  /** Event `ev` starts, replaces or ends the presence of image `id` in memory. */
  predicate Concerns(ev: Event, id: ImageId) {
    !ev.Quiet? && ev.id == id && !ev.Started?
  }

  /** Event `m` accepted exactly `bytes` for the copied image `id`, and nothing has touched `id` since. */
  ghost predicate AcceptedAt(log: seq<Event>, id: ImageId, bytes: seq<byte>, m: nat) {
    m < |log| && log[m] == Accepted(id, false, bytes) && forall n :: m < n < |log| ==> !Concerns(log[n], id)
  }

  /** Some block of `id` was supplied, and `id` has neither been released nor taken in place since. */
  ghost predicate EnteredByCopy(log: seq<Event>, id: ImageId) {
    exists m :: 0 <= m < |log| && log[m].Supplied? && log[m].id == id && forall n :: m < n < |log| ==>
      Concerns(log[n], id) ==> log[n].Supplied? || (log[n].Accepted? && !log[n].inPlace)
  }

  lemma {:induction false} OfferedIsSupplied(log: seq<Event>, id: ImageId)
    ensures TrackOf(log, id).supplied == Offered(log, id)
  {
    if log != [] {
      OfferedIsSupplied(log[..|log| - 1], id);
    }
  }

  lemma {:induction false} AcceptedIsInLog(log: seq<Event>, id: ImageId, bytes: seq<byte>)
    requires TrackOf(log, id).accepted == Some(bytes) && TrackOf(log, id).viaCopy
    ensures exists m: nat :: AcceptedAt(log, id, bytes, m)
  {
    assert log != [];
    var before, ev := log[..|log| - 1], log[|log| - 1];
    if Concerns(ev, id) {
      assert AcceptedAt(log, id, bytes, |log| - 1);
    } else {
      AcceptedIsInLog(before, id, bytes);
      var m: nat :| AcceptedAt(before, id, bytes, m);
      forall n | m < n < |log|
        ensures !Concerns(log[n], id)
      {
        assert n < |before| ==> log[n] == before[n];
      }
      assert AcceptedAt(log, id, bytes, m);
    }
  }

  /** An image with a supplied block, and since then only further blocks or acceptances where it was copied to, is
      tracked as one that came in through copies. */
  lemma {:induction false} EnteredIsTracked(log: seq<Event>, id: ImageId, m: nat)
    requires m < |log| && log[m].Supplied? && log[m].id == id
    requires forall n :: m < n < |log| ==>
      Concerns(log[n], id) ==> log[n].Supplied? || (log[n].Accepted? && !log[n].inPlace)
    ensures TrackOf(log, id).viaCopy
  {
    if m < |log| - 1 {
      var before := log[..|log| - 1];
      forall n | m < n < |before|
        ensures Concerns(before[n], id) ==> before[n].Supplied? || (before[n].Accepted? && !before[n].inPlace)
      {
        assert before[n] == log[n];
      }
      EnteredIsTracked(before, id, m);
    }
  }

  // ----- the invariants hold throughout

  ghost function TrackedOf(plat: Platform, s: Sys): Tracked {
    Tracked(s.st, map id | id in plat :: TrackOf(s.log, id))
  }

  /** No AUTH call comes from the secure world. */
  ghost predicate NormalDriven(calls: seq<Call>, trace: seq<Sys>)
    requires |trace| == |calls| + 1
  {
    forall k :: 0 <= k < |calls| && calls[k].AuthCall? ==> trace[k].st.world == NonSecure
  }

  lemma {:induction false} LeadsStep(plat: Platform, s: Sys, c: Call, s': Sys)
    requires IsStep(plat, s, c, s')
    ensures Leads(TrackedOf(plat, s), Step(plat, s.st, c), TrackedOf(plat, s'))
  {
    var ev := Step(plat, s.st, c).ev;
    assert s'.log[..|s'.log| - 1] == s.log;
    assert TrackedOf(plat, s').tr == ObserveAll(TrackedOf(plat, s).tr, ev);
  }

  lemma {:induction false} SysStepKeeps(plat: Platform, s: Sys, c: Call, s': Sys, content: bool)
    requires IsStep(plat, s, c, s') && Inv(plat, TrackedOf(plat, s), content)
    requires content && c.AuthCall? ==> s.st.world == NonSecure
    ensures Inv(plat, TrackedOf(plat, s'), content) && |s'.log| == |s.log| + 1
  {
    LeadsStep(plat, s, c, s');
    StepKeeps(plat, TrackedOf(plat, s), c, TrackedOf(plat, s'), content);
  }

  lemma {:induction false} InitialInv(plat: Platform, s: Sys, boot: ImageId)
    requires Initial(plat, s.st, boot) && s.log == []
    ensures Inv(plat, TrackedOf(plat, s), true)
  {
    var t := TrackedOf(plat, s);
    forall id | id in plat
      ensures Good(plat, t, true, id)
    {
      assert t.tr[id] == FRESH;
    }
    forall i, j | i in plat && j in plat
      ensures PairApart(plat, t, i, j)
    {
      assert t.tr[i] == FRESH;
    }
  }

  /** The invariant holds up to position `k` of a trace, and each call has logged one event. */
  ghost predicate InvUpTo(plat: Platform, trace: seq<Sys>, k: nat, content: bool)
    requires k < |trace|
  {
    && (k > 0 ==> InvUpTo(plat, trace, k - 1, content))
    && Inv(plat, TrackedOf(plat, trace[k]), content) && |trace[k].log| == k
  }

  lemma {:induction false} RunInvUpTo(plat: Platform, boot: ImageId, calls: seq<Call>, trace: seq<Sys>, k: nat,
                                      content: bool)
    requires IsRun(plat, boot, calls, trace) && k <= |calls|
    requires content ==> NormalDriven(calls, trace)
    ensures InvUpTo(plat, trace, k, content)
  {
    if k == 0 {
      StartInv(plat, trace[0], boot, content);
    } else {
      RunInvUpTo(plat, boot, calls, trace, k - 1, content);
      RunStep(plat, boot, calls, trace, k - 1, content);
    }
  }

  lemma {:induction false} RunInv(plat: Platform, boot: ImageId, calls: seq<Call>, trace: seq<Sys>, k: nat,
                                  content: bool)
    requires IsRun(plat, boot, calls, trace) && k <= |calls|
    requires content ==> NormalDriven(calls, trace)
    ensures Inv(plat, TrackedOf(plat, trace[k]), content) && |trace[k].log| == k
  {
    RunInvUpTo(plat, boot, calls, trace, k, content);
  }

  lemma {:induction false} RunStep(plat: Platform, boot: ImageId, calls: seq<Call>, trace: seq<Sys>, n: nat,
                                   content: bool)
    requires IsRun(plat, boot, calls, trace) && n < |calls|
    requires content ==> NormalDriven(calls, trace)
    requires Inv(plat, TrackedOf(plat, trace[n]), content)
    ensures Inv(plat, TrackedOf(plat, trace[n + 1]), content) && |trace[n + 1].log| == |trace[n].log| + 1
  {
    assert IsStep(plat, trace[n], calls[n], trace[n + 1]);
    SysStepKeeps(plat, trace[n], calls[n], trace[n + 1], content);
  }

  lemma {:induction false} StartInv(plat: Platform, s: Sys, boot: ImageId, content: bool)
    requires Initial(plat, s.st, boot) && s.log == []
    ensures Inv(plat, TrackedOf(plat, s), content)
  {
    InitialInv(plat, s, boot);
    if !content {
      Weaken(plat, TrackedOf(plat, s));
    }
  }

  lemma {:induction false} Weaken(plat: Platform, s: Tracked)
    requires Inv(plat, s, true)
    ensures Inv(plat, s, false)
  {
    forall id | id in plat
      ensures Good(plat, s, false, id)
    {
      assert Good(plat, s, true, id);
    }
  }

  // ----- what the runs guarantee

  /** Only EXECUTE starts an image, and only on the bytes last accepted for it. */
  lemma {:induction false} StartedOnAccepted(plat: Platform, s: Sys, c: Call, id: ImageId, bytes: seq<byte>)
    requires Inv(plat, TrackedOf(plat, s), true) && ArgsFit(c)
    requires Step(plat, s.st, c).Done? && Step(plat, s.st, c).ev == Started(id, bytes)
    ensures id in plat && plat[id].base + s.st.descs[id].imageSize <= |s.st.mem|
    ensures bytes == s.st.mem[plat[id].base..plat[id].base + s.st.descs[id].imageSize]
    ensures TrackOf(s.log, id).viaCopy && TrackOf(s.log, id).accepted == Some(bytes)
    ensures bytes <= TrackOf(s.log, id).supplied
  {
    OnlyExecuteStarts(plat, s.st, c, id, bytes);
    assert Good(plat, TrackedOf(plat, s), true, id);
  }

  lemma {:induction false} OnlyExecuteStarts(plat: Platform, st: Fwu, c: Call, id: ImageId, bytes: seq<byte>)
    requires Shape(plat, st) && ArgsFit(c) && Step(plat, st, c).Done? && Step(plat, st, c).ev == Started(id, bytes)
    ensures c == ExecuteCall(id) && id in plat && plat[id].world == Secure && st.descs[id].state == Authenticated
    ensures plat[id].base + st.descs[id].imageSize <= |st.mem| ==>
      bytes == st.mem[plat[id].base..plat[id].base + st.descs[id].imageSize]
  {
  }

  /** A secure image starts only on bytes that were accepted for it and that nothing has touched since.
      Those bytes are its memory from its base over its recorded size, and they are the blocks the
      caller offered, in order, cut at the image size. */
  lemma {:induction false} StartedBytesWereAccepted(plat: Platform, boot: ImageId, calls: seq<Call>, trace: seq<Sys>,
                                                    k: nat, id: ImageId, bytes: seq<byte>)
    requires IsRun(plat, boot, calls, trace) && NormalDriven(calls, trace) && k < |calls|
    requires |trace[k + 1].log| == k + 1 && trace[k + 1].log[k] == Started(id, bytes)
    ensures exists m: nat :: AcceptedAt(trace[k].log, id, bytes, m)
    ensures id in plat && id in trace[k].st.descs
    ensures plat[id].base + trace[k].st.descs[id].imageSize <= |trace[k].st.mem|
    ensures bytes == trace[k].st.mem[plat[id].base..plat[id].base + trace[k].st.descs[id].imageSize]
    ensures bytes <= Offered(trace[k].log, id)
  {
    RunInv(plat, boot, calls, trace, k, true);
    assert IsStep(plat, trace[k], calls[k], trace[k + 1]);
    StartedOnAccepted(plat, trace[k], calls[k], id, bytes);
    AcceptedIsInLog(trace[k].log, id, bytes);
    OfferedIsSupplied(trace[k].log, id);
  }

  /** In every reachable state two images that came in through copies, and are still in, do not overlap. */
  lemma {:induction false} CopiedImagesApart(plat: Platform, boot: ImageId, calls: seq<Call>, trace: seq<Sys>, k: nat,
                                             i: ImageId, j: ImageId)
    requires IsRun(plat, boot, calls, trace) && k <= |calls|
    requires i in plat && j in plat && i != j
    requires EnteredByCopy(trace[k].log, i) && EnteredByCopy(trace[k].log, j)
    ensures i in trace[k].st.descs && j in trace[k].st.descs
    ensures trace[k].st.descs[i].state != Reset && trace[k].st.descs[j].state != Reset
    ensures Apart(plat[i].base, trace[k].st.descs[i].imageSize, plat[j].base, trace[k].st.descs[j].imageSize)
    ensures 0 < trace[k].st.descs[i].imageSize <= plat[i].maxSize
  {
    RunInv(plat, boot, calls, trace, k, false);
    var s, log := TrackedOf(plat, trace[k]), trace[k].log;
    var m :| 0 <= m < |log| && log[m].Supplied? && log[m].id == i && forall n :: m < n < |log| ==>
      Concerns(log[n], i) ==> log[n].Supplied? || (log[n].Accepted? && !log[n].inPlace);
    EnteredIsTracked(log, i, m);
    m :| 0 <= m < |log| && log[m].Supplied? && log[m].id == j && forall n :: m < n < |log| ==>
      Concerns(log[n], j) ==> log[n].Supplied? || (log[n].Accepted? && !log[n].inPlace);
    EnteredIsTracked(log, j, m);
    assert Good(plat, s, false, i) && Good(plat, s, false, j);
    assert PairApart(plat, s, i, j);
  }

  /** The chunks of a copy amount to one copy. While copying, the copied size is the length of what was
      offered, it is neither zero nor the whole image, and memory holds it; once copied, memory holds
      the first image-size bytes of what was offered. */
  lemma {:induction false} ChunksMakeTheImage(plat: Platform, boot: ImageId, calls: seq<Call>, trace: seq<Sys>, k: nat,
                                              id: ImageId)
    requires IsRun(plat, boot, calls, trace) && NormalDriven(calls, trace) && k <= |calls|
    requires id in plat && id in trace[k].st.descs
    requires trace[k].st.descs[id].state == Copying || trace[k].st.descs[id].state == Copied
    ensures var a, d, offered, mem := plat[id], trace[k].st.descs[id], Offered(trace[k].log, id), trace[k].st.mem;
      && 0 < d.copiedSize <= d.imageSize <= a.maxSize
      && (d.state == Copying <==> d.copiedSize < d.imageSize)
      && (d.state == Copying ==> |offered| == d.copiedSize)
      && a.base + d.copiedSize <= |mem|
      && mem[a.base..a.base + d.copiedSize] <= offered
  {
    RunInv(plat, boot, calls, trace, k, true);
    OfferedIsSupplied(trace[k].log, id);
    assert Good(plat, TrackedOf(plat, trace[k]), true, id);
  }

  /** The executing secure image, the running world and the last executed ID agree in every reachable
      state; the image is in the table; and whatever else has left Reset is in the table too. */
  lemma {:induction false} WorldsAgree(plat: Platform, boot: ImageId, calls: seq<Call>, trace: seq<Sys>, k: nat,
                                       id: ImageId)
    requires IsRun(plat, boot, calls, trace) && k <= |calls|
    requires id in plat && plat[id].world == Secure
    ensures id in trace[k].st.descs
    ensures trace[k].st.descs[id].state == Executed <==> trace[k].st.world == Secure && id == trace[k].st.secExec
    ensures trace[k].st.descs[id].state != Reset ==> id in trace[k].st.loaded
    ensures trace[k].st.world == Secure ==> trace[k].st.secExec in plat && plat[trace[k].st.secExec].world == Secure
  {
    RunInv(plat, boot, calls, trace, k, false);
    assert Good(plat, TrackedOf(plat, trace[k]), false, id);
  }

  // ----- which assertions can fail

  /** Some table slot makes the overlap scan's own assertions fail before any overlap is found: it holds
      another image that is in Reset, or whose recorded range has a single byte or wraps. */
  ghost predicate ScanTrips(plat: Platform, st: Fwu, id: ImageId, lo: nat, hi: nat, k: nat)
    requires st.descs.Keys == plat.Keys
  {
    && k < |st.loaded| && Trips(plat, st, id, st.loaded[k])
    && forall j :: 0 <= j < k ==> Passes(plat, st, id, lo, hi, st.loaded[j])
  }

  ghost predicate ScanStops(plat: Platform, st: Fwu, id: ImageId, lo: nat, hi: nat)
    requires st.descs.Keys == plat.Keys
  {
    exists k: nat :: ScanTrips(plat, st, id, lo, hi, k)
  }

  predicate Trips(plat: Platform, st: Fwu, id: ImageId, other: ImageId)
    requires st.descs.Keys == plat.Keys
  {
    && other != INVALID_IMAGE_ID && other != id
    && (other !in plat || st.descs[other].state == Reset || st.descs[other].imageSize == 1
        || plat[other].base + st.descs[other].imageSize > ADDR_SPACE)
  }

  /** The slot is skipped, or holds an image apart from [lo, hi]. */
  predicate Passes(plat: Platform, st: Fwu, id: ImageId, lo: nat, hi: nat, other: ImageId)
    requires st.descs.Keys == plat.Keys
  {
    || other == INVALID_IMAGE_ID || other == id
    || (!Trips(plat, st, id, other) && other in plat
        && (st.descs[other].imageSize == 0 || plat[other].base + st.descs[other].imageSize <= lo
            || hi < plat[other].base))
  }

  lemma {:induction false} ScanFrom(plat: Platform, st: Fwu, id: ImageId, lo: nat, hi: nat, i: nat)
    requires Shape(plat, st) && i <= |st.loaded|
    requires forall j :: 0 <= j < i ==> Passes(plat, st, id, lo, hi, st.loaded[j])
    ensures ScanOverlaps(plat, st, id, lo, hi, i) == AssertFails <==> ScanStops(plat, st, id, lo, hi)
    decreases |st.loaded| - i
  {
    if i == |st.loaded| {
      forall k: nat | ScanTrips(plat, st, id, lo, hi, k)
        ensures false
      {
      }
      return;
    }
    var other := st.loaded[i];
    EndOfRange(plat, st, other);
    if Passes(plat, st, id, lo, hi, other) {
      ScanFrom(plat, st, id, lo, hi, i + 1);
    } else if Trips(plat, st, id, other) {
      assert ScanTrips(plat, st, id, lo, hi, i);
    } else {
      forall k: nat | ScanTrips(plat, st, id, lo, hi, k)
        ensures false
      {
      }
    }
  }

  /** The last address of a range, in 64-bit arithmetic, is above its base exactly when the range has
      two or more bytes and does not wrap. */
  lemma {:induction false} EndOfRange(plat: Platform, st: Fwu, other: ImageId)
    requires Shape(plat, st)
    ensures other in plat && st.descs[other].imageSize != 0 ==>
      var base, size := plat[other].base, st.descs[other].imageSize;
      var end := (base + size - 1) % ADDR_SPACE;
      && (end <= base <==> size == 1 || base + size > ADDR_SPACE)
      && (base + size <= ADDR_SPACE ==> end == base + size - 1)
  {
  }

  /** When a call halts, in any reachable state: the conditions are on the state before the call and the
      platform's answers, and they are exact. In particular SEC_IMAGE_DONE never halts, RESUME from the
      secure world never halts, and a continued copy never fails its assertions. */
  ghost predicate HaltCondition(plat: Platform, st: Fwu, c: Call)
    requires Shape(plat, st) && ArgsFit(c)
  {
    match c
    case CopyCall(id, src, blockSize, imageSize, _, _) =>
      && id in plat && st.world == NonSecure && plat[id].world == Secure && st.descs[id].state == Reset
      && !BadSource(src, blockSize) && 0 < imageSize <= plat[id].maxSize
      && ScanStops(plat, st, id, plat[id].base, plat[id].base + imageSize - 1)
    case AuthCall(id, src, imageSize, mapped, verdict, postLoadOk) =>
      && id in plat && st.descs[id].state == AuthState(plat, st, id) && verdict && !postLoadOk
      && (st.descs[id].state == Reset ==> !BadSource(src, imageSize) && mapped && AddLoaded(st.loaded, id).Some?)
    case ExecuteCall(_) => false
    case ResumeCall(_) => st.world == NonSecure && st.secExec in plat && st.descs[st.secExec].state != Interrupted
    case SecImageDoneCall => false
    case ResetCall(id) => id in plat && st.world == NonSecure && st.descs[id].state == Executed
    case UpdateDoneCall => true
    case WorldWrite(_, _) => false
  }

  lemma {:induction false} HaltsExactlyWhen(plat: Platform, boot: ImageId, calls: seq<Call>, trace: seq<Sys>, k: nat,
                                            c: Call)
    requires IsRun(plat, boot, calls, trace) && k <= |calls| && ArgsFit(c)
    ensures Shape(plat, trace[k].st)
    ensures Step(plat, trace[k].st, c).Halted? <==> HaltCondition(plat, trace[k].st, c)
  {
    RunInv(plat, boot, calls, trace, k, false);
    var s := TrackedOf(plat, trace[k]);
    match c
    case CopyCall(id, src, blockSize, imageSize, mapped, preLoadOk) =>
      if id in plat {
        assert Good(plat, s, false, id);
        CopyHalts(plat, s.st, id, src, blockSize, imageSize, mapped, preLoadOk);
      }
    case AuthCall(id, _, _, _, _, _) =>
    case ExecuteCall(_) =>
    case ResumeCall(_) =>
      if s.st.secExec in plat {
        assert Good(plat, s, false, s.st.secExec);
      }
    case SecImageDoneCall =>
      if s.st.secExec in plat {
        assert Good(plat, s, false, s.st.secExec);
      }
    case ResetCall(id) =>
      if id in plat {
        assert Good(plat, s, false, id);
      }
    case UpdateDoneCall =>
    case WorldWrite(_, _) =>
  }

  lemma {:induction false} CopyHalts(plat: Platform, st: Fwu, id: ImageId, src: nat, blockSize: nat, imageSize: nat,
                                     mapped: bool, preLoadOk: bool)
    requires Shape(plat, st) && id in plat && src < ADDR_SPACE && blockSize < U32 && imageSize < U32
    requires plat[id].world == Secure && st.descs[id].state == Copying ==>
      0 < st.descs[id].copiedSize < st.descs[id].imageSize
    ensures Copy(plat, st, id, src, blockSize, imageSize, mapped, preLoadOk).Halted?
      <==> HaltCondition(plat, st, CopyCall(id, src, blockSize, imageSize, mapped, preLoadOk))
  {
    if st.world == NonSecure && plat[id].world == Secure && st.descs[id].state == Reset
       && !BadSource(src, blockSize) && 0 < imageSize <= plat[id].maxSize {
      FirstScanHalts(plat, st, id, imageSize);
    }
  }

  lemma {:induction false} FirstScanHalts(plat: Platform, st: Fwu, id: ImageId, imageSize: nat)
    requires Shape(plat, st) && id in plat && st.descs[id].state == Reset && 0 < imageSize <= plat[id].maxSize
    ensures var sized := WithDesc(st, id, st.descs[id].(imageSize := imageSize));
      ScanOverlaps(plat, sized, id, plat[id].base, plat[id].base + imageSize - 1, 0) == AssertFails
      <==> ScanStops(plat, st, id, plat[id].base, plat[id].base + imageSize - 1)
  {
    var sized := WithDesc(st, id, st.descs[id].(imageSize := imageSize));
    var lo, hi := plat[id].base, plat[id].base + imageSize - 1;
    ScanFrom(plat, sized, id, lo, hi, 0);
    SameScan(plat, st, sized, id, lo, hi);
  }

  /** The scan does not look at the image it is for. */
  lemma {:induction false} SameScan(plat: Platform, st: Fwu, sized: Fwu, id: ImageId, lo: nat, hi: nat)
    requires st.descs.Keys == plat.Keys == sized.descs.Keys && st.loaded == sized.loaded
    requires forall j :: j in plat && j != id ==> st.descs[j] == sized.descs[j]
    ensures ScanStops(plat, st, id, lo, hi) <==> ScanStops(plat, sized, id, lo, hi)
  {
    forall other
      ensures Trips(plat, st, id, other) <==> Trips(plat, sized, id, other)
      ensures Passes(plat, st, id, lo, hi, other) <==> Passes(plat, sized, id, lo, hi, other)
    {
    }
    forall k: nat
      ensures ScanTrips(plat, st, id, lo, hi, k) <==> ScanTrips(plat, sized, id, lo, hi, k)
    {
    }
  }

  /** Every copied image of one byte, and every ID left in the table by a failed pre-load hook, stops the
      first copy of any other image from succeeding: the call halts or is refused. */
  lemma {:induction false} TrippingSlotBlocksCopies(plat: Platform, st: Fwu, slot: nat, id: ImageId, src: nat,
                                                    blockSize: nat, imageSize: nat, mapped: bool, preLoadOk: bool)
    requires Shape(plat, st) && slot < |st.loaded| && Trips(plat, st, id, st.loaded[slot])
    requires id in plat && st.descs[id].state == Reset && src < ADDR_SPACE && blockSize < U32 && imageSize < U32
    ensures var r := Copy(plat, st, id, src, blockSize, imageSize, mapped, preLoadOk); r.Halted? || r.ret != Success
  {
    if 0 < imageSize <= plat[id].maxSize {
      var sized := WithDesc(st, id, st.descs[id].(imageSize := imageSize));
      var lo, hi := plat[id].base, plat[id].base + imageSize - 1;
      if ScanOverlaps(plat, sized, id, lo, hi, 0) == Clear {
        ScanClearPasses(plat, sized, id, lo, hi, 0, slot);
      }
    }
  }

  lemma {:induction false} ScanClearPasses(plat: Platform, st: Fwu, id: ImageId, lo: nat, hi: nat, i: nat, slot: nat)
    requires Shape(plat, st) && i <= slot < |st.loaded|
    requires ScanOverlaps(plat, st, id, lo, hi, i) == Clear
    ensures !Trips(plat, st, id, st.loaded[slot])
    decreases slot - i
  {
    EndOfRange(plat, st, st.loaded[i]);
    if i < slot {
      ScanClearPasses(plat, st, id, lo, hi, i + 1, slot);
    }
  }

  /** The documentation promises that a normal-world RESUME without an interrupted image is refused.
      It is not: once an interrupted image has been reset, the stale ID makes the next RESUME halt. */
  lemma {:induction false} ResumeAfterResetHalts(plat: Platform, st: Fwu, param: int)
    requires Shape(plat, st) && st.world == NonSecure && st.secExec in plat && plat[st.secExec].world == Secure
    requires st.descs[st.secExec].state == Interrupted && st.secExec in st.loaded
    ensures var r := ResetImage(plat, st, st.secExec);
      r.Done? && r.ret == Success && Resume(plat, r.st, param).Halted?
  {
    assert IndexOf(st.loaded, st.secExec) < |st.loaded|;
  }
}
