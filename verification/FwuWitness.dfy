/** Runs of the firmware-update service that end in a failed assertion, from any initial state. */
module FwuWitness {
  import opened Bytes
  import opened FwuModel
  import opened FwuRuns
  import opened Wrappers

  /** The calls `calls` lead from an initial state to `s`. */
  ghost predicate Reaches(plat: Platform, boot: ImageId, calls: seq<Call>, s: Sys)
    decreases |calls|
  {
    if |calls| == 0 then Initial(plat, s.st, boot) && s.log == []
    else
      var n := |calls| - 1;
      exists p: Sys :: Reaches(plat, boot, calls[..n], p) && IsStep(plat, p, calls[n], s)
  }

  /** That is to say, some run ends in `s`. */
  lemma {:induction false} ReachesIsRun(plat: Platform, boot: ImageId, calls: seq<Call>, s: Sys)
    returns (trace: seq<Sys>)
    requires Reaches(plat, boot, calls, s)
    ensures IsRun(plat, boot, calls, trace) && trace[|calls|] == s
    decreases |calls|
  {
    if |calls| == 0 {
      trace := [s];
    } else {
      var n := |calls| - 1;
      Front(calls);
      var p: Sys :| Reaches(plat, boot, calls[..n], p) && IsStep(plat, p, calls[n], s);
      var before := ReachesIsRun(plat, boot, calls[..n], p);
      trace := before + [s];
      RunLonger(plat, boot, calls[..n], before, calls[n], s);
    }
  }

  lemma {:induction false} Front(calls: seq<Call>)
    requires |calls| > 0
    ensures calls[..|calls| - 1] + [calls[|calls| - 1]] == calls
  {
  }

  lemma {:induction false} RunLonger(plat: Platform, boot: ImageId, calls: seq<Call>, trace: seq<Sys>, c: Call, s: Sys)
    requires IsRun(plat, boot, calls, trace) && IsStep(plat, trace[|calls|], c, s)
    ensures IsRun(plat, boot, calls + [c], trace + [s])
  {
    var calls', trace' := calls + [c], trace + [s];
    forall i | 0 <= i < |calls'|
      ensures IsStep(plat, trace'[i], calls'[i], trace'[i + 1])
    {
      if i < |calls| {
        assert calls[i] == calls'[i] && trace'[i] == trace[i] && trace'[i + 1] == trace[i + 1];
        assert IsStep(plat, trace[i], calls[i], trace[i + 1]);
      }
    }
  }

  lemma {:induction false} ReachesNext(plat: Platform, boot: ImageId, calls: seq<Call>, s: Sys, c: Call, s': Sys)
    requires Reaches(plat, boot, calls, s) && IsStep(plat, s, c, s')
    ensures Reaches(plat, boot, calls + [c], s')
  {
    Back(calls, c);
  }

  lemma {:induction false} Back(calls: seq<Call>, c: Call)
    ensures (calls + [c])[..|calls|] == calls && (calls + [c])[|calls|] == c
  {
  }

  /** `trace` is a run of the calls, and in its last state `c` halts. */
  ghost predicate HaltsAfter(plat: Platform, boot: ImageId, calls: seq<Call>, trace: seq<Sys>, c: Call) {
    && IsRun(plat, boot, calls, trace) && Shape(plat, trace[|calls|].st) && ArgsFit(c)
    && Step(plat, trace[|calls|].st, c).Halted?
  }

  /** The first block of a one-byte image. */
  function OneByte(id: ImageId, preLoadOk: bool): Call { CopyCall(id, 1, 1, 1, true, preLoadOk) }

  /** The first copy in an initial state: the table and what becomes of the image. */
  lemma {:induction false} FirstCopy(plat: Platform, st: Fwu, boot: ImageId, id: ImageId, preLoadOk: bool)
    requires Initial(plat, st, boot) && id in plat && plat[id].world == Secure && plat[id].maxSize > 0
    ensures var r := Step(plat, st, OneByte(id, preLoadOk));
      && r.Done? && Shape(plat, r.st) && r.st.world == NonSecure && r.st.loaded == st.loaded[0 := id]
      && r.st.descs == st.descs[id := if preLoadOk then Desc(Copied, 1, 1) else Desc(Reset, 0, 1)]
  {
    var d, base := st.descs[id], plat[id].base;
    AllFree(plat, WithDesc(st, id, d.(imageSize := 1)), id, base, base, 0);
    NotThere(st.loaded, id);
    assert AddLoaded(st.loaded, id) == Some(st.loaded[0 := id]);
    var sized := WithDesc(st, id, Desc(Reset, 0, 1));
    assert sized.descs[id] == d.(imageSize := 1, copiedSize := 0);
    assert Copy(plat, st, id, 1, 1, 1, true, preLoadOk) == CopyBlock(plat, sized, id, 1, 1, true, preLoadOk);
    if preLoadOk {
      WholeBlock(plat, sized, id, 1, 1, st.loaded[0 := id]);
      assert sized.descs[id := Desc(Copied, 1, 1)] == st.descs[id := Desc(Copied, 1, 1)];
    } else {
      FailedPreLoad(plat, sized, id, 1, 1, st.loaded[0 := id]);
    }
  }

  /** A block that is the whole image. */
  lemma {:induction false} WholeBlock(plat: Platform, st: Fwu, id: ImageId, src: nat, size: nat, loaded: seq<ImageId>)
    requires Shape(plat, st) && id in plat && !BadSource(src, size) && st.descs[id] == Desc(Reset, 0, size)
    requires 0 < size <= plat[id].maxSize && AddLoaded(st.loaded, id) == Some(loaded)
    ensures var r := CopyBlock(plat, st, id, src, size, true, true);
      && r.Done? && r.st.world == st.world && r.st.loaded == loaded
      && r.st.descs == st.descs[id := Desc(Copied, size, size)]
  {
  }

  lemma {:induction false} FailedPreLoad(plat: Platform, st: Fwu, id: ImageId, src: nat, size: nat,
                                         loaded: seq<ImageId>)
    requires Shape(plat, st) && id in plat && !BadSource(src, size) && st.descs[id] == Desc(Reset, 0, size)
    requires 0 < size <= plat[id].maxSize && AddLoaded(st.loaded, id) == Some(loaded)
    ensures CopyBlock(plat, st, id, src, size, true, false) == Refuse(st.(loaded := loaded), EPERM)
  {
  }

  lemma {:induction false} NotThere(loaded: seq<ImageId>, id: ImageId)
    requires id !in loaded
    ensures IndexOf(loaded, id) == |loaded|
  {
    assert forall i :: 0 <= i < |loaded| ==> loaded[i] in loaded;
  }

  lemma {:induction false} AllFree(plat: Platform, st: Fwu, id: ImageId, lo: nat, hi: nat, i: nat)
    requires st.descs.Keys == plat.Keys
    requires forall k :: i <= k < |st.loaded| ==> st.loaded[k] == INVALID_IMAGE_ID
    ensures ScanOverlaps(plat, st, id, lo, hi, i) == Clear
    decreases |st.loaded| - i
  {
    if i < |st.loaded| {
      AllFree(plat, st, id, lo, hi, i + 1);
    }
  }

  /** One more call of a run. */
  lemma {:induction false} Took(plat: Platform, boot: ImageId, calls: seq<Call>, s: Sys, c: Call) returns (s': Sys)
    requires Reaches(plat, boot, calls, s) && Shape(plat, s.st) && ArgsFit(c) && Step(plat, s.st, c).Done?
    ensures Reaches(plat, boot, calls + [c], s') && s'.st == Step(plat, s.st, c).st
  {
    var r := Step(plat, s.st, c);
    s' := Sys(r.st, s.log + [r.ev]);
    ReachesNext(plat, boot, calls, s, c, s');
  }

  /** A run of one copy. */
  lemma {:induction false} CopyOnce(plat: Platform, st: Fwu, boot: ImageId, id: ImageId, preLoadOk: bool)
    returns (s: Sys)
    requires Initial(plat, st, boot) && id in plat && plat[id].world == Secure && plat[id].maxSize > 0
    ensures Reaches(plat, boot, [OneByte(id, preLoadOk)], s) && Shape(plat, s.st) && s.st.world == NonSecure
    ensures s.st.loaded == st.loaded[0 := id]
    ensures s.st.descs == st.descs[id := if preLoadOk then Desc(Copied, 1, 1) else Desc(Reset, 0, 1)]
  {
    FirstCopy(plat, st, boot, id, preLoadOk);
    s := Took(plat, boot, [], Sys(st, []), OneByte(id, preLoadOk));
    assert [] + [OneByte(id, preLoadOk)] == [OneByte(id, preLoadOk)];
  }

  /** One copy of a one-byte image, or one whose pre-load hook fails, and the next image that is copied for the first
      time, whichever it is, fails an assertion of the overlap check. */
  lemma {:induction false} OneByteRunHalts(plat: Platform, st: Fwu, boot: ImageId, id: ImageId, preLoadOk: bool,
                                           other: ImageId)
    requires Initial(plat, st, boot) && id in plat && plat[id].world == Secure && plat[id].maxSize > 0
    requires other in plat && other != id && plat[other].world == Secure && plat[other].maxSize > 0
    ensures exists trace: seq<Sys> :: HaltsAfter(plat, boot, [OneByte(id, preLoadOk)], trace, OneByte(other, true))
  {
    var s := CopyOnce(plat, st, boot, id, preLoadOk);
    assert s.st.descs[other] == st.descs[other];
    FirstSlotTrips(plat, s.st, id, other);
    var trace := ReachesIsRun(plat, boot, [OneByte(id, preLoadOk)], s);
    assert HaltsAfter(plat, boot, [OneByte(id, preLoadOk)], trace, OneByte(other, true));
  }

  lemma {:induction false} FirstSlotTrips(plat: Platform, st: Fwu, id: ImageId, other: ImageId)
    requires Shape(plat, st) && st.world == NonSecure && other in plat && other != id && st.loaded[0] == id
    requires plat[other].world == Secure && plat[other].maxSize > 0 && st.descs[other].state == Reset
    requires Trips(plat, st, other, id)
    ensures Step(plat, st, OneByte(other, true)).Halted?
  {
    CopyHalts(plat, st, other, 1, 1, 1, true, true);
    assert ScanTrips(plat, st, other, plat[other].base, plat[other].base, 0);
  }

  /** The calls up to the reset of an interrupted image. */
  function UntilReset(id: ImageId, param: int): seq<Call> {
    [OneByte(id, true), AuthCall(id, 0, 0, true, true, true), ExecuteCall(id), ResumeCall(param), ResetCall(id)]
  }

  /** From any initial state: copy, authenticate, execute, an interruption by the secure world, a reset of the
      interrupted image, and then the normal world's RESUME halts. */
  lemma {:induction false} ResetThenResumeHalts(plat: Platform, st: Fwu, boot: ImageId, id: ImageId, param: int)
    requires Initial(plat, st, boot) && id in plat && plat[id].world == Secure && plat[id].maxSize > 0
    requires plat[id].executable
    ensures exists trace: seq<Sys> :: HaltsAfter(plat, boot, UntilReset(id, param), trace, ResumeCall(param))
  {
    var s := UntilInterrupted(plat, st, boot, id, param);
    s := ResetNext(plat, boot, UntilReset(id, param)[..4], s, id, param);
    FiveCalls(id, param);
    var trace := ReachesIsRun(plat, boot, UntilReset(id, param), s);
    assert HaltsAfter(plat, boot, UntilReset(id, param), trace, ResumeCall(param));
  }

  lemma {:induction false} FiveCalls(id: ImageId, param: int)
    ensures var calls := UntilReset(id, param);
      && calls[..4] + [ResetCall(id)] == calls && calls[..3] + [ResumeCall(param)] == calls[..4]
      && calls[..2] + [ExecuteCall(id)] == calls[..3] && calls[..1] == [OneByte(id, true)]
      && calls[..1] + [AuthCall(id, 0, 0, true, true, true)] == calls[..2]
  {
  }

  lemma {:induction false} UntilInterrupted(plat: Platform, st: Fwu, boot: ImageId, id: ImageId, param: int)
    returns (s: Sys)
    requires Initial(plat, st, boot) && id in plat && plat[id].world == Secure && plat[id].maxSize > 0
    requires plat[id].executable
    ensures Reaches(plat, boot, UntilReset(id, param)[..4], s) && Shape(plat, s.st)
    ensures Is(plat, s.st, id, Interrupted) && s.st.world == NonSecure && s.st.secExec == id
  {
    var calls := UntilReset(id, param);
    FiveCalls(id, param);
    s := CopyOnce(plat, st, boot, id, true);
    assert s.st.loaded[0] == id;
    s := AuthNext(plat, boot, calls[..1], s, id);
    s := ExecuteNext(plat, boot, calls[..2], s, id);
    s := InterruptNext(plat, boot, calls[..3], s, id, param);
  }

  /** `id` is a secure executable image of the table, in state `state`. */
  predicate Is(plat: Platform, st: Fwu, id: ImageId, state: ImageState) {
    && id in plat && id in st.descs && plat[id].world == Secure && plat[id].executable && st.descs[id].state == state
    && id in st.loaded
  }

  lemma {:induction false} AuthNext(plat: Platform, boot: ImageId, calls: seq<Call>, s: Sys, id: ImageId)
    returns (s': Sys)
    requires Reaches(plat, boot, calls, s) && Shape(plat, s.st) && Is(plat, s.st, id, Copied) && s.st.world == NonSecure
    ensures Reaches(plat, boot, calls + [AuthCall(id, 0, 0, true, true, true)], s') && Shape(plat, s'.st)
    ensures Is(plat, s'.st, id, Authenticated) && s'.st.world == NonSecure
  {
    s' := Took(plat, boot, calls, s, AuthCall(id, 0, 0, true, true, true));
  }

  lemma {:induction false} ExecuteNext(plat: Platform, boot: ImageId, calls: seq<Call>, s: Sys, id: ImageId)
    returns (s': Sys)
    requires Reaches(plat, boot, calls, s) && Shape(plat, s.st) && Is(plat, s.st, id, Authenticated)
    requires s.st.world == NonSecure
    ensures Reaches(plat, boot, calls + [ExecuteCall(id)], s') && Shape(plat, s'.st)
    ensures Is(plat, s'.st, id, Executed) && s'.st.world == Secure && s'.st.secExec == id
  {
    s' := Took(plat, boot, calls, s, ExecuteCall(id));
  }

  lemma {:induction false} InterruptNext(plat: Platform, boot: ImageId, calls: seq<Call>, s: Sys, id: ImageId,
                                         param: int)
    returns (s': Sys)
    requires Reaches(plat, boot, calls, s) && Shape(plat, s.st) && Is(plat, s.st, id, Executed)
    requires s.st.world == Secure && s.st.secExec == id
    ensures Reaches(plat, boot, calls + [ResumeCall(param)], s') && Shape(plat, s'.st)
    ensures Is(plat, s'.st, id, Interrupted) && s'.st.world == NonSecure && s'.st.secExec == id
  {
    s' := Took(plat, boot, calls, s, ResumeCall(param));
  }

  lemma {:induction false} ResetNext(plat: Platform, boot: ImageId, calls: seq<Call>, s: Sys, id: ImageId, param: int)
    returns (s': Sys)
    requires Reaches(plat, boot, calls, s) && Shape(plat, s.st) && Is(plat, s.st, id, Interrupted)
    requires s.st.world == NonSecure && s.st.secExec == id
    ensures Reaches(plat, boot, calls + [ResetCall(id)], s') && Shape(plat, s'.st)
    ensures Step(plat, s'.st, ResumeCall(param)).Halted?
  {
    ResetResume(plat, s.st, id, param);
    s' := Took(plat, boot, calls, s, ResetCall(id));
  }

  lemma {:induction false} ResetResume(plat: Platform, st: Fwu, id: ImageId, param: int)
    requires Shape(plat, st) && Is(plat, st, id, Interrupted) && st.world == NonSecure && st.secExec == id
    ensures Step(plat, st, ResetCall(id)).Done?
    ensures Step(plat, Step(plat, st, ResetCall(id)).st, ResumeCall(param)).Halted?
  {
    ResumeAfterResetHalts(plat, st, param);
  }

  /** The booted image is executing from the start, and the normal world's RESET of it halts; the documentation promises
      a refusal. */
  lemma {:induction false} ResetOfExecutedHalts(plat: Platform, st: Fwu, boot: ImageId)
    requires Initial(plat, st, boot)
    ensures HaltsAfter(plat, boot, [], [Sys(st, [])], ResetCall(boot))
  {
  }
}
