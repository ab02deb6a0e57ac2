/** Which images the table of loaded IDs holds, and what each call of the firmware-update service answers, in every
    reachable state. */
module FwuAnswers {
  import opened Bytes
  import opened FwuModel
  import opened FwuInvariant
  import opened FwuRuns
  import opened FwuEffects
  import opened Wrappers

  // ----- the table holds each image once

  ghost predicate Once(loaded: seq<ImageId>) {
    forall i, j :: 0 <= i < j < |loaded| && loaded[i] == loaded[j] ==> loaded[i] == INVALID_IMAGE_ID
  }

  lemma {:induction false} AddedOnce(loaded: seq<ImageId>, id: ImageId)
    requires Once(loaded) && AddLoaded(loaded, id).Some?
    ensures var l := AddLoaded(loaded, id).value;
      Once(l) && forall x :: x in l && x != INVALID_IMAGE_ID ==> x in loaded || x == id
  {
    var l, k := AddLoaded(loaded, id).value, IndexOf(loaded, INVALID_IMAGE_ID);
    if IndexOf(loaded, id) >= |loaded| {
      forall x | x in l && x != INVALID_IMAGE_ID
        ensures x in loaded || x == id
      {
        var i :| 0 <= i < |l| && l[i] == x;
        assert i != k ==> loaded[i] == x;
      }
    }
  }

  /** There is room for `id` exactly when it is there already or a slot is free. */
  lemma {:induction false} RoomIff(loaded: seq<ImageId>, id: ImageId)
    ensures AddLoaded(loaded, id).Some? <==> id in loaded || INVALID_IMAGE_ID in loaded
    ensures RemoveLoaded(loaded, id).Some? <==> id in loaded
  {
    InTable(loaded, id);
    InTable(loaded, INVALID_IMAGE_ID);
  }

  lemma {:induction false} InTable(loaded: seq<ImageId>, id: ImageId)
    ensures id in loaded <==> IndexOf(loaded, id) < |loaded|
  {
    if id in loaded {
      var i :| 0 <= i < |loaded| && loaded[i] == id;
    }
  }

  /** A new image takes the first free slot. */
  lemma {:induction false} TakesFirstFree(loaded: seq<ImageId>, id: ImageId, k: nat)
    requires id !in loaded && k < |loaded| && loaded[k] == INVALID_IMAGE_ID && INVALID_IMAGE_ID !in loaded[..k]
    ensures AddLoaded(loaded, id) == Some(loaded[k := id])
  {
    InTable(loaded, id);
  }

  /** After a removal the image is gone, and nothing else is. */
  lemma {:induction false} RemovedGone(loaded: seq<ImageId>, id: ImageId)
    requires Once(loaded) && id != INVALID_IMAGE_ID
    ensures var l := Unloaded(loaded, id);
      Once(l) && id !in l && forall x :: x in l && x != INVALID_IMAGE_ID ==> x in loaded
  {
    InTable(loaded, id);
    var l, k := Unloaded(loaded, id), IndexOf(loaded, id);
    forall x | x in l && x != INVALID_IMAGE_ID
      ensures x in loaded && x != id
    {
      var i :| 0 <= i < |l| && l[i] == x;
      assert i != k && loaded[i] == x;
    }
  }

  /** Every image of the table is known and none is there twice; the booted image runs and is not in it; every other
      image that has left Reset is. */
  ghost predicate TableOk(plat: Platform, boot: ImageId, st: Fwu)
    requires Shape(plat, st)
  {
    && Once(st.loaded) && (forall x :: x in st.loaded && x != INVALID_IMAGE_ID ==> x in plat && x != boot)
    && boot in plat && plat[boot].world == NonSecure && st.descs[boot].state == Executed
    && (forall id :: id in plat && id != boot && st.descs[id].state != Reset ==> id in st.loaded)
  }

  /** The image is in the table and in Reset. */
  predicate Left(st: Fwu, id: ImageId) { id in st.loaded && id in st.descs && st.descs[id].state == Reset }

  /** Only a failed pre-load hook leaves a further image in the table while in Reset. */
  ghost predicate LeavesOnly(st: Fwu, st': Fwu, c: Call) {
    forall id :: Left(st', id) && !Left(st, id) && id != INVALID_IMAGE_ID ==> c.CopyCall? && c.id == id && !c.preLoadOk
  }

  /** One image changes; the others stay as they were. */
  lemma {:induction false} TableStep(plat: Platform, boot: ImageId, st: Fwu, st': Fwu, id: ImageId, c: Call)
    requires Shape(plat, st) && Shape(plat, st') && TableOk(plat, boot, st) && id in plat && id != boot
    requires st'.descs == st.descs[id := st'.descs[id]] && Once(st'.loaded)
    requires forall x :: x in st'.loaded && x != INVALID_IMAGE_ID ==> x in st.loaded || x == id
    requires forall x :: x in st.loaded && x != INVALID_IMAGE_ID && x != id ==> x in st'.loaded
    requires st'.descs[id].state != Reset ==> id in st'.loaded
    requires Left(st', id) && !Left(st, id) ==> c.CopyCall? && c.id == id && !c.preLoadOk
    ensures TableOk(plat, boot, st') && LeavesOnly(st, st', c)
  {
  }

  lemma {:induction false} TableSame(plat: Platform, boot: ImageId, st: Fwu, st': Fwu, c: Call)
    requires Shape(plat, st) && Shape(plat, st') && TableOk(plat, boot, st)
    requires st'.descs == st.descs && st'.loaded == st.loaded
    ensures TableOk(plat, boot, st') && LeavesOnly(st, st', c)
  {
  }

  lemma {:induction false} CopyTable(plat: Platform, boot: ImageId, st: Fwu, c: Call)
    requires Shape(plat, st) && TableOk(plat, boot, st) && ArgsFit(c) && c.CopyCall? && Step(plat, st, c).Done?
    ensures var st' := Step(plat, st, c).st; TableOk(plat, boot, st') && LeavesOnly(st, st', c)
  {
    var r := Step(plat, st, c);
    CopyEffect(plat, st, c.id, c.src, c.blockSize, c.imageSize, c.mapped, c.preLoadOk);
    if r.st == st {
      TableSame(plat, boot, st, r.st, c);
    } else {
      if AddLoaded(st.loaded, c.id).Some? {
        AddedOnce(st.loaded, c.id);
        AddLoadedKeeps(st.loaded, c.id);
      }
      CopyOneTable(plat, boot, st, r.st, c, r.ret);
    }
  }

  lemma {:induction false} CopyOneTable(plat: Platform, boot: ImageId, st: Fwu, st': Fwu, c: Call, ret: Ret)
    requires Shape(plat, st) && Shape(plat, st') && TableOk(plat, boot, st) && c.CopyCall?
    requires if ret == Success then
        Sizing(plat, st, c.id, c.imageSize) && BlockPut(st, st', c.id, Grown(st, c.id, c.blockSize, c.imageSize))
      else RefusedFirst(st, st', c.id, c.preLoadOk)
    requires st'.loaded == st.loaded || (Once(st'.loaded) && c.id in st'.loaded
      && (forall x :: x in st'.loaded && x != INVALID_IMAGE_ID ==> x in st.loaded || x == c.id)
      && (forall x :: x in st.loaded && x != INVALID_IMAGE_ID ==> x in st'.loaded))
    requires ret == Success ==> c.id in st'.loaded
    ensures TableOk(plat, boot, st') && LeavesOnly(st, st', c)
  {
    TableStep(plat, boot, st, st', c.id, c);
  }

  /** What authentication makes of the image and the table: one that is accepted is Authenticated, a copied one that is
      not is back in Reset and out of the table. */
  lemma {:induction false} AuthEffect(plat: Platform, st: Fwu, id: ImageId, src: nat, imageSize: nat, mapped: bool,
                                      verdict: bool, postLoadOk: bool)
    requires Shape(plat, st) && src < ADDR_SPACE && imageSize < U32
    requires Auth(plat, st, id, src, imageSize, mapped, verdict, postLoadOk).Done?
    ensures var r := Auth(plat, st, id, src, imageSize, mapped, verdict, postLoadOk);
      if r.ret != Success && r.ret != EAUTH then r.st == st
      else
        && id in plat && r.ret == (if verdict then Success else EAUTH)
        && var inPlace := st.descs[id].state == Reset;
           var to := Desc(if verdict then Authenticated else Reset, st.descs[id].copiedSize,
                          if inPlace then imageSize else st.descs[id].imageSize);
           && (inPlace || st.descs[id].state == Copied) && (inPlace ==> AddLoaded(st.loaded, id).Some?)
           && var loaded := if inPlace then AddLoaded(st.loaded, id).value else st.loaded;
              r.st == st.(descs := st.descs[id := to], loaded := if verdict then loaded else Unloaded(loaded, id),
                          mem := r.st.mem)
  {
    if id in plat {
      var d := st.descs[id];
      assert st.descs[id := d.(imageSize := imageSize)][id := d.(imageSize := imageSize, state := Authenticated)]
        == st.descs[id := d.(imageSize := imageSize, state := Authenticated)];
    }
  }

  lemma {:induction false} AuthTable(plat: Platform, boot: ImageId, st: Fwu, c: Call)
    requires Shape(plat, st) && TableOk(plat, boot, st) && ArgsFit(c) && c.AuthCall? && Step(plat, st, c).Done?
    ensures var st' := Step(plat, st, c).st; TableOk(plat, boot, st') && LeavesOnly(st, st', c)
  {
    var r, id := Step(plat, st, c), c.id;
    AuthEffect(plat, st, id, c.src, c.imageSize, c.mapped, c.verdict, c.postLoadOk);
    if r.st == st {
      TableSame(plat, boot, st, r.st, c);
    } else if st.descs[id].state == Copied {
      AuthOneTable(plat, boot, st, r.st, c, st.loaded);
    } else {
      AddedOnce(st.loaded, id);
      AddLoadedKeeps(st.loaded, id);
      AuthOneTable(plat, boot, st, r.st, c, AddLoaded(st.loaded, id).value);
    }
  }

  lemma {:induction false} AuthOneTable(plat: Platform, boot: ImageId, st: Fwu, st': Fwu, c: Call,
                                        loaded: seq<ImageId>)
    requires Shape(plat, st) && Shape(plat, st') && TableOk(plat, boot, st) && c.AuthCall? && c.id in plat
    requires c.id != boot && st'.descs == st.descs[c.id := st'.descs[c.id]]
    requires st'.descs[c.id].state == if c.verdict then Authenticated else Reset
    requires Once(loaded) && c.id in loaded && st'.loaded == if c.verdict then loaded else Unloaded(loaded, c.id)
    requires forall x :: x in loaded && x != INVALID_IMAGE_ID ==> x in st.loaded || x == c.id
    requires forall x :: x in st.loaded && x != INVALID_IMAGE_ID ==> x in loaded
    ensures TableOk(plat, boot, st') && LeavesOnly(st, st', c)
  {
    RemovedGone(loaded, c.id);
    UnloadedKeeps(loaded, c.id);
    TableStep(plat, boot, st, st', c.id, c);
  }

  lemma {:induction false} SwitchTable(plat: Platform, boot: ImageId, st: Fwu, c: Call)
    requires Shape(plat, st) && TableOk(plat, boot, st) && (c.ExecuteCall? || c.ResumeCall?) && Step(plat, st, c).Done?
    ensures var st' := Step(plat, st, c).st; TableOk(plat, boot, st') && LeavesOnly(st, st', c)
  {
    var r := Step(plat, st, c);
    if r.st == st {
      TableSame(plat, boot, st, r.st, c);
    } else {
      TableStep(plat, boot, st, r.st, if c.ExecuteCall? then c.id else st.secExec, c);
    }
  }

  /** An image that leaves the table for Reset. */
  lemma {:induction false} ReleasedTable(plat: Platform, boot: ImageId, st: Fwu, st': Fwu, id: ImageId, c: Call)
    requires Shape(plat, st) && Shape(plat, st') && TableOk(plat, boot, st) && id in plat && id != boot
    requires st'.descs == st.descs[id := st'.descs[id]] && st'.descs[id].state == Reset
    requires RemoveLoaded(st.loaded, id) == Some(st'.loaded)
    ensures TableOk(plat, boot, st') && LeavesOnly(st, st', c)
  {
    RemovedGone(st.loaded, id);
    UnloadedKeeps(st.loaded, id);
    TableStep(plat, boot, st, st', id, c);
  }

  lemma {:induction false} DoneTable(plat: Platform, boot: ImageId, st: Fwu)
    requires Shape(plat, st) && TableOk(plat, boot, st) && SecImageDone(plat, st).Done?
    ensures var st' := SecImageDone(plat, st).st; TableOk(plat, boot, st') && LeavesOnly(st, st', SecImageDoneCall)
  {
    var st' := SecImageDone(plat, st).st;
    if st.world == NonSecure {
      TableSame(plat, boot, st, st', SecImageDoneCall);
    } else {
      ReleasedTable(plat, boot, st, st', st.secExec, SecImageDoneCall);
    }
  }

  lemma {:induction false} ResetTable(plat: Platform, boot: ImageId, st: Fwu, id: ImageId)
    requires Shape(plat, st) && TableOk(plat, boot, st) && ResetImage(plat, st, id).Done?
    ensures var st' := ResetImage(plat, st, id).st; TableOk(plat, boot, st') && LeavesOnly(st, st', ResetCall(id))
  {
    var st' := ResetImage(plat, st, id).st;
    if id !in plat || st.world == Secure || st.descs[id].state == Reset || RemoveLoaded(st.loaded, id).None? {
      TableSame(plat, boot, st, st', ResetCall(id));
    } else {
      ReleasedTable(plat, boot, st, st', id, ResetCall(id));
    }
  }

  lemma {:induction false} AnyTable(plat: Platform, boot: ImageId, s: Sys, c: Call, s': Sys)
    requires IsStep(plat, s, c, s') && TableOk(plat, boot, s.st)
    ensures Shape(plat, s'.st) && TableOk(plat, boot, s'.st) && LeavesOnly(s.st, s'.st, c)
  {
    match c
    case CopyCall(_, _, _, _, _, _) => CopyTable(plat, boot, s.st, c);
    case AuthCall(_, _, _, _, _, _) => AuthTable(plat, boot, s.st, c);
    case ExecuteCall(_) => SwitchTable(plat, boot, s.st, c);
    case ResumeCall(_) => SwitchTable(plat, boot, s.st, c);
    case SecImageDoneCall => DoneTable(plat, boot, s.st);
    case ResetCall(id) => ResetTable(plat, boot, s.st, id);
    case UpdateDoneCall =>
    case WorldWrite(_, _) => TableSame(plat, boot, s.st, s'.st, c);
  }

  /** The pre-load hook of `id` fails in one of the first `k` calls. */
  ghost predicate HookFailed(calls: seq<Call>, id: ImageId, k: nat) {
    exists i :: 0 <= i < k && i < |calls| && calls[i].CopyCall? && calls[i].id == id && !calls[i].preLoadOk
  }

  ghost predicate LeftExplained(calls: seq<Call>, st: Fwu, k: nat) {
    forall id :: Left(st, id) && id != INVALID_IMAGE_ID ==> HookFailed(calls, id, k)
  }

  lemma {:induction false} LeftStep(calls: seq<Call>, st: Fwu, st': Fwu, k: nat)
    requires k < |calls| && LeftExplained(calls, st, k) && LeavesOnly(st, st', calls[k])
    ensures LeftExplained(calls, st', k + 1)
  {
    forall id | Left(st', id) && id != INVALID_IMAGE_ID
      ensures HookFailed(calls, id, k + 1)
    {
      if Left(st, id) {
        assert HookFailed(calls, id, k);
      } else {
        assert calls[k].CopyCall? && calls[k].id == id && !calls[k].preLoadOk;
      }
    }
  }

  lemma {:induction false} FirstTable(plat: Platform, boot: ImageId, st: Fwu, calls: seq<Call>)
    requires Initial(plat, st, boot)
    ensures TableOk(plat, boot, st) && LeftExplained(calls, st, 0)
  {
  }

  /** The table is as it should be up to position `k` of a trace. */
  ghost predicate TableUpTo(plat: Platform, boot: ImageId, calls: seq<Call>, trace: seq<Sys>, k: nat)
    requires k < |trace|
  {
    && (k > 0 ==> TableUpTo(plat, boot, calls, trace, k - 1))
    && Shape(plat, trace[k].st) && TableOk(plat, boot, trace[k].st) && LeftExplained(calls, trace[k].st, k)
  }

  lemma {:induction false} NextTable(plat: Platform, boot: ImageId, calls: seq<Call>, trace: seq<Sys>, k: nat)
    requires k < |calls| < |trace| && TableUpTo(plat, boot, calls, trace, k)
    requires IsStep(plat, trace[k], calls[k], trace[k + 1])
    ensures TableUpTo(plat, boot, calls, trace, k + 1)
  {
    AnyTable(plat, boot, trace[k], calls[k], trace[k + 1]);
    LeftStep(calls, trace[k].st, trace[k + 1].st, k);
  }

  lemma {:induction false} RunTable(plat: Platform, boot: ImageId, calls: seq<Call>, trace: seq<Sys>, k: nat)
    requires IsRun(plat, boot, calls, trace) && k <= |calls|
    ensures TableUpTo(plat, boot, calls, trace, k)
  {
    if k == 0 {
      FirstTable(plat, boot, trace[0].st, calls);
    } else {
      RunTable(plat, boot, calls, trace, k - 1);
      RunStepAt(plat, boot, calls, trace, k - 1);
      NextTable(plat, boot, calls, trace, k - 1);
    }
  }

  /** In every reachable state the table holds each image that has left Reset, but not the booted one, and holds it
      once; an image in Reset that is still there had its pre-load hook fail. Where no hook fails, the images in the
      table are exactly those that have left Reset. */
  lemma {:induction false} TableIsExact(plat: Platform, boot: ImageId, calls: seq<Call>, trace: seq<Sys>, k: nat,
                                        id: ImageId)
    requires IsRun(plat, boot, calls, trace) && k <= |calls| && id in plat && id != boot
    ensures id in trace[k].st.descs && Once(trace[k].st.loaded)
    ensures trace[k].st.descs[id].state != Reset ==> id in trace[k].st.loaded
    ensures trace[k].st.descs[id].state == Reset && id in trace[k].st.loaded ==> HookFailed(calls, id, k)
    ensures boot !in trace[k].st.loaded
  {
    RunTable(plat, boot, calls, trace, k);
  }

  // ----- what the calls answer

  /** The range of the image is apart from that of every other image in the table. */
  ghost predicate RangeFree(plat: Platform, st: Fwu, id: ImageId, n: nat)
    requires st.descs.Keys == plat.Keys && id in plat && n > 0
  {
    forall i :: 0 <= i < |st.loaded| ==> ClearOf(plat, st, id, plat[id].base, plat[id].base + n - 1, st.loaded[i])
  }

  /** A scan that fails no assertion finds an overlap exactly when there is one. */
  lemma {:induction false} ScanVerdict(plat: Platform, st: Fwu, id: ImageId, lo: nat, hi: nat, i: nat)
    requires Shape(plat, st) && lo <= hi < ADDR_SPACE && ScanOverlaps(plat, st, id, lo, hi, i) != AssertFails
    ensures ScanOverlaps(plat, st, id, lo, hi, i) == Clear <==>
      forall k :: i <= k < |st.loaded| ==> ClearOf(plat, st, id, lo, hi, st.loaded[k])
    decreases |st.loaded| - i
  {
    if i < |st.loaded| {
      EndOfRange(plat, st, st.loaded[i]);
      if ScanOverlaps(plat, st, id, lo, hi, i) != Overlap || ClearOf(plat, st, id, lo, hi, st.loaded[i]) {
        ScanVerdict(plat, st, id, lo, hi, i + 1);
      }
    }
  }

  /** The caller, the image and its state permit a copy. */
  predicate CopyAllowed(plat: Platform, st: Fwu, id: ImageId) {
    && id in plat && id in st.descs && st.world == NonSecure && plat[id].world == Secure
    && (st.descs[id].state == Reset || st.descs[id].state == Copying)
  }

  predicate SourceOk(src: nat, n: nat) { src > 0 && n > 0 && src + n <= ADDR_SPACE }

  /** The first block brings a size that fits. */
  predicate SizeOk(plat: Platform, st: Fwu, id: ImageId, imageSize: nat)
    requires id in plat && id in st.descs
  {
    st.descs[id].state == Reset ==> 0 < imageSize <= plat[id].maxSize
  }

  /** The first block finds no other image in its way. */
  ghost predicate WayFree(plat: Platform, st: Fwu, id: ImageId, imageSize: nat)
    requires st.descs.Keys == plat.Keys && id in plat && SizeOk(plat, st, id, imageSize)
  {
    st.descs[id].state == Reset ==> RangeFree(plat, st, id, imageSize)
  }

  predicate Room(st: Fwu, id: ImageId) { id in st.loaded || INVALID_IMAGE_ID in st.loaded }

  lemma {:induction false} WayFreeIff(plat: Platform, st: Fwu, id: ImageId, imageSize: nat)
    requires Shape(plat, st) && CopyAllowed(plat, st, id) && st.descs[id].state == Reset
    requires 0 < imageSize <= plat[id].maxSize
    ensures var sized := WithDesc(st, id, st.descs[id].(imageSize := imageSize));
      var scan := ScanOverlaps(plat, sized, id, plat[id].base, plat[id].base + imageSize - 1, 0);
      scan != AssertFails ==> (scan == Clear <==> RangeFree(plat, st, id, imageSize))
  {
    var sized := WithDesc(st, id, st.descs[id].(imageSize := imageSize));
    var lo, hi := plat[id].base, plat[id].base + imageSize - 1;
    if ScanOverlaps(plat, sized, id, lo, hi, 0) != AssertFails {
      ScanVerdict(plat, sized, id, lo, hi, 0);
      forall x
        ensures ClearOf(plat, sized, id, lo, hi, x) <==> ClearOf(plat, st, id, lo, hi, x)
      {
      }
    }
  }

  lemma {:induction false} BlockAnswers(plat: Platform, st: Fwu, id: ImageId, src: nat, blockSize: nat, mapped: bool,
                                        preLoadOk: bool)
    requires Shape(plat, st) && id in plat && !BadSource(src, blockSize)
    requires st.descs[id].copiedSize < st.descs[id].imageSize <= plat[id].maxSize
    ensures var r := CopyBlock(plat, st, id, src, blockSize, mapped, preLoadOk);
      && r.Done?
      && r.ret == if !mapped || !Room(st, id) then ENOMEM
                  else if st.descs[id].state == Reset && !preLoadOk then EPERM else Success
  {
    RoomIff(st.loaded, id);
  }

  /** A copy that does not halt: it succeeds exactly when it is allowed, source and size are valid, the way is free, the
      source is mapped, the table has room and the pre-load hook succeeds; and which refusal it is otherwise. */
  lemma {:induction false} CopyAnswers(plat: Platform, st: Fwu, id: ImageId, src: nat, blockSize: nat, imageSize: nat,
                                       mapped: bool, preLoadOk: bool)
    requires Shape(plat, st) && src < ADDR_SPACE && blockSize < U32 && imageSize < U32
    requires Copy(plat, st, id, src, blockSize, imageSize, mapped, preLoadOk).Done?
    ensures var ret := Copy(plat, st, id, src, blockSize, imageSize, mapped, preLoadOk).ret;
      if !CopyAllowed(plat, st, id) then ret == EPERM
      else if !SourceOk(src, blockSize) || !SizeOk(plat, st, id, imageSize) then ret == ENOMEM
      else
        && (ret == Success <==> WayFree(plat, st, id, imageSize) && mapped && Room(st, id)
                                && (st.descs[id].state == Reset ==> preLoadOk))
        && (ret == ENOMEM <==> WayFree(plat, st, id, imageSize) && !(mapped && Room(st, id)))
        && (ret == Success || ret == ENOMEM || ret == EPERM)
  {
    if CopyAllowed(plat, st, id) && SourceOk(src, blockSize) && SizeOk(plat, st, id, imageSize) {
      var d := st.descs[id];
      if d.state == Reset {
        WayFreeIff(plat, st, id, imageSize);
        var sized := WithDesc(st, id, d.(imageSize := imageSize, copiedSize := 0));
        BlockAnswers(plat, sized, id, src, blockSize, mapped, preLoadOk);
      } else if 0 < d.copiedSize < d.imageSize {
        BlockAnswers(plat, st, id, src, blockSize, mapped, preLoadOk);
      }
    }
  }

  /** What a refused first block leaves in the descriptor: no size when the range was taken, and else the size given and
      nothing copied, with the image in Reset in any case. */
  lemma {:induction false} RefusedSizes(plat: Platform, st: Fwu, id: ImageId, src: nat, blockSize: nat, imageSize: nat,
                                        mapped: bool, preLoadOk: bool)
    requires Shape(plat, st) && src < ADDR_SPACE && blockSize < U32 && imageSize < U32
    requires Copy(plat, st, id, src, blockSize, imageSize, mapped, preLoadOk).Done?
    requires Copy(plat, st, id, src, blockSize, imageSize, mapped, preLoadOk).ret != Success
    requires CopyAllowed(plat, st, id) && st.descs[id].state == Reset
    ensures var d := Copy(plat, st, id, src, blockSize, imageSize, mapped, preLoadOk).st.descs[id];
      d == if !SourceOk(src, blockSize) || !(0 < imageSize <= plat[id].maxSize) then st.descs[id]
           else if RangeFree(plat, st, id, imageSize) then Desc(Reset, 0, imageSize)
           else Desc(Reset, st.descs[id].copiedSize, 0)
  {
    if SourceOk(src, blockSize) && 0 < imageSize <= plat[id].maxSize {
      WayFreeIff(plat, st, id, imageSize);
    }
  }

  /** An authentication that does not halt. */
  lemma {:induction false} AuthAnswers(plat: Platform, st: Fwu, id: ImageId, src: nat, imageSize: nat, mapped: bool,
                                       verdict: bool, postLoadOk: bool)
    requires Shape(plat, st) && src < ADDR_SPACE && imageSize < U32
    requires Auth(plat, st, id, src, imageSize, mapped, verdict, postLoadOk).Done?
    ensures var ret := Auth(plat, st, id, src, imageSize, mapped, verdict, postLoadOk).ret;
      var copied := st.world == NonSecure && id in plat && plat[id].world == Secure;
      if id !in plat || st.descs[id].state != (if copied then Copied else Reset) then ret == EPERM
      else if !copied && !(SourceOk(src, imageSize) && mapped && Room(st, id)) then ret == ENOMEM
      else ret == if verdict then Success else EAUTH
  {
    RoomIff(st.loaded, id);
  }

  /** What the other calls answer in a reachable state, when they do not halt: EXECUTE works for an authenticated secure
      executable image and a normal-world caller; RESUME hands on its parameter unless the normal world asks and no
      image has been started; only the secure world is done with its image; and the normal world can reset every
      image it names. */
  ghost predicate OtherAnswers(plat: Platform, st: Fwu, c: Call, ret: Ret)
    requires Shape(plat, st)
  {
    match c
    case ExecuteCall(id) =>
      ret == if id in plat && st.world == NonSecure && plat[id].world == Secure && plat[id].executable
                && st.descs[id].state == Authenticated then Success else EPERM
    case ResumeCall(param) => ret == if st.world == NonSecure && st.secExec !in plat then EPERM else Param(param)
    case SecImageDoneCall => ret == if st.world == Secure then Success else EPERM
    case ResetCall(id) => ret == if id in plat && st.world == NonSecure then Success else EPERM
    case _ => true
  }

  lemma {:induction false} OthersAnswer(plat: Platform, boot: ImageId, calls: seq<Call>, trace: seq<Sys>, k: nat,
                                        c: Call)
    requires IsRun(plat, boot, calls, trace) && k <= |calls| && ArgsFit(c)
    ensures Shape(plat, trace[k].st)
    ensures Step(plat, trace[k].st, c).Done? ==> OtherAnswers(plat, trace[k].st, c, Step(plat, trace[k].st, c).ret)
  {
    RunTable(plat, boot, calls, trace, k);
    OneAnswers(plat, boot, trace[k].st, c);
  }

  lemma {:induction false} OneAnswers(plat: Platform, boot: ImageId, st: Fwu, c: Call)
    requires Shape(plat, st) && TableOk(plat, boot, st) && ArgsFit(c)
    ensures Step(plat, st, c).Done? ==> OtherAnswers(plat, st, c, Step(plat, st, c).ret)
  {
    if c.ResetCall? {
      RoomIff(st.loaded, c.id);
    }
  }

  // ----- round trips

  /** Recording an image and removing it leaves the table as it was. */
  lemma {:induction false} AddThenRemove(loaded: seq<ImageId>, id: ImageId)
    requires id !in loaded && id != INVALID_IMAGE_ID && AddLoaded(loaded, id).Some?
    ensures RemoveLoaded(AddLoaded(loaded, id).value, id) == Some(loaded)
  {
    InTable(loaded, id);
    var k, l := IndexOf(loaded, INVALID_IMAGE_ID), AddLoaded(loaded, id).value;
    assert l[k] == id && IndexOf(l, id) == k;
    assert l[k := INVALID_IMAGE_ID] == loaded;
  }

  /** An interrupted image comes back as it was: RESUME from the secure world and then from the normal world leaves the
      service in the same state, with each parameter handed to the other world. */
  lemma {:induction false} ResumeTwice(plat: Platform, st: Fwu, p: int, q: int)
    requires Shape(plat, st) && st.world == Secure && SwitchAsserts(plat, st, Executed)
    ensures var away := Resume(plat, st, p);
      && away.Done? && away.ret == Param(p) && away.st.world == NonSecure
      && away.st.descs[st.secExec].state == Interrupted
      && Resume(plat, away.st, q) == Done(st, Param(q), Quiet)
  {
    var away, d := Resume(plat, st, p).st, st.descs[st.secExec];
    assert st.descs[st.secExec := d.(state := Interrupted)][st.secExec := d] == st.descs;
  }

  /** In every reachable state in which the secure world runs. */
  lemma {:induction false} InterruptionRestores(plat: Platform, boot: ImageId, calls: seq<Call>, trace: seq<Sys>,
                                                k: nat, p: int, q: int)
    requires IsRun(plat, boot, calls, trace) && k <= |calls| && trace[k].st.world == Secure
    ensures Shape(plat, trace[k].st)
    ensures var away := Resume(plat, trace[k].st, p);
      && away.Done? && away.ret == Param(p) && away.st.world == NonSecure
      && Resume(plat, away.st, q) == Done(trace[k].st, Param(q), Quiet)
  {
    RunInv(plat, boot, calls, trace, k, false);
    var s := TrackedOf(plat, trace[k]);
    assert Good(plat, s, false, s.st.secExec);
    ResumeTwice(plat, trace[k].st, p, q);
  }

  /** The first block of an image that is not in the table. */
  lemma {:induction false} FirstBlock(plat: Platform, st: Fwu, id: ImageId, src: nat, blockSize: nat, imageSize: nat,
                                      mapped: bool, preLoadOk: bool) returns (mid: Fwu, n: nat)
    requires Shape(plat, st) && src < ADDR_SPACE && blockSize < U32 && imageSize < U32 && id in plat && id !in st.loaded
    requires st.descs[id].state == Reset && Copy(plat, st, id, src, blockSize, imageSize, mapped, preLoadOk).Done?
    requires Copy(plat, st, id, src, blockSize, imageSize, mapped, preLoadOk).ret == Success
    ensures mid == Copy(plat, st, id, src, blockSize, imageSize, mapped, preLoadOk).st && Shape(plat, mid)
    ensures n == (if blockSize < imageSize then blockSize else imageSize) && 0 < n <= imageSize <= plat[id].maxSize
    ensures plat[id].world == Secure && st.world == NonSecure
    ensures mid == st.(descs := st.descs[id := Desc(if n == imageSize then Copied else Copying, n, imageSize)],
                       loaded := mid.loaded, mem := mid.mem)
    ensures id in mid.loaded && RemoveLoaded(mid.loaded, id) == Some(st.loaded)
    ensures CellsMoved(st.mem, mid.mem, plat[id].base, src, n)
  {
    mid := Copy(plat, st, id, src, blockSize, imageSize, mapped, preLoadOk).st;
    CopyEffect(plat, st, id, src, blockSize, imageSize, mapped, preLoadOk);
    CopyMoves(plat, st, id, src, blockSize, imageSize, mapped, preLoadOk);
    n := FirstGrown(plat, st, mid, id, blockSize, imageSize);
  }

  lemma {:induction false} FirstGrown(plat: Platform, st: Fwu, mid: Fwu, id: ImageId, blockSize: nat, imageSize: nat)
    returns (n: nat)
    requires PlatformOk(plat) && Sizing(plat, st, id, imageSize) && st.descs[id].state == Reset && id !in st.loaded
    requires blockSize > 0 && BlockPut(st, mid, id, Grown(st, id, blockSize, imageSize))
    ensures n == (if blockSize < imageSize then blockSize else imageSize) && 0 < n <= imageSize <= plat[id].maxSize
    ensures Before(st, id) == 0 && n == Moved(st, id, blockSize, imageSize)
    ensures mid == st.(descs := st.descs[id := Desc(if n == imageSize then Copied else Copying, n, imageSize)],
                       loaded := mid.loaded, mem := mid.mem)
    ensures id in mid.loaded && RemoveLoaded(mid.loaded, id) == Some(st.loaded)
  {
    n := if blockSize < imageSize then blockSize else imageSize;
    AddThenRemove(st.loaded, id);
    InTable(mid.loaded, id);
  }

  /** A first block and a reset: the image is back in Reset without sizes, the table is as it was, and so is memory but
      for the cells of the block, which are zero. */
  lemma {:induction false} CopyThenReset(plat: Platform, st: Fwu, id: ImageId, src: nat, blockSize: nat, imageSize: nat,
                                         mapped: bool, preLoadOk: bool) returns (end: Fwu, n: nat)
    requires Shape(plat, st) && src < ADDR_SPACE && blockSize < U32 && imageSize < U32 && id in plat && id !in st.loaded
    requires st.descs[id].state == Reset && Copy(plat, st, id, src, blockSize, imageSize, mapped, preLoadOk).Done?
    requires Copy(plat, st, id, src, blockSize, imageSize, mapped, preLoadOk).ret == Success
    ensures ResetImage(plat, Copy(plat, st, id, src, blockSize, imageSize, mapped, preLoadOk).st, id)
      == Done(end, Success, Released(id))
    ensures n == if blockSize < imageSize then blockSize else imageSize
    ensures end == st.(descs := st.descs[id := Desc(Reset, 0, 0)], mem := end.mem)
    ensures |end.mem| == ADDR_SPACE && Cleared(plat, end.mem, id, n)
    ensures forall a :: 0 <= a < ADDR_SPACE && !(plat[id].base <= a < plat[id].base + n) ==> end.mem[a] == st.mem[a]
  {
    var mid;
    mid, n := FirstBlock(plat, st, id, src, blockSize, imageSize, mapped, preLoadOk);
    end := ResetGrown(plat, st, mid, id, src, n);
  }

  lemma {:induction false} ResetGrown(plat: Platform, st: Fwu, mid: Fwu, id: ImageId, src: nat, n: nat)
    returns (end: Fwu)
    requires Shape(plat, st) && Shape(plat, mid) && id in plat && plat[id].world == Secure && st.world == NonSecure
    requires 0 < n <= plat[id].maxSize && mid.descs[id].copiedSize == n
    requires mid.descs[id].state == Copied || mid.descs[id].state == Copying
    requires mid == st.(descs := st.descs[id := mid.descs[id]], loaded := mid.loaded, mem := mid.mem)
    requires id in mid.loaded && RemoveLoaded(mid.loaded, id) == Some(st.loaded)
    requires CellsMoved(st.mem, mid.mem, plat[id].base, src, n)
    ensures ResetImage(plat, mid, id) == Done(end, Success, Released(id))
    ensures end == st.(descs := st.descs[id := Desc(Reset, 0, 0)], mem := end.mem)
    ensures |end.mem| == ADDR_SPACE && Cleared(plat, end.mem, id, n)
    ensures forall a :: 0 <= a < ADDR_SPACE && !(plat[id].base <= a < plat[id].base + n) ==> end.mem[a] == st.mem[a]
  {
    end := ResetImage(plat, mid, id).st;
    assert mid.descs[id := Desc(Reset, 0, 0)] == st.descs[id := Desc(Reset, 0, 0)];
    SpliceAt(st.mem, plat[id].base, st.mem[src..src + n]);
    SpliceAt(mid.mem, plat[id].base, Zeros(n));
  }

  /** From a copied image in the table: it is accepted, started on `bytes`, and done, which leaves `end`. */
  ghost predicate RunsToEnd(plat: Platform, st: Fwu, id: ImageId, bytes: seq<byte>, end: Fwu)
    requires Shape(plat, st)
  {
    var accepted := Auth(plat, st, id, 0, 0, true, true, true);
    && accepted.Done? && accepted.ret == Success
    && var started := Execute(plat, accepted.st, id);
       && started.Done? && started.ret == Success && started.ev == Started(id, bytes) && started.st.world == Secure
       && SecImageDone(plat, started.st) == Done(end, Success, Released(id))
  }

  lemma {:induction false} RunAndDone(plat: Platform, st: Fwu, id: ImageId)
    requires Shape(plat, st) && st.world == NonSecure && id in plat && plat[id].world == Secure && plat[id].executable
    requires st.descs[id].state == Copied && id in st.loaded
    ensures RunsToEnd(plat, st, id, st.mem[plat[id].base..plat[id].base + st.descs[id].imageSize],
                      st.(descs := st.descs[id := st.descs[id].(state := Reset)], loaded := Unloaded(st.loaded, id),
                          secExec := INVALID_IMAGE_ID))
  {
    var d := st.descs[id];
    InTable(st.loaded, id);
    assert st.descs[id := d.(state := Authenticated)][id := d.(state := Executed)][id := d.(state := Reset)]
      == st.descs[id := d.(state := Reset)];
  }

  lemma {:induction false} MovedSlice(mem: seq<byte>, mem': seq<byte>, at: nat, src: nat, n: nat)
    requires CellsMoved(mem, mem', at, src, n) && at + n <= |mem|
    ensures mem'[at..at + n] == mem[src..src + n]
  {
    SpliceAt(mem, at, mem[src..src + n]);
  }

  /** A whole update from copy to the end of the image: copied in one block, accepted, started on exactly the bytes the
      caller offered, and done. After it the table is as it was, no image counts as started, the normal world runs, the
      image can be copied again, and memory differs by its bytes alone. */
  lemma {:induction false} WholeUpdate(plat: Platform, st: Fwu, id: ImageId, src: nat, blockSize: nat, n: nat,
                                       mapped: bool, preLoadOk: bool) returns (end: Fwu)
    requires Shape(plat, st) && src < ADDR_SPACE && n <= blockSize < U32 && id in plat && id !in st.loaded
    requires plat[id].executable && st.descs[id].state == Reset
    requires Copy(plat, st, id, src, blockSize, n, mapped, preLoadOk).Done?
    requires Copy(plat, st, id, src, blockSize, n, mapped, preLoadOk).ret == Success
    ensures src + n <= ADDR_SPACE
    ensures RunsToEnd(plat, Copy(plat, st, id, src, blockSize, n, mapped, preLoadOk).st, id, st.mem[src..src + n], end)
    ensures end == st.(descs := st.descs[id := Desc(Reset, n, n)], secExec := INVALID_IMAGE_ID, mem := end.mem)
    ensures CellsMoved(st.mem, end.mem, plat[id].base, src, n)
  {
    var copied, _ := FirstBlock(plat, st, id, src, blockSize, n, mapped, preLoadOk);
    end := RunGrown(plat, st, copied, id, src, n);
  }

  lemma {:induction false} RunGrown(plat: Platform, st: Fwu, copied: Fwu, id: ImageId, src: nat, n: nat)
    returns (end: Fwu)
    requires Shape(plat, st) && Shape(plat, copied) && id in plat && plat[id].world == Secure && plat[id].executable
    requires st.world == NonSecure && copied.descs[id] == Desc(Copied, n, n)
    requires copied == st.(descs := st.descs[id := copied.descs[id]], loaded := copied.loaded, mem := copied.mem)
    requires id in copied.loaded && RemoveLoaded(copied.loaded, id) == Some(st.loaded)
    requires CellsMoved(st.mem, copied.mem, plat[id].base, src, n)
    ensures RunsToEnd(plat, copied, id, st.mem[src..src + n], end)
    ensures end == st.(descs := st.descs[id := Desc(Reset, n, n)], secExec := INVALID_IMAGE_ID, mem := copied.mem)
  {
    RunAndDone(plat, copied, id);
    MovedSlice(st.mem, copied.mem, plat[id].base, src, n);
    assert copied.descs[id := Desc(Reset, n, n)] == st.descs[id := Desc(Reset, n, n)];
    end := st.(descs := st.descs[id := Desc(Reset, n, n)], secExec := INVALID_IMAGE_ID, mem := copied.mem);
  }
}
