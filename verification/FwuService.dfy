/** The firmware-update service in the form of the firmware: descriptors, the loaded-ID array, the last
    executed ID and memory updated in place. Each handler is proved to do what FwuModel says; a result of
    `None` stands for a failed assertion or a panic. */
module FwuService {
  import opened Bytes
  import opened FwuModel
  import opened FwuInvariant
  import opened FwuRuns
  import opened FwuEffects
  import opened Wrappers

  /** `r` and the new state are what the outcome `o` asks for. */
  ghost predicate Follows(o: Outcome, r: Option<Ret>, st: Fwu) {
    if o.Halted? then r.None? else r == Some(o.ret) && st == o.st
  }

  /** The path of a copy that writes. */
  lemma {:induction false} CopyBlockDone(plat: Platform, st: Fwu, id: ImageId, src: nat, blockSize: nat,
                                         preLoadOk: bool, loaded: seq<ImageId>)
    requires Shape(plat, st) && id in plat && !BadSource(src, blockSize)
    requires st.descs[id].copiedSize < st.descs[id].imageSize <= plat[id].maxSize
    requires AddLoaded(st.loaded, id) == Some(loaded) && (st.descs[id].state == Reset ==> preLoadOk)
    ensures var d, n := st.descs[id], Clipped(st.descs[id], blockSize);
      var r := CopyBlock(plat, st, id, src, blockSize, true, preLoadOk);
      var mem := Splice(st.mem, plat[id].base + d.copiedSize, st.mem[src..src + n]);
      && r.Done? && r.ret == Success && r.st == WithDesc(st.(loaded := loaded, mem := mem), id, AfterBlock(d, n))
  {
  }

  /** The normal world has a copied secure image. */
  predicate CopiedForNormal(plat: Platform, st: Fwu, id: ImageId) {
    && st.world == NonSecure && id in plat && plat[id].world == Secure && id in st.descs
    && st.descs[id].state == Copied
  }

  const FREE: seq<ImageId> := seq(MAX_LOADED, _ => INVALID_IMAGE_ID)

  class Service {
    const plat: Platform
    var descs: map<ImageId, Desc>
    const loadedIds: array<ImageId>
    var secExec: ImageId
    var world: World
    var mem: seq<byte>
    /** What has been observed so far, and whether no AUTH call has come from the secure world. */
    ghost var log: seq<Event>
    ghost var normalDriven: bool

    ghost function State(): Fwu
      reads this, loadedIds
    {
      Fwu(descs, loadedIds[..], secExec, world, mem)
    }

    ghost predicate Valid()
      reads this, loadedIds
    {
      Shape(plat, State())
    }

    /** The invariant of every run, at this point of it. */
    ghost predicate Safe()
      reads this, loadedIds
    {
      Valid() && Inv(plat, TrackedOf(plat, Sys(State(), log)), normalDriven)
    }

    /** The service as the booted normal-world image finds it. */
    constructor (plat: Platform, descs: map<ImageId, Desc>, mem: seq<byte>, ghost boot: ImageId)
      requires Initial(plat, Fwu(descs, FREE, INVALID_IMAGE_ID, NonSecure, mem), boot)
      ensures Safe() && fresh(loadedIds) && this.plat == plat && log == [] && normalDriven
      ensures State() == Fwu(descs, FREE, INVALID_IMAGE_ID, NonSecure, mem)
    {
      this.plat := plat;
      this.descs := descs;
      this.loadedIds := new ImageId[MAX_LOADED](_ => INVALID_IMAGE_ID);
      this.secExec := INVALID_IMAGE_ID;
      this.world := NonSecure;
      this.mem := mem;
      this.log, this.normalDriven := [], true;
      new;
      assert loadedIds[..] == FREE;
      InitialInv(plat, Sys(State(), []), boot);
    }

    // ----- the table of loaded images

    method AddLoadedId(id: ImageId) returns (rc: int)
      modifies loadedIds
      ensures var r := AddLoaded(old(loadedIds[..]), id);
        if r.Some? then rc == 0 && loadedIds[..] == r.value else rc == 1 && loadedIds[..] == old(loadedIds[..])
    {
      for i := 0 to loadedIds.Length
        invariant loadedIds[..] == old(loadedIds[..])
        invariant forall j :: 0 <= j < i ==> loadedIds[j] != id
      {
        if loadedIds[i] == id {
          return 0;
        }
      }
      for i := 0 to loadedIds.Length
        invariant loadedIds[..] == old(loadedIds[..])
        invariant forall j :: 0 <= j < i ==> loadedIds[j] != INVALID_IMAGE_ID
      {
        if loadedIds[i] == INVALID_IMAGE_ID {
          assert IndexOf(loadedIds[..], INVALID_IMAGE_ID) == i;
          loadedIds[i] := id;
          return 0;
        }
      }
      return 1;
    }

    method RemoveLoadedId(id: ImageId) returns (rc: int)
      modifies loadedIds
      ensures var r := RemoveLoaded(old(loadedIds[..]), id);
        if r.Some? then rc == 0 && loadedIds[..] == r.value else rc == 1 && loadedIds[..] == old(loadedIds[..])
    {
      for i := 0 to loadedIds.Length
        invariant loadedIds[..] == old(loadedIds[..])
        invariant forall j :: 0 <= j < i ==> loadedIds[j] != id
      {
        if loadedIds[i] == id {
          assert IndexOf(loadedIds[..], id) == i;
          loadedIds[i] := INVALID_IMAGE_ID;
          return 0;
        }
      }
      return 1;
    }

    method CheckOverlaps(id: ImageId) returns (r: Scan)
      requires Valid() && id in plat && 0 < descs[id].imageSize <= plat[id].maxSize
      ensures r == ScanOverlaps(plat, State(), id, plat[id].base, plat[id].base + descs[id].imageSize - 1, 0)
    {
      var lo, hi := plat[id].base, plat[id].base + descs[id].imageSize - 1;
      for i := 0 to loadedIds.Length
        invariant ScanOverlaps(plat, State(), id, lo, hi, 0) == ScanOverlaps(plat, State(), id, lo, hi, i)
      {
        var other := loadedIds[i];
        assert State().loaded[i] == other;
        if other == INVALID_IMAGE_ID || other == id {
          continue;
        }
        if other !in plat || descs[other].state == Reset {
          return AssertFails;
        }
        if descs[other].imageSize == 0 {
          continue;
        }
        var base := plat[other].base;
        var end := (base + descs[other].imageSize - 1) % ADDR_SPACE;
        if end <= base {
          return AssertFails;
        }
        if !(end < lo || hi < base) {
          return Overlap;
        }
      }
      return Clear;
    }

    // ----- the SMC handlers

    method ImageCopy(id: ImageId, src: nat, blockSize: nat, imageSize: nat, mapped: bool, preLoadOk: bool)
      returns (r: Option<Ret>)
      requires Valid() && src < ADDR_SPACE && blockSize < U32 && imageSize < U32
      modifies this`descs, this`mem, loadedIds
      ensures Follows(Copy(plat, old(State()), id, src, blockSize, imageSize, mapped, preLoadOk), r, State())
    {
      if id !in plat || world == Secure || plat[id].world == NonSecure {
        return Some(EPERM);
      }
      if descs[id].state != Reset && descs[id].state != Copying {
        return Some(EPERM);
      }
      if BadSource(src, blockSize) {
        return Some(ENOMEM);
      }
      if descs[id].state == Copying {
        if descs[id].copiedSize == 0 || descs[id].copiedSize >= descs[id].imageSize {
          return None;
        }
        r := WriteBlock(id, src, blockSize, mapped, preLoadOk);
      } else {
        r := FirstBlock(id, src, blockSize, imageSize, mapped, preLoadOk);
      }
    }

    /** The branch of a copy that finds the image in Reset. */
    method FirstBlock(id: ImageId, src: nat, blockSize: nat, imageSize: nat, mapped: bool, preLoadOk: bool)
      returns (r: Option<Ret>)
      requires Valid() && src < ADDR_SPACE && blockSize < U32 && imageSize < U32 && !BadSource(src, blockSize)
      requires id in plat && world == NonSecure && plat[id].world == Secure && descs[id].state == Reset
      modifies this`descs, this`mem, loadedIds
      ensures Follows(Copy(plat, old(State()), id, src, blockSize, imageSize, mapped, preLoadOk), r, State())
    {
      if imageSize == 0 || imageSize > plat[id].maxSize {
        return Some(ENOMEM);
      }
      var scan := SizeAndScan(id, imageSize);
      if scan == AssertFails {
        return None;
      }
      if scan == Overlap {
        descs := descs[id := descs[id].(imageSize := 0)];
        assert State() == WithDesc(old(State()), id, old(descs)[id].(imageSize := 0));
        return Some(EPERM);
      }
      descs := descs[id := descs[id].(copiedSize := 0)];
      assert State() == WithDesc(old(State()), id, old(descs)[id].(imageSize := imageSize, copiedSize := 0));
      r := WriteBlock(id, src, blockSize, mapped, preLoadOk);
    }

    /** Saves the size given with the first block and checks the new range against the table. */
    method SizeAndScan(id: ImageId, imageSize: nat) returns (scan: Scan)
      requires Valid() && id in plat && descs[id].state == Reset && 0 < imageSize <= plat[id].maxSize
      modifies this`descs
      ensures Valid() && descs == old(descs)[id := old(descs)[id].(imageSize := imageSize)]
      ensures scan == ScanOverlaps(plat, WithDesc(old(State()), id, old(descs)[id].(imageSize := imageSize)), id,
                                   plat[id].base, plat[id].base + imageSize - 1, 0)
    {
      descs := descs[id := descs[id].(imageSize := imageSize)];
      scan := CheckOverlaps(id);
    }

    method WriteBlock(id: ImageId, src: nat, blockSize: nat, mapped: bool, preLoadOk: bool) returns (r: Option<Ret>)
      requires Valid() && id in plat && !BadSource(src, blockSize)
      requires descs[id].copiedSize < descs[id].imageSize <= plat[id].maxSize
      modifies this`descs, this`mem, loadedIds
      ensures Follows(CopyBlock(plat, old(State()), id, src, blockSize, mapped, preLoadOk), r, State())
    {
      var remaining := descs[id].imageSize - descs[id].copiedSize;
      var size := if blockSize > remaining then remaining else blockSize;
      if !mapped {
        return Some(ENOMEM);
      }
      r := RecordAndPut(id, src, blockSize, size, preLoadOk);
    }

    /** Records the ID, runs the pre-load hook before a first block, and writes. */
    method RecordAndPut(id: ImageId, src: nat, ghost blockSize: nat, size: nat, preLoadOk: bool)
      returns (r: Option<Ret>)
      requires Valid() && id in plat && !BadSource(src, blockSize)
      requires descs[id].copiedSize < descs[id].imageSize <= plat[id].maxSize && size == Clipped(descs[id], blockSize)
      modifies this`descs, this`mem, loadedIds
      ensures Follows(CopyBlock(plat, old(State()), id, src, blockSize, true, preLoadOk), r, State())
    {
      var rc := AddLoadedId(id);
      if rc != 0 {
        return Some(ENOMEM);
      }
      assert State() == old(State()).(loaded := loadedIds[..]);
      r := PutRecorded(id, src, blockSize, size, preLoadOk, old(State()));
    }

    /** Runs the hook and writes, with the ID recorded; `st` is the state before that. */
    method PutRecorded(id: ImageId, src: nat, ghost blockSize: nat, size: nat, preLoadOk: bool, ghost st: Fwu)
      returns (r: Option<Ret>)
      requires Shape(plat, st) && id in plat && !BadSource(src, blockSize) && State() == st.(loaded := loadedIds[..])
      requires descs[id].copiedSize < descs[id].imageSize <= plat[id].maxSize && size == Clipped(descs[id], blockSize)
      requires AddLoaded(st.loaded, id) == Some(loadedIds[..])
      modifies this`descs, this`mem
      ensures Follows(CopyBlock(plat, st, id, src, blockSize, true, preLoadOk), r, State())
    {
      if descs[id].state == Reset && !preLoadOk {
        return Some(EPERM);
      }
      ghost var o := CopyBlock(plat, st, id, src, blockSize, true, preLoadOk);
      CopyBlockDone(plat, st, id, src, blockSize, preLoadOk, loadedIds[..]);
      PutBlock(id, src, size);
      assert State() == o.st;
      r := Some(Success);
    }

    /** Writes the clipped block and moves the descriptor on. */
    method PutBlock(id: ImageId, src: nat, size: nat)
      requires Valid() && id in plat && src + size <= ADDR_SPACE
      requires 0 < size <= descs[id].imageSize - descs[id].copiedSize && descs[id].imageSize <= plat[id].maxSize
      modifies this`descs, this`mem
      ensures State() == WithDesc(old(State()).(mem := mem), id, AfterBlock(old(descs)[id], size))
      ensures mem == Splice(old(mem), plat[id].base + old(descs)[id].copiedSize, old(mem)[src..src + size])
    {
      var d := descs[id];
      var remaining := d.imageSize - d.copiedSize;
      mem := Splice(mem, plat[id].base + d.copiedSize, mem[src..src + size]);
      d := d.(copiedSize := d.copiedSize + size, state := if size == remaining then Copied else Copying);
      descs := descs[id := d];
    }

    method ImageAuth(id: ImageId, src: nat, imageSize: nat, mapped: bool, verdict: bool, postLoadOk: bool)
      returns (r: Option<Ret>)
      requires Valid() && src < ADDR_SPACE && imageSize < U32
      modifies this`descs, this`mem, loadedIds
      ensures Follows(Auth(plat, old(State()), id, src, imageSize, mapped, verdict, postLoadOk), r, State())
      ensures id in plat && !verdict && CopiedForNormal(plat, old(State()), id) ==>
        r == Some(EAUTH) && Cleared(plat, mem, id, old(descs)[id].imageSize)
    {
      ghost var c := AuthCall(id, src, imageSize, mapped, verdict, postLoadOk);
      if id in plat && Clears(plat, State(), c, id, descs[id].imageSize) {
        ClearsExactly(plat, State(), c, id, descs[id].imageSize);
      }
      r := Authenticate(id, src, imageSize, mapped, verdict, postLoadOk);
    }

    method Authenticate(id: ImageId, src: nat, imageSize: nat, mapped: bool, verdict: bool, postLoadOk: bool)
      returns (r: Option<Ret>)
      requires Valid() && src < ADDR_SPACE && imageSize < U32
      modifies this`descs, this`mem, loadedIds
      ensures Follows(Auth(plat, old(State()), id, src, imageSize, mapped, verdict, postLoadOk), r, State())
    {
      if id !in plat {
        return Some(EPERM);
      }
      if world == Secure {
        if descs[id].state != Reset {
          return Some(EPERM);
        }
      } else if plat[id].world == Secure {
        if descs[id].state != Copied {
          return Some(EPERM);
        }
      } else if descs[id].state != Reset {
        return Some(EPERM);
      }
      var addr, size := plat[id].base, descs[id].imageSize;
      if descs[id].state != Copied {
        if BadSource(src, imageSize) || !mapped {
          return Some(ENOMEM);
        }
        var rc := AddLoadedId(id);
        if rc != 0 {
          return Some(ENOMEM);
        }
        addr, size := src, imageSize;
        descs := descs[id := descs[id].(imageSize := size)];
      }
      r := Conclude(id, addr, size, verdict, postLoadOk);
    }

    /** Acts on the verdict of the authentication module on [addr, addr+size). */
    method Conclude(id: ImageId, addr: nat, size: nat, verdict: bool, postLoadOk: bool) returns (r: Option<Ret>)
      requires Valid() && id in plat && addr + size <= ADDR_SPACE
      modifies this`descs, this`mem, loadedIds
      ensures Follows(Verify(plat, old(State()), id, addr, size, verdict, postLoadOk), r, State())
    {
      if !verdict {
        if descs[id].state == Copied {
          mem := Splice(mem, addr, Zeros(size));
          descs := descs[id := descs[id].(state := Reset)];
        }
        var _ := RemoveLoadedId(id);
        return Some(EAUTH);
      }
      if !postLoadOk {
        return None;
      }
      descs := descs[id := descs[id].(state := Authenticated)];
      r := Some(Success);
    }

    method ImageExecute(id: ImageId) returns (r: Option<Ret>)
      requires Valid()
      modifies this`descs, this`secExec, this`world
      ensures Follows(Execute(plat, old(State()), id), r, State())
    {
      if id !in plat || world == Secure || plat[id].world == NonSecure || !plat[id].executable
         || descs[id].state != Authenticated {
        return Some(EPERM);
      }
      descs := descs[id := descs[id].(state := Executed)];
      secExec := id;
      world := Secure;
      r := Some(Success);
    }

    method ImageResume(param: int) returns (r: Option<Ret>)
      requires Valid()
      modifies this`descs, this`world
      ensures Follows(Resume(plat, old(State()), param), r, State())
    {
      if world == NonSecure && secExec !in plat {
        return Some(EPERM);
      }
      if secExec !in plat || plat[secExec].world == NonSecure || !plat[secExec].executable {
        return None;
      }
      var d := descs[secExec];
      if world == Secure {
        if d.state != Executed {
          return None;
        }
        descs := descs[secExec := d.(state := Interrupted)];
        world := NonSecure;
      } else {
        if d.state != Interrupted {
          return None;
        }
        descs := descs[secExec := d.(state := Executed)];
        world := Secure;
      }
      r := Some(Param(param));
    }

    method SecureImageDone() returns (r: Option<Ret>)
      requires Valid()
      modifies this`descs, this`secExec, this`world, loadedIds
      ensures Follows(SecImageDone(plat, old(State())), r, State())
    {
      if world == NonSecure {
        return Some(EPERM);
      }
      if secExec !in plat || plat[secExec].world == NonSecure || !plat[secExec].executable
         || descs[secExec].state != Executed {
        return None;
      }
      var rc := RemoveLoadedId(secExec);
      if rc != 0 {
        return None;
      }
      descs := descs[secExec := descs[secExec].(state := Reset)];
      secExec := INVALID_IMAGE_ID;
      world := NonSecure;
      r := Some(Success);
    }

    method ImageReset(id: ImageId) returns (r: Option<Ret>)
      requires Valid()
      modifies this`descs, this`mem, loadedIds
      ensures Follows(ResetImage(plat, old(State()), id), r, State())
      ensures r == Some(Success) && id in plat && old(descs)[id].state != Reset ==>
        Cleared(plat, mem, id, old(descs)[id].copiedSize) && descs[id] == Desc(Reset, 0, 0)
    {
      if id in plat {
        SpliceAt(mem, plat[id].base, Zeros(descs[id].copiedSize));
      }
      r := Release(id);
    }

    method Release(id: ImageId) returns (r: Option<Ret>)
      requires Valid()
      modifies this`descs, this`mem, loadedIds
      ensures Follows(ResetImage(plat, old(State()), id), r, State())
    {
      if id !in plat || world == Secure {
        return Some(EPERM);
      }
      var d := descs[id];
      if d.state == Executed {
        return None;
      }
      if d.state != Reset {
        var rc := RemoveLoadedId(id);
        if rc != 0 {
          return Some(EPERM);
        }
        if d.copiedSize != 0 {
          if plat[id].world != Secure {
            return None;
          }
          mem := Splice(mem, plat[id].base, Zeros(d.copiedSize));
        }
        descs := descs[id := Desc(Reset, 0, 0)];
      }
      r := Some(Success);
    }

    // ----- the SMC handler

    /** Hands a call to its handler; the end of the update does not return. */
    method Dispatch(c: Call) returns (r: Option<Ret>)
      requires Valid() && ArgsFit(c) && !c.WorldWrite?
      modifies this`descs, this`mem, this`secExec, this`world, loadedIds
      ensures Follows(Step(plat, old(State()), c), r, State())
    {
      match c {
        case CopyCall(id, src, blockSize, imageSize, mapped, preLoadOk) => {
          r := ImageCopy(id, src, blockSize, imageSize, mapped, preLoadOk);
        }
        case AuthCall(id, src, imageSize, mapped, verdict, postLoadOk) => {
          r := ImageAuth(id, src, imageSize, mapped, verdict, postLoadOk);
        }
        case ExecuteCall(id) => { r := ImageExecute(id); }
        case ResumeCall(param) => { r := ImageResume(param); }
        case SecImageDoneCall => { r := SecureImageDone(); }
        case ResetCall(id) => { r := ImageReset(id); }
        case UpdateDoneCall => { r := None; }
      }
    }

    /** One SMC. Unless it halts the invariant of the runs holds after it; and when it starts a secure image, and no
        AUTH call has come from the secure world, that image's memory is what was accepted for it, untouched since. */
    method SmcHandler(c: Call) returns (r: Option<Ret>)
      requires Safe() && ArgsFit(c) && !c.WorldWrite?
      modifies this, loadedIds
      ensures Follows(Step(plat, old(State()), c), r, State())
      ensures r.Some? ==> Safe() && log == old(log) + [Step(plat, old(State()), c).ev]
      ensures r.Some? ==> normalDriven == (old(normalDriven) && !(c.AuthCall? && old(world) == Secure))
      ensures r.Some? && old(normalDriven) && log[|log| - 1].Started? ==>
        StartedAccepted(plat, old(log), old(State()), log[|log| - 1])
    {
      ghost var s, was := Sys(State(), log), normalDriven;
      ghost var o := Step(plat, s.st, c);
      r := Dispatch(c);
      if r.Some? {
        normalDriven := normalDriven && !(c.AuthCall? && s.st.world == Secure);
        log := log + [o.ev];
        if was && !normalDriven {
          Weaken(plat, TrackedOf(plat, s));
        }
        SysStepKeeps(plat, s, c, Sys(State(), log), normalDriven);
        if was && o.ev.Started? {
          StartedFromLog(plat, s, c, o.ev.id, o.ev.bytes);
        }
      }
    }

    /** A write of the running world, between calls. */
    method WorldWrites(addr: nat, data: seq<byte>)
      requires Safe() && addr + |data| <= ADDR_SPACE && MayWrite(plat, State(), addr, |data|)
      modifies this`mem, this`log
      ensures Safe() && mem == Splice(old(mem), addr, data) && log == old(log) + [Quiet]
    {
      ghost var s := Sys(State(), log);
      mem := Splice(mem, addr, data);
      log := log + [Quiet];
      SysStepKeeps(plat, s, WorldWrite(addr, data), Sys(State(), log), normalDriven);
    }
  }

  /** The image that `ev` starts had exactly those bytes accepted, in `log`, and they are its memory in `st`. */
  ghost predicate StartedAccepted(plat: Platform, log: seq<Event>, st: Fwu, ev: Event)
    requires ev.Started?
  {
    && (exists m: nat :: AcceptedAt(log, ev.id, ev.bytes, m))
    && ev.id in plat && ev.id in st.descs && plat[ev.id].base + st.descs[ev.id].imageSize <= |st.mem|
    && ev.bytes == st.mem[plat[ev.id].base..plat[ev.id].base + st.descs[ev.id].imageSize]
  }

  lemma {:induction false} StartedFromLog(plat: Platform, s: Sys, c: Call, id: ImageId, bytes: seq<byte>)
    requires Inv(plat, TrackedOf(plat, s), true) && ArgsFit(c)
    requires Step(plat, s.st, c).Done? && Step(plat, s.st, c).ev == Started(id, bytes)
    ensures StartedAccepted(plat, s.log, s.st, Started(id, bytes))
  {
    StartedOnAccepted(plat, s, c, id, bytes);
    AcceptedIsInLog(s.log, id, bytes);
  }
}
