/** The BL1 firmware-update service as a transition function: one value per service state, one
    function per SMC. Platform hooks and the authentication verdict are inputs of each call, so a
    run ranges over every platform behaviour. A failing C assertion or panic is `Halted`. */
module FwuModel {
  import opened Bytes
  import opened Wrappers

  type ImageId = nat

  const INVALID_IMAGE_ID: ImageId := 0xFFFF_FFFF
  const MAX_LOADED: nat := 10
  const ADDR_SPACE: nat := 0x1_0000_0000_0000_0000
  const U32: nat := 0x1_0000_0000

  datatype ImageState = Reset | Copied | Copying | Authenticated | Executed | Interrupted

  datatype World = Secure | NonSecure

  /** The part of an image descriptor that the platform fixes. */
  datatype Attr = Attr(base: nat, maxSize: nat, world: World, executable: bool)

  /** The part of an image descriptor that the service updates. */
  datatype Desc = Desc(state: ImageState, copiedSize: nat, imageSize: nat)

  type Platform = map<ImageId, Attr>

  /** `world` is the security state the next SMC will come from. */
  datatype Fwu = Fwu(descs: map<ImageId, Desc>, loaded: seq<ImageId>, secExec: ImageId, world: World,
                     mem: seq<byte>)

  datatype Ret = Success | EPERM | ENOMEM | EAUTH | Param(value: int)

  /** What an observer of the service sees happen in one step.
      `Supplied` carries the block the caller offered, before clipping. */
  datatype Event =
    | Quiet
    | Supplied(id: ImageId, first: bool, block: seq<byte>)
    | Accepted(id: ImageId, inPlace: bool, bytes: seq<byte>)
    | Started(id: ImageId, bytes: seq<byte>)
    | Released(id: ImageId)

  datatype Outcome = Halted | Done(st: Fwu, ret: Ret, ev: Event)

  datatype Call =
    | CopyCall(id: ImageId, src: nat, blockSize: nat, imageSize: nat, mapped: bool, preLoadOk: bool)
    | AuthCall(id: ImageId, src: nat, imageSize: nat, mapped: bool, verdict: bool, postLoadOk: bool)
    | ExecuteCall(id: ImageId)
    | ResumeCall(param: int)
    | SecImageDoneCall
    | ResetCall(id: ImageId)
    | UpdateDoneCall
    | WorldWrite(addr: nat, data: seq<byte>)

  /** The platform table: the invalid ID names nothing and secure images do not wrap around memory. */
  ghost predicate PlatformOk(plat: Platform) {
    && INVALID_IMAGE_ID !in plat
    && forall id :: id in plat ==>
      plat[id].maxSize < U32 && plat[id].base + plat[id].maxSize <= ADDR_SPACE
  }

  ghost predicate Shape(plat: Platform, st: Fwu) {
    && PlatformOk(plat)
    && st.descs.Keys == plat.Keys
    && |st.mem| == ADDR_SPACE
    && |st.loaded| == MAX_LOADED
    && forall id :: id in plat ==> SizesFit(plat[id], st.descs[id])
  }

  predicate SizesFit(a: Attr, d: Desc) {
    && d.imageSize < U32
    && d.copiedSize <= a.maxSize
    && (d.state == Copying || d.state == Copied ==> d.imageSize <= a.maxSize)
  }

  /** Registers hold 32-bit sizes and 64-bit addresses. */
  predicate ArgsFit(c: Call) {
    match c
    case CopyCall(_, src, blockSize, imageSize, _, _) => src < ADDR_SPACE && blockSize < U32 && imageSize < U32
    case AuthCall(_, src, imageSize, _, _, _) => src < ADDR_SPACE && imageSize < U32
    case WorldWrite(addr, data) => addr + |data| <= ADDR_SPACE
    case _ => true
  }

  // ----- the table of loaded images

  function IndexOf(s: seq<ImageId>, x: ImageId): (i: nat)
    ensures i <= |s|
    ensures i < |s| ==> s[i] == x
    ensures forall j :: 0 <= j < i ==> s[j] != x
  {
    if s == [] || s[0] == x then 0 else 1 + IndexOf(s[1..], x)
  }

  function AddLoaded(loaded: seq<ImageId>, id: ImageId): (r: Option<seq<ImageId>>) {
    if IndexOf(loaded, id) < |loaded| then Some(loaded)
    else if IndexOf(loaded, INVALID_IMAGE_ID) < |loaded| then
      Some(loaded[IndexOf(loaded, INVALID_IMAGE_ID) := id])
    else None
  }

  function RemoveLoaded(loaded: seq<ImageId>, id: ImageId): (r: Option<seq<ImageId>>) {
    var i := IndexOf(loaded, id);
    if i < |loaded| then Some(loaded[i := INVALID_IMAGE_ID]) else None
  }

  /** The table after a removal whose failure is ignored. */
  function Unloaded(loaded: seq<ImageId>, id: ImageId): (r: seq<ImageId>)
    ensures |r| == |loaded|
  {
    match RemoveLoaded(loaded, id) case Some(l) => l case None => loaded
  }

  // ----- overlap check

  datatype Scan = Clear | Overlap | AssertFails

  /** Scan of the table from slot `i` for an image that overlaps the range [lo, hi]. */
  function ScanOverlaps(plat: Platform, st: Fwu, id: ImageId, lo: nat, hi: nat, i: nat): (r: Scan)
    requires st.descs.Keys == plat.Keys
    decreases |st.loaded| - i
  {
    if i >= |st.loaded| then Clear
    else
      var other := st.loaded[i];
      if other == INVALID_IMAGE_ID || other == id then ScanOverlaps(plat, st, id, lo, hi, i + 1)
      else if other !in plat || st.descs[other].state == Reset then AssertFails
      else if st.descs[other].imageSize == 0 then ScanOverlaps(plat, st, id, lo, hi, i + 1)
      else
        var base := plat[other].base;
        var end := (base + st.descs[other].imageSize - 1) % ADDR_SPACE;
        if end <= base then AssertFails
        else if !(end < lo || hi < base) then Overlap
        else ScanOverlaps(plat, st, id, lo, hi, i + 1)
  }

  // ----- FWU_SMC_IMAGE_COPY

  predicate BadSource(src: nat, size: nat) {
    src == 0 || size == 0 || src > ADDR_SPACE - 1 - (size - 1)
  }

  function Refuse(st: Fwu, ret: Ret): Outcome { Done(st, ret, Quiet) }

  /** Service state with the descriptor of `id` replaced. */
  function WithDesc(st: Fwu, id: ImageId, d: Desc): Fwu { st.(descs := st.descs[id := d]) }

  function Copy(plat: Platform, st: Fwu, id: ImageId, src: nat, blockSize: nat, imageSize: nat,
                mapped: bool, preLoadOk: bool): (r: Outcome)
    requires Shape(plat, st) && src < ADDR_SPACE && blockSize < U32 && imageSize < U32
    ensures r.Done? ==> Shape(plat, r.st)
  {
    if id !in plat || st.world == Secure || plat[id].world == NonSecure then Refuse(st, EPERM)
    else
      var d := st.descs[id];
      if d.state != Reset && d.state != Copying then Refuse(st, EPERM)
      else if BadSource(src, blockSize) then Refuse(st, ENOMEM)
      else if d.state == Copying then
        if d.copiedSize == 0 || d.copiedSize >= d.imageSize then Halted
        else CopyBlock(plat, st, id, src, blockSize, mapped, preLoadOk)
      else if imageSize == 0 || imageSize > plat[id].maxSize then Refuse(st, ENOMEM)
      else
        var sized := WithDesc(st, id, d.(imageSize := imageSize));
        match ScanOverlaps(plat, sized, id, plat[id].base, plat[id].base + imageSize - 1, 0)
        case AssertFails => Halted
        case Overlap => Refuse(WithDesc(st, id, d.(imageSize := 0)), EPERM)
        case Clear =>
          CopyBlock(plat, WithDesc(st, id, d.(imageSize := imageSize, copiedSize := 0)), id, src,
                    blockSize, mapped, preLoadOk)
  }

  /** The part of an offered block that still fits the image. */
  function Clipped(d: Desc, blockSize: nat): nat
    requires d.copiedSize <= d.imageSize
  {
    if blockSize > d.imageSize - d.copiedSize then d.imageSize - d.copiedSize else blockSize
  }

  /** The descriptor once `n` more bytes are in place. */
  function AfterBlock(d: Desc, n: nat): Desc {
    d.(copiedSize := d.copiedSize + n, state := if n == d.imageSize - d.copiedSize then Copied else Copying)
  }

  /** The common tail of a copy: clip, check the source, record the ID, write the block. */
  function CopyBlock(plat: Platform, st: Fwu, id: ImageId, src: nat, blockSize: nat, mapped: bool,
                     preLoadOk: bool): (r: Outcome)
    requires Shape(plat, st) && id in plat && !BadSource(src, blockSize)
    requires st.descs[id].copiedSize < st.descs[id].imageSize <= plat[id].maxSize
    ensures r.Done? ==> Shape(plat, r.st)
  {
    var d := st.descs[id];
    var n := Clipped(d, blockSize);
    if !mapped then Refuse(st, ENOMEM)
    else
      match AddLoaded(st.loaded, id)
      case None => Refuse(st, ENOMEM)
      case Some(loaded) =>
        if d.state == Reset && !preLoadOk then Refuse(st.(loaded := loaded), EPERM)
        else
          var mem := Splice(st.mem, plat[id].base + d.copiedSize, st.mem[src..src + n]);
          Done(WithDesc(st.(loaded := loaded, mem := mem), id, AfterBlock(d, n)), Success,
               Supplied(id, d.state == Reset, st.mem[src..src + blockSize]))
  }

  // ----- FWU_SMC_IMAGE_AUTH

  /** The state an image must be in for the calling world to have it authenticated. */
  function AuthState(plat: Platform, st: Fwu, id: ImageId): ImageState
    requires id in plat
  {
    if st.world == NonSecure && plat[id].world == Secure then Copied else Reset
  }

  function Auth(plat: Platform, st: Fwu, id: ImageId, src: nat, imageSize: nat, mapped: bool,
                verdict: bool, postLoadOk: bool): (r: Outcome)
    requires Shape(plat, st) && src < ADDR_SPACE && imageSize < U32
    ensures r.Done? ==> Shape(plat, r.st)
  {
    if id !in plat || st.descs[id].state != AuthState(plat, st, id) then Refuse(st, EPERM)
    else
      var d := st.descs[id];
      if d.state == Copied then
        Verify(plat, st, id, plat[id].base, d.imageSize, verdict, postLoadOk)
      else if BadSource(src, imageSize) || !mapped then Refuse(st, ENOMEM)
      else
        match AddLoaded(st.loaded, id)
        case None => Refuse(st, ENOMEM)
        case Some(loaded) =>
          Verify(plat, WithDesc(st.(loaded := loaded), id, d.(imageSize := imageSize)), id, src, imageSize,
                 verdict, postLoadOk)
  }

  /** Authentication of the bytes [addr, addr+size), with `verdict` the answer of the auth module. */
  function Verify(plat: Platform, st: Fwu, id: ImageId, addr: nat, size: nat, verdict: bool,
                  postLoadOk: bool): (r: Outcome)
    requires Shape(plat, st) && id in plat && addr + size <= ADDR_SPACE
    ensures r.Done? ==> Shape(plat, r.st)
  {
    var d := st.descs[id];
    if !verdict then
      var st1 := st.(loaded := Unloaded(st.loaded, id));
      if d.state == Copied then
        Done(WithDesc(st1.(mem := Splice(st.mem, addr, Zeros(size))), id, d.(state := Reset)), EAUTH,
             Released(id))
      else Done(st1, EAUTH, Quiet)
    else if !postLoadOk then Halted
    else
      Done(WithDesc(st, id, d.(state := Authenticated)), Success,
           Accepted(id, d.state != Copied, st.mem[addr..addr + size]))
  }

  // ----- FWU_SMC_IMAGE_EXECUTE, _RESUME, FWU_SMC_SEC_IMAGE_DONE

  function Execute(plat: Platform, st: Fwu, id: ImageId): (r: Outcome)
    requires Shape(plat, st)
    ensures r.Done? ==> Shape(plat, r.st)
  {
    if id !in plat || st.world == Secure || plat[id].world == NonSecure || !plat[id].executable
       || st.descs[id].state != Authenticated
    then Refuse(st, EPERM)
    else
      var a, d := plat[id], st.descs[id];
      var started := if a.base + d.imageSize <= |st.mem| then st.mem[a.base..a.base + d.imageSize] else [];
      Done(WithDesc(st, id, d.(state := Executed)).(secExec := id, world := Secure), Success,
           Started(id, started))
  }

  /** The checks that a world switch makes on the last executed secure image. */
  predicate SwitchAsserts(plat: Platform, st: Fwu, state: ImageState)
    requires st.descs.Keys == plat.Keys
  {
    && st.secExec in plat
    && plat[st.secExec].world == Secure
    && plat[st.secExec].executable
    && st.descs[st.secExec].state == state
  }

  function Resume(plat: Platform, st: Fwu, param: int): (r: Outcome)
    requires Shape(plat, st)
    ensures r.Done? ==> Shape(plat, r.st)
  {
    if st.world == NonSecure && st.secExec !in plat then Refuse(st, EPERM)
    else
      var from, to, next := if st.world == Secure then Executed else Interrupted,
                            if st.world == Secure then Interrupted else Executed,
                            if st.world == Secure then NonSecure else Secure;
      if !SwitchAsserts(plat, st, from) then Halted
      else
        Done(WithDesc(st, st.secExec, st.descs[st.secExec].(state := to)).(world := next), Param(param), Quiet)
  }

  function SecImageDone(plat: Platform, st: Fwu): (r: Outcome)
    requires Shape(plat, st)
    ensures r.Done? ==> Shape(plat, r.st)
  {
    if st.world == NonSecure then Refuse(st, EPERM)
    else if !SwitchAsserts(plat, st, Executed) then Halted
    else
      match RemoveLoaded(st.loaded, st.secExec)
      case None => Halted
      case Some(loaded) =>
        var st1 := WithDesc(st.(loaded := loaded), st.secExec, st.descs[st.secExec].(state := Reset));
        Done(st1.(secExec := INVALID_IMAGE_ID, world := NonSecure), Success, Released(st.secExec))
  }

  // ----- FWU_SMC_IMAGE_RESET

  function ResetImage(plat: Platform, st: Fwu, id: ImageId): (r: Outcome)
    requires Shape(plat, st)
    ensures r.Done? ==> Shape(plat, r.st)
  {
    if id !in plat || st.world == Secure then Refuse(st, EPERM)
    else
      var d := st.descs[id];
      match d.state
      case Reset => Refuse(st, Success)
      case Executed => Halted
      case _ =>
        match RemoveLoaded(st.loaded, id)
        case None => Refuse(st, EPERM)
        case Some(loaded) =>
          if d.copiedSize != 0 && plat[id].world != Secure then Halted
          else
            var mem := if d.copiedSize != 0 then Splice(st.mem, plat[id].base, Zeros(d.copiedSize)) else st.mem;
            Done(WithDesc(st.(loaded := loaded, mem := mem), id, Desc(Reset, 0, 0)), Success, Released(id))
  }

  // ----- the running world's own writes

  /** Where the world that runs between two SMCs can write. The normal world is kept out of the
      memory of every secure image; a running secure image leaves the other loaded ones alone. */
  ghost predicate MayWrite(plat: Platform, st: Fwu, addr: nat, n: nat)
    requires st.descs.Keys == plat.Keys
  {
    forall id :: id in plat && plat[id].world == Secure ==>
      if st.world == NonSecure then Apart(addr, n, plat[id].base, plat[id].maxSize)
      else id != st.secExec && st.descs[id].state != Reset ==>
        Apart(addr, n, plat[id].base, st.descs[id].imageSize)
  }

  // ----- one step, and runs

  ghost function Step(plat: Platform, st: Fwu, c: Call): (r: Outcome)
    requires Shape(plat, st) && ArgsFit(c)
    ensures r.Done? ==> Shape(plat, r.st)
  {
    match c
    case CopyCall(id, src, blockSize, imageSize, mapped, preLoadOk) =>
      Copy(plat, st, id, src, blockSize, imageSize, mapped, preLoadOk)
    case AuthCall(id, src, imageSize, mapped, verdict, postLoadOk) =>
      Auth(plat, st, id, src, imageSize, mapped, verdict, postLoadOk)
    case ExecuteCall(id) => Execute(plat, st, id)
    case ResumeCall(param) => Resume(plat, st, param)
    case SecImageDoneCall => SecImageDone(plat, st)
    case ResetCall(id) => ResetImage(plat, st, id)
    case UpdateDoneCall => Halted
    case WorldWrite(addr, data) =>
      if MayWrite(plat, st, addr, |data|) then Done(st.(mem := Splice(st.mem, addr, data)), Success, Quiet)
      else Refuse(st, Success)
  }

  /** The service at the start of an update: everything reset but the booted normal-world image. */
  ghost predicate Initial(plat: Platform, st: Fwu, boot: ImageId) {
    && Shape(plat, st)
    && boot in plat && plat[boot].world == NonSecure
    && st.world == NonSecure && st.secExec == INVALID_IMAGE_ID
    && (forall i :: 0 <= i < |st.loaded| ==> st.loaded[i] == INVALID_IMAGE_ID)
    && (forall id :: id in st.descs ==>
      st.descs[id] == Desc(if id == boot then Executed else Reset, 0, st.descs[id].imageSize))
  }

  /** A state and the log of everything observed on the way to it. */
  datatype Sys = Sys(st: Fwu, log: seq<Event>)

  /** `trace` is a run of the calls `calls` in which nothing has halted. */
  ghost predicate IsRun(plat: Platform, boot: ImageId, calls: seq<Call>, trace: seq<Sys>) {
    && |trace| == |calls| + 1
    && Initial(plat, trace[0].st, boot) && trace[0].log == []
    && forall i {:trigger calls[i]} :: 0 <= i < |calls| ==> IsStep(plat, trace[i], calls[i], trace[i + 1])
  }

  ghost predicate IsStep(plat: Platform, s: Sys, c: Call, s': Sys) {
    && Shape(plat, s.st) && ArgsFit(c)
    && var r := Step(plat, s.st, c);
       r.Done? && s'.st == r.st && s'.log == s.log + [r.ev]
  }
}
