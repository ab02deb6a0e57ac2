/** What each call of the firmware-update service does: to memory cell by cell, to the table of loaded images, and to
    the state of each image. */
module FwuEffects {
  import opened Bytes
  import opened FwuModel
  import opened FwuInvariant
  import opened FwuRuns
  import opened Wrappers

  // ----- memory

  /** How much of the image was in place before a copy, and how much it is to have. */
  function Before(st: Fwu, id: ImageId): nat
    requires id in st.descs
  {
    if st.descs[id].state == Reset then 0 else st.descs[id].copiedSize
  }

  function Total(st: Fwu, id: ImageId, imageSize: nat): nat
    requires id in st.descs
  {
    if st.descs[id].state == Reset then imageSize else st.descs[id].imageSize
  }

  /** How much of a block the image still needs. */
  function Moved(st: Fwu, id: ImageId, blockSize: nat, imageSize: nat): nat
    requires id in st.descs && Before(st, id) <= Total(st, id, imageSize)
  {
    var left := Total(st, id, imageSize) - Before(st, id);
    if blockSize < left then blockSize else left
  }

  /** `mem'` is `mem` with the `n` cells from `src` copied to `at`. */
  ghost predicate CellsMoved(mem: seq<byte>, mem': seq<byte>, at: nat, src: nat, n: nat) {
    at + n <= |mem| && src + n <= |mem| && mem' == Splice(mem, at, mem[src..src + n])
  }

  /** That is to say, for each cell. */
  lemma {:induction false} MovedCell(mem: seq<byte>, mem': seq<byte>, at: nat, src: nat, n: nat, a: nat)
    requires CellsMoved(mem, mem', at, src, n) && a < |mem|
    ensures |mem'| == |mem| && mem'[a] == if at <= a < at + n then mem[src + (a - at)] else mem[a]
  {
    SpliceAt(mem, at, mem[src..src + n]);
  }

  lemma {:induction false} BlockMemory(plat: Platform, st: Fwu, id: ImageId, src: nat, blockSize: nat, mapped: bool,
                                       preLoadOk: bool, at: nat, n: nat)
    requires Shape(plat, st) && id in plat && !BadSource(src, blockSize)
    requires st.descs[id].copiedSize < st.descs[id].imageSize <= plat[id].maxSize
    requires at == plat[id].base + st.descs[id].copiedSize && n == Clipped(st.descs[id], blockSize)
    ensures var r := CopyBlock(plat, st, id, src, blockSize, mapped, preLoadOk);
      && r.Done?
      && (r.ret != Success ==> r.st.mem == st.mem) && (r.ret == Success ==> CellsMoved(st.mem, r.st.mem, at, src, n))
  {
  }

  /** The state in which the block is handled: a first block has its sizes recorded. */
  function Sized(st: Fwu, id: ImageId, imageSize: nat): Fwu
    requires id in st.descs
  {
    WithDesc(st, id, st.descs[id].(imageSize := Total(st, id, imageSize), copiedSize := Before(st, id)))
  }

  /** The checks before the block is handled have passed. */
  predicate Sizing(plat: Platform, st: Fwu, id: ImageId, imageSize: nat) {
    && id in plat && id in st.descs && st.world == NonSecure && plat[id].world == Secure
    && (st.descs[id].state == Reset || st.descs[id].state == Copying)
    && Before(st, id) < Total(st, id, imageSize) <= plat[id].maxSize
  }

  lemma {:induction false} CopyMoves(plat: Platform, st: Fwu, id: ImageId, src: nat, blockSize: nat, imageSize: nat,
                                     mapped: bool, preLoadOk: bool)
    requires Shape(plat, st) && src < ADDR_SPACE && blockSize < U32 && imageSize < U32
    requires Copy(plat, st, id, src, blockSize, imageSize, mapped, preLoadOk).Done?
    ensures var r := Copy(plat, st, id, src, blockSize, imageSize, mapped, preLoadOk);
      && (r.ret != Success ==> r.st.mem == st.mem)
      && (r.ret == Success ==>
           && Sizing(plat, st, id, imageSize)
           && CellsMoved(st.mem, r.st.mem, plat[id].base + Before(st, id), src, Moved(st, id, blockSize, imageSize)))
  {
    CopyComesTo(plat, st, id, src, blockSize, imageSize, mapped, preLoadOk);
    var r := Copy(plat, st, id, src, blockSize, imageSize, mapped, preLoadOk);
    if Sizing(plat, st, id, imageSize) && !BadSource(src, blockSize) && Shape(plat, Sized(st, id, imageSize))
       && r == CopyBlock(plat, Sized(st, id, imageSize), id, src, blockSize, mapped, preLoadOk) {
      SizedMoves(plat, st, id, src, blockSize, imageSize, mapped, preLoadOk, r);
    }
  }

  lemma {:induction false} SizedMoves(plat: Platform, st: Fwu, id: ImageId, src: nat, blockSize: nat, imageSize: nat,
                                      mapped: bool, preLoadOk: bool, r: Outcome)
    requires Sizing(plat, st, id, imageSize) && !BadSource(src, blockSize) && Shape(plat, Sized(st, id, imageSize))
    requires r == CopyBlock(plat, Sized(st, id, imageSize), id, src, blockSize, mapped, preLoadOk)
    ensures r.Done? && (r.ret != Success ==> r.st.mem == st.mem)
    ensures r.ret == Success ==>
      CellsMoved(st.mem, r.st.mem, plat[id].base + Before(st, id), src, Moved(st, id, blockSize, imageSize))
  {
    var at, n := plat[id].base + Before(st, id), Moved(st, id, blockSize, imageSize);
    BlockMemory(plat, Sized(st, id, imageSize), id, src, blockSize, mapped, preLoadOk, at, n);
  }

  /** Cell `a` of `mem` once the block is there: the next cell of the source in the part of the image that the block
      fills, and what it was elsewhere. */
  ghost predicate CellAfter(plat: Platform, st: Fwu, id: ImageId, src: nat, blockSize: nat, imageSize: nat, a: nat,
                            mem: seq<byte>) {
    && Sizing(plat, st, id, imageSize) && a < |mem| == |st.mem|
    && var at, n := plat[id].base + Before(st, id), Moved(st, id, blockSize, imageSize);
       && src + n <= |st.mem| && mem[a] == if at <= a < at + n then st.mem[src + (a - at)] else st.mem[a]
  }

  lemma {:induction false} MovedCells(plat: Platform, st: Fwu, id: ImageId, src: nat, blockSize: nat, imageSize: nat,
                                      a: nat, mem: seq<byte>)
    requires Sizing(plat, st, id, imageSize) && a < |st.mem|
    requires CellsMoved(st.mem, mem, plat[id].base + Before(st, id), src, Moved(st, id, blockSize, imageSize))
    ensures CellAfter(plat, st, id, src, blockSize, imageSize, a, mem)
  {
    MovedCell(st.mem, mem, plat[id].base + Before(st, id), src, Moved(st, id, blockSize, imageSize), a);
  }

  /** A copy that succeeds moves the block, as far as the image still needs it, behind what is there; no other cell
      changes, and none does when it is refused. */
  lemma {:induction false} CopyMemory(plat: Platform, st: Fwu, id: ImageId, src: nat, blockSize: nat, imageSize: nat,
                                      mapped: bool, preLoadOk: bool, a: nat) returns (mem: seq<byte>)
    requires Shape(plat, st) && src < ADDR_SPACE && blockSize < U32 && imageSize < U32 && a < ADDR_SPACE
    requires Copy(plat, st, id, src, blockSize, imageSize, mapped, preLoadOk).Done?
    ensures mem == Copy(plat, st, id, src, blockSize, imageSize, mapped, preLoadOk).st.mem
    ensures if Copy(plat, st, id, src, blockSize, imageSize, mapped, preLoadOk).ret != Success then mem == st.mem
      else CellAfter(plat, st, id, src, blockSize, imageSize, a, mem)
  {
    var r := Copy(plat, st, id, src, blockSize, imageSize, mapped, preLoadOk);
    mem := r.st.mem;
    CopyMoves(plat, st, id, src, blockSize, imageSize, mapped, preLoadOk);
    if r.ret == Success {
      MovedCells(plat, st, id, src, blockSize, imageSize, a, mem);
    }
  }

  /** The call finds image `id` with bytes in place, and clears `n` of them. */
  ghost predicate Clears(plat: Platform, st: Fwu, c: Call, id: ImageId, n: nat)
    requires Shape(plat, st)
  {
    && st.world == NonSecure && id in plat && plat[id].world == Secure
    && var d := st.descs[id];
       || (c.AuthCall? && c.id == id && !c.verdict && d.state == Copied && n == d.imageSize)
       || (c == ResetCall(id) && d.state != Reset && d.state != Executed && id in st.loaded && n == d.copiedSize)
  }

  ghost predicate Cleared(plat: Platform, mem: seq<byte>, id: ImageId, n: nat)
    requires id in plat
  {
    forall a :: plat[id].base <= a < plat[id].base + n && a < |mem| ==> mem[a] == 0
  }

  /** A failed authentication of a copied image, and a reset: the image's bytes are zero after it, every other cell is
      as it was, and the image is back in Reset. */
  lemma {:induction false} ClearsExactly(plat: Platform, st: Fwu, c: Call, id: ImageId, n: nat)
    requires Shape(plat, st) && ArgsFit(c) && Clears(plat, st, c, id, n)
    ensures var r := Step(plat, st, c);
      && r.Done? && r.ret == (if c.AuthCall? then EAUTH else Success)
      && r.st.descs[id].state == Reset && n <= plat[id].maxSize && Cleared(plat, r.st.mem, id, n)
      && forall a :: 0 <= a < ADDR_SPACE && !(plat[id].base <= a < plat[id].base + n) ==> r.st.mem[a] == st.mem[a]
  {
    assert c.ResetCall? ==> IndexOf(st.loaded, id) < |st.loaded|;
    SpliceAt(st.mem, plat[id].base, Zeros(n));
  }

  /** No other call that the service handles changes memory. */
  lemma {:induction false} OthersKeepMemory(plat: Platform, st: Fwu, c: Call)
    requires Shape(plat, st) && ArgsFit(c) && !c.CopyCall? && !c.WorldWrite? && Step(plat, st, c).Done?
    requires forall id, n :: !Clears(plat, st, c, id, n)
    ensures Step(plat, st, c).st.mem == st.mem
  {
    if c.AuthCall? && c.id in plat {
      assert !Clears(plat, st, c, c.id, st.descs[c.id].imageSize);
    }
    if c.ResetCall? && c.id in plat {
      assert !Clears(plat, st, c, c.id, st.descs[c.id].copiedSize);
    }
  }

  lemma {:induction false} CopyStays(plat: Platform, st: Fwu, copied: ImageId, src: nat, blockSize: nat, imageSize: nat,
                                     mapped: bool, preLoadOk: bool, id: ImageId, n: nat)
    requires Shape(plat, st) && src < ADDR_SPACE && blockSize < U32 && imageSize < U32
    requires Copy(plat, st, copied, src, blockSize, imageSize, mapped, preLoadOk).Done?
    requires id in plat && Cleared(plat, st.mem, id, n)
    requires copied in plat ==> Apart(plat[copied].base, plat[copied].maxSize, plat[id].base, n)
    ensures Cleared(plat, Copy(plat, st, copied, src, blockSize, imageSize, mapped, preLoadOk).st.mem, id, n)
  {
    CopyMoves(plat, st, copied, src, blockSize, imageSize, mapped, preLoadOk);
    var r := Copy(plat, st, copied, src, blockSize, imageSize, mapped, preLoadOk);
    if r.ret == Success {
      var at, moved := plat[copied].base + Before(st, copied), Moved(st, copied, blockSize, imageSize);
      MovedKeeps(st.mem, r.st.mem, at, src, moved, plat[id].base, n);
    }
  }

  lemma {:induction false} MovedKeeps(mem: seq<byte>, mem': seq<byte>, at: nat, src: nat, n: nat, lo: nat, size: nat)
    requires CellsMoved(mem, mem', at, src, n) && Apart(at, n, lo, size)
    requires forall a :: lo <= a < lo + size && a < |mem| ==> mem[a] == 0
    ensures forall a :: lo <= a < lo + size && a < |mem'| ==> mem'[a] == 0
  {
    SpliceAt(mem, at, mem[src..src + n]);
  }

  /** A cleared range of a secure image stays clear while the normal world runs and nothing is copied over it. */
  lemma {:induction false} ClearedStays(plat: Platform, st: Fwu, c: Call, id: ImageId, n: nat)
    requires Shape(plat, st) && ArgsFit(c) && Step(plat, st, c).Done?
    requires id in plat && plat[id].world == Secure && n <= plat[id].maxSize && Cleared(plat, st.mem, id, n)
    requires st.world == NonSecure && CopiesApart(plat, c, id, n)
    ensures Cleared(plat, Step(plat, st, c).st.mem, id, n)
  {
    if c.CopyCall? {
      CopyStays(plat, st, c.id, c.src, c.blockSize, c.imageSize, c.mapped, c.preLoadOk, id, n);
    } else if c.WorldWrite? {
      SpliceAt(st.mem, c.addr, c.data);
    } else if other, m :| Clears(plat, st, c, other, m) {
      ClearsExactly(plat, st, c, other, m);
    } else {
      OthersKeepMemory(plat, st, c);
    }
  }

  /** A copy is of an image whose memory is apart from the first `n` bytes of `id`. */
  predicate CopiesApart(plat: Platform, c: Call, id: ImageId, n: nat)
    requires id in plat
  {
    c.CopyCall? && c.id in plat ==> Apart(plat[c.id].base, plat[c.id].maxSize, plat[id].base, n)
  }

  lemma {:induction false} StepStaysCleared(plat: Platform, s: Sys, c: Call, s': Sys, id: ImageId, n: nat)
    requires IsStep(plat, s, c, s') && s.st.world == NonSecure
    requires id in plat && plat[id].world == Secure && n <= plat[id].maxSize && CopiesApart(plat, c, id, n)
    requires Cleared(plat, s.st.mem, id, n)
    ensures Cleared(plat, s'.st.mem, id, n)
  {
    ClearedStays(plat, s.st, c, id, n);
  }

  lemma {:induction false} StepClears(plat: Platform, s: Sys, c: Call, s': Sys, id: ImageId, n: nat)
    requires IsStep(plat, s, c, s') && Clears(plat, s.st, c, id, n)
    ensures id in plat && plat[id].world == Secure && n <= plat[id].maxSize && Cleared(plat, s'.st.mem, id, n)
  {
    ClearsExactly(plat, s.st, c, id, n);
  }

  /** In every run: what a failed authentication or a reset has cleared stays zero until an image is copied there or a
      secure image runs. */
  lemma {:induction false} RejectedBytesStayCleared(plat: Platform, boot: ImageId, calls: seq<Call>, trace: seq<Sys>,
                                                    j: nat, k: nat, id: ImageId, n: nat)
    requires IsRun(plat, boot, calls, trace) && j < k <= |calls|
    requires Shape(plat, trace[j].st) && Clears(plat, trace[j].st, calls[j], id, n)
    requires forall i :: j < i < k ==> trace[i].st.world == NonSecure && CopiesApart(plat, calls[i], id, n)
    ensures n <= plat[id].maxSize && Cleared(plat, trace[k].st.mem, id, n)
    decreases k
  {
    var last := k - 1;
    RunStepAt(plat, boot, calls, trace, last);
    if j == last {
      StepClears(plat, trace[j], calls[j], trace[k], id, n);
    } else {
      RejectedBytesStayCleared(plat, boot, calls, trace, j, last, id, n);
      StepStaysCleared(plat, trace[last], calls[last], trace[k], id, n);
    }
  }

  lemma {:induction false} RunStepAt(plat: Platform, boot: ImageId, calls: seq<Call>, trace: seq<Sys>, i: nat)
    requires IsRun(plat, boot, calls, trace) && i < |calls|
    ensures IsStep(plat, trace[i], calls[i], trace[i + 1])
  {
  }

  // ----- the state of the image

  /** The image once the block is in place: copied exactly when nothing is missing. */
  function Grown(st: Fwu, id: ImageId, blockSize: nat, imageSize: nat): Desc
    requires id in st.descs && Before(st, id) <= Total(st, id, imageSize)
  {
    var done, total := Before(st, id) + Moved(st, id, blockSize, imageSize), Total(st, id, imageSize);
    Desc(if done == total then Copied else Copying, done, total)
  }

  /** What a refused first block may leave behind: sizes, and the table entry if the pre-load hook failed. */
  ghost predicate RefusedFirst(st: Fwu, st': Fwu, id: ImageId, preLoadOk: bool) {
    && id in st.descs && st.descs[id].state == Reset && id in st'.descs && st'.descs[id].state == Reset
    && st' == st.(descs := st.descs[id := st'.descs[id]], loaded := st'.loaded)
    && (st'.loaded != st.loaded ==> !preLoadOk && AddLoaded(st.loaded, id) == Some(st'.loaded))
  }

  lemma {:induction false} BlockEffect(plat: Platform, st: Fwu, id: ImageId, src: nat, blockSize: nat, mapped: bool,
                                       preLoadOk: bool, d: Desc)
    requires Shape(plat, st) && id in plat && !BadSource(src, blockSize)
    requires st.descs[id].copiedSize < st.descs[id].imageSize <= plat[id].maxSize
    requires d == AfterBlock(st.descs[id], Clipped(st.descs[id], blockSize))
    ensures var r := CopyBlock(plat, st, id, src, blockSize, mapped, preLoadOk);
      && r.Done?
      && (if r.ret == Success then BlockPut(st, r.st, id, d)
          else r.st == st || (st.descs[id].state == Reset && !preLoadOk && Recorded(st, r.st, id)))
  {
  }

  ghost predicate Recorded(st: Fwu, st': Fwu, id: ImageId) {
    AddLoaded(st.loaded, id) == Some(st'.loaded) && st' == st.(loaded := st'.loaded)
  }

  /** The image is in the table with the descriptor `d`; nothing else but memory has changed. */
  ghost predicate BlockPut(st: Fwu, st': Fwu, id: ImageId, d: Desc) {
    && AddLoaded(st.loaded, id) == Some(st'.loaded)
    && st' == st.(descs := st.descs[id := d], loaded := st'.loaded, mem := st'.mem)
  }

  /** A copy that succeeds records the image in the table and lets it grow by the block; one that is refused changes
      nothing, but for the sizes and perhaps the table entry of an image that stays in Reset. */
  lemma {:induction false} CopyEffect(plat: Platform, st: Fwu, id: ImageId, src: nat, blockSize: nat, imageSize: nat,
                                      mapped: bool, preLoadOk: bool)
    requires Shape(plat, st) && src < ADDR_SPACE && blockSize < U32 && imageSize < U32
    requires Copy(plat, st, id, src, blockSize, imageSize, mapped, preLoadOk).Done?
    ensures var r := Copy(plat, st, id, src, blockSize, imageSize, mapped, preLoadOk);
      if r.ret == Success then
        && Sizing(plat, st, id, imageSize) && blockSize > 0
        && BlockPut(st, r.st, id, Grown(st, id, blockSize, imageSize))
      else r.st == st || RefusedFirst(st, r.st, id, preLoadOk)
  {
    CopyComesTo(plat, st, id, src, blockSize, imageSize, mapped, preLoadOk);
    var r := Copy(plat, st, id, src, blockSize, imageSize, mapped, preLoadOk);
    if Sizing(plat, st, id, imageSize) && !BadSource(src, blockSize) && Shape(plat, Sized(st, id, imageSize)) {
      var d := Grown(st, id, blockSize, imageSize);
      BlockEffect(plat, Sized(st, id, imageSize), id, src, blockSize, mapped, preLoadOk, d);
      SizedEffect(plat, st, id, imageSize, r.st, d, preLoadOk);
    }
  }

  /** Seen from the state before the sizes were recorded. */
  lemma {:induction false} SizedEffect(plat: Platform, st: Fwu, id: ImageId, imageSize: nat, st': Fwu, d: Desc,
                                       preLoadOk: bool)
    requires Sizing(plat, st, id, imageSize)
    ensures BlockPut(Sized(st, id, imageSize), st', id, d) ==> BlockPut(st, st', id, d)
    ensures st' == Sized(st, id, imageSize) ==> st' == st || RefusedFirst(st, st', id, preLoadOk)
    ensures !preLoadOk && st.descs[id].state == Reset && Recorded(Sized(st, id, imageSize), st', id) ==>
      RefusedFirst(st, st', id, preLoadOk)
  {
    var sized := Sized(st, id, imageSize);
    assert sized.descs[id := d] == st.descs[id := d];
    assert st.descs[id].state == Copying ==> sized.descs == st.descs;
  }

  /** The two ways a copy goes, with what a refusal before the block leaves. */
  lemma {:induction false} CopyComesTo(plat: Platform, st: Fwu, id: ImageId, src: nat, blockSize: nat, imageSize: nat,
                                       mapped: bool, preLoadOk: bool)
    requires Shape(plat, st) && src < ADDR_SPACE && blockSize < U32 && imageSize < U32
    requires Copy(plat, st, id, src, blockSize, imageSize, mapped, preLoadOk).Done?
    ensures var r := Copy(plat, st, id, src, blockSize, imageSize, mapped, preLoadOk);
      || (r.ret != Success && (r.st == st || RefusedFirst(st, r.st, id, preLoadOk)))
      || (Sizing(plat, st, id, imageSize) && !BadSource(src, blockSize) && Shape(plat, Sized(st, id, imageSize))
          && r == CopyBlock(plat, Sized(st, id, imageSize), id, src, blockSize, mapped, preLoadOk))
  {
    if id in plat && st.descs[id].state == Copying {
      assert st.descs[id := st.descs[id]] == st.descs;
    }
  }
}
