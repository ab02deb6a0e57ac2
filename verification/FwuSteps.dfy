/** Every call of the firmware-update service keeps the invariants of FwuInvariant. */
module FwuSteps {
  import opened Bytes
  import opened FwuModel
  import opened FwuInvariant
  import opened Wrappers

  /** `s'` is what `r` leaves of `s`. */
  ghost predicate Leads(s: Tracked, r: Outcome, s': Tracked) {
    r.Done? && s'.st == r.st && s'.tr == ObserveAll(s.tr, r.ev)
  }

  /** A refused call. */
  lemma {:induction false} Refused(plat: Platform, s: Tracked, s': Tracked, content: bool, ret: Ret)
    requires Inv(plat, s, content) && Leads(s, Refuse(s.st, ret), s')
    ensures Inv(plat, s', content)
  {
    ObserveQuiet(s.tr);
  }

  /** A step on one image that writes no memory. */
  lemma {:induction false} NoWrite(plat: Platform, s: Tracked, content: bool, id: ImageId, d: Desc, ev: Event,
                loaded: seq<ImageId>, secExec: ImageId, world: World, s': Tracked)
    requires Inv(plat, s, content) && id in plat && (ev.Quiet? || ev.id == id)
    requires s'.st == Fwu(s.st.descs[id := d], loaded, secExec, world, s.st.mem)
    requires s'.tr == ObserveAll(s.tr, ev)
    requires SizesFit(plat[id], d) && TableKept(s.st.loaded, loaded, id)
    requires WorldOk(plat, secExec, world) && OthersSwitch(s.st, secExec, world, id)
    requires Tracking(plat, s') && Good(plat, s', content, id)
    requires s'.tr[id].viaCopy ==> s.tr[id].viaCopy && d.imageSize == s.st.descs[id].imageSize
    ensures Inv(plat, s', content)
  {
    ObserveOne(s.tr, id, ev);
    assert Splice(s.st.mem, 0, []) == s.st.mem;
    forall j | j in plat
      ensures PairApart(plat, s, id, j)
    {
    }
    UpdateKeeps(plat, s, content, id, d, ev, loaded, secExec, world, 0, [], s');
  }

  // ----- copy

  predicate ReadyForBlock(a: Attr, d: Desc) {
    d.copiedSize < d.imageSize <= a.maxSize && (d.state == Copying || (d.state == Reset && d.copiedSize == 0))
  }

  /** The block that a copy writes, clipped to what is left of the image. */
  lemma {:induction false} BlockKeeps(plat: Platform, s: Tracked, id: ImageId, block: seq<byte>, n: nat,
                                      loaded: seq<ImageId>, s': Tracked, content: bool)
    requires Inv(plat, s, content) && id in plat && plat[id].world == Secure && s.st.world == NonSecure
    requires ReadyForBlock(plat[id], s.st.descs[id])
    requires ApartFromCopies(plat, s, id, plat[id].base, s.st.descs[id].imageSize)
    requires 0 < n == Clipped(s.st.descs[id], |block|)
    requires id in loaded && TableKept(s.st.loaded, loaded, id)
    requires var d := s.st.descs[id];
      s' == Update(s, id, AfterBlock(d, n), Supplied(id, d.state == Reset, block), loaded, s.st.secExec, NonSecure,
                   Splice(s.st.mem, plat[id].base + d.copiedSize, block[..n]))
    ensures Inv(plat, s', content)
  {
    var d := s.st.descs[id];
    BlockGood(plat, s, id, block, n, loaded, s', content);
    UpdateKeeps(plat, s, content, id, AfterBlock(d, n), Supplied(id, d.state == Reset, block), loaded,
                s.st.secExec, NonSecure, plat[id].base + d.copiedSize, block[..n], s');
  }

  /** The share of the image itself. */
  lemma {:induction false} BlockGood(plat: Platform, s: Tracked, id: ImageId, block: seq<byte>, n: nat,
                                     loaded: seq<ImageId>, s': Tracked, content: bool)
    requires Inv(plat, s, content) && id in plat && plat[id].world == Secure && s.st.world == NonSecure
    requires ReadyForBlock(plat[id], s.st.descs[id]) && 0 < n == Clipped(s.st.descs[id], |block|) && id in loaded
    requires var d := s.st.descs[id];
      s' == Update(s, id, AfterBlock(d, n), Supplied(id, d.state == Reset, block), loaded, s.st.secExec, NonSecure,
                   Splice(s.st.mem, plat[id].base + d.copiedSize, block[..n]))
    requires Tracking(plat, s')
    ensures Good(plat, s', content, id)
  {
    assert Good(plat, s, content, id);
    if content {
      BlockContent(plat[id], s.st.descs[id], s.tr[id], s.st.mem, block, n);
    }
  }

  lemma {:induction false} CopyBlockKeeps(plat: Platform, s: Tracked, id: ImageId, src: nat, blockSize: nat,
                                          mapped: bool, preLoadOk: bool, s': Tracked, content: bool)
    requires Inv(plat, s, content) && id in plat && plat[id].world == Secure && s.st.world == NonSecure
    requires !BadSource(src, blockSize) && ReadyForBlock(plat[id], s.st.descs[id])
    requires ApartFromCopies(plat, s, id, plat[id].base, s.st.descs[id].imageSize)
    requires Leads(s, CopyBlock(plat, s.st, id, src, blockSize, mapped, preLoadOk), s')
    ensures Inv(plat, s', content)
  {
    var d := s.st.descs[id];
    if !mapped || AddLoaded(s.st.loaded, id).None? {
      Refused(plat, s, s', content, ENOMEM);
      return;
    }
    var loaded := AddLoaded(s.st.loaded, id).value;
    AddLoadedKeeps(s.st.loaded, id);
    if d.state == Reset && !preLoadOk {
      LoadedOnlyKeeps(plat, s, id, loaded, s', content);
      return;
    }
    CopyBlockWrites(plat, s, id, src, blockSize, preLoadOk, s');
    BlockKeeps(plat, s, id, s.st.mem[src..src + blockSize], Clipped(d, blockSize), loaded, s', content);
  }

  /** The one path of a copy that writes, as an update of one image. */
  lemma {:induction false} CopyBlockWrites(plat: Platform, s: Tracked, id: ImageId, src: nat, blockSize: nat,
                                           preLoadOk: bool, s': Tracked)
    requires Tracking(plat, s) && id in plat && !BadSource(src, blockSize) && ReadyForBlock(plat[id], s.st.descs[id])
    requires AddLoaded(s.st.loaded, id).Some? && (s.st.descs[id].state == Reset ==> preLoadOk)
    requires Leads(s, CopyBlock(plat, s.st, id, src, blockSize, true, preLoadOk), s')
    ensures var d, block, n := s.st.descs[id], s.st.mem[src..src + blockSize], Clipped(s.st.descs[id], blockSize);
      s' == Update(s, id, AfterBlock(d, n), Supplied(id, d.state == Reset, block), AddLoaded(s.st.loaded, id).value,
                   s.st.secExec, s.st.world, Splice(s.st.mem, plat[id].base + d.copiedSize, block[..n]))
  {
    var d, block, n := s.st.descs[id], s.st.mem[src..src + blockSize], Clipped(s.st.descs[id], blockSize);
    ObserveOne(s.tr, id, Supplied(id, d.state == Reset, block));
    assert s.st.mem[src..src + n] == block[..n];
  }

  /** A failed pre-load hook leaves only the table entry behind. */
  lemma {:induction false} LoadedOnlyKeeps(plat: Platform, s: Tracked, id: ImageId, loaded: seq<ImageId>,
                                           s': Tracked, content: bool)
    requires Inv(plat, s, content) && id in plat && TableKept(s.st.loaded, loaded, id)
    requires s.st.descs[id].state == Reset
    requires Leads(s, Refuse(s.st.(loaded := loaded), EPERM), s')
    ensures Inv(plat, s', content)
  {
    var d := s.st.descs[id];
    assert Good(plat, s, content, id);
    assert s.st.descs[id := d] == s.st.descs;
    NoWrite(plat, s, content, id, d, Quiet, loaded, s.st.secExec, s.st.world, s');
  }

  /** Memory still holds the supplied bytes after one more block, clipped to `n`, is appended. */
  lemma {:induction false} BlockContent(a: Attr, d: Desc, t: Track, mem: seq<byte>, block: seq<byte>, n: nat)
    requires a.base + a.maxSize <= |mem|
    requires ReadyForBlock(a, d) && n == Clipped(d, |block|)
    requires d.state == Copying ==> ContentOk(a, d, t, mem)
    ensures ContentOk(a, AfterBlock(d, n),
                      Track(true, (if d.state == Reset then [] else t.supplied) + block, None),
                      Splice(mem, a.base + d.copiedSize, block[..n]))
  {
    var supplied := if d.state == Reset then [] else t.supplied;
    assert mem[a.base..a.base + d.copiedSize] == supplied;
    BlockBytes(mem, a.base, supplied, block, n);
  }

  lemma {:induction false} BlockBytes(mem: seq<byte>, base: nat, supplied: seq<byte>, block: seq<byte>, n: nat)
    requires n <= |block| && base + |supplied| + n <= |mem| && mem[base..base + |supplied|] == supplied
    ensures var k := |supplied| + n;
      Splice(mem, base + |supplied|, block[..n])[base..base + k] == (supplied + block)[..k]
  {
    SpliceExtends(mem, base, |supplied|, block[..n]);
    assert (supplied + block)[..|supplied| + n] == supplied + block[..n];
  }

  /** A clear overlap scan puts the new range apart from every copied image. */
  lemma {:induction false} ScanApart(plat: Platform, s: Tracked, content: bool, id: ImageId, imageSize: nat)
    requires Inv(plat, s, content) && id in plat && 0 < imageSize <= plat[id].maxSize
    requires var sized := WithDesc(s.st, id, s.st.descs[id].(imageSize := imageSize));
      ScanOverlaps(plat, sized, id, plat[id].base, plat[id].base + imageSize - 1, 0) == Clear
    requires s.st.descs[id].state == Reset
    ensures ApartFromCopies(plat, s, id, plat[id].base, imageSize)
  {
    var sized := WithDesc(s.st, id, s.st.descs[id].(imageSize := imageSize));
    var lo, hi := plat[id].base, plat[id].base + imageSize - 1;
    ScanClear(plat, sized, id, lo, hi, 0);
    forall j | j in plat && j != id && s.tr[j].viaCopy
      ensures Apart(lo, imageSize, plat[j].base, s.st.descs[j].imageSize)
    {
      assert Good(plat, s, content, j);
      var k :| 0 <= k < |sized.loaded| && sized.loaded[k] == j;
      assert ClearOf(plat, sized, id, lo, hi, sized.loaded[k]);
    }
  }

  /** A change of the recorded sizes of an image in Reset. */
  lemma {:induction false} ResizeKeeps(plat: Platform, s: Tracked, id: ImageId, d: Desc, content: bool)
    requires Inv(plat, s, content) && id in plat && plat[id].world == Secure
    requires s.st.descs[id].state == Reset == d.state && SizesFit(plat[id], d)
    ensures Inv(plat, Tracked(WithDesc(s.st, id, d), s.tr), content)
  {
    assert Good(plat, s, content, id);
    ObserveQuiet(s.tr);
    var s' := Tracked(WithDesc(s.st, id, d), s.tr);
    NoWrite(plat, s, content, id, d, Quiet, s.st.loaded, s.st.secExec, s.st.world, s');
  }

  lemma {:induction false} CopyKeeps(plat: Platform, s: Tracked, id: ImageId, src: nat, blockSize: nat, imageSize: nat,
                                     mapped: bool, preLoadOk: bool, s': Tracked, content: bool)
    requires Inv(plat, s, content) && src < ADDR_SPACE && blockSize < U32 && imageSize < U32
    requires id in plat && s.st.world == NonSecure && plat[id].world == Secure && !BadSource(src, blockSize)
    requires s.st.descs[id].state == Reset && 0 < imageSize <= plat[id].maxSize
    requires Leads(s, Copy(plat, s.st, id, src, blockSize, imageSize, mapped, preLoadOk), s')
    ensures Inv(plat, s', content)
  {
    var d := s.st.descs[id];
    var sized := WithDesc(s.st, id, d.(imageSize := imageSize));
    if ScanOverlaps(plat, sized, id, plat[id].base, plat[id].base + imageSize - 1, 0) == Overlap {
      ObserveQuiet(s.tr);
      ResizeKeeps(plat, s, id, d.(imageSize := 0), content);
    } else {
      ScanApart(plat, s, content, id, imageSize);
      FirstBlockKeeps(plat, s, id, src, blockSize, imageSize, mapped, preLoadOk, s', content);
    }
  }

  /** The first block, once its range is known to be apart. */
  lemma {:induction false} FirstBlockKeeps(plat: Platform, s: Tracked, id: ImageId, src: nat, blockSize: nat,
                                           imageSize: nat, mapped: bool, preLoadOk: bool, s': Tracked, content: bool)
    requires Inv(plat, s, content) && id in plat && s.st.world == NonSecure && plat[id].world == Secure
    requires !BadSource(src, blockSize) && s.st.descs[id].state == Reset && 0 < imageSize <= plat[id].maxSize
    requires ApartFromCopies(plat, s, id, plat[id].base, imageSize)
    requires var st1 := WithDesc(s.st, id, s.st.descs[id].(imageSize := imageSize, copiedSize := 0));
      Shape(plat, st1) && Leads(s, CopyBlock(plat, st1, id, src, blockSize, mapped, preLoadOk), s')
    ensures Inv(plat, s', content)
  {
    var d1 := s.st.descs[id].(imageSize := imageSize, copiedSize := 0);
    ResizeKeeps(plat, s, id, d1, content);
    CopyBlockKeeps(plat, Tracked(WithDesc(s.st, id, d1), s.tr), id, src, blockSize, mapped, preLoadOk, s', content);
  }

  lemma {:induction false} AnyCopyKeeps(plat: Platform, s: Tracked, id: ImageId, src: nat, blockSize: nat,
                                        imageSize: nat, mapped: bool, preLoadOk: bool, s': Tracked, content: bool)
    requires Inv(plat, s, content) && src < ADDR_SPACE && blockSize < U32 && imageSize < U32
    requires Leads(s, Copy(plat, s.st, id, src, blockSize, imageSize, mapped, preLoadOk), s')
    ensures Inv(plat, s', content)
  {
    if id in plat && s.st.world == NonSecure && plat[id].world == Secure && !BadSource(src, blockSize)
       && s.st.descs[id].state == Copying {
      assert Good(plat, s, content, id);
      forall j | j in plat
        ensures PairApart(plat, s, id, j)
      {
      }
      CopyBlockKeeps(plat, s, id, src, blockSize, mapped, preLoadOk, s', content);
    } else if id in plat && s.st.world == NonSecure && plat[id].world == Secure && !BadSource(src, blockSize)
              && s.st.descs[id].state == Reset && 0 < imageSize <= plat[id].maxSize {
      CopyKeeps(plat, s, id, src, blockSize, imageSize, mapped, preLoadOk, s', content);
    } else {
      Refused(plat, s, s', content, Copy(plat, s.st, id, src, blockSize, imageSize, mapped, preLoadOk).ret);
    }
  }

  // ----- authenticate

  lemma {:induction false} AuthKeeps(plat: Platform, s: Tracked, id: ImageId, src: nat, imageSize: nat, mapped: bool,
                  verdict: bool, postLoadOk: bool, s': Tracked, content: bool)
    requires Inv(plat, s, content) && src < ADDR_SPACE && imageSize < U32
    requires content ==> s.st.world == NonSecure
    requires Leads(s, Auth(plat, s.st, id, src, imageSize, mapped, verdict, postLoadOk), s')
    ensures Inv(plat, s', content)
  {
    if id !in plat || s.st.descs[id].state != AuthState(plat, s.st, id) {
      Refused(plat, s, s', content, EPERM);
    } else if s.st.descs[id].state == Copied {
      AuthCopiedKeeps(plat, s, id, verdict, postLoadOk, s', content);
    } else if BadSource(src, imageSize) || !mapped || AddLoaded(s.st.loaded, id).None? {
      Refused(plat, s, s', content, ENOMEM);
    } else {
      AuthInPlaceKeeps(plat, s, id, src, imageSize, verdict, postLoadOk, s', content);
    }
  }

  lemma {:induction false} AuthCopiedKeeps(plat: Platform, s: Tracked, id: ImageId, verdict: bool, postLoadOk: bool,
                                           s': Tracked, content: bool)
    requires Inv(plat, s, content) && id in plat && s.st.descs[id].state == Copied
    requires Leads(s, Verify(plat, s.st, id, plat[id].base, s.st.descs[id].imageSize, verdict, postLoadOk), s')
    ensures Inv(plat, s', content)
  {
    if verdict {
      AcceptedKeeps(plat, s, id, s', content);
    } else {
      RejectedKeeps(plat, s, id, s', content);
    }
  }

  lemma {:induction false} AcceptedKeeps(plat: Platform, s: Tracked, id: ImageId, s': Tracked, content: bool)
    requires Inv(plat, s, content) && id in plat && s.st.descs[id].state == Copied
    requires Leads(s, Verify(plat, s.st, id, plat[id].base, s.st.descs[id].imageSize, true, true), s')
    ensures Inv(plat, s', content)
  {
    var a, d := plat[id], s.st.descs[id];
    assert Good(plat, s, content, id);
    var ev := Accepted(id, false, s.st.mem[a.base..a.base + d.imageSize]);
    NoWrite(plat, s, content, id, d.(state := Authenticated), ev, s.st.loaded, s.st.secExec, s.st.world, s');
  }

  lemma {:induction false} RejectedKeeps(plat: Platform, s: Tracked, id: ImageId, s': Tracked, content: bool)
    requires Inv(plat, s, content) && id in plat && s.st.descs[id].state == Copied
    requires Leads(s, Verify(plat, s.st, id, plat[id].base, s.st.descs[id].imageSize, false, true), s')
    ensures Inv(plat, s', content)
  {
    var a, d := plat[id], s.st.descs[id];
    assert Good(plat, s, content, id);
    forall j | j in plat
      ensures PairApart(plat, s, id, j)
    {
    }
    ObserveOne(s.tr, id, Released(id));
    UnloadedKeeps(s.st.loaded, id);
    UpdateKeeps(plat, s, content, id, d.(state := Reset), Released(id), Unloaded(s.st.loaded, id),
                s.st.secExec, s.st.world, a.base, Zeros(d.imageSize), s');
  }

  lemma {:induction false} AuthInPlaceKeeps(plat: Platform, s: Tracked, id: ImageId, src: nat, imageSize: nat,
                                            verdict: bool, postLoadOk: bool, s': Tracked, content: bool)
    requires Inv(plat, s, content) && id in plat && s.st.descs[id].state == Reset
    requires content ==> plat[id].world == NonSecure
    requires AddLoaded(s.st.loaded, id).Some? && imageSize < U32 && src + imageSize <= ADDR_SPACE
    requires var st1 := WithDesc(s.st.(loaded := AddLoaded(s.st.loaded, id).value), id,
                                 s.st.descs[id].(imageSize := imageSize));
      Shape(plat, st1) && Leads(s, Verify(plat, st1, id, src, imageSize, verdict, postLoadOk), s')
    ensures Inv(plat, s', content)
  {
    var loaded := AddLoaded(s.st.loaded, id).value;
    AddLoadedKeeps(s.st.loaded, id);
    if verdict {
      InPlaceAccepted(plat, s, id, src, imageSize, loaded, s', content);
    } else {
      InPlaceRejected(plat, s, id, src, imageSize, loaded, s', content);
    }
  }

  lemma {:induction false} InPlaceAccepted(plat: Platform, s: Tracked, id: ImageId, src: nat, imageSize: nat,
                                           loaded: seq<ImageId>, s': Tracked, content: bool)
    requires Inv(plat, s, content) && id in plat && s.st.descs[id].state == Reset
    requires content ==> plat[id].world == NonSecure
    requires id in loaded && TableKept(s.st.loaded, loaded, id) && imageSize < U32 && src + imageSize <= ADDR_SPACE
    requires var st1 := WithDesc(s.st.(loaded := loaded), id, s.st.descs[id].(imageSize := imageSize));
      Shape(plat, st1) && Leads(s, Verify(plat, st1, id, src, imageSize, true, true), s')
    ensures Inv(plat, s', content)
  {
    var d := s.st.descs[id].(imageSize := imageSize);
    assert Good(plat, s, content, id);
    var ev := Accepted(id, true, s.st.mem[src..src + imageSize]);
    NoWrite(plat, s, content, id, d.(state := Authenticated), ev, loaded, s.st.secExec, s.st.world, s');
  }

  lemma {:induction false} InPlaceRejected(plat: Platform, s: Tracked, id: ImageId, src: nat, imageSize: nat,
                                           loaded: seq<ImageId>, s': Tracked, content: bool)
    requires Inv(plat, s, content) && id in plat && s.st.descs[id].state == Reset
    requires content ==> plat[id].world == NonSecure
    requires id in loaded && TableKept(s.st.loaded, loaded, id) && imageSize < U32 && src + imageSize <= ADDR_SPACE
    requires var st1 := WithDesc(s.st.(loaded := loaded), id, s.st.descs[id].(imageSize := imageSize));
      Shape(plat, st1) && Leads(s, Verify(plat, st1, id, src, imageSize, false, true), s')
    ensures Inv(plat, s', content)
  {
    var d := s.st.descs[id].(imageSize := imageSize);
    assert Good(plat, s, content, id);
    UnloadedKeeps(loaded, id);
    NoWrite(plat, s, content, id, d, Quiet, Unloaded(loaded, id), s.st.secExec, s.st.world, s');
  }

  // ----- execute, resume, done, reset

  lemma {:induction false} ExecuteKeeps(plat: Platform, s: Tracked, id: ImageId, s': Tracked, content: bool)
    requires Inv(plat, s, content)
    requires Leads(s, Execute(plat, s.st, id), s')
    ensures Inv(plat, s', content)
  {
    var r := Execute(plat, s.st, id);
    if r.ev.Quiet? {
      Refused(plat, s, s', content, EPERM);
    } else {
      assert Good(plat, s, content, id);
      NoWrite(plat, s, content, id, s.st.descs[id].(state := Executed), r.ev, s.st.loaded, id, Secure, s');
    }
  }

  lemma {:induction false} ResumeKeeps(plat: Platform, s: Tracked, param: int, s': Tracked, content: bool)
    requires Inv(plat, s, content)
    requires Leads(s, Resume(plat, s.st, param), s')
    ensures Inv(plat, s', content)
  {
    if s.st.secExec !in plat {
      Refused(plat, s, s', content, EPERM);
    } else {
      var id := s.st.secExec;
      assert Good(plat, s, content, id);
      NoWrite(plat, s, content, id, s'.st.descs[id], Quiet, s.st.loaded, id, s'.st.world, s');
    }
  }

  lemma {:induction false} SecImageDoneKeeps(plat: Platform, s: Tracked, s': Tracked, content: bool)
    requires Inv(plat, s, content)
    requires Leads(s, SecImageDone(plat, s.st), s')
    ensures Inv(plat, s', content)
  {
    if s.st.world == NonSecure {
      Refused(plat, s, s', content, EPERM);
    } else {
      var id := s.st.secExec;
      assert Good(plat, s, content, id);
      UnloadedKeeps(s.st.loaded, id);
      NoWrite(plat, s, content, id, s.st.descs[id].(state := Reset), Released(id), Unloaded(s.st.loaded, id),
              INVALID_IMAGE_ID, NonSecure, s');
    }
  }

  lemma {:induction false} ResetKeeps(plat: Platform, s: Tracked, id: ImageId, s': Tracked, content: bool)
    requires Inv(plat, s, content)
    requires Leads(s, ResetImage(plat, s.st, id), s')
    ensures Inv(plat, s', content)
  {
    if id !in plat || s.st.world == Secure || s.st.descs[id].state == Reset || RemoveLoaded(s.st.loaded, id).None? {
      Refused(plat, s, s', content, ResetImage(plat, s.st, id).ret);
      return;
    }
    var a, d := plat[id], s.st.descs[id];
    assert Good(plat, s, content, id);
    forall j | j in plat
      ensures PairApart(plat, s, id, j)
    {
    }
    ObserveOne(s.tr, id, Released(id));
    UnloadedKeeps(s.st.loaded, id);
    assert Splice(s.st.mem, a.base, Zeros(0)) == s.st.mem;
    UpdateKeeps(plat, s, content, id, Desc(Reset, 0, 0), Released(id), Unloaded(s.st.loaded, id),
                s.st.secExec, s.st.world, a.base, Zeros(d.copiedSize), s');
  }

  lemma {:induction false} WriteKeeps(plat: Platform, s: Tracked, addr: nat, data: seq<byte>, s': Tracked,
                                      content: bool)
    requires Inv(plat, s, content) && addr + |data| <= ADDR_SPACE
    requires MayWrite(plat, s.st, addr, |data|)
    requires s'.tr == s.tr && s'.st == s.st.(mem := Splice(s.st.mem, addr, data))
    ensures Inv(plat, s', content)
  {
    forall j | j in plat
      ensures Good(plat, s', content, j)
    {
      assert Good(plat, s, content, j);
      var a, d := plat[j], s.st.descs[j];
      if content && a.world == Secure && (d.state == Copying || d.state == Copied || d.state == Authenticated) {
        SpliceElsewhere(s.st.mem, addr, data, a.base, d.copiedSize);
        SpliceElsewhere(s.st.mem, addr, data, a.base, d.imageSize);
      }
    }
    forall i, j | i in plat && j in plat
      ensures PairApart(plat, s', i, j)
    {
      assert PairApart(plat, s, i, j);
    }
  }

  /** The main step: any call, from any state that meets the invariants. */
  lemma {:induction false} StepKeeps(plat: Platform, s: Tracked, c: Call, s': Tracked, content: bool)
    requires Inv(plat, s, content) && ArgsFit(c)
    requires content && c.AuthCall? ==> s.st.world == NonSecure
    requires Leads(s, Step(plat, s.st, c), s')
    ensures Inv(plat, s', content)
  {
    match c
    case CopyCall(id, src, blockSize, imageSize, mapped, preLoadOk) =>
      AnyCopyKeeps(plat, s, id, src, blockSize, imageSize, mapped, preLoadOk, s', content);
    case AuthCall(id, src, imageSize, mapped, verdict, postLoadOk) =>
      AuthKeeps(plat, s, id, src, imageSize, mapped, verdict, postLoadOk, s', content);
    case ExecuteCall(id) => ExecuteKeeps(plat, s, id, s', content);
    case ResumeCall(param) => ResumeKeeps(plat, s, param, s', content);
    case SecImageDoneCall => SecImageDoneKeeps(plat, s, s', content);
    case ResetCall(id) => ResetKeeps(plat, s, id, s', content);
    case UpdateDoneCall =>
    case WorldWrite(addr, data) =>
      assert s'.tr == s.tr;
      if MayWrite(plat, s.st, addr, |data|) {
        WriteKeeps(plat, s, addr, data, s', content);
      }
  }
}
