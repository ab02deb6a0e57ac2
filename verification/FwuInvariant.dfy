/** What every step of the firmware-update service keeps. */
module FwuInvariant {
  import opened Bytes
  import opened FwuModel
  import opened Wrappers

  /** The history of one image since it last left the Reset state: whether it came in through
      copies, the blocks supplied for it, and the bytes last accepted for it. */
  datatype Track = Track(viaCopy: bool, supplied: seq<byte>, accepted: Option<seq<byte>>)

  const FRESH := Track(false, [], None)

  function Observe(t: Track, id: ImageId, ev: Event): Track {
    if ev.Quiet? || ev.id != id then t
    else
      match ev
      case Supplied(_, first, block) => Track(true, (if first then [] else t.supplied) + block, None)
      case Accepted(_, inPlace, bytes) => t.(viaCopy := !inPlace, accepted := Some(bytes))
      case Released(_) => FRESH
      case _ => t
  }

  /** A service state together with the history of every image. */
  datatype Tracked = Tracked(st: Fwu, tr: map<ImageId, Track>)

  /** The histories after one more event. */
  function ObserveAll(tr: map<ImageId, Track>, ev: Event): map<ImageId, Track> {
    map id | id in tr :: Observe(tr[id], id, ev)
  }

  ghost predicate Tracking(plat: Platform, s: Tracked) {
    Shape(plat, s.st) && s.tr.Keys == plat.Keys
  }

  // ----- the invariant of every run

  /** One image: its state against its sizes and its history. */
  predicate ImageOk(a: Attr, d: Desc, t: Track) {
    if a.world == NonSecure then
      (d.state == Reset || d.state == Authenticated || d.state == Executed) && d.copiedSize == 0 && !t.viaCopy
    else
      && (t.viaCopy ==> d.state != Reset && 0 < d.copiedSize <= d.imageSize <= a.maxSize)
      && (t.viaCopy ==> (d.state == Copying <==> d.copiedSize < d.imageSize))
      && (d.state == Copying || d.state == Copied ==> t.viaCopy)
      && (d.state == Executed || d.state == Interrupted ==> a.executable)
  }

  /** The memory of an image not yet started holds what was supplied and what was accepted for it. */
  ghost predicate ContentOk(a: Attr, d: Desc, t: Track, mem: seq<byte>)
    requires a.base + a.maxSize <= |mem|
  {
    && t.viaCopy && d.copiedSize <= d.imageSize <= a.maxSize
    && (d.state == Copying || d.state == Copied || d.state == Authenticated ==>
      && d.copiedSize == (if |t.supplied| < d.imageSize then |t.supplied| else d.imageSize)
      && mem[a.base..a.base + d.copiedSize] == t.supplied[..d.copiedSize])
    && (d.state == Authenticated ==> t.accepted == Some(mem[a.base..a.base + d.imageSize]))
  }

  /** What holds of each image. `content` adds the claim on memory, which only runs without AUTH
      calls from the secure world keep. */
  ghost predicate Good(plat: Platform, s: Tracked, content: bool, id: ImageId)
    requires Tracking(plat, s) && id in plat
  {
    var a, d, t := plat[id], s.st.descs[id], s.tr[id];
    && ImageOk(a, d, t)
    && (a.world == Secure ==> (d.state == Executed <==> s.st.world == Secure && id == s.st.secExec))
    && (a.world == Secure && d.state != Reset ==> id in s.st.loaded)
    && (content && a.world == Secure && d.state != Reset ==> ContentOk(a, d, t, s.st.mem))
  }

  /** Two images that came in through copies occupy disjoint memory. */
  predicate PairApart(plat: Platform, s: Tracked, i: ImageId, j: ImageId)
    requires i in plat && j in plat && s.st.descs.Keys == plat.Keys == s.tr.Keys
  {
    i != j && s.tr[i].viaCopy && s.tr[j].viaCopy ==>
      Apart(plat[i].base, s.st.descs[i].imageSize, plat[j].base, s.st.descs[j].imageSize)
  }

  /** The running world against the last executed secure image. */
  predicate WorldOk(plat: Platform, secExec: ImageId, world: World) {
    if secExec in plat then plat[secExec].world == Secure && plat[secExec].executable
    else secExec == INVALID_IMAGE_ID && world == NonSecure
  }

  ghost predicate Inv(plat: Platform, s: Tracked, content: bool) {
    && Tracking(plat, s)
    && WorldOk(plat, s.st.secExec, s.st.world)
    && (forall id {:trigger Good(plat, s, content, id)} :: id in plat ==> Good(plat, s, content, id))
    && (forall i, j {:trigger PairApart(plat, s, i, j)} :: i in plat && j in plat ==> PairApart(plat, s, i, j))
  }

  // ----- the loaded-ID table

  lemma {:induction false} AddLoadedKeeps(loaded: seq<ImageId>, id: ImageId)
    requires AddLoaded(loaded, id).Some?
    ensures var l := AddLoaded(loaded, id).value;
      |l| == |loaded| && id in l && forall x :: x in loaded && x != INVALID_IMAGE_ID ==> x in l
  {
    var l := AddLoaded(loaded, id).value;
    if IndexOf(loaded, id) >= |loaded| {
      var k := IndexOf(loaded, INVALID_IMAGE_ID);
      assert l[k] == id;
      forall x | x in loaded && x != INVALID_IMAGE_ID
        ensures x in l
      {
        var i :| 0 <= i < |loaded| && loaded[i] == x;
        assert l[i] == x;
      }
    }
  }

  lemma {:induction false} UnloadedKeeps(loaded: seq<ImageId>, id: ImageId)
    ensures forall x :: x in loaded && x != id ==> x in Unloaded(loaded, id)
  {
    forall x | x in loaded && x != id
      ensures x in Unloaded(loaded, id)
    {
      var i :| 0 <= i < |loaded| && loaded[i] == x;
      assert Unloaded(loaded, id)[i] == x;
    }
  }

  /** The range [lo, hi] is apart from the recorded range of `other`, if that is another non-empty image. */
  predicate ClearOf(plat: Platform, st: Fwu, id: ImageId, lo: nat, hi: nat, other: ImageId)
    requires st.descs.Keys == plat.Keys && lo <= hi
  {
    other in plat && other != id && st.descs[other].imageSize != 0 ==>
      Apart(lo, hi - lo + 1, plat[other].base, st.descs[other].imageSize)
  }

  /** A clear overlap scan means the range meets no non-empty image in the rest of the table. */
  lemma {:induction false} ScanClear(plat: Platform, st: Fwu, id: ImageId, lo: nat, hi: nat, i: nat)
    requires Shape(plat, st) && lo <= hi < ADDR_SPACE
    requires ScanOverlaps(plat, st, id, lo, hi, i) == Clear
    ensures forall k :: i <= k < |st.loaded| ==> ClearOf(plat, st, id, lo, hi, st.loaded[k])
    decreases |st.loaded| - i
  {
    if i < |st.loaded| {
      ScanClear(plat, st, id, lo, hi, i + 1);
    }
  }

  // ----- what a step that changes one image must show

  /** `s` after a step on the image `id`: its new descriptor and history, and the shared state. */
  ghost function Update(s: Tracked, id: ImageId, d: Desc, ev: Event, loaded: seq<ImageId>, secExec: ImageId,
                        world: World, mem: seq<byte>): Tracked
    requires id in s.tr
  {
    Tracked(Fwu(s.st.descs[id := d], loaded, secExec, world, mem), s.tr[id := Observe(s.tr[id], id, ev)])
  }

  /** An event of `id` changes the history of `id` only. */
  lemma {:induction false} ObserveOne(tr: map<ImageId, Track>, id: ImageId, ev: Event)
    requires id in tr && (ev.Quiet? || ev.id == id)
    ensures ObserveAll(tr, ev) == tr[id := Observe(tr[id], id, ev)]
  {
  }

  lemma {:induction false} ObserveQuiet(tr: map<ImageId, Track>)
    ensures ObserveAll(tr, Quiet) == tr
  {
  }

  ghost predicate TableKept(loaded: seq<ImageId>, loaded': seq<ImageId>, id: ImageId) {
    |loaded'| == MAX_LOADED && forall x :: x in loaded && x != INVALID_IMAGE_ID && x != id ==> x in loaded'
  }

  /** An image range is apart from that of every other image that came in through copies. */
  ghost predicate ApartFromCopies(plat: Platform, s: Tracked, id: ImageId, at: nat, n: nat)
    requires Tracking(plat, s)
  {
    forall j {:trigger s.tr[j]} :: j in plat && j != id && s.tr[j].viaCopy ==>
      Apart(at, n, plat[j].base, s.st.descs[j].imageSize)
  }

  /** The part of UpdateKeeps about one other image `j`. */
  lemma {:induction false} OtherGood(plat: Platform, s: Tracked, content: bool, id: ImageId, at: nat,
                                     data: seq<byte>, s': Tracked, j: ImageId)
    requires Tracking(plat, s) && Tracking(plat, s') && id in plat && j in plat && j != id
    requires Good(plat, s, content, j)
    requires at + |data| <= ADDR_SPACE && s'.st.mem == Splice(s.st.mem, at, data)
    requires s'.st.descs[j] == s.st.descs[j] && s'.tr[j] == s.tr[j]
    requires TableKept(s.st.loaded, s'.st.loaded, id)
    requires OthersSwitch(s.st, s'.st.secExec, s'.st.world, id)
    requires content && s.tr[j].viaCopy ==> Apart(at, |data|, plat[j].base, s.st.descs[j].imageSize)
    ensures Good(plat, s', content, j)
  {
    if content && plat[j].world == Secure && s.st.descs[j].state != Reset {
      var b, e := plat[j], s.st.descs[j];
      SpliceElsewhere(s.st.mem, at, data, b.base, e.copiedSize);
      SpliceElsewhere(s.st.mem, at, data, b.base, e.imageSize);
    }
  }

  /** A world switch of a step on `id` moves execution to or from `id` only. */
  predicate OthersSwitch(st: Fwu, secExec: ImageId, world: World, id: ImageId) {
    || (secExec == st.secExec && world == st.world)
    || ((world == Secure ==> secExec == id) && (st.world == Secure ==> st.secExec == id))
  }

  /** The part of UpdateKeeps about pairs of images. */
  lemma {:induction false} PairsKept(plat: Platform, s: Tracked, content: bool, id: ImageId, s': Tracked)
    requires Inv(plat, s, content) && Tracking(plat, s') && id in plat
    requires forall j {:trigger s'.tr[j]} :: j in plat && j != id ==>
      s'.st.descs[j].imageSize == s.st.descs[j].imageSize && s'.tr[j] == s.tr[j]
    requires s'.tr[id].viaCopy ==> ApartFromCopies(plat, s, id, plat[id].base, s'.st.descs[id].imageSize)
    ensures forall i, j {:trigger PairApart(plat, s', i, j)} :: i in plat && j in plat ==> PairApart(plat, s', i, j)
  {
    forall i, j | i in plat && j in plat
      ensures PairApart(plat, s', i, j)
    {
      assert PairApart(plat, s, i, j);
    }
  }

  /** A step on one image keeps the invariant if it keeps that image's share of it, and if what it
      writes is apart from the other copied images. */
  lemma {:induction false} UpdateKeeps(plat: Platform, s: Tracked, content: bool, id: ImageId, d: Desc, ev: Event,
                                       loaded: seq<ImageId>, secExec: ImageId, world: World, at: nat,
                                       data: seq<byte>, s': Tracked)
    requires Inv(plat, s, content) && id in plat && at + |data| <= ADDR_SPACE
    requires s' == Update(s, id, d, ev, loaded, secExec, world, Splice(s.st.mem, at, data))
    requires SizesFit(plat[id], d) && TableKept(s.st.loaded, loaded, id)
    requires WorldOk(plat, secExec, world) && OthersSwitch(s.st, secExec, world, id)
    requires Good(plat, s', content, id)
    requires s'.tr[id].viaCopy ==> ApartFromCopies(plat, s, id, plat[id].base, d.imageSize)
    requires content ==> ApartFromCopies(plat, s, id, at, |data|)
    ensures Inv(plat, s', content)
  {
    forall j | j in plat
      ensures Good(plat, s', content, j)
    {
      if j != id {
        assert Good(plat, s, content, j);
        OtherGood(plat, s, content, id, at, data, s', j);
      }
    }
    PairsKept(plat, s, content, id, s');
  }
}
