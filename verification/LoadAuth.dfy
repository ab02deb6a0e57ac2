/** Loading an image after authenticating its parents up to the root of trust: storage, the chain of trust, the
    authentication module's flags and parameters, and the rollback counters. */
module LoadAuth {
  import opened Bytes
  import opened AuthNvCtr
  import opened Wrappers

  type ImageId = nat
  type Store = map<nat, seq<byte>>
  type Counters = map<nat, nat>

  // ----- the chain of trust

  datatype Method = NoMethod | Check | NvCounter(cookie: nat) | Unknown

  /** `params` lists where to keep each authenticated parameter; `None` is an unused entry. */
  datatype Image = Image(parent: Option<ImageId>, methods: Option<seq<Method>>, params: seq<Option<nat>>)

  type Cot = map<ImageId, Image>

  /** Every parent is described, and parents have a smaller rank: the chain of trust has no cycle. */
  predicate Acyclic(cot: Cot, rank: map<ImageId, nat>) {
    && cot.Keys == rank.Keys
    && forall id :: id in cot && cot[id].parent.Some? ==>
      cot[id].parent.value in cot && rank[cot[id].parent.value] < rank[id]
  }

  // ----- the platform

  /** What storage answers when an image is loaded; `got` bytes of `content` arrive. */
  datatype Io = Io(sourceRc: int, openRc: int, sizeRc: int, content: seq<byte>, readRc: int, got: nat)

  /** Storage, image parser, cryptography and counter access: arbitrary answers. The last two say whether access to
      a counter succeeds. */
  datatype Platform = Platform(
    io: (ImageId, nat) -> Io,
    integrity: (ImageId, seq<byte>) -> bool,
    accepts: (ImageId, nat, seq<byte>, Store) -> bool,
    counter: (ImageId, nat, seq<byte>) -> Option<Window>,
    param: (ImageId, nat, seq<byte>) -> Option<seq<byte>>,
    getCounter: nat -> bool,
    setCounter: nat -> bool)

  // ----- the state

  /** An image that was checked: its bytes, the parameters they were checked against, and how many had been kept. */
  datatype Entry = Entry(id: ImageId, bytes: seq<byte>, store: Store, saved: nat)

  /** A parameter that was kept: its slot and value, its index in the descriptor, the image it was taken from, and the
      counters then. */
  datatype Save = Save(slot: nat, value: seq<byte>, index: nat, origin: Entry, counters: Counters)

  /** `buf` is the memory at the image base and `size` the image size field. `tick` numbers the platform calls,
      `sources` the boot sources left. */
  datatype State = State(flags: set<ImageId>, store: Store, counters: Counters, buf: seq<byte>, size: nat, tick: nat,
                         sources: nat, log: seq<Entry>, saves: seq<Save>)

  datatype Rc = Success | LoadFailed(code: int) | AuthFailed

  const EFBIG: int := 27

  predicate Fits(st: State) { st.size <= |st.buf| }

  /** The bytes that count as the image. */
  function Loaded(st: State): (r: seq<byte>)
    requires Fits(st)
    ensures |r| == st.size
  {
    st.buf[..st.size]
  }

  function Counter(c: Counters, cookie: nat): nat {
    if cookie in c then c[cookie] else 0
  }

  // ----- verification

  function RunCounter(pl: Platform, id: ImageId, i: nat, cookie: nat, st: State): (r: (State, bool))
    requires Fits(st)
  {
    match pl.counter(id, i, Loaded(st))
    case None => (st, false)
    case Some(der) =>
      match DerValue(der)
      case None => (st, false)
      case Some(v) =>
        var next := st.(tick := st.tick + 1);
        if !pl.getCounter(st.tick) || v < Counter(st.counters, cookie) then (next, false)
        else if v == Counter(st.counters, cookie) then (next, true)
        else if !pl.setCounter(st.tick) then (next, false)
        else (next.(counters := st.counters[cookie := v]), true)
  }

  function RunMethod(pl: Platform, id: ImageId, i: nat, m: Method, st: State): (r: (State, bool))
    requires Fits(st)
  {
    match m
    case NoMethod => (st, true)
    case Check => (st, pl.accepts(id, i, Loaded(st), st.store))
    case NvCounter(cookie) => RunCounter(pl, id, i, cookie, st)
    case Unknown => (st, false)
  }

  /** The methods from index `i`, until one refuses. */
  function RunMethods(pl: Platform, id: ImageId, ms: seq<Method>, i: nat, st: State): (r: (State, bool))
    requires Fits(st) && i <= |ms|
    ensures r.0 == st.(counters := r.0.counters, tick := r.0.tick)
    decreases |ms| - i
  {
    if i == |ms| then (st, true)
    else
      var r := RunMethod(pl, id, i, ms[i], st);
      if r.1 then RunMethods(pl, id, ms, i + 1, r.0) else r
  }

  /** The memory of a parameter slot. */
  function Slot(store: Store, slot: nat): seq<byte> {
    if slot in store then store[slot] else []
  }

  /** A value copied over the start of a slot. */
  function Over(slot: seq<byte>, value: seq<byte>): (r: seq<byte>)
    requires |value| <= |slot|
    ensures |r| == |slot|
  {
    value + slot[|value|..]
  }

  /** The parameters from index `i`, until one is missing or too long; a slot keeps its length. */
  function SaveParams(pl: Platform, origin: Entry, params: seq<Option<nat>>, i: nat, st: State): (r: (State, bool))
    requires i <= |params|
    ensures r.0 == st.(store := r.0.store, saves := r.0.saves)
    decreases |params| - i
  {
    if i == |params| then (st, true)
    else if params[i].None? then SaveParams(pl, origin, params, i + 1, st)
    else
      var slot := params[i].value;
      match pl.param(origin.id, i, origin.bytes)
      case None => (st, false)
      case Some(value) =>
        if |value| > |Slot(st.store, slot)| then (st, false)
        else SaveParams(pl, origin, params, i + 1, KeepParam(origin, i, slot, value, st))
  }

  /** One parameter copied over its slot. */
  function KeepParam(origin: Entry, i: nat, slot: nat, value: seq<byte>, st: State): State
    requires |value| <= |Slot(st.store, slot)|
  {
    st.(store := st.store[slot := Over(Slot(st.store, slot), value)],
        saves := st.saves + [Save(slot, value, i, origin, st.counters)])
  }

  /** What is about to be checked. */
  function Taken(id: ImageId, st: State): Entry
    requires Fits(st)
  {
    Entry(id, Loaded(st), st.store, |st.saves|)
  }

  function Marked(origin: Entry, st: State): State {
    st.(flags := st.flags + {origin.id}, log := st.log + [origin])
  }

  function Verify(pl: Platform, cot: Cot, id: ImageId, st: State): (r: (State, bool))
    requires Fits(st) && id in cot
    ensures r.0.buf == st.buf && r.0.size == st.size && r.0.sources == st.sources
  {
    if !pl.integrity(id, Loaded(st)) || cot[id].methods.None? then (st, false)
    else
      var checked := RunMethods(pl, id, cot[id].methods.value, 0, st);
      if !checked.1 then checked
      else
        var saved := SaveParams(pl, Taken(id, st), cot[id].params, 0, checked.0);
        if !saved.1 then saved else (Marked(Taken(id, st), saved.0), true)
  }

  // ----- loading

  /** Storage has the image, all of it arrives, and it is not empty. */
  predicate Complete(io: Io) { |io.content| > 0 && io.got >= |io.content| }

  /** Bytes that arrive. */
  function Arrived(io: Io): (r: seq<byte>)
    ensures |r| <= |io.content|
  {
    if io.got < |io.content| then io.content[..io.got] else io.content
  }

  /** The result is success also for an image of size zero, which changes nothing, and for a read that comes up
      short. */
  function Load(pl: Platform, id: ImageId, st: State): (r: (State, Rc))
    requires Fits(st)
    ensures Fits(r.0) && |r.0.buf| == |st.buf|
    ensures r.0 == st.(buf := r.0.buf, size := r.0.size, tick := st.tick + 1)
  {
    var io, next := pl.io(id, st.tick), st.(tick := st.tick + 1);
    if io.sourceRc != 0 then (next, LoadFailed(io.sourceRc))
    else if io.openRc != 0 then (next, LoadFailed(io.openRc))
    else if io.sizeRc != 0 then (next, LoadFailed(io.sizeRc))
    else if |io.content| == 0 then (next, Success)
    else if |io.content| > |st.buf| then (next, LoadFailed(-EFBIG))
    else
      var read := next.(size := |io.content|, buf := Splice(st.buf, 0, Arrived(io)));
      (read, if io.readRc != 0 then LoadFailed(io.readRc) else Success)
  }

  function Zeroed(st: State): (r: State)
    requires Fits(st)
    ensures Fits(r) && r == st.(buf := r.buf) && |r.buf| == |st.buf|
  {
    st.(buf := Splice(st.buf, 0, Zeros(st.size)))
  }

  /** The parent that is to be authenticated first, if any. */
  function PendingParent(cot: Cot, id: ImageId, flags: set<ImageId>): (r: Option<ImageId>)
    requires id in cot
  {
    if cot[id].parent.None? || cot[id].parent.value in flags then None else cot[id].parent
  }

  /** Loads and verifies one image whose parent is done with. */
  function LoadOne(pl: Platform, cot: Cot, id: ImageId, st: State): (r: (State, Rc))
    requires Fits(st) && id in cot
    ensures Fits(r.0) && |r.0.buf| == |st.buf| && r.0.sources == st.sources
  {
    var loaded := Load(pl, id, st);
    if loaded.1 != Success then loaded
    else
      var v := Verify(pl, cot, id, loaded.0);
      if v.1 then (v.0, Success) else (Zeroed(v.0), AuthFailed)
  }

  /** Parents first. */
  function LoadChain(pl: Platform, cot: Cot, rank: map<ImageId, nat>, id: ImageId, st: State): (r: (State, Rc))
    requires Fits(st) && id in cot && Acyclic(cot, rank)
    ensures Fits(r.0) && |r.0.buf| == |st.buf| && r.0.sources == st.sources
    decreases rank[id]
  {
    match PendingParent(cot, id, st.flags)
    case None => LoadOne(pl, cot, id, st)
    case Some(parent) =>
      var up := LoadChain(pl, cot, rank, parent, st);
      if up.1 != Success then up else LoadOne(pl, cot, id, up.0)
  }

  /** The boot sources in turn, until one works. */
  function LoadAuthImage(pl: Platform, cot: Cot, rank: map<ImageId, nat>, id: ImageId, st: State): (r: (State, Rc))
    requires Fits(st) && id in cot && Acyclic(cot, rank)
    ensures Fits(r.0) && |r.0.buf| == |st.buf|
    decreases st.sources
  {
    var r := LoadChain(pl, cot, rank, id, st);
    if r.1 == Success || r.0.sources == 0 then r
    else LoadAuthImage(pl, cot, rank, id, r.0.(sources := r.0.sources - 1))
  }

  // ----- what the log of authenticated images promises

  function Ids(log: seq<Entry>): set<ImageId>
    decreases |log|
  {
    if |log| == 0 then {} else Ids(log[..|log| - 1]) + {log[|log| - 1].id}
  }

  /** From index `i` on, every method accepts the bytes; counters in them are not above the platform's. */
  predicate MethodsHold(pl: Platform, e: Entry, ms: seq<Method>, i: nat, c: Counters)
    requires i <= |ms|
    decreases |ms| - i
  {
    i < |ms| ==> MethodHolds(pl, e, ms[i], i, c) && MethodsHold(pl, e, ms, i + 1, c)
  }

  predicate MethodHolds(pl: Platform, e: Entry, m: Method, i: nat, c: Counters) {
    match m
    case NoMethod => true
    case Check => pl.accepts(e.id, i, e.bytes, e.store)
    case NvCounter(cookie) =>
      var der := pl.counter(e.id, i, e.bytes);
      der.Some? && DerValue(der.value).Some? && DerValue(der.value).value <= Counter(c, cookie)
    case Unknown => false
  }

  /** The bytes of an entry pass every check of its image. */
  predicate Vouched(pl: Platform, cot: Cot, e: Entry, c: Counters) {
    && e.id in cot && pl.integrity(e.id, e.bytes) && cot[e.id].methods.Some?
    && MethodsHold(pl, e, cot[e.id].methods.value, 0, c)
  }

  /** Every entry is vouched for, and its parent was authenticated before it. */
  predicate LogOk(pl: Platform, cot: Cot, log: seq<Entry>, c: Counters)
    decreases |log|
  {
    |log| > 0 ==>
      var before, e := log[..|log| - 1], log[|log| - 1];
      && LogOk(pl, cot, before, c) && Vouched(pl, cot, e, c)
      && (cot[e.id].parent.Some? ==> cot[e.id].parent.value in Ids(before))
  }

  ghost predicate Inv(pl: Platform, cot: Cot, st: State) {
    Fits(st) && st.flags == Ids(st.log) && LogOk(pl, cot, st.log, st.counters)
  }

  predicate Closed(cot: Cot, flags: set<ImageId>) {
    forall id :: id in flags ==> id in cot && (cot[id].parent.Some? ==> cot[id].parent.value in flags)
  }

  /** No counter is lower in `b`. */
  ghost predicate NoLower(a: Counters, b: Counters) {
    forall cookie: nat :: Counter(a, cookie) <= Counter(b, cookie)
  }

  /** Images authenticated one after the other, each after its parent, make a set closed under parent. */
  lemma {:induction false} LogClosed(pl: Platform, cot: Cot, log: seq<Entry>, c: Counters)
    requires LogOk(pl, cot, log, c)
    ensures Closed(cot, Ids(log))
    decreases |log|
  {
    if |log| > 0 {
      LogClosed(pl, cot, log[..|log| - 1], c);
    }
  }

  // ----- raising a counter keeps what was promised

  lemma {:induction false} MethodsHoldStill(pl: Platform, e: Entry, ms: seq<Method>, i: nat, a: Counters, b: Counters)
    requires i <= |ms| && MethodsHold(pl, e, ms, i, a) && NoLower(a, b)
    ensures MethodsHold(pl, e, ms, i, b)
    decreases |ms| - i
  {
    if i < |ms| {
      MethodsHoldStill(pl, e, ms, i + 1, a, b);
    }
  }

  lemma {:induction false} LogOkStill(pl: Platform, cot: Cot, log: seq<Entry>, a: Counters, b: Counters)
    requires LogOk(pl, cot, log, a) && NoLower(a, b)
    ensures LogOk(pl, cot, log, b)
    decreases |log|
  {
    if |log| > 0 {
      LogOkStill(pl, cot, log[..|log| - 1], a, b);
      var e := log[|log| - 1];
      MethodsHoldStill(pl, e, cot[e.id].methods.value, 0, a, b);
    }
  }

  /** A counter is accepted exactly when the image holds one that is not below the platform's, the platform's can be
      read, and it can be written where it has to rise. An accepted counter becomes the platform's; a refused one, and
      every other, is left. */
  lemma {:induction false} CounterFollows(pl: Platform, id: ImageId, i: nat, cookie: nat, st: State)
    requires Fits(st)
    ensures var r, v := RunCounter(pl, id, i, cookie, st), Claimed(pl, id, i, Loaded(st));
      var was := Counter(st.counters, cookie);
      && (r.1 <==> v.Some? && pl.getCounter(st.tick) && (v.value == was || (v.value > was && pl.setCounter(st.tick))))
      && (r.1 ==> Raised(st.counters, cookie, v.value, r.0.counters))
      && (!r.1 ==> r.0.counters == st.counters) && NoLower(st.counters, r.0.counters)
  {
  }

  lemma {:induction false} MethodsAccept(pl: Platform, id: ImageId, ms: seq<Method>, i: nat, st: State)
    requires Fits(st) && i <= |ms|
    ensures var r := RunMethods(pl, id, ms, i, st);
      && NoLower(st.counters, r.0.counters)
      && (r.1 ==> MethodsHold(pl, Taken(id, st), ms, i, r.0.counters))
    decreases |ms| - i
  {
    if i < |ms| {
      var one := RunMethod(pl, id, i, ms[i], st);
      if ms[i].NvCounter? {
        CounterFollows(pl, id, i, ms[i].cookie, st);
      }
      if one.1 {
        MethodsAccept(pl, id, ms, i + 1, one.0);
      }
    }
  }

  // ----- exactly when verification accepts

  /** The counter value that method `i` finds in the image. */
  function Claimed(pl: Platform, id: ImageId, i: nat, bytes: seq<byte>): Option<nat> {
    match pl.counter(id, i, bytes)
    case None => None
    case Some(der) => DerValue(der)
  }

  predicate Passes(pl: Platform, id: ImageId, ms: seq<Method>, i: nat, bytes: seq<byte>, store: Store, c: Counters)
    requires i < |ms|
  {
    match ms[i]
    case NoMethod => true
    case Check => pl.accepts(id, i, bytes, store)
    case NvCounter(cookie) =>
      Claimed(pl, id, i, bytes).Some? && Claimed(pl, id, i, bytes).value >= Counter(c, cookie)
    case Unknown => false
  }

  /** Of two methods on one counter the later does not claim less. */
  predicate InOrder(pl: Platform, id: ImageId, ms: seq<Method>, i: nat, j: nat, bytes: seq<byte>)
    requires i < |ms| && j < |ms|
  {
    var a, b := Claimed(pl, id, i, bytes), Claimed(pl, id, j, bytes);
    ms[i].NvCounter? && ms[i] == ms[j] && a.Some? && b.Some? ==> a.value <= b.value
  }

  ghost predicate AllPass(pl: Platform, id: ImageId, ms: seq<Method>, i: nat, bytes: seq<byte>, store: Store,
                          c: Counters) {
    forall j :: i <= j < |ms| ==> Passes(pl, id, ms, j, bytes, store, c)
  }

  ghost predicate AllInOrder(pl: Platform, id: ImageId, ms: seq<Method>, i: nat, bytes: seq<byte>) {
    forall j, k :: i <= j < k < |ms| ==> InOrder(pl, id, ms, j, k, bytes)
  }

  /** Counter access never fails. */
  ghost predicate CountersWork(pl: Platform) {
    forall t :: pl.getCounter(t) && pl.setCounter(t)
  }

  lemma {:induction false} MethodsPassIff(pl: Platform, id: ImageId, ms: seq<Method>, i: nat, st: State)
    requires Fits(st) && i <= |ms| && CountersWork(pl)
    ensures RunMethods(pl, id, ms, i, st).1 <==>
      AllPass(pl, id, ms, i, Loaded(st), st.store, st.counters) && AllInOrder(pl, id, ms, i, Loaded(st))
    decreases |ms| - i
  {
    if i < |ms| {
      var one := RunMethod(pl, id, i, ms[i], st);
      assert one.1 <==> Passes(pl, id, ms, i, Loaded(st), st.store, st.counters) by {
        assert pl.getCounter(st.tick) && pl.setCounter(st.tick);
      }
      if one.1 {
        MethodsPassIff(pl, id, ms, i + 1, one.0);
        RaisedIff(pl, id, ms, i, st, one.0.counters);
      }
    }
  }

  /** `c` has `v` for one counter and is like `was` for the others. */
  ghost predicate Raised(was: Counters, cookie: nat, v: nat, c: Counters) {
    forall k :: Counter(c, k) == if k == cookie then v else Counter(was, k)
  }

  /** After method `i` passed, the later ones pass on the new counters exactly when they pass on the old ones and
      come in order after `i`. */
  lemma {:induction false} RaisedIff(pl: Platform, id: ImageId, ms: seq<Method>, i: nat, st: State, c: Counters)
    requires Fits(st) && i < |ms| && Passes(pl, id, ms, i, Loaded(st), st.store, st.counters)
    requires !ms[i].NvCounter? ==> c == st.counters
    requires ms[i].NvCounter? ==> Claimed(pl, id, i, Loaded(st)).Some?
    requires ms[i].NvCounter? ==> Raised(st.counters, ms[i].cookie, Claimed(pl, id, i, Loaded(st)).value, c)
    ensures AllPass(pl, id, ms, i + 1, Loaded(st), st.store, c) && AllInOrder(pl, id, ms, i + 1, Loaded(st))
      <==> AllPass(pl, id, ms, i, Loaded(st), st.store, st.counters) && AllInOrder(pl, id, ms, i, Loaded(st))
  {
    forall j | i < j < |ms|
      ensures Passes(pl, id, ms, j, Loaded(st), st.store, c) <==>
        (Passes(pl, id, ms, j, Loaded(st), st.store, st.counters) && InOrder(pl, id, ms, i, j, Loaded(st)))
    {
    }
  }

  /** Every parameter that is to be kept is in the image and fits its slot. */
  ghost predicate ParamsFit(pl: Platform, id: ImageId, params: seq<Option<nat>>, i: nat, bytes: seq<byte>,
                            store: Store) {
    forall j :: i <= j < |params| && params[j].Some? ==> ParamFits(pl, id, j, params[j].value, bytes, store)
  }

  predicate ParamFits(pl: Platform, id: ImageId, j: nat, slot: nat, bytes: seq<byte>, store: Store) {
    pl.param(id, j, bytes).Some? && |pl.param(id, j, bytes).value| <= |Slot(store, slot)|
  }

  /** Keeping one parameter does not change whether the others fit. */
  lemma {:induction false} OthersFitStill(pl: Platform, origin: Entry, params: seq<Option<nat>>, i: nat, st: State)
    requires i < |params| && params[i].Some?
    requires ParamFits(pl, origin.id, i, params[i].value, origin.bytes, st.store)
    ensures var next := KeepParam(origin, i, params[i].value, pl.param(origin.id, i, origin.bytes).value, st);
      ParamsFit(pl, origin.id, params, i, origin.bytes, st.store)
      <==> ParamsFit(pl, origin.id, params, i + 1, origin.bytes, next.store)
  {
    var next := KeepParam(origin, i, params[i].value, pl.param(origin.id, i, origin.bytes).value, st);
    forall slot
      ensures |Slot(next.store, slot)| == |Slot(st.store, slot)|
    {
    }
    forall j | i <= j < |params| && params[j].Some?
      ensures ParamFits(pl, origin.id, j, params[j].value, origin.bytes, st.store)
        == ParamFits(pl, origin.id, j, params[j].value, origin.bytes, next.store)
    {
    }
  }

  lemma {:induction false} ParamsFitIff(pl: Platform, origin: Entry, params: seq<Option<nat>>, i: nat, st: State)
    requires i <= |params|
    ensures SaveParams(pl, origin, params, i, st).1 <==> ParamsFit(pl, origin.id, params, i, origin.bytes, st.store)
    decreases |params| - i
  {
    if i < |params| {
      if params[i].None? {
        ParamsFitIff(pl, origin, params, i + 1, st);
      } else if ParamFits(pl, origin.id, i, params[i].value, origin.bytes, st.store) {
        var slot, value := params[i].value, pl.param(origin.id, i, origin.bytes).value;
        ParamsFitIff(pl, origin, params, i + 1, KeepParam(origin, i, slot, value, st));
        OthersFitStill(pl, origin, params, i, st);
      }
    }
  }

  /** With counters that can be accessed, an image is accepted exactly when it is intact, every method of its
      descriptor passes, counters come in order, and every parameter to be kept fits. */
  lemma {:induction false} VerifyAcceptsIff(pl: Platform, cot: Cot, id: ImageId, st: State)
    requires Fits(st) && id in cot && CountersWork(pl)
    ensures Verify(pl, cot, id, st).1 <==>
      && pl.integrity(id, Loaded(st)) && cot[id].methods.Some?
      && AllPass(pl, id, cot[id].methods.value, 0, Loaded(st), st.store, st.counters)
      && AllInOrder(pl, id, cot[id].methods.value, 0, Loaded(st))
      && ParamsFit(pl, id, cot[id].params, 0, Loaded(st), st.store)
  {
    if cot[id].methods.Some? {
      var ms := cot[id].methods.value;
      MethodsPassIff(pl, id, ms, 0, st);
      ParamsFitIff(pl, Taken(id, st), cot[id].params, 0, RunMethods(pl, id, ms, 0, st).0);
    }
  }

  // ----- what verification keeps for the children

  /** Parameter `j` of the image gives byte `t` of a slot its value. */
  predicate Writes(pl: Platform, origin: Entry, params: seq<Option<nat>>, j: nat, slot: nat, t: nat) {
    && j < |params| && params[j] == Some(slot) && pl.param(origin.id, j, origin.bytes).Some?
    && t < |pl.param(origin.id, j, origin.bytes).value|
  }

  /** It is the last to do so. */
  ghost predicate WritesLast(pl: Platform, origin: Entry, params: seq<Option<nat>>, j: nat, slot: nat, t: nat) {
    && Writes(pl, origin, params, j, slot, t)
    && forall k :: j < k < |params| ==> !Writes(pl, origin, params, k, slot, t)
  }

  lemma {:induction false} KeptBytes(origin: Entry, i: nat, slot: nat, value: seq<byte>, st: State, other: nat)
    requires |value| <= |Slot(st.store, slot)|
    ensures var after := Slot(KeepParam(origin, i, slot, value, st).store, other);
      if other == slot then after == value + Slot(st.store, slot)[|value|..] else after == Slot(st.store, other)
  {
  }

  /** A byte that no parameter gives stays, whether all parameters can be kept or not. */
  lemma {:induction false} UnwrittenStays(pl: Platform, origin: Entry, params: seq<Option<nat>>, i: nat, st: State,
                                          slot: nat, t: nat)
    requires i <= |params| && t < |Slot(st.store, slot)|
    requires forall j :: i <= j < |params| ==> !Writes(pl, origin, params, j, slot, t)
    ensures var after := Slot(SaveParams(pl, origin, params, i, st).0.store, slot);
      |after| == |Slot(st.store, slot)| && after[t] == Slot(st.store, slot)[t]
    decreases |params| - i
  {
    if i < |params| {
      if params[i].None? {
        UnwrittenStays(pl, origin, params, i + 1, st, slot, t);
      } else if ParamFits(pl, origin.id, i, params[i].value, origin.bytes, st.store) {
        var at, value := params[i].value, pl.param(origin.id, i, origin.bytes).value;
        assert !Writes(pl, origin, params, i, slot, t);
        KeptBytes(origin, i, at, value, st, slot);
        UnwrittenStays(pl, origin, params, i + 1, KeepParam(origin, i, at, value, st), slot, t);
      }
    }
  }

  /** Otherwise the last parameter that gives it does. */
  lemma {:induction false} LastWriteStays(pl: Platform, origin: Entry, params: seq<Option<nat>>, i: nat, st: State,
                                          slot: nat, t: nat, j: nat)
    requires i <= j < |params| && SaveParams(pl, origin, params, i, st).1 && WritesLast(pl, origin, params, j, slot, t)
    ensures var after := Slot(SaveParams(pl, origin, params, i, st).0.store, slot);
      t < |after| == |Slot(st.store, slot)| && after[t] == pl.param(origin.id, j, origin.bytes).value[t]
    decreases |params| - i
  {
    if params[i].None? {
      LastWriteStays(pl, origin, params, i + 1, st, slot, t, j);
    } else {
      var at, value := params[i].value, pl.param(origin.id, i, origin.bytes).value;
      KeptBytes(origin, i, at, value, st, slot);
      var next := KeepParam(origin, i, at, value, st);
      if i == j {
        UnwrittenStays(pl, origin, params, i + 1, next, slot, t);
      } else {
        LastWriteStays(pl, origin, params, i + 1, next, slot, t, j);
      }
    }
  }

  /** Byte `t` of a slot once verification has accepted the image: that of the last parameter for the slot which is long
      enough, and the one it held before if there is none. */
  lemma {:induction false} SlotByteAfter(pl: Platform, cot: Cot, id: ImageId, st: State, slot: nat, t: nat)
    requires Fits(st) && id in cot && Verify(pl, cot, id, st).1 && t < |Slot(st.store, slot)|
    ensures var origin, params, after := Taken(id, st), cot[id].params, Slot(Verify(pl, cot, id, st).0.store, slot);
      && |after| == |Slot(st.store, slot)|
      && (forall j: nat :: WritesLast(pl, origin, params, j, slot, t) ==>
           after[t] == pl.param(id, j, Loaded(st)).value[t])
      && ((forall j: nat :: !Writes(pl, origin, params, j, slot, t)) ==> after[t] == Slot(st.store, slot)[t])
  {
    var origin, params := Taken(id, st), cot[id].params;
    var checked := RunMethods(pl, id, cot[id].methods.value, 0, st).0;
    SlotSize(pl, origin, params, 0, checked, slot);
    forall j: nat | WritesLast(pl, origin, params, j, slot, t)
      ensures Slot(Verify(pl, cot, id, st).0.store, slot)[t] == pl.param(id, j, Loaded(st)).value[t]
    {
      LastWriteStays(pl, origin, params, 0, checked, slot, t, j);
    }
    if forall j: nat :: !Writes(pl, origin, params, j, slot, t) {
      UnwrittenStays(pl, origin, params, 0, checked, slot, t);
    }
  }

  /** Keeping parameters does not change the size of a slot. */
  lemma {:induction false} SlotSize(pl: Platform, origin: Entry, params: seq<Option<nat>>, i: nat, st: State, slot: nat)
    requires i <= |params|
    ensures |Slot(SaveParams(pl, origin, params, i, st).0.store, slot)| == |Slot(st.store, slot)|
    decreases |params| - i
  {
    if i < |params| {
      if params[i].None? {
        SlotSize(pl, origin, params, i + 1, st, slot);
      } else if ParamFits(pl, origin.id, i, params[i].value, origin.bytes, st.store) {
        var at, value := params[i].value, pl.param(origin.id, i, origin.bytes).value;
        KeptBytes(origin, i, at, value, st, slot);
        SlotSize(pl, origin, params, i + 1, KeepParam(origin, i, at, value, st), slot);
      }
    }
  }

  /** No later parameter goes to the same slot. */
  predicate LastFor(params: seq<Option<nat>>, j: nat, slot: nat) {
    j < |params| && params[j] == Some(slot) && forall k :: j < k < |params| ==> params[k] != Some(slot)
  }

  /** An accepted image leaves every parameter that its descriptor lists in its slot, for its children to be checked
      against. */
  lemma {:induction false} ParametersKept(pl: Platform, cot: Cot, id: ImageId, st: State, j: nat, slot: nat)
    requires Fits(st) && id in cot && Verify(pl, cot, id, st).1 && LastFor(cot[id].params, j, slot)
    ensures pl.param(id, j, Loaded(st)).Some?
    ensures pl.param(id, j, Loaded(st)).value <= Slot(Verify(pl, cot, id, st).0.store, slot)
    ensures Verify(pl, cot, id, st).0.flags == st.flags + {id}
  {
    var origin, params := Taken(id, st), cot[id].params;
    var checked := RunMethods(pl, id, cot[id].methods.value, 0, st).0;
    ParamsFitIff(pl, origin, params, 0, checked);
    var value := pl.param(id, j, Loaded(st)).value;
    assert ParamFits(pl, id, j, slot, Loaded(st), st.store);
    SlotSize(pl, origin, params, 0, checked, slot);
    forall t | 0 <= t < |value|
      ensures Slot(Verify(pl, cot, id, st).0.store, slot)[t] == value[t]
    {
      LastWriteStays(pl, origin, params, 0, checked, slot, t, j);
    }
  }

  /** A slot that the descriptor does not list stays as it was, and an image that is refused is not marked. */
  lemma {:induction false} RestUntouched(pl: Platform, cot: Cot, id: ImageId, st: State, slot: nat)
    requires Fits(st) && id in cot
    ensures Some(slot) !in cot[id].params ==> Slot(Verify(pl, cot, id, st).0.store, slot) == Slot(st.store, slot)
    ensures !Verify(pl, cot, id, st).1 ==> Verify(pl, cot, id, st).0.flags == st.flags
  {
    if Some(slot) !in cot[id].params && cot[id].methods.Some? {
      var checked := RunMethods(pl, id, cot[id].methods.value, 0, st).0;
      var after := SaveParams(pl, Taken(id, st), cot[id].params, 0, checked).0;
      SlotSize(pl, Taken(id, st), cot[id].params, 0, checked, slot);
      forall t | 0 <= t < |Slot(st.store, slot)|
        ensures Slot(after.store, slot)[t] == Slot(st.store, slot)[t]
      {
        UnwrittenStays(pl, Taken(id, st), cot[id].params, 0, checked, slot, t);
      }
      assert Slot(after.store, slot) == Slot(st.store, slot);
    }
  }

  // ----- every step keeps the invariant

  /** What one load-and-verify or a whole chain keeps. */
  ghost predicate Kept(pl: Platform, cot: Cot, st: State, after: State) {
    && Inv(pl, cot, after) && NoLower(st.counters, after.counters) && st.flags <= after.flags && st.log <= after.log
  }

  /** What a call promises of its result. */
  ghost predicate Promised(pl: Platform, cot: Cot, id: ImageId, st: State, r: (State, Rc)) {
    && Kept(pl, cot, st, r.0)
    && (r.1 == Success ==> HoldsVerified(id, r.0))
    && (r.1 == AuthFailed ==> Loaded(r.0) == Zeros(r.0.size))
  }

  /** Success: the bytes in the buffer are the last ones marked, as this image. */
  ghost predicate HoldsVerified(id: ImageId, st: State) {
    && Fits(st) && id in st.flags && |st.log| > 0
    && st.log[|st.log| - 1].id == id && st.log[|st.log| - 1].bytes == Loaded(st)
  }

  lemma {:induction false} LogOkAppend(pl: Platform, cot: Cot, log: seq<Entry>, e: Entry, c: Counters)
    requires LogOk(pl, cot, log, c) && Vouched(pl, cot, e, c)
    requires cot[e.id].parent.Some? ==> cot[e.id].parent.value in Ids(log)
    ensures LogOk(pl, cot, log + [e], c) && Ids(log + [e]) == Ids(log) + {e.id}
  {
    assert (log + [e])[..|log|] == log;
  }

  /** Marking an image whose bytes were accepted and whose parent is marked. */
  lemma {:induction false} MarkKeeps(pl: Platform, cot: Cot, st: State, origin: Entry, now: State)
    requires Inv(pl, cot, st) && origin.id in cot && PendingParent(cot, origin.id, st.flags).None?
    requires origin.bytes == Loaded(st)
    requires now == st.(store := now.store, counters := now.counters, tick := now.tick, saves := now.saves)
    requires NoLower(st.counters, now.counters) && Vouched(pl, cot, origin, now.counters)
    ensures Kept(pl, cot, st, Marked(origin, now)) && HoldsVerified(origin.id, Marked(origin, now))
  {
    var after := Marked(origin, now);
    assert Loaded(now) == Loaded(st);
    assert after.log == st.log + [origin] && after.flags == st.flags + {origin.id} && after.counters == now.counters;
    LogOkStill(pl, cot, st.log, st.counters, now.counters);
    LogOkAppend(pl, cot, st.log, origin, now.counters);
    LastOf(st.log, origin);
  }

  lemma {:induction false} LastOf(log: seq<Entry>, e: Entry)
    ensures |log + [e]| > 0 && (log + [e])[|log + [e]| - 1] == e && log <= log + [e]
  {
  }

  /** Counters may rise, and the buffer and the parameters may change, without a mark. */
  lemma {:induction false} UnmarkedKeeps(pl: Platform, cot: Cot, st: State, now: State)
    requires Inv(pl, cot, st) && NoLower(st.counters, now.counters)
    requires Fits(now) && now.flags == st.flags && now.log == st.log
    ensures Kept(pl, cot, st, now)
  {
    LogOkStill(pl, cot, st.log, st.counters, now.counters);
  }

  lemma {:induction false} KeptTwice(pl: Platform, cot: Cot, a: State, b: State, b2: State, c: State)
    requires Kept(pl, cot, a, b) && Kept(pl, cot, b2, c)
    requires b2.counters == b.counters && b2.flags == b.flags && b2.log == b.log
    ensures Kept(pl, cot, a, c)
  {
    assert NoLower(a.counters, c.counters);
  }

  lemma {:induction false} VerifyKeeps(pl: Platform, cot: Cot, id: ImageId, st: State)
    requires Inv(pl, cot, st) && id in cot && PendingParent(cot, id, st.flags).None?
    ensures var r := Verify(pl, cot, id, st); Kept(pl, cot, st, r.0) && (r.1 ==> HoldsVerified(id, r.0))
  {
    if pl.integrity(id, Loaded(st)) && cot[id].methods.Some? {
      MethodsAccept(pl, id, cot[id].methods.value, 0, st);
      var checked := RunMethods(pl, id, cot[id].methods.value, 0, st);
      if !checked.1 {
        UnmarkedKeeps(pl, cot, st, checked.0);
      } else {
        var saved := SaveParams(pl, Taken(id, st), cot[id].params, 0, checked.0);
        if !saved.1 {
          UnmarkedKeeps(pl, cot, st, saved.0);
        } else {
          MarkKeeps(pl, cot, st, Taken(id, st), saved.0);
        }
      }
    }
  }

  lemma {:induction false} LoadOneKeeps(pl: Platform, cot: Cot, id: ImageId, st: State)
    requires Inv(pl, cot, st) && id in cot && PendingParent(cot, id, st.flags).None?
    ensures Promised(pl, cot, id, st, LoadOne(pl, cot, id, st))
  {
    var loaded := Load(pl, id, st);
    if loaded.1 == Success {
      VerifyKeeps(pl, cot, id, loaded.0);
      var v := Verify(pl, cot, id, loaded.0);
      if !v.1 {
        SpliceAt(v.0.buf, 0, Zeros(v.0.size));
        assert Loaded(Zeroed(v.0)) == Zeros(v.0.size);
      }
    }
  }

  lemma {:induction false} ChainKeeps(pl: Platform, cot: Cot, rank: map<ImageId, nat>, id: ImageId, st: State)
    requires Inv(pl, cot, st) && id in cot && Acyclic(cot, rank)
    ensures Promised(pl, cot, id, st, LoadChain(pl, cot, rank, id, st))
    decreases rank[id]
  {
    match PendingParent(cot, id, st.flags) {
      case None => {
        LoadOneKeeps(pl, cot, id, st);
      }
      case Some(parent) => {
        ChainKeeps(pl, cot, rank, parent, st);
        var up := LoadChain(pl, cot, rank, parent, st);
        if up.1 == Success {
          LoadOneKeeps(pl, cot, id, up.0);
          KeptTwice(pl, cot, st, up.0, up.0, LoadOne(pl, cot, id, up.0).0);
        }
      }
    }
  }

  /** Loading an image with authentication on: every image marked authenticated has its parents marked before it and
      bytes that pass its checks; counters do not go down; success leaves the verified bytes of this image in the
      buffer; a refusal leaves zeros over the image size. */
  lemma {:induction false} LoadAuthKeeps(pl: Platform, cot: Cot, rank: map<ImageId, nat>, id: ImageId, st: State)
    requires Inv(pl, cot, st) && id in cot && Acyclic(cot, rank)
    ensures Promised(pl, cot, id, st, LoadAuthImage(pl, cot, rank, id, st))
    decreases st.sources
  {
    ChainKeeps(pl, cot, rank, id, st);
    var r := LoadChain(pl, cot, rank, id, st);
    if r.1 != Success && r.0.sources > 0 {
      var next := r.0.(sources := r.0.sources - 1);
      LoadAuthKeeps(pl, cot, rank, id, next);
      PromisedLater(pl, cot, id, st, r.0, next, LoadAuthImage(pl, cot, rank, id, next));
    }
  }

  lemma {:induction false} PromisedLater(pl: Platform, cot: Cot, id: ImageId, st: State, b: State, next: State,
                                         r: (State, Rc))
    requires Kept(pl, cot, st, b) && Promised(pl, cot, id, next, r)
    requires next.counters == b.counters && next.flags == b.flags && next.log == b.log
    ensures Promised(pl, cot, id, st, r)
  {
    KeptTwice(pl, cot, st, b, next, r.0);
  }

  // ----- runs of calls

  /** One call: the image, the memory at its base and its size field as the caller left them, and the boot sources
      that remain. */
  datatype Call = Call(id: ImageId, buf: seq<byte>, size: nat, sources: nat)

  predicate CallOk(cot: Cot, call: Call) { call.id in cot && call.size <= |call.buf| }

  predicate CallsOk(cot: Cot, calls: seq<Call>) {
    forall k :: 0 <= k < |calls| ==> CallOk(cot, calls[k])
  }

  function Called(call: Call, st: State): State {
    st.(buf := call.buf, size := call.size, sources := call.sources)
  }

  /** The state after a sequence of calls. */
  function After(pl: Platform, cot: Cot, rank: map<ImageId, nat>, calls: seq<Call>, st: State): (r: State)
    requires Acyclic(cot, rank) && CallsOk(cot, calls)
    decreases |calls|
  {
    if |calls| == 0 then st
    else
      var k := |calls| - 1;
      LoadAuthImage(pl, cot, rank, calls[k].id, Called(calls[k], After(pl, cot, rank, calls[..k], st))).0
  }

  /** Before the first call nothing is authenticated. */
  ghost predicate Initial(st: State) { Fits(st) && st.flags == {} && st.log == [] && st.saves == [] }

  lemma {:induction false} RunInv(pl: Platform, cot: Cot, rank: map<ImageId, nat>, calls: seq<Call>, st: State)
    requires Acyclic(cot, rank) && CallsOk(cot, calls) && Initial(st)
    ensures Inv(pl, cot, After(pl, cot, rank, calls, st))
    decreases |calls|
  {
    if |calls| > 0 {
      var k := |calls| - 1;
      RunInv(pl, cot, rank, calls[..k], st);
      LoadAuthKeeps(pl, cot, rank, calls[k].id, Called(calls[k], After(pl, cot, rank, calls[..k], st)));
    }
  }

  /** In every run the authenticated images are closed under parent, and each was marked on bytes that pass the
      checks of its descriptor, with no counter above the platform's. */
  lemma {:induction false} AuthenticatedClosed(pl: Platform, cot: Cot, rank: map<ImageId, nat>, calls: seq<Call>,
                                               st: State, id: ImageId)
    requires Acyclic(cot, rank) && CallsOk(cot, calls) && Initial(st)
    ensures var end := After(pl, cot, rank, calls, st);
      && Closed(cot, end.flags)
      && (id in end.flags ==> exists e :: e in end.log && e.id == id && Vouched(pl, cot, e, end.counters))
  {
    RunInv(pl, cot, rank, calls, st);
    var end := After(pl, cot, rank, calls, st);
    LogClosed(pl, cot, end.log, end.counters);
    if id in end.flags {
      EntryOf(pl, cot, end.log, end.counters, id);
    }
  }

  lemma {:induction false} EntryOf(pl: Platform, cot: Cot, log: seq<Entry>, c: Counters, id: ImageId)
    requires LogOk(pl, cot, log, c) && id in Ids(log)
    ensures exists e :: e in log && e.id == id && Vouched(pl, cot, e, c)
    decreases |log|
  {
    var k := |log| - 1;
    if log[k].id == id {
      assert log[k] in log;
    } else {
      EntryOf(pl, cot, log[..k], c, id);
      var e :| e in log[..k] && e.id == id && Vouched(pl, cot, e, c);
      assert e in log;
    }
  }

  /** `b` has the marks and log entries of `a`, perhaps more, and no lower counter. */
  ghost predicate Later(a: State, b: State) {
    NoLower(a.counters, b.counters) && a.flags <= b.flags && a.log <= b.log
  }

  lemma {:induction false} LaterTwice(a: State, b: State, c: State)
    requires Later(a, b) && Later(b, c)
    ensures Later(a, c)
  {
    assert NoLower(a.counters, c.counters);
  }

  lemma {:induction false} OneCallLater(pl: Platform, cot: Cot, rank: map<ImageId, nat>, calls: seq<Call>, st: State)
    requires Acyclic(cot, rank) && CallsOk(cot, calls) && Initial(st) && |calls| > 0
    ensures Later(After(pl, cot, rank, calls[..|calls| - 1], st), After(pl, cot, rank, calls, st))
  {
    var n := |calls| - 1;
    RunInv(pl, cot, rank, calls[..n], st);
    LoadAuthKeeps(pl, cot, rank, calls[n].id, Called(calls[n], After(pl, cot, rank, calls[..n], st)));
  }

  /** Over every run the counters never go down and no mark is taken back. */
  lemma {:induction false} CountersNeverFall(pl: Platform, cot: Cot, rank: map<ImageId, nat>, calls: seq<Call>,
                                             st: State, k: nat)
    requires Acyclic(cot, rank) && CallsOk(cot, calls) && Initial(st) && k <= |calls|
    ensures Later(After(pl, cot, rank, calls[..k], st), After(pl, cot, rank, calls, st))
    decreases |calls|
  {
    if k == |calls| {
      assert calls[..k] == calls;
    } else {
      var n := |calls| - 1;
      CountersNeverFall(pl, cot, rank, calls[..n], st, k);
      assert calls[..n][..k] == calls[..k];
      OneCallLater(pl, cot, rank, calls, st);
      LaterTwice(After(pl, cot, rank, calls[..k], st), After(pl, cot, rank, calls[..n], st),
                 After(pl, cot, rank, calls, st));
    }
  }

  // ----- where the parameters come from

  /** The parameter slots after some parameters were kept, from slots that held `init`. */
  function StoreOf(init: Store, saves: seq<Save>): Store
    decreases |saves|
  {
    if |saves| == 0 then init
    else
      var before, s := StoreOf(init, saves[..|saves| - 1]), saves[|saves| - 1];
      if |s.value| <= |Slot(before, s.slot)| then before[s.slot := Over(Slot(before, s.slot), s.value)] else before
  }

  /** The image was taken when the slots held the first parameters of `saves` and nothing after them. */
  ghost predicate TakenFrom(init: Store, saves: seq<Save>, origin: Entry) {
    origin.saved <= |saves| && origin.store == StoreOf(init, saves[..origin.saved])
  }

  /** The parameter was taken from bytes that pass every check of their image, as its descriptor says, and those checks
      were made against slots that held only parameters kept before it. */
  ghost predicate SaveOk(pl: Platform, cot: Cot, init: Store, saves: seq<Save>, s: Save) {
    && Vouched(pl, cot, s.origin, s.counters) && TakenFrom(init, saves, s.origin)
    && s.index < |cot[s.origin.id].params| && cot[s.origin.id].params[s.index] == Some(s.slot)
    && pl.param(s.origin.id, s.index, s.origin.bytes) == Some(s.value)
  }

  ghost predicate SavesOk(pl: Platform, cot: Cot, init: Store, saves: seq<Save>)
    decreases |saves|
  {
    |saves| > 0 ==>
      var before := saves[..|saves| - 1];
      SavesOk(pl, cot, init, before) && SaveOk(pl, cot, init, before, saves[|saves| - 1])
  }

  /** Every image was marked on checks against slots that held only parameters kept before. */
  ghost predicate LogFrom(init: Store, saves: seq<Save>, log: seq<Entry>)
    decreases |log|
  {
    |log| > 0 ==>
      LogFrom(init, saves, log[..|log| - 1]) && TakenFrom(init, saves, log[|log| - 1])
  }

  ghost predicate StoreInv(pl: Platform, cot: Cot, init: Store, st: State) {
    && st.store == StoreOf(init, st.saves) && SavesOk(pl, cot, init, st.saves) && LogFrom(init, st.saves, st.log)
  }

  lemma {:induction false} LogFromGrows(init: Store, saves: seq<Save>, s: Save, log: seq<Entry>)
    requires LogFrom(init, saves, log)
    ensures LogFrom(init, saves + [s], log)
    decreases |log|
  {
    if |log| > 0 {
      LogFromGrows(init, saves, s, log[..|log| - 1]);
      TakenStill(init, saves, s, log[|log| - 1]);
    }
  }

  lemma {:induction false} TakenStill(init: Store, saves: seq<Save>, s: Save, origin: Entry)
    requires TakenFrom(init, saves, origin)
    ensures TakenFrom(init, saves + [s], origin)
  {
    assert (saves + [s])[..origin.saved] == saves[..origin.saved];
  }

  lemma {:induction false} OneSave(pl: Platform, cot: Cot, init: Store, origin: Entry, i: nat, slot: nat,
                                   value: seq<byte>, st: State)
    requires StoreInv(pl, cot, init, st) && |value| <= |Slot(st.store, slot)|
    requires SaveOk(pl, cot, init, st.saves, Save(slot, value, i, origin, st.counters))
    ensures StoreInv(pl, cot, init, KeepParam(origin, i, slot, value, st))
  {
    var s := Save(slot, value, i, origin, st.counters);
    assert (st.saves + [s])[..|st.saves|] == st.saves;
    LogFromGrows(init, st.saves, s, st.log);
  }

  lemma {:induction false} SavesKeep(pl: Platform, cot: Cot, init: Store, origin: Entry, i: nat, st: State)
    requires StoreInv(pl, cot, init, st) && Vouched(pl, cot, origin, st.counters) && TakenFrom(init, st.saves, origin)
    requires i <= |cot[origin.id].params|
    ensures var r := SaveParams(pl, origin, cot[origin.id].params, i, st).0;
      StoreInv(pl, cot, init, r) && TakenFrom(init, r.saves, origin)
    decreases |cot[origin.id].params| - i
  {
    var params := cot[origin.id].params;
    if i < |params| {
      if params[i].None? {
        SavesKeep(pl, cot, init, origin, i + 1, st);
      } else if ParamFits(pl, origin.id, i, params[i].value, origin.bytes, st.store) {
        var slot, value := params[i].value, pl.param(origin.id, i, origin.bytes).value;
        OneSave(pl, cot, init, origin, i, slot, value, st);
        TakenStill(init, st.saves, Save(slot, value, i, origin, st.counters), origin);
        SavesKeep(pl, cot, init, origin, i + 1, KeepParam(origin, i, slot, value, st));
      }
    }
  }

  lemma {:induction false} VerifyStore(pl: Platform, cot: Cot, init: Store, id: ImageId, st: State)
    requires Fits(st) && id in cot && StoreInv(pl, cot, init, st)
    ensures StoreInv(pl, cot, init, Verify(pl, cot, id, st).0)
  {
    if pl.integrity(id, Loaded(st)) && cot[id].methods.Some? {
      var origin, checked := Taken(id, st), RunMethods(pl, id, cot[id].methods.value, 0, st);
      if checked.1 {
        MethodsAccept(pl, id, cot[id].methods.value, 0, st);
        assert st.saves[..|st.saves|] == st.saves;
        SavesKeep(pl, cot, init, origin, 0, checked.0);
        var saved := SaveParams(pl, origin, cot[id].params, 0, checked.0);
        assert (saved.0.log + [origin])[..|saved.0.log|] == saved.0.log;
      }
    }
  }

  lemma {:induction false} LoadOneStore(pl: Platform, cot: Cot, init: Store, id: ImageId, st: State)
    requires Fits(st) && id in cot && StoreInv(pl, cot, init, st)
    ensures StoreInv(pl, cot, init, LoadOne(pl, cot, id, st).0)
  {
    VerifyStore(pl, cot, init, id, Load(pl, id, st).0);
  }

  lemma {:induction false} ChainStore(pl: Platform, cot: Cot, rank: map<ImageId, nat>, init: Store, id: ImageId,
                                      st: State)
    requires Fits(st) && id in cot && Acyclic(cot, rank) && StoreInv(pl, cot, init, st)
    ensures StoreInv(pl, cot, init, LoadChain(pl, cot, rank, id, st).0)
    decreases rank[id]
  {
    match PendingParent(cot, id, st.flags) {
      case None => {
        LoadOneStore(pl, cot, init, id, st);
      }
      case Some(parent) => {
        ChainStore(pl, cot, rank, init, parent, st);
        LoadOneStore(pl, cot, init, id, LoadChain(pl, cot, rank, parent, st).0);
      }
    }
  }

  lemma {:induction false} LoadAuthStore(pl: Platform, cot: Cot, rank: map<ImageId, nat>, init: Store, id: ImageId,
                                         st: State)
    requires Fits(st) && id in cot && Acyclic(cot, rank) && StoreInv(pl, cot, init, st)
    ensures StoreInv(pl, cot, init, LoadAuthImage(pl, cot, rank, id, st).0)
    decreases st.sources
  {
    ChainStore(pl, cot, rank, init, id, st);
    var r := LoadChain(pl, cot, rank, id, st);
    if r.1 != Success && r.0.sources > 0 {
      LoadAuthStore(pl, cot, rank, init, id, r.0.(sources := r.0.sources - 1));
    }
  }

  /** In every run the parameter slots hold what they held at the start, overlaid by parameters that were each taken
      from bytes that pass every check of their image; and every image was marked on checks against such slots. */
  lemma {:induction false} ParametersFromChecked(pl: Platform, cot: Cot, rank: map<ImageId, nat>, calls: seq<Call>,
                                                 st: State)
    requires Acyclic(cot, rank) && CallsOk(cot, calls) && Initial(st)
    ensures StoreInv(pl, cot, st.store, After(pl, cot, rank, calls, st))
    decreases |calls|
  {
    if |calls| > 0 {
      var k := |calls| - 1;
      ParametersFromChecked(pl, cot, rank, calls[..k], st);
      LoadAuthStore(pl, cot, rank, st.store, calls[k].id, Called(calls[k], After(pl, cot, rank, calls[..k], st)));
    }
  }

  /** A kept parameter that gives byte `j` of a slot the value `b`. */
  predicate Gives(s: Save, slot: nat, j: nat, b: byte) { s.slot == slot && j < |s.value| && s.value[j] == b }

  /** A byte of a slot that is not the one it held at the start is a byte of a kept parameter. */
  lemma {:induction false} ByteOrigin(init: Store, saves: seq<Save>, slot: nat, j: nat)
    requires j < |Slot(StoreOf(init, saves), slot)|
    ensures j < |Slot(init, slot)|
    ensures Slot(StoreOf(init, saves), slot)[j] == Slot(init, slot)[j]
      || exists k :: 0 <= k < |saves| && Gives(saves[k], slot, j, Slot(StoreOf(init, saves), slot)[j])
    decreases |saves|
  {
    if |saves| > 0 {
      var n := |saves| - 1;
      var before, s := StoreOf(init, saves[..n]), saves[n];
      if s.slot == slot && |s.value| <= |Slot(before, slot)| && j < |s.value| {
        assert Gives(saves[n], slot, j, Slot(StoreOf(init, saves), slot)[j]);
        SlotSizes(init, saves[..n], slot);
      } else {
        ByteOrigin(init, saves[..n], slot, j);
        if k :| 0 <= k < n && Gives(saves[..n][k], slot, j, Slot(before, slot)[j]) {
          assert Gives(saves[k], slot, j, Slot(before, slot)[j]);
        }
      }
    }
  }

  lemma {:induction false} SaveAt(pl: Platform, cot: Cot, init: Store, saves: seq<Save>, k: nat)
    requires SavesOk(pl, cot, init, saves) && k < |saves|
    ensures SaveOk(pl, cot, init, saves[..k], saves[k])
    decreases |saves|
  {
    if k < |saves| - 1 {
      SaveAt(pl, cot, init, saves[..|saves| - 1], k);
      assert saves[..|saves| - 1][..k] == saves[..k];
    }
  }

  /** Byte `j` of a slot comes from a parameter of an image whose bytes pass every check. */
  ghost predicate FromChecked(pl: Platform, cot: Cot, s: Save, slot: nat, j: nat, b: byte) {
    && Gives(s, slot, j, b) && Vouched(pl, cot, s.origin, s.counters)
    && pl.param(s.origin.id, s.index, s.origin.bytes) == Some(s.value)
  }

  /** In every run, whatever key or hash a slot holds for the children of an image, each of its bytes is the one the
      slot held at the start or comes from an image that passed every check. */
  lemma {:induction false} SlotByteOrigin(pl: Platform, cot: Cot, rank: map<ImageId, nat>, calls: seq<Call>, st: State,
                                          slot: nat, j: nat)
    requires Acyclic(cot, rank) && CallsOk(cot, calls) && Initial(st)
    requires j < |Slot(After(pl, cot, rank, calls, st).store, slot)|
    ensures j < |Slot(st.store, slot)|
    ensures var end := After(pl, cot, rank, calls, st);
      || Slot(end.store, slot)[j] == Slot(st.store, slot)[j]
      || exists k :: 0 <= k < |end.saves| && FromChecked(pl, cot, end.saves[k], slot, j, Slot(end.store, slot)[j])
  {
    ParametersFromChecked(pl, cot, rank, calls, st);
    var end := After(pl, cot, rank, calls, st);
    ByteOrigin(st.store, end.saves, slot, j);
    if k :| 0 <= k < |end.saves| && Gives(end.saves[k], slot, j, Slot(end.store, slot)[j]) {
      SaveAt(pl, cot, st.store, end.saves, k);
      assert FromChecked(pl, cot, end.saves[k], slot, j, Slot(end.store, slot)[j]);
    }
  }

  lemma {:induction false} SlotSizes(init: Store, saves: seq<Save>, slot: nat)
    ensures |Slot(StoreOf(init, saves), slot)| == |Slot(init, slot)|
    decreases |saves|
  {
    if |saves| > 0 {
      SlotSizes(init, saves[..|saves| - 1], slot);
      SlotSizes(init, saves[..|saves| - 1], saves[|saves| - 1].slot);
    }
  }

  // ----- whose bytes they are

  /** The state in which an image's own load starts. */
  function OwnLoad(pl: Platform, cot: Cot, rank: map<ImageId, nat>, id: ImageId, st: State): (r: State)
    requires Fits(st) && id in cot && Acyclic(cot, rank)
    ensures Fits(r)
  {
    match PendingParent(cot, id, st.flags)
    case None => st
    case Some(parent) => LoadChain(pl, cot, rank, parent, st).0
  }

  /** If storage delivers the image completely, success leaves exactly its bytes, not those of a parent certificate
      that went through the same buffer before. */
  lemma {:induction false} OwnBytes(pl: Platform, cot: Cot, rank: map<ImageId, nat>, id: ImageId, st: State)
    requires Fits(st) && id in cot && Acyclic(cot, rank)
    requires LoadChain(pl, cot, rank, id, st).1 == Success
    requires Complete(pl.io(id, OwnLoad(pl, cot, rank, id, st).tick))
    ensures Loaded(LoadChain(pl, cot, rank, id, st).0) == pl.io(id, OwnLoad(pl, cot, rank, id, st).tick).content
  {
    var own := OwnLoad(pl, cot, rank, id, st);
    var io := pl.io(id, own.tick);
    assert LoadChain(pl, cot, rank, id, st) == LoadOne(pl, cot, id, own);
    SpliceAt(own.buf, 0, Arrived(io));
    assert Splice(own.buf, 0, io.content)[..|io.content|] == io.content;
  }

  // ----- the order in which images are loaded

  /** A load succeeds exactly when the image can be found, opened and sized, fits the buffer, and is empty or read
      without an error. */
  lemma {:induction false} LoadsIff(pl: Platform, id: ImageId, st: State)
    requires Fits(st)
    ensures var io, rc := pl.io(id, st.tick), Load(pl, id, st).1;
      && (rc == Success <==>
           && io.sourceRc == 0 && io.openRc == 0 && io.sizeRc == 0 && |io.content| <= |st.buf|
           && (|io.content| == 0 || io.readRc == 0))
      && (rc == Success || rc.LoadFailed?)
  {
  }

  /** One image: loaded, then verified; it fails as its load does, or with AuthFailed when it is refused. */
  lemma {:induction false} LoadOneIff(pl: Platform, cot: Cot, id: ImageId, st: State)
    requires Fits(st) && id in cot
    ensures var l, r := Load(pl, id, st), LoadOne(pl, cot, id, st);
      && (r.1 == Success <==> l.1 == Success && Verify(pl, cot, id, l.0).1)
      && (r.1 == AuthFailed <==> l.1 == Success && !Verify(pl, cot, id, l.0).1)
      && (l.1 != Success ==> r.1 == l.1)
  {
    LoadsIff(pl, id, st);
  }

  /** The ancestors of an image that are not authenticated yet, outermost first, and the image. */
  function Path(cot: Cot, rank: map<ImageId, nat>, id: ImageId, flags: set<ImageId>): (r: seq<ImageId>)
    requires id in cot && Acyclic(cot, rank)
    ensures |r| > 0 && r[|r| - 1] == id && forall k :: 0 <= k < |r| ==> r[k] in cot
    decreases rank[id]
  {
    match PendingParent(cot, id, flags)
    case None => [id]
    case Some(parent) => Path(cot, rank, parent, flags) + [id]
  }

  lemma {:induction false} PathIsAncestors(cot: Cot, rank: map<ImageId, nat>, id: ImageId, flags: set<ImageId>, k: nat)
    requires id in cot && Acyclic(cot, rank) && k < |Path(cot, rank, id, flags)|
    ensures var path := Path(cot, rank, id, flags);
      var parent := cot[path[k]].parent;
      if k == 0 then parent.None? || parent.value in flags else parent == Some(path[k - 1]) && path[k - 1] !in flags
    decreases rank[id]
  {
    if PendingParent(cot, id, flags).Some? && k < |Path(cot, rank, id, flags)| - 1 {
      PathIsAncestors(cot, rank, PendingParent(cot, id, flags).value, flags, k);
    }
  }

  /** The images of a list one after the other, until one fails. */
  function InTurn(pl: Platform, cot: Cot, path: seq<ImageId>, st: State): (r: (State, Rc))
    requires Fits(st) && forall k :: 0 <= k < |path| ==> path[k] in cot
    ensures Fits(r.0)
    decreases |path|
  {
    if |path| == 0 then (st, Success)
    else
      var last := |path| - 1;
      var r := InTurn(pl, cot, path[..last], st);
      if r.1 != Success then r else LoadOne(pl, cot, path[last], r.0)
  }

  /** The recursion over the chain of trust loads exactly the ancestors that are not authenticated yet, each once and
      outermost first, and then the image; it stops at the first that fails. */
  lemma {:induction false} ChainIsInTurn(pl: Platform, cot: Cot, rank: map<ImageId, nat>, id: ImageId, st: State)
    requires Fits(st) && id in cot && Acyclic(cot, rank)
    ensures LoadChain(pl, cot, rank, id, st) == InTurn(pl, cot, Path(cot, rank, id, st.flags), st)
    decreases rank[id]
  {
    match PendingParent(cot, id, st.flags)
    case None =>
      assert [id][..0] == [];
    case Some(parent) =>
      ChainIsInTurn(pl, cot, rank, parent, st);
      var above := Path(cot, rank, parent, st.flags);
      assert (above + [id])[..|above|] == above;
  }

  /** The state in which boot source `n`, counted from the first, is tried: the sources before it have failed. */
  function Attempt(pl: Platform, cot: Cot, rank: map<ImageId, nat>, id: ImageId, st: State, n: nat): (r: State)
    requires Fits(st) && id in cot && Acyclic(cot, rank) && n <= st.sources
    ensures Fits(r) && r.sources == st.sources - n
    decreases n
  {
    if n == 0 then st
    else
      var before := Attempt(pl, cot, rank, id, st, n - 1);
      LoadChain(pl, cot, rank, id, before).0.(sources := before.sources - 1)
  }

  /** The first `n` boot sources do not work. */
  ghost predicate NoneWorks(pl: Platform, cot: Cot, rank: map<ImageId, nat>, id: ImageId, st: State, n: nat)
    requires Fits(st) && id in cot && Acyclic(cot, rank) && n <= st.sources
    decreases n
  {
    n > 0 ==>
      && NoneWorks(pl, cot, rank, id, st, n - 1)
      && LoadChain(pl, cot, rank, id, Attempt(pl, cot, rank, id, st, n - 1)).1 != Success
  }

  lemma {:induction false} ComesToAttempt(pl: Platform, cot: Cot, rank: map<ImageId, nat>, id: ImageId, st: State,
                                          n: nat)
    requires Fits(st) && id in cot && Acyclic(cot, rank) && n <= st.sources && NoneWorks(pl, cot, rank, id, st, n)
    ensures LoadAuthImage(pl, cot, rank, id, st)
      == LoadAuthImage(pl, cot, rank, id, Attempt(pl, cot, rank, id, st, n))
    decreases n
  {
    if n > 0 {
      ComesToAttempt(pl, cot, rank, id, st, n - 1);
      NextAttempt(pl, cot, rank, id, Attempt(pl, cot, rank, id, st, n - 1));
    }
  }

  lemma {:induction false} NextAttempt(pl: Platform, cot: Cot, rank: map<ImageId, nat>, id: ImageId, st: State)
    requires Fits(st) && id in cot && Acyclic(cot, rank) && st.sources > 0
    requires LoadChain(pl, cot, rank, id, st).1 != Success
    ensures var next := LoadChain(pl, cot, rank, id, st).0.(sources := st.sources - 1);
      Fits(next) && LoadAuthImage(pl, cot, rank, id, st) == LoadAuthImage(pl, cot, rank, id, next)
  {
  }

  /** A call ends with the first boot source that works, or with the last; `n` is known not to be past it. */
  lemma {:induction false} FirstSourceThatWorks(pl: Platform, cot: Cot, rank: map<ImageId, nat>, id: ImageId, st: State,
                                                n: nat) returns (m: nat)
    requires Fits(st) && id in cot && Acyclic(cot, rank) && n <= st.sources && NoneWorks(pl, cot, rank, id, st, n)
    ensures m <= st.sources && NoneWorks(pl, cot, rank, id, st, m)
    ensures LoadAuthImage(pl, cot, rank, id, st) == LoadChain(pl, cot, rank, id, Attempt(pl, cot, rank, id, st, m))
    ensures LoadAuthImage(pl, cot, rank, id, st).1 == Success || m == st.sources
    decreases st.sources - n
  {
    if LoadChain(pl, cot, rank, id, Attempt(pl, cot, rank, id, st, n)).1 == Success || n == st.sources {
      m := n;
      ComesToAttempt(pl, cot, rank, id, st, n);
    } else {
      m := FirstSourceThatWorks(pl, cot, rank, id, st, n + 1);
    }
  }

  /** A child whose parent is authenticated on the way is checked against the parameters of that parent: the entry it is
      marked with holds them in its slots. */
  lemma {:induction false} ChildSeesParent(pl: Platform, cot: Cot, rank: map<ImageId, nat>, id: ImageId, st: State,
                                           j: nat, slot: nat)
    requires Fits(st) && id in cot && Acyclic(cot, rank) && PendingParent(cot, id, st.flags).Some?
    requires LoadChain(pl, cot, rank, id, st).1 == Success && LastFor(cot[cot[id].parent.value].params, j, slot)
    ensures var parent, log := cot[id].parent.value, LoadChain(pl, cot, rank, id, st).0.log;
      var value := pl.param(parent, j, Loaded(LoadChain(pl, cot, rank, parent, st).0));
      && |log| > 0 && log[|log| - 1].id == id && value.Some? && value.value <= Slot(log[|log| - 1].store, slot)
  {
    var parent := cot[id].parent.value;
    var up := LoadChain(pl, cot, rank, parent, st);
    var own := OwnLoad(pl, cot, rank, parent, st);
    assert up == LoadOne(pl, cot, parent, own);
    ParametersKept(pl, cot, parent, Load(pl, parent, own).0, j, slot);
    assert Loaded(up.0) == Loaded(Load(pl, parent, own).0);
    assert Load(pl, id, up.0).0.store == up.0.store;
    AcceptedEntry(pl, cot, id, Load(pl, id, up.0).0);
  }

  lemma {:induction false} AcceptedEntry(pl: Platform, cot: Cot, id: ImageId, st: State)
    requires Fits(st) && id in cot && Verify(pl, cot, id, st).1
    ensures Verify(pl, cot, id, st).0.log == st.log + [Taken(id, st)]
  {
  }

  /** `io` delivers: whatever the buffer and the size field were, a load that reports success leaves exactly the
      image. */
  ghost predicate Delivers(pl: Platform, id: ImageId, tick: nat, max: nat) {
    forall st: State :: DeliversFrom(pl, id, tick, max, st)
  }

  ghost predicate DeliversFrom(pl: Platform, id: ImageId, tick: nat, max: nat, st: State) {
    (Fits(st) && |st.buf| == max && st.tick == tick && Load(pl, id, st).1 == Success) ==>
      Loaded(Load(pl, id, st).0) == pl.io(id, tick).content
  }

  /** A load that succeeds is sure to have delivered the image exactly when storage gives all of a non-empty image:
      an empty image or a short read is reported as success with stale bytes. */
  lemma {:induction false} DeliversIff(pl: Platform, id: ImageId, st: State)
    requires Fits(st) && |st.buf| > 0 && Load(pl, id, st).1 == Success
    ensures Delivers(pl, id, st.tick, |st.buf|) <==> Complete(pl.io(id, st.tick))
  {
    var io, max := pl.io(id, st.tick), |st.buf|;
    if Complete(io) {
      forall s: State ensures DeliversFrom(pl, id, st.tick, max, s) {
        if Fits(s) && |s.buf| == max && s.tick == st.tick {
          SpliceAt(s.buf, 0, io.content);
          assert Splice(s.buf, 0, io.content)[..|io.content|] == io.content;
        }
      }
    } else {
      var s := Spoiler(io, st);
      if |io.content| > 0 {
        SpliceAt(s.buf, 0, Arrived(io));
        assert Loaded(Load(pl, id, s).0)[io.got] == s.buf[io.got] != io.content[io.got];
      }
      assert !DeliversFrom(pl, id, st.tick, max, s);
    }
  }

  /** A buffer whose old bytes show that something is missing. */
  function Spoiler(io: Io, st: State): (s: State)
    requires Fits(st) && |st.buf| > 0 && !Complete(io)
    ensures Fits(s) && |s.buf| == |st.buf| && s.tick == st.tick
    ensures |io.content| > io.got ==> forall k :: 0 <= k < |s.buf| ==> s.buf[k] != io.content[io.got]
    ensures |io.content| == 0 ==> s.size == 1
  {
    var other: byte := if io.got < |io.content| && io.content[io.got] == 0 then 1 else 0;
    st.(buf := seq(|st.buf|, _ => other), size := 1)
  }

  /** Storage with a certificate of one byte and an image of size zero. */
  function EmptyChild(): Platform {
    Platform((id, tick) => if id == 0 then Io(0, 0, 0, [7], 0, 1) else Io(0, 0, 0, [], 0, 0),
             (id, bytes) => true, (id, i, bytes, store) => true, (id, i, bytes) => None, (id, i, bytes) => None,
             tick => true, tick => true)
  }

  /** An image of size zero is loaded with success, and what is verified and left in the buffer is the certificate of
      its parent. */
  lemma {:induction false} StaleCertificateExample(st: State)
    requires Fits(st) && |st.buf| == 4 && st.flags == {}
    ensures var cot: Cot := map[0 := Image(None, Some([Check]), []), 1 := Image(Some(0), Some([Check]), [])];
      var rank: map<ImageId, nat> := map[0 := 0, 1 := 1];
      var r := LoadChain(EmptyChild(), cot, rank, 1, st);
      && r.1 == Success && 1 in r.0.flags
      && Loaded(r.0) == EmptyChild().io(0, st.tick).content != EmptyChild().io(1, st.tick + 1).content
  {
    var pl, cot: Cot := EmptyChild(), map[0 := Image(None, Some([Check]), []), 1 := Image(Some(0), Some([Check]), [])];
    var rank: map<ImageId, nat> := map[0 := 0, 1 := 1];
    var up := LoadChain(pl, cot, rank, 0, st);
    assert up == LoadOne(pl, cot, 0, st);
    OneCheck(pl, 0, Load(pl, 0, st).0);
    SpliceAt(st.buf, 0, [7]);
    assert up.1 == Success && Loaded(up.0) == [7] && up.0.tick == st.tick + 1;
    OneCheck(pl, 1, Load(pl, 1, up.0).0);
    assert PendingParent(cot, 1, st.flags) == Some(0);
  }

  lemma {:induction false} OneCheck(pl: Platform, id: ImageId, st: State)
    requires Fits(st) && pl.accepts(id, 0, Loaded(st), st.store)
    ensures RunMethods(pl, id, [Check], 0, st) == (st, true)
    ensures forall origin :: SaveParams(pl, origin, [], 0, st) == (st, true)
  {
    assert RunMethods(pl, id, [Check], 1, st) == (st, true);
  }
}
