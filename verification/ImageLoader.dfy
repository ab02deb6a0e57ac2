/** The image loader and the authentication module in the form of the firmware: flags, parameters, counters and the
    image buffer updated in place. Each method is proved to do what LoadAuth says. */
module ImageLoader {
  import opened Bytes
  import opened AuthNvCtr
  import opened LoadAuth
  import opened Wrappers

  class Loader {
    const pl: Platform
    const cot: Cot
    ghost const rank: map<ImageId, nat>
    var flags: set<ImageId>
    var store: Store
    var counters: Counters
    const buf: array<byte>
    var size: nat
    var tick: nat
    var sources: nat
    ghost var log: seq<Entry>
    ghost var saves: seq<Save>

    ghost function Now(): State
      reads this, buf
    {
      State(flags, store, counters, buf[..], size, tick, sources, log, saves)
    }

    ghost predicate Valid()
      reads this
    {
      size <= buf.Length && Acyclic(cot, rank)
    }

    constructor (pl: Platform, cot: Cot, ghost rank: map<ImageId, nat>, store: Store, counters: Counters,
                 buf: array<byte>, size: nat, sources: nat)
      requires size <= buf.Length && Acyclic(cot, rank)
      ensures Valid() && this.pl == pl && this.cot == cot && this.rank == rank && this.buf == buf
      ensures Now() == State({}, store, counters, buf[..], size, 0, sources, [], []) && Initial(Now())
    {
      this.pl, this.cot, this.rank, this.buf := pl, cot, rank, buf;
      this.flags, this.store, this.counters, this.log, this.saves := {}, store, counters, [], [];
      this.size, this.tick, this.sources := size, 0, sources;
    }

    /** The counter check of the authentication module. */
    method AuthNvCtr(id: ImageId, i: nat, cookie: nat) returns (ok: bool)
      requires Valid()
      modifies this`counters, this`tick
      ensures (Now(), ok) == RunCounter(pl, id, i, cookie, old(Now()))
    {
      var der := pl.counter(id, i, buf[..size]);
      if der.None? {
        return false;
      }
      var cert := DecodeCounter(der.value);
      if cert.None? {
        return false;
      }
      var at, plat := tick, Counter(counters, cookie);
      tick := tick + 1;
      if !pl.getCounter(at) || cert.value < plat {
        return false;
      } else if cert.value > plat {
        if !pl.setCounter(at) {
          return false;
        }
        counters := counters[cookie := cert.value];
      }
      ok := true;
    }

    /** The loop over the authentication methods. */
    method CheckMethods(id: ImageId, ms: seq<Method>) returns (ok: bool)
      requires Valid()
      modifies this`counters, this`tick
      ensures (Now(), ok) == RunMethods(pl, id, ms, 0, old(Now()))
    {
      for i := 0 to |ms|
        invariant Valid()
        invariant RunMethods(pl, id, ms, i, Now()) == RunMethods(pl, id, ms, 0, old(Now()))
      {
        match ms[i] {
          case NoMethod => { ok := true; }
          case Check => { ok := pl.accepts(id, i, buf[..size], store); }
          case NvCounter(cookie) => { ok := AuthNvCtr(id, i, cookie); }
          case Unknown => { ok := false; }
        }
        if !ok {
          return;
        }
      }
      ok := true;
    }

    /** The loop that keeps the parameters for the children. */
    method KeepParams(id: ImageId, params: seq<Option<nat>>, ghost origin: Entry) returns (ok: bool)
      requires Valid() && origin.id == id && origin.bytes == buf[..size]
      modifies this`store, this`saves
      ensures (Now(), ok) == SaveParams(pl, origin, params, 0, old(Now()))
    {
      for i := 0 to |params|
        invariant SaveParams(pl, origin, params, i, Now()) == SaveParams(pl, origin, params, 0, old(Now()))
      {
        if params[i].None? {
          continue;
        }
        var slot, value := params[i].value, pl.param(id, i, buf[..size]);
        if value.None? || |value.value| > |Slot(store, slot)| {
          return false;
        }
        store := store[slot := Over(Slot(store, slot), value.value)];
        saves := saves + [Save(slot, value.value, i, origin, counters)];
      }
      ok := true;
    }

    method VerifyImg(id: ImageId) returns (ok: bool)
      requires Valid() && id in cot
      modifies this`counters, this`tick, this`store, this`flags, this`log, this`saves
      ensures (Now(), ok) == Verify(pl, cot, id, old(Now()))
    {
      if !pl.integrity(id, buf[..size]) || cot[id].methods.None? {
        return false;
      }
      ghost var origin := Taken(id, Now());
      ok := CheckMethods(id, cot[id].methods.value);
      if !ok {
        return;
      }
      ok := KeepParams(id, cot[id].params, origin);
      if !ok {
        return;
      }
      flags := flags + {id};
      log := log + [origin];
    }

    /** Overwrites the start of the buffer. */
    method Fill(bytes: seq<byte>)
      requires |bytes| <= buf.Length
      modifies buf
      ensures buf[..] == Splice(old(buf[..]), 0, bytes)
    {
      SpliceAt(buf[..], 0, bytes);
      forall i | 0 <= i < |bytes| {
        buf[i] := bytes[i];
      }
    }

    method LoadImage(id: ImageId) returns (rc: Rc)
      requires Valid()
      modifies this`size, this`tick, buf
      ensures Valid() && (Now(), rc) == Load(pl, id, old(Now()))
    {
      var io := pl.io(id, tick);
      tick := tick + 1;
      if io.sourceRc != 0 {
        return LoadFailed(io.sourceRc);
      }
      if io.openRc != 0 {
        return LoadFailed(io.openRc);
      }
      if io.sizeRc != 0 || |io.content| == 0 {
        return if io.sizeRc == 0 then Success else LoadFailed(io.sizeRc);
      }
      if |io.content| > buf.Length {
        return LoadFailed(-EFBIG);
      }
      size := |io.content|;
      Fill(Arrived(io));
      rc := if io.readRc != 0 then LoadFailed(io.readRc) else Success;
    }

    method LoadAuthRecursive(id: ImageId) returns (rc: Rc)
      requires Valid() && id in cot
      modifies this`counters, this`tick, this`store, this`flags, this`log, this`saves, this`size, buf
      ensures Valid() && (Now(), rc) == LoadChain(pl, cot, rank, id, old(Now()))
      decreases rank[id]
    {
      if cot[id].parent.Some? && cot[id].parent.value !in flags {
        rc := LoadAuthRecursive(cot[id].parent.value);
        if rc != Success {
          return;
        }
      }
      rc := LoadImage(id);
      if rc != Success {
        return;
      }
      var ok := VerifyImg(id);
      if !ok {
        Fill(Zeros(size));
        return AuthFailed;
      }
    }

    /** One boot source; `all` is the result of trying this one and those after it. */
    method TryOne(id: ImageId, ghost all: (State, Rc)) returns (rc: Rc)
      requires Valid() && id in cot && all == LoadAuth.LoadAuthImage(pl, cot, rank, id, Now())
      modifies this`counters, this`tick, this`store, this`flags, this`log, this`saves, this`size, buf
      ensures Valid() && sources == old(sources) && all == Remaining(pl, cot, rank, id, Now(), rc)
    {
      OneTry(pl, cot, rank, id, Now());
      rc := LoadAuthRecursive(id);
    }

    method NextSource(id: ImageId, rc: Rc, ghost all: (State, Rc))
      requires Valid() && id in cot && rc != Success && sources > 0 && all == Remaining(pl, cot, rank, id, Now(), rc)
      modifies this`sources
      ensures sources == old(sources) - 1 && all == LoadAuth.LoadAuthImage(pl, cot, rank, id, Now())
    {
      ghost var st := Now();
      sources := sources - 1;
      assert Now() == st.(sources := st.sources - 1);
    }

    /** Retries with the next boot source until one works or none is left. */
    method TrySources(id: ImageId) returns (rc: Rc)
      requires Valid() && id in cot
      modifies this, buf
      ensures Valid() && (Now(), rc) == LoadAuth.LoadAuthImage(pl, cot, rank, id, old(Now()))
    {
      ghost var all := LoadAuth.LoadAuthImage(pl, cot, rank, id, Now());
      rc := TryOne(id, all);
      while rc != Success && sources > 0
        invariant Valid()
        invariant all == Remaining(pl, cot, rank, id, Now(), rc)
        decreases sources
      {
        NextSource(id, rc, all);
        rc := TryOne(id, all);
      }
    }

    /** A call leaves behind what LoadAuth promises. */
    method LoadAuthImage(id: ImageId) returns (rc: Rc)
      requires Valid() && id in cot && Inv(pl, cot, Now())
      modifies this, buf
      ensures Valid() && (Now(), rc) == LoadAuth.LoadAuthImage(pl, cot, rank, id, old(Now()))
      ensures Promised(pl, cot, id, old(Now()), (Now(), rc)) && Closed(cot, flags)
    {
      LoadAuthKeeps(pl, cot, rank, id, Now());
      rc := TrySources(id);
      LogClosed(pl, cot, log, counters);
    }
  }

  /** What is left to try after a try that ended in `st` with `rc`. */
  ghost function Remaining(pl: Platform, cot: Cot, rank: map<ImageId, nat>, id: ImageId, st: State, rc: Rc): (State, Rc)
    requires Fits(st) && id in cot && Acyclic(cot, rank)
  {
    if rc == Success || st.sources == 0 then (st, rc)
    else LoadAuth.LoadAuthImage(pl, cot, rank, id, st.(sources := st.sources - 1))
  }

  lemma {:induction false} OneTry(pl: Platform, cot: Cot, rank: map<ImageId, nat>, id: ImageId, st: State)
    requires Fits(st) && id in cot && Acyclic(cot, rank)
    ensures var r := LoadChain(pl, cot, rank, id, st);
      LoadAuth.LoadAuthImage(pl, cot, rank, id, st) == Remaining(pl, cot, rank, id, r.0, r.1)
  {
  }
}
