/** Writing the measured-boot event log, and reading it back with the cursor loops of the dump routine. */
module EventLog {
  import opened Bytes
  import opened EventFormat
  import opened Wrappers

  // ----- appending to what is already there

  lemma {:induction false} DigestsThen(ds: seq<Digest>, rest: seq<byte>, more: seq<byte>)
    requires DigestsOk(ds)
    ensures PutDigests(ds, rest) + more == PutDigests(ds, rest + more)
    decreases |ds|
  {
    if |ds| > 0 {
      DigestsThen(ds[1..], rest, more);
      Assoc3(Enc16(ds[0].alg), ds[0].bytes, PutDigests(ds[1..], rest), more);
    }
  }

  lemma {:induction false} Assoc3(a: seq<byte>, b: seq<byte>, c: seq<byte>, more: seq<byte>)
    ensures (a + (b + c)) + more == a + (b + (c + more))
  {
  }

  lemma {:induction false} Event2Then(e: Event2, rest: seq<byte>, more: seq<byte>)
    requires EventOk(e)
    ensures PutEvent2(e, rest) + more == PutEvent2(e, rest + more)
  {
    var tail := Enc32(|e.data|) + (e.data + rest);
    Assoc3(Enc32(|e.data|), e.data, rest, more);
    DigestsThen(e.digests, tail, more);
    var body := Enc32(|e.digests|) + PutDigests(e.digests, tail);
    assert body + more == Enc32(|e.digests|) + (PutDigests(e.digests, tail) + more);
    Assoc3(Enc32(e.pcr), Enc32(e.typ), body, more);
  }

  lemma {:induction false} EventsThen(es: seq<Event2>, rest: seq<byte>, more: seq<byte>)
    requires EventsOk(es)
    ensures PutEvents(es, rest) + more == PutEvents(es, rest + more)
    decreases |es|
  {
    if |es| > 0 {
      EventsThen(es[1..], rest, more);
      Event2Then(es[0], PutEvents(es[1..], rest), more);
    }
  }

  lemma {:induction false} EventsSnoc(es: seq<Event2>, e: Event2)
    requires EventsOk(es) && EventOk(e)
    ensures EventsOk(es + [e]) && PutEvents(es + [e], []) == PutEvents(es, PutEvent2(e, []))
    decreases |es|
  {
    if |es| == 0 {
      assert es + [e] == [e] && [e][1..] == [];
      assert PutEvents([e], []) == PutEvent2(e, PutEvents([], []));
    } else {
      EventsSnoc(es[1..], e);
      assert (es + [e])[1..] == es[1..] + [e] && (es + [e])[0] == es[0];
    }
  }

  lemma {:induction false} AlgsThen(algs: seq<(nat, nat)>, rest: seq<byte>, more: seq<byte>)
    requires AlgsOk(algs)
    ensures PutAlgs(algs, rest) + more == PutAlgs(algs, rest + more)
    decreases |algs|
  {
    if |algs| > 0 {
      AlgsThen(algs[1..], rest, more);
      Assoc3(Enc16(algs[0].0), Enc16(algs[0].1), PutAlgs(algs[1..], rest), more);
    }
  }

  lemma {:induction false} IdStructThen(e: IdEvent, rest: seq<byte>, more: seq<byte>)
    requires IdEventOk(e)
    ensures PutIdStruct(e, rest) + more == PutIdStruct(e, rest + more)
  {
    var vendor := [|e.vendorInfo|] + (e.vendorInfo + rest);
    Assoc3([|e.vendorInfo|], e.vendorInfo, rest, more);
    AlgsThen(e.algs, vendor, more);
    var body := e.versions + (Enc32(|e.algs|) + PutAlgs(e.algs, vendor));
    Assoc3(e.versions, Enc32(|e.algs|), PutAlgs(e.algs, vendor), more);
    Assoc3(e.signature, Enc32(e.platformClass), body, more);
  }

  lemma {:induction false} IdHeaderThen(size: nat, rest: seq<byte>, more: seq<byte>)
    requires size < U32
    ensures PutIdHeader(size, rest) + more == PutIdHeader(size, rest + more)
  {
    var body := Zeros(20) + (Enc32(size) + rest);
    Assoc3(Zeros(20), Enc32(size), rest, more);
    Assoc3(Enc32(0), Enc32(EV_NO_ACTION), body, more);
  }

  /** Appending an event's bytes to a log gives the log with that event appended. */
  lemma {:induction false} LogThenEvent(id: IdEvent, es: seq<Event2>, e: Event2)
    requires IdEventOk(id) && EventsOk(es) && EventOk(e)
    ensures EventsOk(es + [e]) && LogBytes(id, es) + PutEvent2(e, []) == LogBytes(id, es + [e])
  {
    var more := PutEvent2(e, []);
    EventsSnoc(es, e);
    EventsThen(es, [], more);
    assert [] + more == more;
    IdStructThen(id, PutEvents(es, []), more);
    IdHeaderThen(IdSize(id), PutIdStruct(id, PutEvents(es, [])), more);
  }

  // ----- runs of measurements

  /** One measurement: what is to be logged. */
  datatype Measurement = Measurement(pcr: nat, digest: seq<byte>, name: seq<byte>)

  predicate MeasurementOk(alg: nat, m: Measurement) {
    m.pcr < U32 && DigestSize(alg) == Some(|m.digest|) && |m.name| + 1 < U32
  }

  predicate AllOk(alg: nat, ms: seq<Measurement>)
    decreases |ms|
  {
    |ms| > 0 ==> MeasurementOk(alg, ms[0]) && AllOk(alg, ms[1..])
  }

  /** The event for a measurement: one digest, and the zero-terminated name as data. */
  function EventOf(alg: nat, m: Measurement): Event2 {
    Event2(m.pcr, EV_POST_CODE, [Digest(alg, m.digest)], m.name + [0])
  }

  /** Bytes one event takes, as EVENT2_HDR_SIZE and the name length count them. */
  function SizeOf(m: Measurement): nat { |m.name| + 1 + 18 + |m.digest| }

  /** An event fits if it leaves the last byte of the buffer free. */
  predicate Fits(cap: nat, used: nat, m: Measurement) { used + SizeOf(m) <= cap - 1 }

  lemma {:induction false} EventOfOk(alg: nat, m: Measurement)
    requires MeasurementOk(alg, m)
    ensures EventOk(EventOf(alg, m)) && |PutEvent2(EventOf(alg, m), [])| == SizeOf(m)
  {
    var e := EventOf(alg, m);
    assert e.digests[0] == Digest(alg, m.digest) && e.digests[1..] == [];
    assert alg < U16;
    assert DigestsOk(e.digests);
    var tail := Enc32(|e.data|) + (e.data + []);
    assert PutDigests(e.digests, tail) == Enc16(alg) + (m.digest + PutDigests(e.digests[1..], tail));
  }

  /** The log after a sequence of measurements: one that does not fit leaves it as it was. */
  function LogAfter(cap: nat, alg: nat, log: seq<byte>, ms: seq<Measurement>): (r: seq<byte>)
    requires AllOk(alg, ms)
    decreases |ms|
  {
    if |ms| == 0 then log
    else if Fits(cap, |log|, ms[0]) then
      EventOfOk(alg, ms[0]);
      LogAfter(cap, alg, log + PutEvent2(EventOf(alg, ms[0]), []), ms[1..])
    else LogAfter(cap, alg, log, ms[1..])
  }

  /** The measurements that were accepted, as events in order. */
  function Accepted(cap: nat, alg: nat, used: nat, ms: seq<Measurement>): (r: seq<Event2>)
    decreases |ms|
  {
    if |ms| == 0 then []
    else if Fits(cap, used, ms[0]) then [EventOf(alg, ms[0])] + Accepted(cap, alg, used + SizeOf(ms[0]), ms[1..])
    else Accepted(cap, alg, used, ms[1..])
  }

  /** `log` holds the ID event and the events `es`. */
  ghost predicate Holds(log: seq<byte>, id: IdEvent, es: seq<Event2>) {
    IdEventOk(id) && EventsOk(es) && log == LogBytes(id, es)
  }

  lemma {:induction false} HoldsStep(alg: nat, log: seq<byte>, id: IdEvent, es: seq<Event2>, m: Measurement)
    requires Holds(log, id, es) && MeasurementOk(alg, m)
    ensures EventOk(EventOf(alg, m))
    ensures Holds(log + PutEvent2(EventOf(alg, m), []), id, es + [EventOf(alg, m)])
    ensures |log + PutEvent2(EventOf(alg, m), [])| == |log| + SizeOf(m)
  {
    EventOfOk(alg, m);
    LogThenEvent(id, es, EventOf(alg, m));
  }

  lemma {:induction false} OneMore(es: seq<Event2>, e: Event2, later: seq<Event2>)
    ensures es + ([e] + later) == (es + [e]) + later
  {
  }

  /** The log after any measurements holds the events it held and the accepted ones. */
  lemma {:induction false} LogAfterHolds(cap: nat, alg: nat, log: seq<byte>, id: IdEvent, es: seq<Event2>,
                                         ms: seq<Measurement>)
    requires Holds(log, id, es) && AllOk(alg, ms)
    ensures Holds(LogAfter(cap, alg, log, ms), id, es + Accepted(cap, alg, |log|, ms))
    decreases |ms|
  {
    if |ms| == 0 {
      assert es + [] == es;
    } else if Fits(cap, |log|, ms[0]) {
      var e := EventOf(alg, ms[0]);
      HoldsStep(alg, log, id, es, ms[0]);
      var later := Accepted(cap, alg, |log| + SizeOf(ms[0]), ms[1..]);
      LogAfterHolds(cap, alg, log + PutEvent2(e, []), id, es + [e], ms[1..]);
      OneMore(es, e, later);
    } else {
      LogAfterHolds(cap, alg, log, id, es, ms[1..]);
    }
  }

  /** For every sequence of measurements, parsing the log gives the ID event, the events it started with, and
      then exactly the accepted ones in order, with PCR, digest and name as measured. */
  lemma {:induction false} LogParsesBack(cap: nat, alg: nat, id: IdEvent, es: seq<Event2>, ms: seq<Measurement>)
    requires IdEventOk(id) && EventsOk(es) && AllOk(alg, ms)
    ensures ParseLog(LogAfter(cap, alg, LogBytes(id, es), ms))
      == Some(Log(id, es + Accepted(cap, alg, |LogBytes(id, es)|, ms)))
  {
    var log := LogBytes(id, es);
    LogAfterHolds(cap, alg, log, id, es, ms);
    LogRoundTrip(id, es + Accepted(cap, alg, |log|, ms));
  }

  /** Appending is the only change: an accepted event extends the log, a rejected one leaves every byte of it. */
  lemma {:induction false} LogOnlyGrows(cap: nat, alg: nat, log: seq<byte>, ms: seq<Measurement>)
    requires AllOk(alg, ms) && |log| <= cap
    ensures log <= LogAfter(cap, alg, log, ms) && |LogAfter(cap, alg, log, ms)| <= cap
    ensures Accepted(cap, alg, |log|, ms) == [] ==> LogAfter(cap, alg, log, ms) == log
    decreases |ms|
  {
    if |ms| > 0 {
      EventOfOk(alg, ms[0]);
      if Fits(cap, |log|, ms[0]) {
        LogOnlyGrows(cap, alg, log + PutEvent2(EventOf(alg, ms[0]), []), ms[1..]);
      } else {
        LogOnlyGrows(cap, alg, log, ms[1..]);
      }
    }
  }

  // ----- the writer

  /** "Spec ID Event03" and "StartupLocality", with their terminating zeros. */
  const SPEC_ID_SIGNATURE: seq<byte> := [83, 112, 101, 99, 32, 73, 68, 32, 69, 118, 101, 110, 116, 48, 51, 0]
  const LOCALITY_SIGNATURE: seq<byte> := [83, 116, 97, 114, 116, 117, 112, 76, 111, 99, 97, 108, 105, 116, 121, 0]

  /** The ID event of a log with one hash algorithm. */
  function IdOf(alg: nat, digestSize: nat): IdEvent {
    IdEvent(SPEC_ID_SIGNATURE, 0, [0, 2, 2, 1], [(alg, digestSize)], [])
  }

  /** The startup locality event with the digest bytes `digest`. */
  function LocalityOf(alg: nat, digest: seq<byte>): Event2 {
    Event2(0, EV_NO_ACTION, [Digest(alg, digest)], LOCALITY_SIGNATURE + [0])
  }

  /** A platform image that can be measured; the table ends with an entry without a name. */
  datatype Image = Image(id: nat, pcr: nat, name: Option<seq<byte>>)

  datatype Rc = Ok | Enomem | Einval | HashError(rc: int) | Halt

  lemma {:induction false} IdBytes(alg: nat, digestSize: nat)
    requires DigestSize(alg) == Some(digestSize)
    ensures IdEventOk(IdOf(alg, digestSize)) && IdSize(IdOf(alg, digestSize)) == 33
    ensures LogBytes(IdOf(alg, digestSize), [])
      == PutIdHeader(33, FixedStruct()) + (Enc16(alg) + (Enc16(digestSize) + [0]))
  {
    var id, algs := IdOf(alg, digestSize), Enc16(alg) + (Enc16(digestSize) + [0]);
    assert id.algs[0] == (alg, digestSize) && id.algs[1..] == [];
    assert [|id.vendorInfo|] + (id.vendorInfo + []) == [0];
    assert PutAlgs(id.algs[1..], [0]) == [0];
    assert PutAlgs(id.algs, [0]) == algs;
    assert FixedStruct() + algs == PutIdStruct(id, []) by {
      Assoc3(id.versions, Enc32(1), [], algs);
      assert [] + algs == algs && Enc32(1) + [] == Enc32(1);
      Assoc3(id.signature, Enc32(0), id.versions + Enc32(1), algs);
    }
    IdHeaderThen(33, FixedStruct(), algs);
  }

  /** The structure header up to the number of algorithms. */
  function FixedStruct(): (r: seq<byte>)
    ensures |r| == 28
  {
    SPEC_ID_SIGNATURE + (Enc32(0) + ([0, 2, 2, 1] + Enc32(1)))
  }

  lemma {:induction false} LocalityBytes(alg: nat, digest: seq<byte>)
    requires DigestSize(alg) == Some(|digest|)
    ensures EventOk(LocalityOf(alg, digest))
    ensures PutEvent2(LocalityOf(alg, digest), [])
      == EventHeader(0, EV_NO_ACTION, alg) + (digest + (Enc32(17) + (LOCALITY_SIGNATURE + [0])))
  {
    OneDigest(alg, digest, Enc32(17) + ((LOCALITY_SIGNATURE + [0]) + []));
    assert (LOCALITY_SIGNATURE + [0]) + [] == LOCALITY_SIGNATURE + [0];
    HeaderJoins(0, EV_NO_ACTION, alg, digest + (Enc32(17) + (LOCALITY_SIGNATURE + [0])));
  }

  lemma {:induction false} OneDigest(alg: nat, digest: seq<byte>, rest: seq<byte>)
    requires DigestSize(alg) == Some(|digest|)
    ensures DigestsOk([Digest(alg, digest)])
    ensures PutDigests([Digest(alg, digest)], rest) == Enc16(alg) + (digest + rest)
  {
    var ds := [Digest(alg, digest)];
    assert ds[1..] == [] && DigestOk(ds[0]);
    assert PutDigests(ds[1..], rest) == rest;
  }

  /** The fixed fields of an event with one digest, up to the digest's bytes. */
  function EventHeader(pcr: nat, typ: nat, alg: nat): (r: seq<byte>)
    requires pcr < U32 && typ < U32 && alg < U16
    ensures |r| == 14
  {
    Enc32(pcr) + (Enc32(typ) + (Enc32(1) + Enc16(alg)))
  }

  lemma {:induction false} HeaderJoins(pcr: nat, typ: nat, alg: nat, rest: seq<byte>)
    requires pcr < U32 && typ < U32 && alg < U16
    ensures EventHeader(pcr, typ, alg) + rest == Enc32(pcr) + (Enc32(typ) + (Enc32(1) + (Enc16(alg) + rest)))
  {
    Assoc3(Enc32(pcr), Enc32(typ), Enc32(1) + Enc16(alg), rest);
    assert (Enc32(1) + Enc16(alg)) + rest == Enc32(1) + (Enc16(alg) + rest);
  }

  lemma {:induction false} EventFields(alg: nat, m: Measurement)
    requires MeasurementOk(alg, m)
    ensures EventOk(EventOf(alg, m))
    ensures PutEvent2(EventOf(alg, m), [])
      == EventHeader(m.pcr, EV_POST_CODE, alg) + (m.digest + (Enc32(|m.name| + 1) + (m.name + [0])))
  {
    EventOfOk(alg, m);
    var data := m.name + [0];
    OneDigest(alg, m.digest, Enc32(|m.name| + 1) + (data + []));
    assert data + [] == data;
    HeaderJoins(m.pcr, EV_POST_CODE, alg, m.digest + (Enc32(|m.name| + 1) + data));
  }

  lemma {:induction false} JoinLocality(was: seq<byte>, f: seq<byte>, d: seq<byte>, n: seq<byte>, s: seq<byte>,
                                        z: seq<byte>)
    ensures (was + (f + d)) + (n + (s + (z + []))) == was + (f + (d + (n + (s + z))))
  {
  }

  lemma {:induction false} LogAfterOne(cap: nat, alg: nat, log: seq<byte>, m: Measurement)
    requires MeasurementOk(alg, m)
    ensures AllOk(alg, [m]) && EventOk(EventOf(alg, m))
    ensures LogAfter(cap, alg, log, [m]) == if Fits(cap, |log|, m) then log + PutEvent2(EventOf(alg, m), []) else log
  {
    EventOfOk(alg, m);
    assert [m][1..] == [] && [m][0] == m;
  }

  predicate FirstWith(images: seq<Image>, id: nat, k: nat) {
    k < |images| && images[k].id == id && forall j :: 0 <= j < k ==> images[j].id != id
  }

  /** The first table entry with this ID. */
  function FindImage(images: seq<Image>, id: nat): (r: Option<Image>)
    ensures r.None? <==> forall k :: 0 <= k < |images| ==> images[k].id != id
    ensures r.Some? ==> exists k :: 0 <= k < |images| && images[k] == r.value && FirstWith(images, id, k)
    decreases |images|
  {
    if |images| == 0 then None else if images[0].id == id then Some(images[0]) else FindImage(images[1..], id)
  }

  const INVALID_ID: nat := 0xFFFF_FFFF

  /** A table of named images closed by a nameless entry with the invalid ID. */
  predicate TableOk(images: seq<Image>) {
    && |images| > 0 && images[|images| - 1].id == INVALID_ID && images[|images| - 1].name.None?
    && forall k :: 0 <= k < |images| - 1 ==> images[k].id != INVALID_ID && ImageOk(images[k])
  }

  predicate ImageOk(image: Image) {
    image.name.Some? && image.pcr < U32 && |image.name.value| + 1 < U32
  }

  // ----- the bytes themselves

  /** A 32-bit number at offset `at`, least significant byte first. */
  function Little32(b: seq<byte>, at: nat): nat
    requires at + 4 <= |b|
  {
    var b0: int, b1: int, b2: int, b3: int := b[at], b[at + 1], b[at + 2], b[at + 3];
    b0 + 256 * b1 + 0x1_0000 * b2 + 0x100_0000 * b3
  }

  /** A piece of a concatenation is found at its offset. */
  lemma {:induction false} PieceAt(a: seq<byte>, p: seq<byte>, rest: seq<byte>)
    ensures (a + (p + rest))[|a|..|a| + |p|] == p
  {
  }

  lemma {:induction false} Little32At(a: seq<byte>, x: nat, rest: seq<byte>)
    requires x < U32
    ensures Little32(a + (Enc32(x) + rest), |a|) == x
  {
    Digits32(x);
    var b := a + (Enc32(x) + rest);
    assert b[|a|] == Enc32(x)[0] && b[|a| + 1] == Enc32(x)[1] && b[|a| + 2] == Enc32(x)[2] && b[|a| + 3] == Enc32(x)[3];
  }

  /** The bytes of a measurement: PCR index, event type 1, one digest, the algorithm, the digest, the size of the name
      with its zero, and the name. */
  lemma {:induction false} EventLayout(alg: nat, m: Measurement)
    requires MeasurementOk(alg, m)
    ensures EventOk(EventOf(alg, m))
    ensures var b, n := PutEvent2(EventOf(alg, m), []), |m.digest|;
      && |b| == 19 + n + |m.name| && Little32(b, 0) == m.pcr && b[4..14] == [1, 0, 0, 0, 1, 0, 0, 0, alg, 0]
      && b[14..14 + n] == m.digest && Little32(b, 14 + n) == |m.name| + 1 && b[18 + n..] == m.name + [0]
  {
    EventFields(alg, m);
    var head := EventHeader(m.pcr, EV_POST_CODE, alg);
    HeadLayout(m.pcr, alg);
    PartsLayout(head, m.digest, |m.name| + 1, m.name + [0]);
  }

  lemma {:induction false} HeadLayout(pcr: nat, alg: nat)
    requires pcr < U32 && alg < 256
    ensures var head := EventHeader(pcr, EV_POST_CODE, alg);
      Little32(head, 0) == pcr && head[4..] == [1, 0, 0, 0, 1, 0, 0, 0, alg, 0]
  {
    var rest := Enc32(EV_POST_CODE) + (Enc32(1) + Enc16(alg));
    Little32At([], pcr, rest);
    assert [] + (Enc32(pcr) + rest) == EventHeader(pcr, EV_POST_CODE, alg);
    assert rest == [1, 0, 0, 0, 1, 0, 0, 0, alg, 0];
  }

  lemma {:induction false} PartsLayout(head: seq<byte>, digest: seq<byte>, size: nat, data: seq<byte>)
    requires |head| == 14 && size < U32
    ensures var b, n := head + (digest + (Enc32(size) + data)), |digest|;
      && |b| == 18 + n + |data| && Little32(b, 0) == Little32(head, 0) && b[4..14] == head[4..]
      && b[14..14 + n] == digest && Little32(b, 14 + n) == size && b[18 + n..] == data
  {
    var b := head + (digest + (Enc32(size) + data));
    PieceAt(head, digest, Enc32(size) + data);
    Little32At(head + digest, size, data);
    assert b == (head + digest) + (Enc32(size) + data);
  }

  /** The ID event of a log, byte by byte. */
  lemma {:induction false} IdLayout(alg: nat, digestSize: nat)
    requires DigestSize(alg) == Some(digestSize)
    ensures IdEventOk(IdOf(alg, digestSize))
    ensures LogBytes(IdOf(alg, digestSize), []) ==
      [0, 0, 0, 0, 3, 0, 0, 0] + Zeros(20) + [33, 0, 0, 0]
      + [83, 112, 101, 99, 32, 73, 68, 32, 69, 118, 101, 110, 116, 48, 51, 0] + [0, 0, 0, 0, 0, 2, 2, 1, 1, 0, 0, 0]
      + [alg, 0, digestSize, 0, 0]
  {
    IdBytes(alg, digestSize);
    assert Enc32(0) == [0, 0, 0, 0] && Enc32(1) == [1, 0, 0, 0];
    assert Enc32(3) == [3, 0, 0, 0] && Enc32(33) == [33, 0, 0, 0];
    assert Enc16(alg) == [alg, 0] && Enc16(digestSize) == [digestSize, 0];
    assert FixedStruct() == SPEC_ID_SIGNATURE + [0, 0, 0, 0, 0, 2, 2, 1, 1, 0, 0, 0];
    assert PutIdHeader(33, FixedStruct()) == [0, 0, 0, 0, 3, 0, 0, 0] + Zeros(20) + [33, 0, 0, 0] + FixedStruct();
  }

  /** The startup locality event, byte by byte. */
  lemma {:induction false} LocalityLayout(alg: nat, digest: seq<byte>)
    requires DigestSize(alg) == Some(|digest|)
    ensures EventOk(LocalityOf(alg, digest))
    ensures PutEvent2(LocalityOf(alg, digest), []) ==
      [0, 0, 0, 0, 3, 0, 0, 0, 1, 0, 0, 0, alg, 0] + digest + [17, 0, 0, 0]
      + [83, 116, 97, 114, 116, 117, 112, 76, 111, 99, 97, 108, 105, 116, 121, 0] + [0]
  {
    LocalityBytes(alg, digest);
    assert EventHeader(0, EV_NO_ACTION, alg) == [0, 0, 0, 0, 3, 0, 0, 0, 1, 0, 0, 0, alg, 0];
    assert Enc32(17) == [17, 0, 0, 0];
  }

  /** A measurement is added exactly when its bytes leave at least one byte of the buffer free. */
  lemma {:induction false} AddedIff(cap: nat, alg: nat, log: seq<byte>, m: Measurement)
    requires MeasurementOk(alg, m)
    ensures AllOk(alg, [m]) && EventOk(EventOf(alg, m))
    ensures var e := PutEvent2(EventOf(alg, m), []);
      LogAfter(cap, alg, log, [m]) == if |log| + |e| < cap then log + e else log
  {
    EventOfOk(alg, m);
    LogAfterOne(cap, alg, log, m);
  }

  // ----- from a buffer to a log

  /** The locality digest that initialisation leaves in a buffer that held `mem`: the memset clears as many bytes as
      the value of the algorithm identifier, the rest stays. */
  function LocalityDigest(alg: nat, mem: seq<byte>): (r: seq<byte>)
    requires DigestSize(alg).Some? && |mem| >= 100 + DigestSize(alg).value
    ensures |r| == DigestSize(alg).value
  {
    Zeros(alg) + mem[79 + alg..79 + DigestSize(alg).value]
  }

  /** The events that initialisation logs after the ID event. */
  function BootEvents(alg: nat, mem: seq<byte>, bl2: Measurement): seq<Event2>
    requires MeasurementOk(alg, bl2) && |mem| >= 100 + |bl2.digest|
  {
    [LocalityOf(alg, LocalityDigest(alg, mem)), EventOf(alg, bl2)]
  }

  /** The buffer bytes of the locality digest that the memset does not reach are zero. */
  ghost predicate ZeroPast(alg: nat, mem: seq<byte>)
    requires DigestSize(alg).Some? && |mem| >= 100 + DigestSize(alg).value
  {
    forall k :: 79 + alg <= k < 79 + DigestSize(alg).value ==> mem[k] == 0
  }

  /** Digests of EV_NO_ACTION events are to be all zeros. After initialisation that of the locality event is exactly
      when the buffer was zero past the cleared bytes. */
  lemma {:induction false} LocalityZeroIff(alg: nat, mem: seq<byte>)
    requires DigestSize(alg).Some? && |mem| >= 100 + DigestSize(alg).value
    ensures var n := DigestSize(alg).value;
      LocalityDigest(alg, mem) == Zeros(n) <==> ZeroPast(alg, mem)
  {
    var n, digest := DigestSize(alg).value, LocalityDigest(alg, mem);
    forall k | 79 + alg <= k < 79 + n
      ensures mem[k] == digest[k - 79]
    {
    }
  }

  /** Every run of measured boot, from a buffer in any state: the log dumps as ID event, locality event, BL2 event and
      then exactly the measurements that fitted. On the zero-initialised buffer of the firmware the locality digest
      is all zeros, whatever is measured. */
  lemma {:induction false} BootRunDumps(cap: nat, alg: nat, mem: seq<byte>, bl2: Measurement, ms: seq<Measurement>)
    requires MeasurementOk(alg, bl2) && |mem| == cap >= 100 + |bl2.digest| && AllOk(alg, ms)
    ensures IdEventOk(IdOf(alg, |bl2.digest|)) && EventsOk(BootEvents(alg, mem, bl2))
    ensures var start := LogBytes(IdOf(alg, |bl2.digest|), BootEvents(alg, mem, bl2));
      ParseLog(LogAfter(cap, alg, start, ms))
      == Some(Log(IdOf(alg, |bl2.digest|), BootEvents(alg, mem, bl2) + Accepted(cap, alg, |start|, ms)))
    ensures mem == Zeros(cap) ==> BootEvents(alg, mem, bl2)[0] == LocalityOf(alg, Zeros(|bl2.digest|))
  {
    var id, es := IdOf(alg, |bl2.digest|), BootEvents(alg, mem, bl2);
    IdBytes(alg, |bl2.digest|);
    LocalityBytes(alg, LocalityDigest(alg, mem));
    EventOfOk(alg, bl2);
    assert es[1..][1..] == [];
    assert EventsOk(es[1..]);
    LogParsesBack(cap, alg, id, es, ms);
    LocalityZeroIff(alg, mem);
  }

  class Writer {
    const alg: nat
    const digestSize: nat
    const buf: array<byte>
    var pos: nat
    /** The events written so far, after the ID event. */
    ghost var events: seq<Event2>

    ghost predicate Valid()
      reads this, buf
    {
      DigestSize(alg) == Some(digestSize) && pos <= buf.Length && Holds(buf[..pos], IdOf(alg, digestSize), events)
    }

    /** A buffer of at least LOG_MIN_SIZE bytes. */
    constructor (alg: nat, digestSize: nat, buf: array<byte>)
      requires DigestSize(alg) == Some(digestSize) && buf.Length >= 100 + digestSize
      ensures this.alg == alg && this.digestSize == digestSize && this.buf == buf && pos == 0 && events == []
    {
      this.alg, this.digestSize, this.buf := alg, digestSize, buf;
      this.pos, this.events := 0, [];
    }

    /** Stores bytes at an offset; what precedes and what follows stays. */
    method Put(at: nat, bytes: seq<byte>)
      requires at + |bytes| <= buf.Length
      modifies buf
      ensures buf[..at + |bytes|] == old(buf[..at]) + bytes
      ensures forall k :: at + |bytes| <= k < buf.Length ==> buf[k] == old(buf[k])
    {
      forall i | 0 <= i < |bytes| {
        buf[at + i] := bytes[i];
      }
    }

    /** Stores a field after what precedes it, then three more. */
    method PutFields(at: nat, f: seq<byte>, g: seq<byte>, h: seq<byte>, k: seq<byte>)
      requires at + |f| + |g| + |h| + |k| <= buf.Length
      modifies buf
      ensures buf[..at + |f| + |g| + |h| + |k|] == old(buf[..at]) + (f + (g + (h + k)))
      ensures forall i :: at + |f| + |g| + |h| + |k| <= i < buf.Length ==> buf[i] == old(buf[i])
    {
      ghost var was := buf[..at];
      Put(at, f);
      Put(at + |f|, g);
      Put(at + |f| + |g|, h);
      Put(at + |f| + |g| + |h|, k);
      assert was + f + g + h + k == was + (f + (g + (h + k)));
    }

    /** Adds one event for an image whose digest is given. */
    method AddEvent2(digest: seq<byte>, pcr: nat, name: seq<byte>) returns (rc: Rc)
      requires Valid() && |digest| == digestSize && pcr < U32 && |name| + 1 < U32
      modifies this`pos, this`events, buf
      ensures Valid()
      ensures var m := Measurement(pcr, digest, name);
        if Fits(buf.Length, old(pos), m) then
          && rc == Ok && events == old(events) + [EventOf(alg, m)] && pos == old(pos) + SizeOf(m)
          && buf[..pos] == LogAfter(buf.Length, alg, old(buf[..pos]), [m])
        else
          rc == Enomem && events == old(events) && pos == old(pos) && buf[..] == old(buf[..])
    {
      ghost var m := Measurement(pcr, digest, name);
      var nameLen := |name| + 1;
      if pos + nameLen + 18 + digestSize > buf.Length - 1 {
        return Enomem;
      }
      // so the second check, at the digest, cannot fail
      assert pos + 14 + digestSize <= buf.Length - 1;
      HoldsStep(alg, buf[..pos], IdOf(alg, digestSize), events, m);
      LogAfterOne(buf.Length, alg, buf[..pos], m);
      PutEvent(digest, pcr, name);
      events := events + [EventOf(alg, m)];
      rc := Ok;
    }

    /** The bytes of the event, from the write position on. */
    method PutEvent(digest: seq<byte>, pcr: nat, name: seq<byte>)
      requires DigestSize(alg) == Some(|digest|) && pcr < U32 && |name| + 1 < U32
      requires pos + SizeOf(Measurement(pcr, digest, name)) <= buf.Length
      modifies this`pos, buf
      ensures var m := Measurement(pcr, digest, name);
        && EventOk(EventOf(alg, m)) && pos == old(pos) + SizeOf(m) <= buf.Length
        && buf[..pos] == old(buf[..pos]) + PutEvent2(EventOf(alg, m), [])
    {
      EventFields(alg, Measurement(pcr, digest, name));
      PutFields(pos, EventHeader(pcr, EV_POST_CODE, alg), digest, Enc32(|name| + 1), name + [0]);
      pos := pos + 18 + |digest| + |name| + 1;
    }

    /** Writes the ID event, the locality event and the event of BL2, or panics when the last does not fit. The locality
        digest comes out all zeros exactly when the buffer was zero past the cleared bytes. */
    method Init(digest: seq<byte>, pcr: nat, name: seq<byte>) returns (rc: Rc)
      requires DigestSize(alg) == Some(digestSize) && buf.Length >= 100 + digestSize
      requires |digest| == digestSize && pcr < U32 && |name| + 1 < U32
      modifies this`pos, this`events, buf
      ensures rc == Ok <==> Fits(buf.Length, 100 + digestSize, Measurement(pcr, digest, name))
      ensures rc == Ok || rc == Halt
      ensures rc == Ok ==> Valid() && events == BootEvents(alg, old(buf[..]), Measurement(pcr, digest, name))
      ensures rc == Ok ==> (events[0] == LocalityOf(alg, Zeros(digestSize)) <==> ZeroPast(alg, old(buf[..])))
    {
      LocalityZeroIff(alg, buf[..]);
      WriteHeaders();
      rc := AddEvent2(digest, pcr, name);
      if rc != Ok {
        rc := Halt;
      }
    }

    /** The ID event and the locality event. */
    method WriteHeaders()
      requires DigestSize(alg) == Some(digestSize) && buf.Length >= 100 + digestSize
      modifies this`pos, this`events, buf
      ensures Valid() && pos == 100 + digestSize
      ensures events == [LocalityOf(alg, LocalityDigest(alg, old(buf[..])))]
    {
      ghost var mem := buf[..];
      WriteId();
      assert buf[79 + alg..79 + digestSize] == mem[79 + alg..79 + digestSize];
      WriteLocality(mem[79 + alg..79 + digestSize]);
    }

    method WriteId()
      requires DigestSize(alg) == Some(digestSize) && buf.Length >= 100 + digestSize
      modifies this`pos, this`events, buf
      ensures Valid() && pos == 65 && events == []
      ensures forall k :: 65 <= k < buf.Length ==> buf[k] == old(buf[k])
    {
      IdBytes(alg, digestSize);
      var header := PutIdHeader(33, FixedStruct());
      PutFields(0, header, Enc16(alg), Enc16(digestSize), [0]);
      pos := 65;
      events := [];
    }

    method WriteLocality(ghost stale: seq<byte>)
      requires Valid() && pos == 65 && events == [] && buf.Length >= 100 + digestSize
      requires stale == buf[79 + alg..79 + digestSize]
      modifies this`pos, this`events, buf
      ensures Valid() && pos == 100 + digestSize && events == [LocalityOf(alg, Zeros(alg) + stale)]
    {
      ghost var was, digest := buf[..65], Zeros(alg) + stale;
      var fields := EventHeader(0, EV_NO_ACTION, alg);
      PutDigestSlot(fields, stale);
      PutFields(79 + digestSize, Enc32(17), LOCALITY_SIGNATURE, [0], []);
      LocalityBytes(alg, digest);
      ghost var bytes := PutEvent2(LocalityOf(alg, digest), []);
      JoinLocality(was, fields, digest, Enc32(17), LOCALITY_SIGNATURE, [0]);
      assert buf[..100 + digestSize] == was + bytes;
      LogThenEvent(IdOf(alg, digestSize), [], LocalityOf(alg, digest));
      pos := 100 + digestSize;
      events := [LocalityOf(alg, digest)];
      assert [] + events == events;
    }

    /** The header of the locality event, and the memset over the start of its digest. */
    method PutDigestSlot(fields: seq<byte>, ghost stale: seq<byte>)
      requires DigestSize(alg) == Some(digestSize) && |fields| == 14 && buf.Length >= 100 + digestSize
      requires stale == buf[79 + alg..79 + digestSize]
      modifies buf
      ensures buf[..79 + digestSize] == old(buf[..65]) + (fields + (Zeros(alg) + stale))
    {
      ghost var was := buf[..];
      Put(65, fields);
      Put(79, Zeros(alg));
      ghost var head, tail := was[..65] + fields + Zeros(alg), was[79 + alg..];
      assert |head| == 79 + alg && buf[..79 + alg] == head;
      assert buf[79 + alg..] == tail;
      assert buf[..] == head + tail;
      assert (head + tail)[..79 + digestSize] == head + tail[..digestSize - alg];
      assert tail[..digestSize - alg] == stale;
    }

    /** Dumping the log gives back the ID event and every event written, and reads it to the end. */
    method Dump() returns (r: Option<Log>)
      requires Valid()
      ensures r == Some(Log(IdOf(alg, digestSize), events))
    {
      LogRoundTrip(IdOf(alg, digestSize), events);
      r := DumpEventLog(buf[..pos]);
    }

    /** Looks the image up and logs its digest. An ID equal to the table's terminator finds the entry without
        a name and fails an assertion. */
    method RecordMeasurement(images: seq<Image>, id: nat, hashRc: int, digest: seq<byte>) returns (rc: Rc)
      requires Valid() && |digest| == digestSize
      requires TableOk(images)
      modifies this`pos, this`events, buf
      ensures Valid()
      ensures var found := FindImage(images, id);
        match found
        case None => rc == Einval && events == old(events) && pos == old(pos) && buf[..] == old(buf[..])
        case Some(image) =>
          if hashRc == 0 && image.name.Some? then
            && (rc == Ok <==> Fits(buf.Length, old(pos), Measurement(image.pcr, digest, image.name.value)))
            && (rc == Ok || rc == Enomem)
            && buf[..pos] == LogAfter(buf.Length, alg, old(buf[..pos]),
                                      [Measurement(image.pcr, digest, image.name.value)])
          else
            && rc == (if hashRc != 0 then HashError(hashRc) else Halt)
            && events == old(events) && pos == old(pos) && buf[..] == old(buf[..])
    {
      var k, last := 0, |images| - 1;
      while images[k].id != id
        invariant 0 <= k <= last
        invariant FindImage(images, id) == FindImage(images[k..], id)
        decreases last - k
      {
        assert images[k..][1..] == images[k + 1..];
        if images[k].id == INVALID_ID {
          return Einval;
        }
        k := k + 1;
      }
      if hashRc != 0 {
        return HashError(hashRc);
      }
      if images[k].name.None? {
        return Halt;
      }
      rc := AddEvent2(digest, images[k].pcr, images[k].name.value);
    }
  }


  // ----- the dump routine: a cursor that moves over the log; `None` stands for a failed assertion or a panic

  /** `r` is the parse `p` of what follows a cursor, given as items and the new cursor. */
  ghost predicate Reads<T>(log: seq<byte>, p: Option<Parsed<T>>, r: Option<(T, nat)>) {
    match p
    case None => r.None?
    case Some(q) => r.Some? && r.value.0 == q.item && r.value.1 <= |log| && log[r.value.1..] == q.rest
  }

  function Prepend<T>(xs: seq<T>, p: Option<Parsed<seq<T>>>): Option<Parsed<seq<T>>> {
    match p
    case None => None
    case Some(q) => Some(Parsed(xs + q.item, q.rest))
  }

  lemma {:induction false} DropDrop(b: seq<byte>, i: nat, j: nat)
    requires i + j <= |b|
    ensures b[i..][j..] == b[i + j..]
  {
  }

  /** One turn of the loop over the digests, at a cursor. */
  lemma {:induction false} DigestsAt(log: seq<byte>, at: nat, count: nat)
    requires at + 2 <= |log| && count > 0
    ensures ParseDigests(log[at..], count) ==
      match DigestSize(Dec16(log[at..]))
      case None => None
      case Some(n) =>
        if at + 2 + n > |log| then None
        else Prepend([Digest(Dec16(log[at..]), log[at + 2..at + 2 + n])], ParseDigests(log[at + 2 + n..], count - 1))
  {
    DropDrop(log, at, 2);
    var size := DigestSize(Dec16(log[at..]));
    if size.Some? && at + 2 + size.value <= |log| {
      DropDrop(log, at + 2, size.value);
      assert log[at + 2..][..size.value] == log[at + 2..at + 2 + size.value];
    }
  }

  method ReadDigests(log: seq<byte>, at: nat, count: nat) returns (r: Option<(seq<Digest>, nat)>)
    requires at <= |log|
    ensures Reads(log, ParseDigests(log[at..], count), r)
  {
    var ptr: nat, ds: seq<Digest> := at, [];
    ghost var all := ParseDigests(log[at..], count);
    PrependNone(all);
    for i := 0 to count
      invariant ptr <= |log|
      invariant all == Prepend(ds, ParseDigests(log[ptr..], count - i))
    {
      if ptr + 2 > |log| {
        return None;
      }
      DigestsAt(log, ptr, count - i);
      var alg := Dec16(log[ptr..]);
      var size := DigestSize(alg);
      if size.None? {
        return None;
      }
      ptr := ptr + 2;
      if ptr + size.value > |log| {
        return None;
      }
      var digest := Digest(alg, log[ptr..ptr + size.value]);
      PrependPrepend(ds, [digest], ParseDigests(log[ptr + size.value..], count - i - 1));
      ds := ds + [digest];
      ptr := ptr + size.value;
    }
    assert ds + [] == ds;
    r := Some((ds, ptr));
  }

  lemma {:induction false} PrependPrepend<T>(xs: seq<T>, ys: seq<T>, p: Option<Parsed<seq<T>>>)
    ensures Prepend(xs, Prepend(ys, p)) == Prepend(xs + ys, p)
  {
    if p.Some? {
      assert xs + (ys + p.value.item) == (xs + ys) + p.value.item;
    }
  }

  lemma {:induction false} PrependNone<T>(p: Option<Parsed<seq<T>>>)
    ensures Prepend([], p) == p
  {
    if p.Some? {
      assert [] + p.value.item == p.value.item;
    }
  }

  lemma {:induction false} Event2At(log: seq<byte>, at: nat)
    requires at + 12 <= |log|
    ensures ParseEvent2(log[at..]) ==
      if Dec32(log[at + 8..]) == 0 then None
      else match ParseDigests(log[at + 12..], Dec32(log[at + 8..]))
        case None => None
        case Some(p) => ParseData(Dec32(log[at..]), Dec32(log[at + 4..]), p.item, p.rest)
  {
    DropDrop(log, at, 4);
    DropDrop(log, at + 4, 4);
    DropDrop(log, at + 8, 4);
  }

  method ReadEvent2(log: seq<byte>, at: nat) returns (r: Option<(Event2, nat)>)
    requires at <= |log|
    ensures Reads(log, ParseEvent2(log[at..]), r)
    ensures r.Some? ==> r.value.1 > at
  {
    ParseEvent2Shrinks(log[at..]);
    if |log| - at < 12 {
      return None;
    }
    Event2At(log, at);
    var pcr, typ, count := Dec32(log[at..]), Dec32(log[at + 4..]), Dec32(log[at + 8..]);
    if count == 0 {
      return None;
    }
    var ds := ReadDigests(log, at + 12, count);
    if ds.None? {
      return None;
    }
    r := ReadData(log, ds.value.1, pcr, typ, ds.value.0);
  }

  method ReadData(log: seq<byte>, at: nat, pcr: nat, typ: nat, ds: seq<Digest>) returns (r: Option<(Event2, nat)>)
    requires at <= |log|
    ensures Reads(log, ParseData(pcr, typ, ds, log[at..]), r)
  {
    if at + 4 > |log| {
      return None;
    }
    var size := Dec32(log[at..]);
    DropDrop(log, at, 4);
    var ptr := at + 4;
    if ptr + size > |log| {
      return None;
    }
    DropDrop(log, ptr, size);
    assert log[ptr..][..size] == log[ptr..ptr + size];
    r := Some((Event2(pcr, typ, ds, log[ptr..ptr + size]), ptr + size));
  }

  method ReadAlgs(log: seq<byte>, at: nat, count: nat) returns (r: Option<(seq<(nat, nat)>, nat)>)
    requires at <= |log|
    ensures Reads(log, ParseAlgs(log[at..], count), r)
  {
    var ptr: nat, algs: seq<(nat, nat)> := at, [];
    PrependNone(ParseAlgs(log[at..], count));
    for i := 0 to count
      invariant ptr <= |log|
      invariant ParseAlgs(log[at..], count) == Prepend(algs, ParseAlgs(log[ptr..], count - i))
    {
      if ptr + 4 > |log| || DigestSize(Dec16(log[ptr..])).None? {
        return None;
      }
      DropDrop(log, ptr, 2);
      DropDrop(log, ptr + 2, 2);
      var entry := (Dec16(log[ptr..]), Dec16(log[ptr + 2..]));
      PrependPrepend(algs, [entry], ParseAlgs(log[ptr + 4..], count - i - 1));
      algs := algs + [entry];
      ptr := ptr + 4;
    }
    assert algs + [] == algs;
    r := Some((algs, ptr));
  }

  lemma {:induction false} IdStructAt(log: seq<byte>, at: nat, size: nat)
    requires at + 28 <= |log|
    ensures ParseIdStruct(log[at..], size) ==
      match ParseAlgs(log[at + 28..], Dec32(log[at + 24..]))
      case None => None
      case Some(p) =>
        ParseVendor(IdEvent(log[at..at + 16], Dec32(log[at + 16..]), log[at + 20..at + 24], p.item, []),
                    Dec32(log[at + 24..]), size, p.rest)
  {
    DropDrop(log, at, 16);
    DropDrop(log, at + 16, 4);
    DropDrop(log, at + 20, 4);
    DropDrop(log, at + 24, 4);
    assert log[at..][..16] == log[at..at + 16] && log[at + 20..][..4] == log[at + 20..at + 24];
  }

  method ReadIdStruct(log: seq<byte>, at: nat, size: nat) returns (r: Option<(IdEvent, nat)>)
    requires at + 28 <= |log|
    ensures Reads(log, ParseIdStruct(log[at..], size), r)
  {
    IdStructAt(log, at, size);
    var count := Dec32(log[at + 24..]);
    var algs := ReadAlgs(log, at + 28, count);
    if algs.None? {
      return None;
    }
    var e := IdEvent(log[at..at + 16], Dec32(log[at + 16..]), log[at + 20..at + 24], algs.value.0, []);
    r := ReadVendor(log, algs.value.1, e, count, size);
  }

  method ReadVendor(log: seq<byte>, at: nat, e: IdEvent, count: nat, size: nat) returns (r: Option<(IdEvent, nat)>)
    requires at <= |log|
    ensures Reads(log, ParseVendor(e, count, size, log[at..]), r)
  {
    if at == |log| {
      return None;
    }
    var infoSize: int, ptr := log[at], at + 1;
    DropDrop(log, at, 1);
    if ptr + infoSize > |log| || size != 29 + 4 * count + infoSize {
      return None;
    }
    DropDrop(log, ptr, infoSize);
    assert log[ptr..][..infoSize] == log[ptr..ptr + infoSize];
    r := Some((e.(vendorInfo := log[ptr..ptr + infoSize]), ptr + infoSize));
  }

  method ReadId(log: seq<byte>) returns (r: Option<(IdEvent, nat)>)
    ensures Reads(log, ParseId(log), r)
  {
    if |log| < 60 {
      return None;
    }
    DropDrop(log, 4, 4);
    DropDrop(log, 8, 20);
    DropDrop(log, 28, 4);
    var valid := true;
    for i := 0 to 20
      invariant valid <==> log[8..][..i] == Zeros(i)
    {
      if log[8 + i] != 0 {
        valid := false;
      }
      TwentyZeros(log[8..], i);
    }
    if Dec32(log) != 0 || Dec32(log[4..]) != EV_NO_ACTION || !valid {
      return None;
    }
    r := ReadIdStruct(log, 32, Dec32(log[28..]));
  }

  lemma {:induction false} TwentyZeros(b: seq<byte>, i: nat)
    requires i < |b|
    ensures b[..i + 1] == Zeros(i + 1) <==> (b[..i] == Zeros(i) && b[i] == 0)
  {
    assert b[..i + 1] == b[..i] + [b[i]];
    assert Zeros(i + 1) == Zeros(i) + [0];
    if b[..i + 1] == Zeros(i + 1) {
      assert b[..i] == b[..i + 1][..i] && b[i] == b[..i + 1][i];
    }
  }

  /** The dump loop reads exactly what the parser defines: it comes to the end of the log or fails. */
  method DumpEventLog(log: seq<byte>) returns (r: Option<Log>)
    ensures r == ParseLog(log)
  {
    var id := ReadId(log);
    if id.None? {
      return None;
    }
    var es := ReadEvents(log, id.value.1);
    if es.None? {
      return None;
    }
    r := Some(Log(id.value.0, es.value));
  }

  method ReadEvents(log: seq<byte>, at: nat) returns (r: Option<seq<Event2>>)
    requires at <= |log|
    ensures r == ParseEvents(log[at..])
  {
    var ptr: nat, es: seq<Event2> := at, [];
    ghost var all := ParseEvents(log[at..]);
    if all.Some? {
      assert [] + all.value == all.value;
    }
    while ptr != |log|
      invariant ptr <= |log|
      invariant all == AndThen(es, ParseEvents(log[ptr..]))
      decreases |log| - ptr
    {
      var e := ReadEvent2(log, ptr);
      if e.None? {
        return None;
      }
      AndThenOne(es, e.value.0, ParseEvents(log[e.value.1..]));
      es := es + [e.value.0];
      ptr := e.value.1;
    }
    assert es + [] == es;
    r := Some(es);
  }

  function AndThen(es: seq<Event2>, later: Option<seq<Event2>>): Option<seq<Event2>> {
    match later
    case None => None
    case Some(more) => Some(es + more)
  }

  lemma {:induction false} AndThenOne(es: seq<Event2>, e: Event2, later: Option<seq<Event2>>)
    ensures AndThen(es, AndThen([e], later)) == AndThen(es + [e], later)
  {
    if later.Some? {
      OneMore(es, e, later.value);
    }
  }
}
