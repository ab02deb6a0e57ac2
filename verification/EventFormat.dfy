/** The byte format of the measured-boot event log: packed little-endian TCG structures, and the parser that
    walks them. */
module EventFormat {
  import opened Bytes
  import opened Wrappers

  const U16: nat := 0x1_0000
  const U32: nat := 0x1_0000_0000

  const EV_POST_CODE: nat := 1
  const EV_NO_ACTION: nat := 3
  const ALG_SHA256: nat := 0x0B
  const ALG_SHA384: nat := 0x0C
  const ALG_SHA512: nat := 0x0D

  // ----- integers

  function Enc16(x: nat): (r: seq<byte>)
    requires x < U16
    ensures |r| == 2
  {
    [x % 256, x / 256]
  }

  function Dec16(b: seq<byte>): nat
    requires |b| >= 2
  {
    var b0: int, b1: int := b[0], b[1];
    b0 + 256 * b1
  }

  function Enc32(x: nat): (r: seq<byte>)
    requires x < U32
    ensures |r| == 4
  {
    [x % 256, x / 256 % 256, x / 0x1_0000 % 256, x / 0x100_0000]
  }

  function Dec32(b: seq<byte>): (x: nat)
    requires |b| >= 4
    ensures x < U32
  {
    var b0: int, b1: int, b2: int, b3: int := b[0], b[1], b[2], b[3];
    b0 + 256 * b1 + 0x1_0000 * b2 + 0x100_0000 * b3
  }

  /** Reading an encoded integer gives it back, and leaves what follows. */
  lemma {:induction false} Dec16Enc(x: nat, rest: seq<byte>)
    requires x < U16
    ensures Dec16(Enc16(x) + rest) == x && (Enc16(x) + rest)[2..] == rest
  {
  }

  lemma {:induction false} Dec32Enc(x: nat, rest: seq<byte>)
    requires x < U32
    ensures Dec32(Enc32(x) + rest) == x && (Enc32(x) + rest)[4..] == rest
  {
    Digits32(x);
    var b := Enc32(x) + rest;
    assert b[0] == x % 256 && b[1] == x / 256 % 256 && b[2] == x / 0x1_0000 % 256 && b[3] == x / 0x100_0000;
  }

  lemma {:induction false} Digits32(x: nat)
    requires x < U32
    ensures x % 256 + 256 * (x / 256 % 256) + 0x1_0000 * (x / 0x1_0000 % 256) + 0x100_0000 * (x / 0x100_0000) == x
  {
    assert x / 0x1_0000 == x / 256 / 256;
    assert x / 0x100_0000 == x / 0x1_0000 / 256;
  }

  lemma {:induction false} Cut(a: seq<byte>, rest: seq<byte>)
    ensures (a + rest)[..|a|] == a && (a + rest)[|a|..] == rest
  {
  }

  // ----- events

  function DigestSize(alg: nat): Option<nat> {
    if alg == ALG_SHA256 then Some(32)
    else if alg == ALG_SHA384 then Some(48)
    else if alg == ALG_SHA512 then Some(64)
    else None
  }

  datatype Digest = Digest(alg: nat, bytes: seq<byte>)

  /** A TCG_PCR_EVENT2. */
  datatype Event2 = Event2(pcr: nat, typ: nat, digests: seq<Digest>, data: seq<byte>)

  predicate DigestOk(d: Digest) {
    d.alg < U16 && DigestSize(d.alg) == Some(|d.bytes|)
  }

  predicate DigestsOk(ds: seq<Digest>)
    decreases |ds|
  {
    |ds| > 0 ==> DigestOk(ds[0]) && DigestsOk(ds[1..])
  }

  /** An event that the format can hold. */
  predicate EventOk(e: Event2) {
    e.pcr < U32 && e.typ < U32 && 0 < |e.digests| < U32 && |e.data| < U32 && DigestsOk(e.digests)
  }

  predicate EventsOk(es: seq<Event2>)
    decreases |es|
  {
    |es| > 0 ==> EventOk(es[0]) && EventsOk(es[1..])
  }

  /** The digests, followed by `rest`. */
  function PutDigests(ds: seq<Digest>, rest: seq<byte>): seq<byte>
    requires DigestsOk(ds)
    decreases |ds|
  {
    if |ds| == 0 then rest else Enc16(ds[0].alg) + (ds[0].bytes + PutDigests(ds[1..], rest))
  }

  /** An event, followed by `rest`. */
  function PutEvent2(e: Event2, rest: seq<byte>): seq<byte>
    requires EventOk(e)
  {
    Enc32(e.pcr) + (Enc32(e.typ) + (Enc32(|e.digests|) + PutDigests(e.digests, Enc32(|e.data|) + (e.data + rest))))
  }

  function PutEvents(es: seq<Event2>, rest: seq<byte>): seq<byte>
    requires EventsOk(es)
    decreases |es|
  {
    if |es| == 0 then rest else PutEvent2(es[0], PutEvents(es[1..], rest))
  }

  // ----- the parser; `None` stands for a failed assertion or a panic

  datatype Parsed<T> = Parsed(item: T, rest: seq<byte>)

  /** The loop over the digests of one event. */
  function ParseDigests(b: seq<byte>, count: nat): (r: Option<Parsed<seq<Digest>>>)
    decreases count
  {
    if count == 0 then Some(Parsed([], b))
    else if |b| < 2 then None
    else
      match DigestSize(Dec16(b))
      case None => None
      case Some(n) =>
        var b1 := b[2..];
        if |b1| < n then None
        else
          match ParseDigests(b1[n..], count - 1)
          case None => None
          case Some(p) => Some(Parsed([Digest(Dec16(b), b1[..n])] + p.item, p.rest))
  }

  function ParseEvent2(b: seq<byte>): (r: Option<Parsed<Event2>>) {
    if |b| < 12 then None
    else
      var b1, b2 := b[4..], b[4..][4..];
      if Dec32(b2) == 0 then None
      else
        match ParseDigests(b2[4..], Dec32(b2))
        case None => None
        case Some(p) => ParseData(Dec32(b), Dec32(b1), p.item, p.rest)
  }

  /** The size and the data of an event whose other fields are known. */
  function ParseData(pcr: nat, typ: nat, ds: seq<Digest>, b: seq<byte>): (r: Option<Parsed<Event2>>) {
    if |b| < 4 || |b[4..]| < Dec32(b) then None
    else
      var data, n := b[4..], Dec32(b);
      Some(Parsed(Event2(pcr, typ, ds, data[..n]), data[n..]))
  }

  lemma {:induction false} ParseDigestsShrinks(b: seq<byte>, count: nat)
    ensures ParseDigests(b, count).Some? ==> |ParseDigests(b, count).value.rest| <= |b|
    decreases count
  {
    if count > 0 && |b| >= 2 && DigestSize(Dec16(b)).Some? && |b[2..]| >= DigestSize(Dec16(b)).value {
      ParseDigestsShrinks(b[2..][DigestSize(Dec16(b)).value..], count - 1);
    }
  }

  lemma {:induction false} ParseEvent2Shrinks(b: seq<byte>)
    ensures ParseEvent2(b).Some? ==> |ParseEvent2(b).value.rest| < |b|
  {
    if |b| >= 12 {
      var b2 := b[4..][4..];
      ParseDigestsShrinks(b2[4..], Dec32(b2));
    }
  }

  /** The loop of dump_event_log after the ID event. */
  function ParseEvents(b: seq<byte>): (r: Option<seq<Event2>>)
    decreases |b|
  {
    if |b| == 0 then Some([])
    else
      match ParseEvent2(b)
      case None => None
      case Some(p) =>
        ParseEvent2Shrinks(b);
        match ParseEvents(p.rest)
        case None => None
        case Some(es) => Some([p.item] + es)
  }

  // ----- the Specification ID event

  datatype IdEvent = IdEvent(signature: seq<byte>, platformClass: nat, versions: seq<byte>, algs: seq<(nat, nat)>,
                             vendorInfo: seq<byte>)

  /** `versions` holds the minor and major version, the errata and the UINTN size. */
  predicate IdEventOk(e: IdEvent) {
    && |e.signature| == 16 && e.platformClass < U32 && |e.versions| == 4 && |e.vendorInfo| < 256
    && IdSize(e) < U32 && AlgsOk(e.algs)
  }

  predicate AlgsOk(algs: seq<(nat, nat)>)
    decreases |algs|
  {
    |algs| > 0 ==> DigestSize(algs[0].0).Some? && algs[0].0 < U16 && algs[0].1 < U16 && AlgsOk(algs[1..])
  }

  function PutAlgs(algs: seq<(nat, nat)>, rest: seq<byte>): (r: seq<byte>)
    requires AlgsOk(algs)
    ensures |r| == 4 * |algs| + |rest|
    decreases |algs|
  {
    if |algs| == 0 then rest else Enc16(algs[0].0) + (Enc16(algs[0].1) + PutAlgs(algs[1..], rest))
  }

  /** The structure header with its algorithms and vendor data. */
  function PutIdStruct(e: IdEvent, rest: seq<byte>): (r: seq<byte>)
    requires IdEventOk(e)
    ensures |r| >= 28
  {
    e.signature + (Enc32(e.platformClass) + (e.versions + (Enc32(|e.algs|) +
      PutAlgs(e.algs, [|e.vendorInfo|] + (e.vendorInfo + rest)))))
  }

  /** The event header with its twenty zero bytes. */
  function PutIdHeader(size: nat, rest: seq<byte>): (r: seq<byte>)
    requires size < U32
    ensures |r| == 32 + |rest|
  {
    Enc32(0) + (Enc32(EV_NO_ACTION) + (Zeros(20) + (Enc32(size) + rest)))
  }

  /** The size the header announces for `e`. */
  function IdSize(e: IdEvent): nat { 29 + 4 * |e.algs| + |e.vendorInfo| }

  function ParseAlgs(b: seq<byte>, count: nat): (r: Option<Parsed<seq<(nat, nat)>>>)
    decreases count
  {
    if count == 0 then Some(Parsed([], b))
    else if |b| < 4 || DigestSize(Dec16(b)).None? then None
    else
      var b1 := b[2..];
      match ParseAlgs(b1[2..], count - 1)
      case None => None
      case Some(p) => Some(Parsed([(Dec16(b), Dec16(b1))] + p.item, p.rest))
  }

  /** The structure; its size must be the one the header announced. */
  function ParseIdStruct(b: seq<byte>, size: nat): (r: Option<Parsed<IdEvent>>) {
    if |b| < 28 then None
    else
      var b1 := b[16..];
      var b2 := b1[4..];
      var b3 := b2[4..];
      var count := Dec32(b3);
      match ParseAlgs(b3[4..], count)
      case None => None
      case Some(p) => ParseVendor(IdEvent(b[..16], Dec32(b1), b2[..4], p.item, []), count, size, p.rest)
  }

  /** The vendor data of an ID event whose other fields are known. */
  function ParseVendor(e: IdEvent, count: nat, size: nat, b: seq<byte>): (r: Option<Parsed<IdEvent>>) {
    if |b| == 0 || |b[1..]| < b[0] || size != 29 + 4 * count + b[0] then None
    else
      var data, n := b[1..], b[0];
      Some(Parsed(e.(vendorInfo := data[..n]), data[n..]))
  }

  /** The event header: the size it announces. */
  function ParseIdHeader(b: seq<byte>): (r: Option<Parsed<nat>>)
    requires |b| >= 32
  {
    var b1 := b[4..];
    var b2 := b1[4..];
    var b3 := b2[20..];
    if Dec32(b) != 0 || Dec32(b1) != EV_NO_ACTION || b2[..20] != Zeros(20) then None
    else Some(Parsed(Dec32(b3), b3[4..]))
  }

  function ParseId(b: seq<byte>): (r: Option<Parsed<IdEvent>>) {
    if |b| < 60 then None
    else
      match ParseIdHeader(b)
      case None => None
      case Some(p) => ParseIdStruct(p.rest, p.item)
  }

  datatype Log = Log(id: IdEvent, events: seq<Event2>)

  /** What dump_event_log reads out of a log. */
  function ParseLog(b: seq<byte>): (r: Option<Log>) {
    match ParseId(b)
    case None => None
    case Some(p) =>
      match ParseEvents(p.rest)
      case None => None
      case Some(es) => Some(Log(p.item, es))
  }

  // ----- parsing undoes encoding

  lemma {:induction false} HeadTail<T>(s: seq<T>)
    requires |s| > 0
    ensures [s[0]] + s[1..] == s
  {
  }

  lemma {:induction false} DigestsRoundTrip(ds: seq<Digest>, rest: seq<byte>)
    requires DigestsOk(ds)
    ensures ParseDigests(PutDigests(ds, rest), |ds|) == Some(Parsed(ds, rest))
    decreases |ds|
  {
    if |ds| > 0 {
      var d, tail := ds[0], PutDigests(ds[1..], rest);
      DigestsRoundTrip(ds[1..], rest);
      FirstDigestRoundTrip(d, tail, Parsed(ds[1..], rest), |ds| - 1);
      HeadTail(ds);
    }
  }

  lemma {:induction false} FirstDigestRoundTrip(d: Digest, tail: seq<byte>, p: Parsed<seq<Digest>>, count: nat)
    requires DigestOk(d) && ParseDigests(tail, count) == Some(p)
    ensures ParseDigests(Enc16(d.alg) + (d.bytes + tail), count + 1) == Some(Parsed([d] + p.item, p.rest))
  {
    DigestCut(d, tail);
    DigestsFromParts(Enc16(d.alg) + (d.bytes + tail), d, tail, p, count);
  }

  lemma {:induction false} DigestCut(d: Digest, tail: seq<byte>)
    requires DigestOk(d)
    ensures var b := Enc16(d.alg) + (d.bytes + tail);
      && Dec16(b) == d.alg && |b[2..]| >= |d.bytes| && b[2..][..|d.bytes|] == d.bytes && b[2..][|d.bytes|..] == tail
  {
    Dec16Enc(d.alg, d.bytes + tail);
    Cut(d.bytes, tail);
  }

  lemma {:induction false} DigestsFromParts(b: seq<byte>, d: Digest, tail: seq<byte>, p: Parsed<seq<Digest>>,
                                            count: nat)
    requires DigestOk(d) && |b| >= 2 && Dec16(b) == d.alg && |b[2..]| >= |d.bytes|
    requires b[2..][..|d.bytes|] == d.bytes && b[2..][|d.bytes|..] == tail && ParseDigests(tail, count) == Some(p)
    ensures ParseDigests(b, count + 1) == Some(Parsed([d] + p.item, p.rest))
  {
  }

  lemma {:induction false} Event2RoundTrip(e: Event2, rest: seq<byte>)
    requires EventOk(e)
    ensures ParseEvent2(PutEvent2(e, rest)) == Some(Parsed(e, rest)) && |PutEvent2(e, rest)| >= 12
  {
    var tail := Enc32(|e.data|) + (e.data + rest);
    var body := PutDigests(e.digests, tail);
    Dec32Enc(e.pcr, Enc32(e.typ) + (Enc32(|e.digests|) + body));
    Dec32Enc(e.typ, Enc32(|e.digests|) + body);
    Dec32Enc(|e.digests|, body);
    DigestsRoundTrip(e.digests, tail);
    Dec32Enc(|e.data|, e.data + rest);
    Cut(e.data, rest);
  }

  lemma {:induction false} EventsRoundTrip(es: seq<Event2>)
    requires EventsOk(es)
    ensures ParseEvents(PutEvents(es, [])) == Some(es)
    decreases |es|
  {
    if |es| > 0 {
      EventsRoundTrip(es[1..]);
      FirstEventRoundTrip(es[0], PutEvents(es[1..], []), es[1..]);
      HeadTail(es);
    }
  }

  lemma {:induction false} FirstEventRoundTrip(e: Event2, rest: seq<byte>, es: seq<Event2>)
    requires EventOk(e) && ParseEvents(rest) == Some(es)
    ensures ParseEvents(PutEvent2(e, rest)) == Some([e] + es)
  {
    Event2RoundTrip(e, rest);
    EventsFromParts(PutEvent2(e, rest), Parsed(e, rest), es);
  }

  lemma {:induction false} EventsFromParts(b: seq<byte>, p: Parsed<Event2>, es: seq<Event2>)
    requires |b| > 0 && ParseEvent2(b) == Some(p) && ParseEvents(p.rest) == Some(es)
    ensures ParseEvents(b) == Some([p.item] + es)
  {
  }

  lemma {:induction false} AlgsRoundTrip(algs: seq<(nat, nat)>, rest: seq<byte>)
    requires AlgsOk(algs)
    ensures ParseAlgs(PutAlgs(algs, rest), |algs|) == Some(Parsed(algs, rest))
    decreases |algs|
  {
    if |algs| > 0 {
      var a, tail := algs[0], PutAlgs(algs[1..], rest);
      Dec16Enc(a.0, Enc16(a.1) + tail);
      Dec16Enc(a.1, tail);
      AlgsRoundTrip(algs[1..], rest);
      HeadTail(algs);
    }
  }

  lemma {:induction false} IdStructRoundTrip(e: IdEvent, rest: seq<byte>)
    requires IdEventOk(e)
    ensures ParseIdStruct(PutIdStruct(e, rest), IdSize(e)) == Some(Parsed(e, rest))
  {
    var vendor := [|e.vendorInfo|] + (e.vendorInfo + rest);
    var algs := PutAlgs(e.algs, vendor);
    Cut(e.signature, Enc32(e.platformClass) + (e.versions + (Enc32(|e.algs|) + algs)));
    Dec32Enc(e.platformClass, e.versions + (Enc32(|e.algs|) + algs));
    Cut(e.versions, Enc32(|e.algs|) + algs);
    Dec32Enc(|e.algs|, algs);
    AlgsRoundTrip(e.algs, vendor);
    Cut([|e.vendorInfo|], e.vendorInfo + rest);
    Cut(e.vendorInfo, rest);
  }

  lemma {:induction false} IdHeaderRoundTrip(size: nat, rest: seq<byte>)
    requires size < U32
    ensures ParseIdHeader(PutIdHeader(size, rest)) == Some(Parsed(size, rest))
  {
    var b3 := Enc32(size) + rest;
    var b2 := Zeros(20) + b3;
    var b1 := Enc32(EV_NO_ACTION) + b2;
    Dec32Enc(0, b1);
    Dec32Enc(EV_NO_ACTION, b2);
    Cut(Zeros(20), b3);
    Dec32Enc(size, rest);
  }

  lemma {:induction false} IdRoundTrip(e: IdEvent, rest: seq<byte>)
    requires IdEventOk(e)
    ensures ParseId(PutIdHeader(IdSize(e), PutIdStruct(e, rest))) == Some(Parsed(e, rest))
  {
    IdStructRoundTrip(e, rest);
    IdFromStruct(IdSize(e), PutIdStruct(e, rest), Parsed(e, rest));
  }

  lemma {:induction false} IdFromStruct(size: nat, inner: seq<byte>, p: Parsed<IdEvent>)
    requires size < U32 && |inner| >= 28 && ParseIdStruct(inner, size) == Some(p)
    ensures ParseId(PutIdHeader(size, inner)) == Some(p)
  {
    IdHeaderRoundTrip(size, inner);
    IdFromParts(PutIdHeader(size, inner), size, inner, p);
  }

  lemma {:induction false} IdFromParts(b: seq<byte>, size: nat, inner: seq<byte>, p: Parsed<IdEvent>)
    requires |b| >= 60 && ParseIdHeader(b) == Some(Parsed(size, inner)) && ParseIdStruct(inner, size) == Some(p)
    ensures ParseId(b) == Some(p)
  {
  }

  /** A whole log. */
  function LogBytes(id: IdEvent, es: seq<Event2>): seq<byte>
    requires IdEventOk(id) && EventsOk(es)
  {
    PutIdHeader(IdSize(id), PutIdStruct(id, PutEvents(es, [])))
  }

  /** Parsing a log gives back its ID event and its events in order, and consumes every byte. */
  lemma {:induction false} LogRoundTrip(id: IdEvent, es: seq<Event2>)
    requires IdEventOk(id) && EventsOk(es)
    ensures ParseLog(LogBytes(id, es)) == Some(Log(id, es))
  {
    IdRoundTrip(id, PutEvents(es, []));
    EventsRoundTrip(es);
  }

  // ----- and encoding undoes parsing

  lemma {:induction false} EncDec16(b: seq<byte>)
    requires |b| >= 2
    ensures Dec16(b) < U16 && b == Enc16(Dec16(b)) + b[2..]
  {
    var b0: int, b1: int := b[0], b[1];
    assert (b0 + 256 * b1) % 256 == b0 && (b0 + 256 * b1) / 256 == b1;
  }

  lemma {:induction false} EncDec32(b: seq<byte>)
    requires |b| >= 4
    ensures b == Enc32(Dec32(b)) + b[4..]
  {
    var b0: int, b1: int, b2: int, b3: int := b[0], b[1], b[2], b[3];
    var y := b1 + 256 * b2 + 0x1_0000 * b3;
    assert Dec32(b) == b0 + 256 * y;
    assert Dec32(b) % 256 == b0 && Dec32(b) / 256 == y;
    assert y % 256 == b1 && y / 256 == b2 + 256 * b3;
    assert Dec32(b) / 0x1_0000 == y / 256 && Dec32(b) / 0x100_0000 == y / 0x1_0000 == b3;
  }

  lemma {:induction false} DigestsBack(b: seq<byte>, count: nat)
    ensures ParseDigests(b, count).Some? ==>
      var p := ParseDigests(b, count).value;
      |p.item| == count && DigestsOk(p.item) && b == PutDigests(p.item, p.rest)
    decreases count
  {
    if count > 0 && ParseDigests(b, count).Some? {
      EncDec16(b);
      var b1, n := b[2..], DigestSize(Dec16(b)).value;
      DigestsBack(b1[n..], count - 1);
      var p, q := ParseDigests(b, count).value, ParseDigests(b1[n..], count - 1).value;
      assert p.item[1..] == q.item && p.item[0] == Digest(Dec16(b), b1[..n]);
      assert b1 == b1[..n] + b1[n..];
    }
  }

  lemma {:induction false} Event2Back(b: seq<byte>)
    ensures ParseEvent2(b).Some? ==>
      var p := ParseEvent2(b).value; EventOk(p.item) && b == PutEvent2(p.item, p.rest)
  {
    if ParseEvent2(b).Some? {
      var b1, b2 := b[4..], b[4..][4..];
      EncDec32(b);
      EncDec32(b1);
      EncDec32(b2);
      DigestsBack(b2[4..], Dec32(b2));
      DataBack(Dec32(b), Dec32(b1), ParseDigests(b2[4..], Dec32(b2)).value.item,
               ParseDigests(b2[4..], Dec32(b2)).value.rest);
    }
  }

  lemma {:induction false} DataBack(pcr: nat, typ: nat, ds: seq<Digest>, b: seq<byte>)
    ensures ParseData(pcr, typ, ds, b).Some? ==>
      var p := ParseData(pcr, typ, ds, b).value;
      && p.item == Event2(pcr, typ, ds, p.item.data) && |p.item.data| < U32
      && b == Enc32(|p.item.data|) + (p.item.data + p.rest)
  {
    if ParseData(pcr, typ, ds, b).Some? {
      EncDec32(b);
      assert b[4..] == b[4..][..Dec32(b)] + b[4..][Dec32(b)..];
    }
  }

  lemma {:induction false} EventsBack(b: seq<byte>)
    ensures ParseEvents(b).Some? ==>
      var es := ParseEvents(b).value; EventsOk(es) && b == PutEvents(es, [])
    decreases |b|
  {
    if |b| > 0 && ParseEvents(b).Some? {
      Event2Back(b);
      ParseEvent2Shrinks(b);
      var p, es := ParseEvent2(b).value, ParseEvents(b).value;
      EventsBack(p.rest);
      assert es[0] == p.item && es[1..] == ParseEvents(p.rest).value;
    }
  }

  lemma {:induction false} AlgsBack(b: seq<byte>, count: nat)
    ensures ParseAlgs(b, count).Some? ==>
      var p := ParseAlgs(b, count).value;
      |p.item| == count && AlgsOk(p.item) && b == PutAlgs(p.item, p.rest)
    decreases count
  {
    if count > 0 && ParseAlgs(b, count).Some? {
      var b1 := b[2..];
      EncDec16(b);
      EncDec16(b1);
      AlgsBack(b1[2..], count - 1);
      var p, q := ParseAlgs(b, count).value, ParseAlgs(b1[2..], count - 1).value;
      assert p.item[1..] == q.item && p.item[0] == (Dec16(b), Dec16(b1));
    }
  }

  lemma {:induction false} VendorBack(e: IdEvent, count: nat, size: nat, b: seq<byte>)
    ensures ParseVendor(e, count, size, b).Some? ==>
      var p := ParseVendor(e, count, size, b).value;
      && p.item == e.(vendorInfo := p.item.vendorInfo) && |p.item.vendorInfo| < 256
      && size == 29 + 4 * count + |p.item.vendorInfo| && b == [|p.item.vendorInfo|] + (p.item.vendorInfo + p.rest)
  {
    if ParseVendor(e, count, size, b).Some? {
      assert b == [b[0]] + b[1..] && b[1..] == b[1..][..b[0]] + b[1..][b[0]..];
    }
  }

  lemma {:induction false} IdStructBack(b: seq<byte>, size: nat)
    requires size < U32
    ensures ParseIdStruct(b, size).Some? ==>
      var p := ParseIdStruct(b, size).value;
      IdEventOk(p.item) && IdSize(p.item) == size && b == PutIdStruct(p.item, p.rest)
  {
    if ParseIdStruct(b, size).Some? {
      var b1 := b[16..];
      var b2 := b1[4..];
      var b3 := b2[4..];
      var algs := ParseAlgs(b3[4..], Dec32(b3)).value;
      EncDec32(b1);
      EncDec32(b3);
      AlgsBack(b3[4..], Dec32(b3));
      VendorBack(IdEvent(b[..16], Dec32(b1), b2[..4], algs.item, []), Dec32(b3), size, algs.rest);
      assert b == b[..16] + b1 && b2 == b2[..4] + b3;
    }
  }

  lemma {:induction false} IdHeaderBack(b: seq<byte>)
    requires |b| >= 32
    ensures ParseIdHeader(b).Some? ==>
      var p := ParseIdHeader(b).value; p.item < U32 && b == PutIdHeader(p.item, p.rest)
  {
    if ParseIdHeader(b).Some? {
      var b1 := b[4..];
      var b2 := b1[4..];
      EncDec32(b);
      EncDec32(b1);
      EncDec32(b2[20..]);
      assert b2 == b2[..20] + b2[20..];
    }
  }

  /** The dump accepts exactly the encoded logs: no other bytes get past its assertions, and what it reads out of a
      log is what the log encodes. */
  lemma {:induction false} ParsesIff(b: seq<byte>, id: IdEvent, es: seq<Event2>)
    ensures ParseLog(b) == Some(Log(id, es)) <==> IdEventOk(id) && EventsOk(es) && b == LogBytes(id, es)
  {
    if ParseLog(b) == Some(Log(id, es)) {
      IdHeaderBack(b);
      var p := ParseIdHeader(b).value;
      IdStructBack(p.rest, p.item);
      EventsBack(ParseId(b).value.rest);
    }
    if IdEventOk(id) && EventsOk(es) && b == LogBytes(id, es) {
      LogRoundTrip(id, es);
    }
  }
}
