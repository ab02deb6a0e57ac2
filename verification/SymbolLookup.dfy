/** Symbol resolution over DT_HASH tables, one module at a time and across the queue of loaded modules. */
module SymbolLookup {
  import opened Bitmap
  import opened Bytes
  import opened Wrappers

  const U32: nat := 0x1_0000_0000
  const STB_LOCAL: nat := 0
  const STB_GLOBAL: nat := 1
  const STB_WEAK: nat := 2
  const SHN_UNDEF: nat := 0
  const SHN_XINDEX: nat := 0xffff
  const STT_NOTYPE: nat := 0
  const STT_OBJECT: nat := 1
  const STT_FUNC: nat := 2
  const STT_SECTION: nat := 3
  const STT_TLS: nat := 6

  type Name = seq<byte>

  // ----- the hash

  /** One character: the top four bits of the 32-bit sum are folded into bits 4 to 7 and cleared. */
  function HashStep(h: nat, c: byte): nat {
    var t := (h * 16 + c) % U32;
    var top := t / 0x1000_0000;
    Xor(t % 0x1000_0000, top * 16)
  }

  function HashOf(name: Name): (h: nat)
    decreases |name|
  {
    if |name| == 0 then 0 else HashStep(HashOf(name[..|name| - 1]), name[|name| - 1])
  }

  /** Whatever overflows 32 bits on the way, the hash never leaves 28. */
  lemma {:induction false} HashBelow(name: Name)
    ensures HashOf(name) < 0x1000_0000
  {
    if |name| > 0 {
      var h, c := HashOf(name[..|name| - 1]), name[|name| - 1];
      var t := (h * 16 + c) % U32;
      WordPowers();
      XorBelow(t % 0x1000_0000, t / 0x1000_0000 * 16, 28);
    }
  }

  /** One character, bit by bit. With `t` sixteen times the hash plus the character, in 32 bits: the top four bits of
      `t` are cleared and go into bits 4 to 7 by exclusive or, and every other bit stays. */
  lemma {:induction false} HashBits(h: nat, c: byte, i: nat)
    ensures var t := (16 * h + c) % 0x1_0000_0000;
      Bit(HashStep(h, c), i) == if i >= 28 then false else if 4 <= i < 8 then Bit(t, i) != Bit(t, i + 24) else Bit(t, i)
  {
    var t := (16 * h + c) % 0x1_0000_0000;
    var low, top := t % 0x1000_0000, t / 0x1000_0000;
    WordPowers();
    XorBit(low, top * 16, i);
    BitMod(t, 28, i);
    BitTimes16(top, i);
    if i >= 4 {
      BitShift(t, 28, i - 4);
      if i >= 8 {
        BitHigh(t, 32, i + 24);
      }
    }
  }

  lemma {:induction false} WordPowers()
    ensures Pow2(28) == 0x1000_0000 && Pow2(32) == 0x1_0000_0000
  {
    assert Pow2(8) == 256;
    assert Pow2(16) == 65536;
    assert Pow2(24) == 16777216;
  }

  /** The loop over the characters of a name, up to its terminating zero. */
  method ElfHash(name: Name) returns (h: nat)
    ensures h == HashOf(name) && h < 0x1000_0000
  {
    h := 0;
    for i := 0 to |name|
      invariant h == HashOf(name[..i])
    {
      assert name[..i + 1][..i] == name[..i];
      h := (h * 16 + name[i]) % U32;
      var top := h / 0x1000_0000;
      h := Xor(h % 0x1000_0000, top * 16);
    }
    assert name[..|name|] == name;
    HashBelow(name);
  }

  // ----- symbols

  /** `name` is the string at offset `nameOff` of the module's string table. */
  datatype Sym = Sym(nameOff: nat, name: Name, bind: nat, typ: nat, shndx: nat, value: nat)

  /** `chain[n]` is the next symbol index on the chain of symbol `n`; zero ends a chain. */
  datatype Module = Module(loadAddr: nat, size: nat, dynstrSize: nat, bucket: seq<nat>, chain: seq<nat>, syms: seq<Sym>)

  /** `Err` stands for a format error that ends the load, `Endless` for a search that does not return. */
  datatype Lookup = Found(val: nat) | NotFound | Err | Endless

  /** Whether one symbol answers to `name`. */
  function MatchSym(m: Module, s: Sym, name: Name, weakOk: bool): (r: Lookup)
    ensures !r.Endless?
  {
    if s.nameOff == 0 then NotFound
    else if s.nameOff > m.dynstrSize then Err
    else if s.name != name then NotFound
    else if s.bind != STB_GLOBAL && !(weakOk && s.bind == STB_WEAK) then NotFound
    else if s.bind == STB_WEAK && s.shndx == SHN_UNDEF then Found(0)
    else if s.shndx == SHN_UNDEF || s.shndx == SHN_XINDEX then NotFound
    else if s.typ == STT_NOTYPE || s.typ == STT_OBJECT || s.typ == STT_FUNC then
      if s.value > m.size then Err else Found(s.value + m.loadAddr)
    else if s.typ == STT_TLS then Found(s.value)
    else Err
  }

  /** What a symbol answers, by its fields. It is passed over when it has no name, another name, or a binding that is
      not asked for, and when it is neither weak without a definition, nor defined. Weak without a definition gives
      zero. A defined symbol without a type, an object or a function gives its value from the load address,
      thread-local data its plain value. A name outside the string table, a value outside the module and any other
      type are errors. */
  lemma {:induction false} SymbolAnswer(m: Module, s: Sym, name: Name, weakOk: bool)
    ensures var r := MatchSym(m, s, name, weakOk);
      var asked := 0 < s.nameOff <= m.dynstrSize && s.name == name && (s.bind == 1 || (weakOk && s.bind == 2));
      var unresolved, defined := s.bind == 2 && s.shndx == 0, s.shndx != 0 && s.shndx != 0xffff;
      var placed := s.typ <= 2 && s.value <= m.size;
      && (r == NotFound <==> s.nameOff == 0 || (s.nameOff <= m.dynstrSize && !(asked && (unresolved || defined))))
      && (r == Err <==> s.nameOff > m.dynstrSize || (asked && defined && !placed && s.typ != 6))
      && (asked && unresolved ==> r == Found(0))
      && (asked && defined && placed ==> r == Found(m.loadAddr + s.value))
      && (asked && defined && s.typ == 6 ==> r == Found(s.value))
  {
  }

  /** The search along a chain from symbol index `n`, given up after `fuel` more steps. */
  function ChainSearch(m: Module, n: nat, name: Name, weakOk: bool, fuel: nat): Lookup
    decreases fuel
  {
    if n == 0 then NotFound
    else if n >= |m.chain| || n >= |m.syms| then Err
    else
      var r := MatchSym(m, m.syms[n], name, weakOk);
      if !r.NotFound? then r
      else if fuel == 0 then Endless
      else ChainSearch(m, m.chain[n], name, weakOk, fuel - 1)
  }

  /** Where the chain of `name` starts. */
  function Start(m: Module, name: Name): nat
    requires |m.bucket| > 0
  {
    m.bucket[HashOf(name) % |m.bucket|]
  }

  /** Lookup by hash; a table without buckets is a division by zero. As many steps as there are chain entries tell
      whether a search ever ends. */
  function HashSearch(m: Module, name: Name, weakOk: bool): Lookup {
    if |m.bucket| == 0 then Err else ChainSearch(m, Start(m, name), name, weakOk, |m.chain|)
  }

  // ----- when a search ends

  function Next(m: Module, n: nat): nat { if 0 < n < |m.chain| then m.chain[n] else n }

  /** The index `k` steps along the chain from `n`. */
  function Nth(m: Module, n: nat, k: nat): nat
    decreases k
  {
    if k == 0 then n else Nth(m, Next(m, n), k - 1)
  }

  /** The search goes on past index `n`. */
  predicate Goes(m: Module, n: nat, name: Name, weakOk: bool) {
    0 < n < |m.chain| && n < |m.syms| && MatchSym(m, m.syms[n], name, weakOk).NotFound?
  }

  /** After any number of steps there is another. */
  ghost predicate NeverEnds(m: Module, n: nat, name: Name, weakOk: bool) {
    forall k: nat :: Goes(m, Nth(m, n, k), name, weakOk)
  }

  /** The chain comes back to an index it was at, and no symbol up to there ends the search. */
  ghost predicate ComesBack(m: Module, n: nat, name: Name, weakOk: bool, i: nat, j: nat) {
    && i < j <= |m.chain| && Nth(m, n, i) == Nth(m, n, j)
    && forall k: nat :: k < j ==> Goes(m, Nth(m, n, k), name, weakOk)
  }

  lemma {:induction false} NthLast(m: Module, n: nat, k: nat)
    ensures Nth(m, n, k + 1) == Next(m, Nth(m, n, k))
    decreases k
  {
    if k > 0 {
      NthLast(m, Next(m, n), k - 1);
    }
  }

  /** A search that is given up has gone on past every index it came to. */
  lemma {:induction false} GivenUpGoes(m: Module, n: nat, name: Name, weakOk: bool, fuel: nat, k: nat)
    requires ChainSearch(m, n, name, weakOk, fuel).Endless? && k <= fuel
    ensures Goes(m, Nth(m, n, k), name, weakOk)
    decreases fuel
  {
    if k > 0 {
      GivenUpGoes(m, m.chain[n], name, weakOk, fuel - 1, k - 1);
    }
  }

  /** On any table, a search that returns goes on along the chain up to some index and answers there: with nothing at
      zero, with an error at an index outside the table, and else with what the symbol gives. */
  lemma {:induction false} SearchStops(m: Module, n: nat, name: Name, weakOk: bool, fuel: nat) returns (k: nat)
    requires !ChainSearch(m, n, name, weakOk, fuel).Endless?
    ensures forall j: nat :: j < k ==> Goes(m, Nth(m, n, j), name, weakOk)
    ensures var at, r := Nth(m, n, k), ChainSearch(m, n, name, weakOk, fuel);
      if at == 0 then r == NotFound
      else if at >= |m.chain| || at >= |m.syms| then r == Err
      else r == MatchSym(m, m.syms[at], name, weakOk) != NotFound
    decreases fuel
  {
    k := 0;
    if Goes(m, n, name, weakOk) {
      var next := SearchStops(m, m.chain[n], name, weakOk, fuel - 1);
      k := next + 1;
      forall j: nat | j < k
        ensures Goes(m, Nth(m, n, j), name, weakOk)
      {
        if j > 0 {
          assert Goes(m, Nth(m, m.chain[n], j - 1), name, weakOk);
        }
      }
    }
  }

  /** From the second visit on a chain repeats itself. */
  lemma {:induction false} Repeats(m: Module, n: nat, name: Name, weakOk: bool, i: nat, j: nat, k: nat)
    requires ComesBack(m, n, name, weakOk, i, j)
    ensures exists e: nat :: e < j && Nth(m, n, k) == Nth(m, n, e)
    decreases k
  {
    if k >= j {
      Repeats(m, n, name, weakOk, i, j, k - 1);
      var e: nat :| e < j && Nth(m, n, k - 1) == Nth(m, n, e);
      NthLast(m, n, k - 1);
      NthLast(m, n, e);
      if e + 1 == j {
        assert Nth(m, n, k) == Nth(m, n, i);
      } else {
        assert Nth(m, n, k) == Nth(m, n, e + 1);
      }
    }
  }

  /** The indices that `count` steps visit. */
  function Visited(m: Module, n: nat, count: nat): (r: seq<nat>)
    ensures |r| == count && forall k :: 0 <= k < count ==> r[k] == Nth(m, n, k)
    decreases count
  {
    if count == 0 then [] else Visited(m, n, count - 1) + [Nth(m, n, count - 1)]
  }

  /** More numbers below a bound than the bound allows: two are equal. */
  lemma {:induction false} Pigeonhole(s: seq<nat>, bound: nat) returns (i: nat, j: nat)
    requires |s| > bound && forall k :: 0 <= k < |s| ==> s[k] < bound
    ensures i < j < |s| && s[i] == s[j]
    decreases bound
  {
    var last := |s| - 1;
    if e :| 0 <= e < last && s[e] == s[last] {
      return e, last;
    }
    // no other is equal to the last, so those equal to bound - 1 can take its place
    var t := seq(last, k requires 0 <= k < last => if s[k] == bound - 1 then s[last] else s[k]);
    i, j := Pigeonhole(t, bound - 1);
  }

  /** A search does not return exactly when its chain comes back to an index it was at before anything ended it; and it
      is enough to follow as many steps as the chain has entries. */
  lemma {:induction false} EndlessIff(m: Module, name: Name, weakOk: bool)
    requires |m.bucket| > 0
    ensures HashSearch(m, name, weakOk).Endless? <==> NeverEnds(m, Start(m, name), name, weakOk)
    ensures NeverEnds(m, Start(m, name), name, weakOk) <==>
      exists i: nat, j: nat :: ComesBack(m, Start(m, name), name, weakOk, i, j)
  {
    var n := Start(m, name);
    if HashSearch(m, name, weakOk).Endless? {
      var i, j := Revisits(m, n, name, weakOk);
      EndlessFrom(m, n, name, weakOk, i, j);
    } else {
      var stop := SearchStops(m, n, name, weakOk, |m.chain|);
      assert !Goes(m, Nth(m, n, stop), name, weakOk);
      assert !NeverEnds(m, n, name, weakOk);
      forall i: nat, j: nat
        ensures !ComesBack(m, n, name, weakOk, i, j)
      {
        if ComesBack(m, n, name, weakOk, i, j) {
          EndlessFrom(m, n, name, weakOk, i, j);
        }
      }
    }
  }

  lemma {:induction false} EndlessFrom(m: Module, n: nat, name: Name, weakOk: bool, i: nat, j: nat)
    requires ComesBack(m, n, name, weakOk, i, j)
    ensures NeverEnds(m, n, name, weakOk)
  {
    forall k: nat
      ensures Goes(m, Nth(m, n, k), name, weakOk)
    {
      Repeats(m, n, name, weakOk, i, j, k);
    }
  }

  /** As many steps as there are entries lead to one index twice. */
  lemma {:induction false} Revisits(m: Module, n: nat, name: Name, weakOk: bool) returns (i: nat, j: nat)
    requires ChainSearch(m, n, name, weakOk, |m.chain|).Endless?
    ensures ComesBack(m, n, name, weakOk, i, j)
  {
    var visited := Visited(m, n, |m.chain| + 1);
    forall k: nat | k <= |m.chain|
      ensures Goes(m, Nth(m, n, k), name, weakOk) && visited[k] < |m.chain|
    {
      GivenUpGoes(m, n, name, weakOk, |m.chain|, k);
    }
    i, j := Pigeonhole(visited, |m.chain|);
    assert visited[i] == Nth(m, n, i) && visited[j] == Nth(m, n, j);
  }

  /** A table whose only chain leads from symbol 1 to symbol 1. */
  lemma {:induction false} EndlessExample()
    ensures var m := Module(0, 100, 10, [1], [0, 1],
                            [Sym(0, [], 0, 0, 0, 0), Sym(1, [103], STB_GLOBAL, STT_FUNC, 1, 5)]);
      HashSearch(m, [102], true).Endless? && NeverEnds(m, 1, [102], true)
  {
    var m := Module(0, 100, 10, [1], [0, 1], [Sym(0, [], 0, 0, 0, 0), Sym(1, [103], STB_GLOBAL, STT_FUNC, 1, 5)]);
    assert Start(m, [102]) == 1;
    assert Nth(m, 1, 0) == 1 && Nth(m, 1, 1) == 1;
    assert Goes(m, 1, [102], true) by { assert m.syms[1].name[0] == 103; }
    assert ComesBack(m, 1, [102], true, 0, 1);
    EndlessIff(m, [102], true);
  }

  // ----- the reference: a scan of the symbol table

  /** The first symbol from index `n` on that answers to `name`. */
  function Scan(m: Module, n: nat, name: Name, weakOk: bool): (r: Lookup)
    ensures !r.Endless?
    decreases |m.syms| - n
  {
    if n >= |m.syms| then NotFound
    else
      var r := MatchSym(m, m.syms[n], name, weakOk);
      if r.NotFound? then Scan(m, n + 1, name, weakOk) else r
  }

  /** Symbol `target` is on the chain that starts at `n`. */
  ghost predicate OnChain(m: Module, n: nat, target: nat) {
    exists k: nat :: Nth(m, n, k) == target
  }

  /** The table fits the symbols, every chain ends, every symbol but the first is on the chain of its bucket, and every
      name is in the string table. Types, bindings and values of the symbols are free. */
  ghost predicate WellFormed(m: Module) {
    && |m.bucket| > 0 && |m.chain| == |m.syms| > 0
    && (forall b :: 0 <= b < |m.bucket| ==> m.bucket[b] < |m.chain| && OnChain(m, m.bucket[b], 0))
    && (forall n :: 0 <= n < |m.chain| ==> m.chain[n] < |m.chain|)
    && (forall n {:trigger HashedRight(m, n)} :: 0 < n < |m.syms| ==> HashedRight(m, n))
    && (forall n :: 0 <= n < |m.syms| ==> m.syms[n].nameOff <= m.dynstrSize)
    && m.syms[0].nameOff == 0
  }

  ghost predicate HashedRight(m: Module, n: nat)
    requires |m.bucket| > 0 && 0 < n < |m.syms|
  {
    OnChain(m, Start(m, m.syms[n].name), n)
  }

  /** A symbol of `m` that is not passed over gives the answer `r`. */
  ghost predicate Answers(m: Module, name: Name, weakOk: bool, r: Lookup) {
    !r.NotFound? && exists n :: 0 <= n < |m.syms| && MatchSym(m, m.syms[n], name, weakOk) == r
  }

  /** All symbols that answer to `name` give the same answer. */
  ghost predicate Unambiguous(m: Module, name: Name, weakOk: bool) {
    forall r, r' :: Answers(m, name, weakOk, r) && Answers(m, name, weakOk, r') ==> r == r'
  }

  lemma {:induction false} ChainFinds(m: Module, n: nat, name: Name, weakOk: bool, fuel: nat, target: nat, k: nat)
    requires WellFormed(m) && n < |m.chain|
    ensures var r := ChainSearch(m, n, name, weakOk, fuel);
      && (r.Found? || r.Err? ==> Answers(m, name, weakOk, r))
      && (r.NotFound? && 0 < target < |m.syms| && Nth(m, n, k) == target ==>
           MatchSym(m, m.syms[target], name, weakOk).NotFound?)
    decreases fuel
  {
    if n == 0 {
      ZeroStays(m, k);
    } else if MatchSym(m, m.syms[n], name, weakOk).NotFound? && fuel > 0 {
      ChainFinds(m, m.chain[n], name, weakOk, fuel - 1, target, if k == 0 then 0 else k - 1);
    }
  }

  lemma {:induction false} ZeroStays(m: Module, k: nat)
    ensures Nth(m, 0, k) == 0
    decreases k
  {
    if k > 0 {
      ZeroStays(m, k - 1);
    }
  }

  lemma {:induction false} ScanFinds(m: Module, n: nat, name: Name, weakOk: bool)
    ensures var r := Scan(m, n, name, weakOk);
      && (!r.NotFound? ==> Answers(m, name, weakOk, r))
      && (r.NotFound? ==> forall k :: n <= k < |m.syms| ==> MatchSym(m, m.syms[k], name, weakOk).NotFound?)
    decreases |m.syms| - n
  {
    if n < |m.syms| {
      ScanFinds(m, n + 1, name, weakOk);
    }
  }

  /** On a well-formed table the search by hash returns; it comes up empty exactly when the scan does; and otherwise
      each gives the answer of some symbol. */
  lemma {:induction false} HashFindsIff(m: Module, name: Name, weakOk: bool)
    requires WellFormed(m)
    ensures var h, l := HashSearch(m, name, weakOk), Scan(m, 0, name, weakOk);
      && !h.Endless? && (h.NotFound? <==> l.NotFound?)
      && (!h.NotFound? ==> Answers(m, name, weakOk, h)) && (!l.NotFound? ==> Answers(m, name, weakOk, l))
  {
    var start := Start(m, name);
    assert OnChain(m, start, 0);
    var end: nat :| Nth(m, start, end) == 0;
    assert !Goes(m, Nth(m, start, end), name, weakOk);
    EndlessIff(m, name, weakOk);
    ScanFinds(m, 0, name, weakOk);
    ChainFinds(m, start, name, weakOk, |m.chain|, 0, 0);
    if HashSearch(m, name, weakOk).NotFound? {
      forall n | 0 <= n < |m.syms|
        ensures MatchSym(m, m.syms[n], name, weakOk).NotFound?
      {
        if n > 0 && m.syms[n].name == name {
          assert HashedRight(m, n);
          var k: nat :| Nth(m, start, k) == n;
          ChainFinds(m, start, name, weakOk, |m.chain|, n, k);
        }
      }
    }
  }

  /** Where the symbols that answer agree, hash and scan give the same. */
  lemma {:induction false} HashAgreesWithScan(m: Module, name: Name, weakOk: bool)
    requires WellFormed(m) && Unambiguous(m, name, weakOk)
    ensures HashSearch(m, name, weakOk) == Scan(m, 0, name, weakOk)
  {
    HashFindsIff(m, name, weakOk);
  }

  /** The chain walk of resolve_sym_helper, for every table on which it returns. */
  method ResolveSymHelper(m: Module, hash: nat, name: Name, weakOk: bool) returns (r: Lookup)
    requires hash == HashOf(name) && !HashSearch(m, name, weakOk).Endless?
    ensures r == HashSearch(m, name, weakOk)
  {
    if |m.bucket| == 0 {
      return Err;
    }
    var n: nat := m.bucket[hash % |m.bucket|];
    ghost var fuel: nat := |m.chain|;
    while n != 0
      invariant HashSearch(m, name, weakOk) == ChainSearch(m, n, name, weakOk, fuel)
      decreases fuel
    {
      if n >= |m.chain| || n >= |m.syms| {
        return Err;
      }
      r := MatchSym(m, m.syms[n], name, weakOk);
      if !r.NotFound? {
        return;
      }
      n := m.chain[n];
      fuel := fuel - 1;
    }
    return NotFound;
  }

  // ----- across modules

  /** One module: globals first, then weak symbols. */
  function InModule(m: Module, name: Name): Lookup {
    var g := HashSearch(m, name, false);
    if g.NotFound? then HashSearch(m, name, true) else g
  }

  /** `at` is the module that answered; its answer may be an error, or never come. */
  datatype Resolution = Answered(r: Lookup, at: nat) | Missing

  /** The queue from position `k` on. */
  function InQueue(q: seq<Module>, name: Name, k: nat): (r: Resolution)
    decreases |q| - k
  {
    if k >= |q| then Missing
    else
      var r := InModule(q[k], name);
      if r.NotFound? then InQueue(q, name, k + 1) else Answered(r, k)
  }

  /** With a preferred module, that one is asked before the queue. */
  function Resolve(q: seq<Module>, name: Name, prefer: nat): Resolution {
    if prefer >= |q| then InQueue(q, name, 0)
    else
      var r := InModule(q[prefer], name);
      if r.NotFound? then InQueue(q, name, 0) else Answered(r, prefer)
  }

  predicate Returns(r: Resolution) { r.Answered? ==> !r.r.Endless? }

  /** The two searches of one module. */
  method AskModule(m: Module, hash: nat, name: Name) returns (r: Lookup)
    requires hash == HashOf(name) && !InModule(m, name).Endless?
    ensures r == InModule(m, name)
  {
    r := ResolveSymHelper(m, hash, name, false);
    if r.NotFound? {
      r := ResolveSymHelper(m, hash, name, true);
    }
  }

  /** The loop of ta_elf_resolve_sym, for every queue on which it returns; `prefer` is past the queue when no module is
      given. */
  method ResolveSym(q: seq<Module>, name: Name, prefer: nat) returns (r: Resolution)
    requires Returns(Resolve(q, name, prefer))
    ensures r == Resolve(q, name, prefer)
  {
    var hash := ElfHash(name);
    if prefer < |q| {
      var g := AskModule(q[prefer], hash, name);
      if !g.NotFound? {
        return Answered(g, prefer);
      }
    }
    var k := 0;
    while k < |q|
      invariant 0 <= k <= |q|
      invariant Resolve(q, name, prefer) == InQueue(q, name, k)
    {
      var g := AskModule(q[k], hash, name);
      if !g.NotFound? {
        return Answered(g, k);
      }
      k := k + 1;
    }
    return Missing;
  }

  /** Some symbol of `m` answers to `name`, as a global or, if `weakOk`, as a weak one. */
  predicate Defines(m: Module, name: Name, weakOk: bool) { !Scan(m, 0, name, weakOk).NotFound? }

  ghost predicate AllWellFormed(q: seq<Module>) {
    forall k :: 0 <= k < |q| ==> WellFormed(q[k])
  }

  /** What answers as a global also does when weak symbols are allowed. */
  lemma {:induction false} GlobalIsWeakOk(m: Module, n: nat, name: Name)
    ensures !Scan(m, n, name, false).NotFound? ==> !Scan(m, n, name, true).NotFound?
    decreases |m.syms| - n
  {
    if n < |m.syms| {
      GlobalIsWeakOk(m, n + 1, name);
    }
  }

  /** What one module answers: a global symbol if it has one, else a weak one if it has one. */
  lemma {:induction false} ModuleAnswer(m: Module, name: Name)
    requires WellFormed(m)
    ensures var r := InModule(m, name);
      && !r.Endless? && (r.NotFound? <==> !Defines(m, name, true))
      && (Defines(m, name, true) ==> Answers(m, name, !Defines(m, name, false), r))
  {
    HashFindsIff(m, name, false);
    HashFindsIff(m, name, true);
    GlobalIsWeakOk(m, 0, name);
  }

  ghost predicate NoneDefines(q: seq<Module>, name: Name, k: nat, end: nat) {
    forall i :: k <= i < end && i < |q| ==> !Defines(q[i], name, true)
  }

  /** `at` is the first module from `k` on that has a match. */
  ghost predicate IsFirst(q: seq<Module>, name: Name, k: nat, at: nat) {
    k <= at < |q| && Defines(q[at], name, true) && NoneDefines(q, name, k, at)
  }

  /** `r` is the answer of the first module from `k` on that has a match: from a global symbol if it has one. */
  ghost predicate FirstMatch(q: seq<Module>, name: Name, k: nat, r: Resolution) {
    match r
    case Missing => NoneDefines(q, name, k, |q|)
    case Answered(l, at) =>
      !l.Endless? && IsFirst(q, name, k, at) && Answers(q[at], name, !Defines(q[at], name, false), l)
  }

  /** The answer comes from the first module in queue order that has any match, and from a global symbol of
      that module if it has one; there is no answer exactly when no module has a match. */
  lemma {:induction false} FirstModuleAnswers(q: seq<Module>, name: Name, k: nat)
    requires AllWellFormed(q)
    ensures FirstMatch(q, name, k, InQueue(q, name, k))
    decreases |q| - k
  {
    if k < |q| {
      ModuleAnswer(q[k], name);
      FirstModuleAnswers(q, name, k + 1);
    }
  }

  /** A preferred module that has a match answers, from a global symbol if it has one; otherwise the whole queue is
      searched, not that module alone. */
  lemma {:induction false} PreferredModuleAnswers(q: seq<Module>, name: Name, prefer: nat)
    requires AllWellFormed(q)
    ensures var r := Resolve(q, name, prefer);
      if prefer < |q| && Defines(q[prefer], name, true)
      then r.Answered? && r.at == prefer && Answers(q[prefer], name, !Defines(q[prefer], name, false), r.r)
      else FirstMatch(q, name, 0, r)
  {
    FirstModuleAnswers(q, name, 0);
    if prefer < |q| {
      ModuleAnswer(q[prefer], name);
    }
  }

  // ----- the documented order

  /** How a symbol answers to a name: as a global one, as a weak one with a definition, as a weak one without, which
      resolves to zero, or not at all. */
  datatype Kind = Global | DefinedWeak | UndefinedWeak | NoMatch

  function KindOf(s: Sym, name: Name): Kind {
    if s.nameOff == 0 || s.name != name then NoMatch
    else if s.bind == STB_WEAK && s.shndx == SHN_UNDEF then UndefinedWeak
    else if s.shndx == SHN_UNDEF || s.shndx == SHN_XINDEX then NoMatch
    else if s.bind == STB_GLOBAL then Global
    else if s.bind == STB_WEAK then DefinedWeak
    else NoMatch
  }

  lemma {:induction false} MatchByKind(m: Module, s: Sym, name: Name)
    requires s.nameOff <= m.dynstrSize
    ensures MatchSym(m, s, name, false).NotFound? <==> KindOf(s, name) != Global
    ensures MatchSym(m, s, name, true).NotFound? <==> KindOf(s, name) == NoMatch
    ensures KindOf(s, name) == Global ==> MatchSym(m, s, name, false) == MatchSym(m, s, name, true)
  {
  }

  ghost predicate Has(m: Module, name: Name, k: Kind) {
    exists n :: 0 <= n < |m.syms| && KindOf(m.syms[n], name) == k
  }

  ghost predicate Anywhere(q: seq<Module>, name: Name, k: Kind) {
    exists i :: 0 <= i < |q| && Has(q[i], name, k)
  }

  /** What the comment above ta_elf_resolve_sym looks for: a global symbol of any module, failing that a weak symbol
      with a definition, and only as the last option a weak one without. */
  ghost function DocumentedKind(q: seq<Module>, name: Name): Kind {
    if Anywhere(q, name, Global) then Global
    else if Anywhere(q, name, DefinedWeak) then DefinedWeak
    else UndefinedWeak
  }

  /** Symbol `n` of module `at` is such a symbol, of the first module that has one. */
  ghost predicate Documented(q: seq<Module>, name: Name, at: nat, n: nat) {
    var k := DocumentedKind(q, name);
    && at < |q| && n < |q[at].syms| && KindOf(q[at].syms[n], name) == k
    && forall i :: 0 <= i < at ==> !Has(q[i], name, k)
  }

  /** The symbol at which the search along a chain ends. */
  function ChainHit(m: Module, n: nat, name: Name, weakOk: bool, fuel: nat): Option<nat>
    decreases fuel
  {
    if n == 0 || n >= |m.chain| || n >= |m.syms| then None
    else if !MatchSym(m, m.syms[n], name, weakOk).NotFound? then Some(n)
    else if fuel == 0 then None
    else ChainHit(m, m.chain[n], name, weakOk, fuel - 1)
  }

  function HashHit(m: Module, name: Name, weakOk: bool): Option<nat> {
    if |m.bucket| == 0 then None else ChainHit(m, Start(m, name), name, weakOk, |m.chain|)
  }

  /** The symbol of a module that answers: the first global one on the chain of the name, else the first weak one. */
  function Hit(m: Module, name: Name): Option<nat> {
    if HashHit(m, name, false).Some? then HashHit(m, name, false) else HashHit(m, name, true)
  }

  lemma {:induction false} ChainHitAnswers(m: Module, n: nat, name: Name, weakOk: bool, fuel: nat)
    requires WellFormed(m) && n < |m.chain|
    ensures var r, h := ChainSearch(m, n, name, weakOk, fuel), ChainHit(m, n, name, weakOk, fuel);
      if r.NotFound? || r.Endless? then h.None?
      else h.Some? && h.value < |m.syms| && r == MatchSym(m, m.syms[h.value], name, weakOk)
    decreases fuel
  {
    if n > 0 && MatchSym(m, m.syms[n], name, weakOk).NotFound? && fuel > 0 {
      ChainHitAnswers(m, m.chain[n], name, weakOk, fuel - 1);
    }
  }

  lemma {:induction false} KindsAreDefined(m: Module, name: Name)
    requires WellFormed(m)
    ensures Defines(m, name, false) <==> Has(m, name, Global)
    ensures Defines(m, name, true) <==> Has(m, name, Global) || Has(m, name, DefinedWeak) || Has(m, name, UndefinedWeak)
  {
    ScanFinds(m, 0, name, false);
    ScanFinds(m, 0, name, true);
    forall n | 0 <= n < |m.syms|
      ensures MatchSym(m, m.syms[n], name, false).NotFound? <==> KindOf(m.syms[n], name) != Global
      ensures MatchSym(m, m.syms[n], name, true).NotFound? <==> KindOf(m.syms[n], name) == NoMatch
    {
      MatchByKind(m, m.syms[n], name);
    }
    if Defines(m, name, false) {
      var n :| 0 <= n < |m.syms| && !MatchSym(m, m.syms[n], name, false).NotFound?;
      assert KindOf(m.syms[n], name) == Global;
    }
    if Defines(m, name, true) {
      var n :| 0 <= n < |m.syms| && !MatchSym(m, m.syms[n], name, true).NotFound?;
      var k := KindOf(m.syms[n], name);
      assert Has(m, name, k);
    }
  }

  /** What the answering symbol of a module is. */
  lemma {:induction false} HitKind(m: Module, name: Name)
    requires WellFormed(m) && Defines(m, name, true)
    ensures var h := Hit(m, name);
      && h.Some? && h.value < |m.syms| && InModule(m, name) == MatchSym(m, m.syms[h.value], name, true)
      && KindOf(m.syms[h.value], name) != NoMatch
      && (KindOf(m.syms[h.value], name) == Global <==> Has(m, name, Global))
  {
    HashFindsIff(m, name, false);
    HashFindsIff(m, name, true);
    ChainHitAnswers(m, Start(m, name), name, false, |m.chain|);
    ChainHitAnswers(m, Start(m, name), name, true, |m.chain|);
    KindsAreDefined(m, name);
    MatchByKind(m, m.syms[Hit(m, name).value], name);
  }

  /** No module before the first with a match has a symbol of any kind. */
  lemma {:induction false} NoneBefore(q: seq<Module>, name: Name, first: nat, k: Kind)
    requires AllWellFormed(q) && IsFirst(q, name, 0, first) && k != NoMatch
    ensures forall i :: 0 <= i < first ==> !Has(q[i], name, k)
  {
    forall i | 0 <= i < first
      ensures !Has(q[i], name, k)
    {
      KindsAreDefined(q[i], name);
    }
  }

  /** With `first` the first module that has a match, and `n` the symbol on its chain that answers, the code resolves to
      that symbol. It is a documented one exactly when `first` has a global symbol, or no module has and either `n`
      has a definition or no weak symbol anywhere has. */
  lemma {:induction false} DocumentedOrderIff(q: seq<Module>, name: Name, first: nat)
    requires AllWellFormed(q) && IsFirst(q, name, 0, first)
    ensures var m, h := q[first], Hit(q[first], name);
      && h.Some? && h.value < |m.syms|
      && InQueue(q, name, 0) == Answered(MatchSym(m, m.syms[h.value], name, true), first)
      && (Documented(q, name, first, h.value) <==>
           Has(m, name, Global)
           || (!Anywhere(q, name, Global)
               && (KindOf(m.syms[h.value], name) == DefinedWeak || !Anywhere(q, name, DefinedWeak))))
  {
    QueueAnswer(q, name, 0, first);
    HitKind(q[first], name);
    NoneBefore(q, name, first, DocumentedKind(q, name));
    var n := Hit(q[first], name).value;
    assert Has(q[first], name, KindOf(q[first].syms[n], name));
    assert forall k :: Has(q[first], name, k) ==> Anywhere(q, name, k);
  }

  /** `r` is the value of `s` as a symbol of `m` called `name`: zero without a definition; from the load address for a
      symbol without a type, an object or a function in the module; plain for thread-local data; else an error. */
  predicate ValueByFields(m: Module, s: Sym, name: Name, r: Lookup) {
    && s.name == name && (s.bind == 1 || s.bind == 2) && (s.bind == 1 ==> s.shndx != 0)
    && (s.shndx == 0 ==> r == Found(0))
    && (s.shndx != 0 && s.typ <= 2 && s.value <= m.size ==> r == Found(m.loadAddr + s.value))
    && (s.shndx != 0 && s.typ == 6 ==> r == Found(s.value))
    && (r == Err <==> s.shndx != 0 && s.typ != 6 && (s.typ > 2 || s.value > m.size))
  }

  /** `at` is the module that is to answer: the preferred one if it has a match, else the first that has. */
  ghost predicate Chosen(q: seq<Module>, name: Name, prefer: nat, at: nat) {
    if prefer < |q| && Defines(q[prefer], name, true) then at == prefer else IsFirst(q, name, 0, at)
  }

  /** The value that resolution gives, with and without a preferred module: that of the answering symbol of the module
      that is to answer, by the fields of the symbol and the load address of that module. */
  lemma {:induction false} ResolvedValue(q: seq<Module>, name: Name, prefer: nat, at: nat)
    requires AllWellFormed(q) && Chosen(q, name, prefer, at)
    ensures var m, h, r := q[at], Hit(q[at], name), Resolve(q, name, prefer);
      && h.Some? && h.value < |m.syms| && r.Answered? && r.at == at && ValueByFields(m, m.syms[h.value], name, r.r)
  {
    if prefer < |q| {
      ModuleAnswer(q[prefer], name);
    }
    if !(prefer < |q| && Defines(q[prefer], name, true)) {
      QueueAnswer(q, name, 0, at);
    }
    HitKind(q[at], name);
    SymbolAnswer(q[at], q[at].syms[Hit(q[at], name).value], name, true);
  }

  lemma {:induction false} QueueAnswer(q: seq<Module>, name: Name, k: nat, first: nat)
    requires AllWellFormed(q) && IsFirst(q, name, k, first)
    ensures InQueue(q, name, k) == Answered(InModule(q[first], name), first)
    decreases first - k
  {
    ModuleAnswer(q[k], name);
    if k < first {
      QueueAnswer(q, name, k + 1, first);
    }
  }

  /** Where the weak symbols of `first` are all of one kind, that says when in terms of the symbol tables alone. */
  lemma {:induction false} DocumentedOrderOfKinds(q: seq<Module>, name: Name, first: nat)
    requires AllWellFormed(q) && IsFirst(q, name, 0, first)
    requires !(Has(q[first], name, DefinedWeak) && Has(q[first], name, UndefinedWeak))
    ensures Hit(q[first], name).Some?
    ensures Documented(q, name, first, Hit(q[first], name).value) <==>
      Has(q[first], name, Global)
      || (!Anywhere(q, name, Global) && (Has(q[first], name, DefinedWeak) || !Anywhere(q, name, DefinedWeak)))
  {
    DocumentedOrderIff(q, name, first);
    HitKind(q[first], name);
    var n := Hit(q[first], name).value;
    assert Has(q[first], name, KindOf(q[first].syms[n], name));
  }

  /** A module at `load` with one symbol, `f`, of the given binding and section, and one local symbol of a type that no
      lookup accepts. */
  function OneSymbol(load: nat, bind: nat, shndx: nat, value: nat): Module {
    Module(load, 100, 10, [1], [0, 2, 0],
           [Sym(0, [], 0, 0, 0, 0), Sym(1, [102], bind, STT_FUNC, shndx, value),
            Sym(3, [103], STB_LOCAL, STT_SECTION, 1, 5000)])
  }

  /** What `f` of that module is. */
  function KindOfOne(bind: nat, shndx: nat): Kind { KindOf(Sym(1, [102], bind, STT_FUNC, shndx, 0), [102]) }

  lemma {:induction false} OneSymbolOk(load: nat, bind: nat, shndx: nat, value: nat)
    ensures WellFormed(OneSymbol(load, bind, shndx, value))
  {
    var m := OneSymbol(load, bind, shndx, value);
    assert Nth(m, 1, 0) == 1 && Nth(m, 1, 1) == Nth(m, 2, 0) == 2 && Nth(m, 1, 2) == Nth(m, 2, 1) == Nth(m, 0, 0) == 0;
    assert OnChain(m, 1, 0) && OnChain(m, 1, 1) && OnChain(m, 1, 2);
    assert HashedRight(m, 1) && HashedRight(m, 2);
  }

  lemma {:induction false} OneSymbolHas(load: nat, bind: nat, shndx: nat, value: nat, k: Kind)
    requires k != NoMatch
    ensures Has(OneSymbol(load, bind, shndx, value), [102], k) <==> k == KindOfOne(bind, shndx)
    ensures k == KindOfOne(bind, shndx) ==> Defines(OneSymbol(load, bind, shndx, value), [102], true)
  {
    var m := OneSymbol(load, bind, shndx, value);
    assert m.syms[2].name[0] == 103;
    assert KindOf(m.syms[0], [102]) == NoMatch && KindOf(m.syms[2], [102]) == NoMatch;
    assert KindOf(m.syms[1], [102]) == KindOfOne(bind, shndx);
    OneSymbolOk(load, bind, shndx, value);
    KindsAreDefined(m, [102]);
  }

  /** A weak symbol in the first of two modules hides a global one in the second. */
  lemma {:induction false} WeakShadowsGlobalExample()
    ensures var q := [OneSymbol(0x4000_0000, STB_WEAK, 1, 10), OneSymbol(0x5000_0000, STB_GLOBAL, 1, 20)];
      && AllWellFormed(q) && InQueue(q, [102], 0) == Answered(Found(0x4000_000a), 0)
      && forall n: nat :: !Documented(q, [102], 0, n)
  {
    var q := [OneSymbol(0x4000_0000, STB_WEAK, 1, 10), OneSymbol(0x5000_0000, STB_GLOBAL, 1, 20)];
    TwoModules(0x4000_0000, 1, 10, 0x5000_0000, STB_GLOBAL, 1, 20);
    OneSymbolHas(0x4000_0000, STB_WEAK, 1, 10, Global);
    OneSymbolHas(0x5000_0000, STB_GLOBAL, 1, 20, Global);
    assert Has(q[1], [102], Global);
    assert Anywhere(q, [102], Global);
  }

  /** A weak symbol without a definition in the first of two modules, as of a binary that refers to an optional symbol,
      resolves to zero although the second module defines it. */
  lemma {:induction false} UndefinedShadowsWeakExample()
    ensures var q := [OneSymbol(0x4000_0000, STB_WEAK, SHN_UNDEF, 0), OneSymbol(0x5000_0000, STB_WEAK, 1, 20)];
      && AllWellFormed(q) && InQueue(q, [102], 0) == Answered(Found(0), 0)
      && forall n: nat :: !Documented(q, [102], 0, n)
  {
    var q := [OneSymbol(0x4000_0000, STB_WEAK, SHN_UNDEF, 0), OneSymbol(0x5000_0000, STB_WEAK, 1, 20)];
    TwoModules(0x4000_0000, SHN_UNDEF, 0, 0x5000_0000, STB_WEAK, 1, 20);
    OneSymbolHas(0x4000_0000, STB_WEAK, SHN_UNDEF, 0, Global);
    OneSymbolHas(0x5000_0000, STB_WEAK, 1, 20, Global);
    OneSymbolHas(0x4000_0000, STB_WEAK, SHN_UNDEF, 0, DefinedWeak);
    OneSymbolHas(0x5000_0000, STB_WEAK, 1, 20, DefinedWeak);
    assert Has(q[1], [102], DefinedWeak);
    assert Anywhere(q, [102], DefinedWeak);
    assert !Anywhere(q, [102], Global);
  }

  /** The weak symbol of the first of two modules answers. */
  lemma {:induction false} TwoModules(load: nat, shndx: nat, value: nat, load': nat, bind': nat, shndx': nat,
                                      value': nat)
    requires value <= 100 && shndx != SHN_XINDEX
    ensures var q := [OneSymbol(load, STB_WEAK, shndx, value), OneSymbol(load', bind', shndx', value')];
      && AllWellFormed(q)
      && InQueue(q, [102], 0) == Answered(Found(if shndx == SHN_UNDEF then 0 else load + value), 0)
  {
    var q := [OneSymbol(load, STB_WEAK, shndx, value), OneSymbol(load', bind', shndx', value')];
    OneSymbolOk(load, STB_WEAK, shndx, value);
    OneSymbolOk(load', bind', shndx', value');
    OneSymbolHas(load, STB_WEAK, shndx, value, KindOfOne(STB_WEAK, shndx));
    assert IsFirst(q, [102], 0, 0);
    ResolvedValue(q, [102], |q|, 0);
    var m, n := q[0], Hit(q[0], [102]).value;
    assert m.syms[2].name[0] == 103;
    assert n == 1;
  }
}
