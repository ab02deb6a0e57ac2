/** Merging and page alignment of the load segments of an ELF file. */
module Segments {
  import opened Bitmap
  import opened Wrappers

  const PAGE: nat := 4096
  const SIZE_MODULUS: nat := 0x1_0000_0000_0000_0000
  const PF_W: nat := 2

  datatype Segment = Segment(offset: nat, vaddr: nat, filesz: nat, memsz: nat, flags: nat, align: nat,
                             remappedWriteable: bool)
  {
    function End(): nat { vaddr + memsz }
    function FileEnd(): nat { vaddr + filesz }
    /** Distance between an address of the segment and the file offset it is loaded from. */
    function Delta(): int { vaddr - offset }
  }

  function RoundDown(x: nat): (r: nat)
    ensures r <= x < r + PAGE && r % PAGE == 0 && x - r == x % PAGE
  {
    x / PAGE * PAGE
  }

  /** What the first loop of adjust_segments asserts. */
  ghost predicate Sane(o: seq<Segment>) {
    && (forall i :: 0 <= i < |o| ==> SaneOne(o[i]) && o[i].align == o[0].align)
    && (forall i {:trigger SaneAt(o, i)} :: 0 < i < |o| ==> SaneAt(o, i))
  }

  predicate SaneOne(s: Segment) {
    && s.align >= PAGE && s.End() < SIZE_MODULUS && s.filesz <= s.memsz
    && s.offset % PAGE == s.vaddr % PAGE
  }

  predicate SanePair(p: Segment, s: Segment) {
    s.vaddr >= p.End() && s.offset >= OffsetEnd(p)
  }

  /** Where the file part of `p` ends in the file; this sum is not checked, so it wraps. */
  function OffsetEnd(p: Segment): nat { (p.offset + p.filesz) % SIZE_MODULUS }

  /** SanePair for segment `i` and the one before it. */
  predicate SaneAt(o: seq<Segment>, i: nat)
    requires 0 < i < |o|
  {
    SanePair(o[i - 1], o[i])
  }

  // ----- the second loop

  /** Segment `s` begins in the last page of the one before it. */
  predicate Shares(p: Segment, s: Segment) {
    RoundDown(s.vaddr) < p.End()
  }

  function Merge(p: Segment, s: Segment): Segment
    requires p.vaddr <= s.vaddr
  {
    p.(filesz := s.FileEnd() - p.vaddr, memsz := s.End() - p.vaddr, flags := Or(p.flags, s.flags))
  }

  function Align(p: Segment, s: Segment, mask: nat): Segment {
    var pad := s.vaddr - RoundDown(s.vaddr);
    s.(filesz := s.filesz + pad, memsz := s.memsz + pad, vaddr := RoundDown(s.vaddr), offset := RoundDown(s.offset),
       remappedWriteable := s.remappedWriteable || Remapped(p, s, mask))
  }

  /** The first file page of `s` is already mapped for the segment before it. */
  predicate Remapped(p: Segment, s: Segment, mask: nat) {
    And(s.offset, mask) != 0 && RoundDown(s.offset) < OffsetEnd(p)
  }

  /** One iteration: `s` against the last of the segments done so far; `None` for a failed assertion. */
  function AdjustStep(done: seq<Segment>, s: Segment, mask: nat): (r: Option<seq<Segment>>)
    requires |done| > 0 && done[|done| - 1].vaddr <= s.vaddr
  {
    var p := done[|done| - 1];
    if Shares(p, s) then
      if And(s.vaddr, mask) != And(s.offset, mask) || p.memsz != p.filesz then None
      else Some(done[..|done| - 1] + [Merge(p, s)])
    else if Remapped(p, s, mask) && And(s.flags, PF_W) == 0 then None
    else Some(done + [Align(p, s, mask)])
  }

  /** The list once the first `n` segments of `o` have been handled. */
  function Adjusted(o: seq<Segment>, n: nat): (r: Option<seq<Segment>>)
    requires Sane(o) && 0 < n <= |o|
    ensures r.Some? ==> 0 < |r.value| <= n && LastMatches(r.value[|r.value| - 1], o[n - 1])
  {
    if n == 1 then Some([o[0]])
    else
      match Adjusted(o, n - 1)
      case None => None
      case Some(done) =>
        assert SaneAt(o, n - 1) && SaneOne(o[n - 1]);
        AdjustStep(done, o[n - 1], o[0].align - 1)
  }

  /** The last result segment reaches exactly as far as the last original one, in memory and in the file. */
  predicate LastMatches(r: Segment, o: Segment) {
    r.vaddr <= o.vaddr && r.End() == o.End() && r.FileEnd() == o.FileEnd()
  }

  // ----- where an original segment ends up

  /** The original segment that opens the chain of page-sharing segments which `i` is in. */
  function ChainStart(o: seq<Segment>, i: nat): (k: nat)
    requires i < |o|
    ensures k <= i
  {
    if i == 0 || !Shares(o[i - 1], o[i]) then i else ChainStart(o, i - 1)
  }

  /** The index of the result segment for the original segment `i`: the number of chains before its own. */
  function Owner(o: seq<Segment>, i: nat): (k: nat)
    requires i < |o|
    ensures k <= i
  {
    if i == 0 then 0 else Owner(o, i - 1) + (if Shares(o[i - 1], o[i]) then 0 else 1)
  }

  /** `r` holds all of `o`: its memory, its file part and its permissions. */
  predicate Covers(r: Segment, o: Segment) {
    r.vaddr <= o.vaddr && o.End() <= r.End() && o.FileEnd() <= r.FileEnd() && And(r.flags, o.flags) == o.flags
  }

  /** Neighbouring result segments are in order and do not share a page. */
  predicate PageApart(p: Segment, s: Segment) {
    s.vaddr % PAGE == 0 && p.End() <= s.vaddr
  }

  predicate ApartAt(r: seq<Segment>, k: nat)
    requires 0 < k < |r|
  {
    PageApart(r[k - 1], r[k])
  }

  /** What holds of the list `r` once the first `n` segments of `o` are done. */
  ghost predicate AdjustInv(o: seq<Segment>, n: nat, r: seq<Segment>)
    requires 0 < n <= |o|
  {
    && |r| > 0 && Owner(o, n - 1) == |r| - 1 && LastMatches(r[|r| - 1], o[n - 1])
    && (forall k {:trigger ApartAt(r, k)} :: 0 < k < |r| ==> ApartAt(r, k))
    && (forall i {:trigger Owner(o, i)} :: 0 <= i < n ==> Placed(o, i, r))
  }

  /** Original segment `i` is covered by its owner, which takes its file offset from the chain's start. */
  ghost predicate Placed(o: seq<Segment>, i: nat, r: seq<Segment>)
    requires i < |o|
  {
    && Owner(o, i) < |r| && Covers(r[Owner(o, i)], o[i])
    && r[Owner(o, i)].Delta() == o[ChainStart(o, i)].Delta()
  }

  lemma {:induction false} OwnerGrows(o: seq<Segment>, i: nat, j: nat)
    requires i <= j < |o|
    ensures Owner(o, i) <= Owner(o, j)
  {
    if i < j {
      OwnerGrows(o, i, j - 1);
    }
  }

  lemma {:induction false} OrCovers(x: nat, y: nat)
    ensures And(Or(x, y), x) == x && And(Or(x, y), y) == y
    decreases x + y
  {
    if x == 0 {
      AndSelf(y);
    } else if y == 0 {
      AndSelf(x);
    } else {
      OrCovers(x / 2, y / 2);
    }
  }

  lemma {:induction false} OrKeepsCover(x: nat, y: nat, z: nat)
    requires And(x, z) == z
    ensures And(Or(x, y), z) == z
    decreases x + y
  {
    if x != 0 && y != 0 && z != 0 {
      assert And(x / 2, z / 2) == z / 2;
      OrKeepsCover(x / 2, y / 2, z / 2);
    } else if x == 0 {
      assert z == 0;
    }
  }

  lemma {:induction false} MergePlaced(o: seq<Segment>, n: nat, r: seq<Segment>, r': seq<Segment>, i: nat)
    requires Sane(o) && i < n < |o| && |r| > 0 && Owner(o, n - 1) == |r| - 1
    requires Placed(o, i, r) && SanePair(o[n - 1], o[n]) && LastMatches(r[|r| - 1], o[n - 1])
    requires r[|r| - 1].memsz == r[|r| - 1].filesz
    requires r' == r[..|r| - 1] + [Merge(r[|r| - 1], o[n])]
    ensures Placed(o, i, r')
  {
    OwnerGrows(o, i, n - 1);
    if Owner(o, i) == |r| - 1 {
      OrKeepsCover(r[|r| - 1].flags, o[n].flags, o[i].flags);
    } else {
      assert r'[Owner(o, i)] == r[Owner(o, i)];
    }
  }

  lemma {:induction false} MergeKeeps(o: seq<Segment>, n: nat, r: seq<Segment>)
    requires Sane(o) && 0 < n < |o| && AdjustInv(o, n, r)
    requires Shares(r[|r| - 1], o[n]) && r[|r| - 1].memsz == r[|r| - 1].filesz
    requires SanePair(o[n - 1], o[n]) && SaneOne(o[n])
    ensures AdjustInv(o, n + 1, r[..|r| - 1] + [Merge(r[|r| - 1], o[n])])
  {
    var last := |r| - 1;
    var p, s := r[last], o[n];
    var r' := r[..last] + [Merge(p, s)];
    OrCovers(p.flags, s.flags);
    assert Placed(o, n - 1, r);
    assert Placed(o, n, r');
    forall i | 0 <= i < n
      ensures Placed(o, i, r')
    {
      assert Placed(o, i, r);
      MergePlaced(o, n, r, r', i);
    }
    forall k | 0 < k < |r'|
      ensures ApartAt(r', k)
    {
      assert ApartAt(r, k);
    }
  }

  lemma {:induction false} AlignKeeps(o: seq<Segment>, n: nat, r: seq<Segment>, mask: nat)
    requires Sane(o) && 0 < n < |o| && AdjustInv(o, n, r)
    requires !Shares(r[|r| - 1], o[n])
    requires SanePair(o[n - 1], o[n]) && SaneOne(o[n])
    ensures AdjustInv(o, n + 1, r + [Align(r[|r| - 1], o[n], mask)])
  {
    var p, s := r[|r| - 1], o[n];
    var r' := r + [Align(p, s, mask)];
    AndSelf(s.flags);
    forall i | 0 <= i <= n
      ensures Placed(o, i, r')
    {
      if i < n {
        assert Placed(o, i, r);
        OwnerGrows(o, i, n - 1);
      }
    }
    forall k | 0 < k < |r'|
      ensures ApartAt(r', k)
    {
      if k < |r| {
        assert ApartAt(r, k);
      }
    }
  }

  lemma {:induction false} StepKeeps(o: seq<Segment>, n: nat, r: seq<Segment>, mask: nat, r': seq<Segment>)
    requires Sane(o) && 0 < n < |o| && AdjustInv(o, n, r) && r[|r| - 1].vaddr <= o[n].vaddr
    requires AdjustStep(r, o[n], mask) == Some(r')
    ensures AdjustInv(o, n + 1, r')
  {
    assert SaneAt(o, n) && SaneOne(o[n]);
    if Shares(r[|r| - 1], o[n]) {
      MergeKeeps(o, n, r);
    } else {
      AlignKeeps(o, n, r, mask);
    }
  }

  lemma {:induction false} FirstInv(o: seq<Segment>)
    requires |o| > 0
    ensures AdjustInv(o, 1, [o[0]])
  {
    AndSelf(o[0].flags);
    assert Placed(o, 0, [o[0]]);
  }

  lemma {:induction false} AdjustedInv(o: seq<Segment>, n: nat) returns (r: seq<Segment>)
    requires Sane(o) && 0 < n <= |o| && Adjusted(o, n).Some?
    ensures Adjusted(o, n) == Some(r) && AdjustInv(o, n, r)
  {
    if n == 1 {
      FirstInv(o);
      r := [o[0]];
    } else {
      var before := AdjustedInv(o, n - 1);
      r := NextInv(o, n, before);
    }
  }

  lemma {:induction false} NextInv(o: seq<Segment>, n: nat, before: seq<Segment>) returns (r: seq<Segment>)
    requires Sane(o) && 1 < n <= |o| && Adjusted(o, n).Some?
    requires Adjusted(o, n - 1) == Some(before) && AdjustInv(o, n - 1, before)
    ensures Adjusted(o, n) == Some(r) && AdjustInv(o, n, r)
  {
    assert SaneAt(o, n - 1);
    r := Adjusted(o, n).value;
    StepKeeps(o, n - 1, before, o[0].align - 1, r);
  }

  // ----- what each result segment is

  /** Segment `i` is the last of its chain among the first `n`. */
  predicate EndsChain(o: seq<Segment>, i: nat, n: nat)
    requires i < n <= |o|
  {
    i == n - 1 || !Shares(o[i], o[i + 1])
  }

  /** Where, in the file, the chain of segment `i` ends after `i`: loaded from where its first segment is. */
  function ChainFileEnd(o: seq<Segment>, i: nat): nat
    requires i < |o|
  {
    (o[i].FileEnd() - o[ChainStart(o, i)].Delta()) % SIZE_MODULUS
  }

  /** Segment `a` has to be mapped again: its offset has bits of the alignment set, and its first file page is one of
      the chain before it. */
  predicate Again(o: seq<Segment>, a: nat)
    requires 0 < a < |o|
  {
    && o[0].align > 0 && And(o[a].offset, o[0].align - 1) != 0
    && RoundDown(o[a].offset) < ChainFileEnd(o, a - 1)
  }

  /** Some segment from `a` to `z` has permission bit `b`. */
  ghost predicate Permits(o: seq<Segment>, a: nat, z: nat, b: nat) {
    exists i: nat :: a <= i <= z && i < |o| && Bit(o[i].flags, b)
  }

  /** `r` stands for the segments from `a` to `z`: it begins at the page of the first and ends with the last, in
      memory and in the file, keeps the offset of the first, has exactly the permissions of any of them, and is marked
      exactly when the first has to be mapped again. */
  ghost predicate IsChain(o: seq<Segment>, a: nat, z: nat, r: Segment)
    requires a <= z < |o|
  {
    && r.vaddr == (if a == 0 then o[0].vaddr else RoundDown(o[a].vaddr))
    && r.End() == o[z].End() && r.FileEnd() == o[z].FileEnd() && r.Delta() == o[a].Delta() && r.align == o[a].align
    && (forall b: nat :: Bit(r.flags, b) <==> Permits(o, a, z, b))
    && r.remappedWriteable == (o[a].remappedWriteable || (a > 0 && Again(o, a)))
  }

  ghost predicate ChainAt(o: seq<Segment>, n: nat, r: seq<Segment>, i: nat)
    requires i < n <= |o|
  {
    EndsChain(o, i, n) ==> Owner(o, i) < |r| && IsChain(o, ChainStart(o, i), i, r[Owner(o, i)])
  }

  ghost predicate AllChains(o: seq<Segment>, n: nat, r: seq<Segment>)
    requires 0 < n <= |o|
  {
    && |r| == Owner(o, n - 1) + 1
    && forall i {:trigger ChainAt(o, n, r, i)} :: 0 <= i < n ==> ChainAt(o, n, r, i)
  }

  lemma {:induction false} MergeIsChain(o: seq<Segment>, a: nat, n: nat, p: Segment)
    requires Sane(o) && a < n < |o| && IsChain(o, a, n - 1, p) && SanePair(o[n - 1], o[n]) && p.vaddr <= o[n].vaddr
    ensures IsChain(o, a, n, Merge(p, o[n]))
  {
    var r := Merge(p, o[n]);
    forall b: nat
      ensures Bit(r.flags, b) <==> Permits(o, a, n, b)
    {
      OrBit(p.flags, o[n].flags, b);
      PermitsOneMore(o, a, n, b);
    }
  }

  lemma {:induction false} PermitsOneMore(o: seq<Segment>, a: nat, n: nat, b: nat)
    requires a < n < |o|
    ensures Permits(o, a, n, b) <==> Permits(o, a, n - 1, b) || Bit(o[n].flags, b)
  {
    if Permits(o, a, n, b) {
      var i: nat :| a <= i <= n && i < |o| && Bit(o[i].flags, b);
    }
    if Permits(o, a, n - 1, b) {
      var i: nat :| a <= i <= n - 1 && i < |o| && Bit(o[i].flags, b);
      assert a <= i <= n;
    }
  }

  lemma {:induction false} PermitsAlone(o: seq<Segment>, a: nat, b: nat)
    requires a < |o|
    ensures Permits(o, a, a, b) <==> Bit(o[a].flags, b)
  {
  }

  lemma {:induction false} AlignIsChain(o: seq<Segment>, n: nat, p: Segment)
    requires Sane(o) && 0 < n < |o| && IsChain(o, ChainStart(o, n - 1), n - 1, p) && SaneOne(o[n])
    ensures IsChain(o, n, n, Align(p, o[n], o[0].align - 1))
  {
    assert p.offset + p.filesz == o[n - 1].FileEnd() - o[ChainStart(o, n - 1)].Delta();
    forall b: nat
      ensures Bit(o[n].flags, b) <==> Permits(o, n, n, b)
    {
      PermitsAlone(o, n, b);
    }
  }

  /** Segments before the last keep their chains. */
  lemma {:induction false} EarlierChains(o: seq<Segment>, n: nat, r: seq<Segment>, r': seq<Segment>, i: nat)
    requires i < n < |o| && ChainAt(o, n, r, i) && |r| == Owner(o, n - 1) + 1 && |r'| >= |r|
    requires forall k :: 0 <= k < |r| - 1 ==> r'[k] == r[k]
    requires !Shares(o[n - 1], o[n]) ==> r'[|r| - 1] == r[|r| - 1]
    ensures ChainAt(o, n + 1, r', i)
  {
    if EndsChain(o, i, n + 1) {
      assert EndsChain(o, i, n);
      if i < n - 1 {
        OwnerGrows(o, i + 1, n - 1);
      }
    }
  }

  lemma {:induction false} StepKeepsChains(o: seq<Segment>, n: nat, r: seq<Segment>)
    requires Sane(o) && 0 < n < |o| && AllChains(o, n, r) && SaneOne(o[n]) && SanePair(o[n - 1], o[n])
    requires r[|r| - 1].vaddr <= o[n].vaddr && AdjustStep(r, o[n], o[0].align - 1).Some?
    ensures AllChains(o, n + 1, AdjustStep(r, o[n], o[0].align - 1).value)
  {
    var p, r', m := r[|r| - 1], AdjustStep(r, o[n], o[0].align - 1).value, n + 1;
    assert ChainAt(o, n, r, n - 1);
    if Shares(p, o[n]) {
      MergeIsChain(o, ChainStart(o, n - 1), n, p);
    } else {
      AlignIsChain(o, n, p);
    }
    assert ChainAt(o, m, r', n);
    forall i | 0 <= i < n
      ensures ChainAt(o, m, r', i)
    {
      assert ChainAt(o, n, r, i);
      EarlierChains(o, n, r, r', i);
    }
  }

  lemma {:induction false} AdjustedChains(o: seq<Segment>, n: nat)
    requires Sane(o) && 0 < n <= |o| && Adjusted(o, n).Some?
    ensures AllChains(o, n, Adjusted(o, n).value)
  {
    if n == 1 {
      forall b: nat
        ensures Bit(o[0].flags, b) <==> Permits(o, 0, 0, b)
      {
        PermitsAlone(o, 0, b);
      }
      assert ChainAt(o, 1, [o[0]], 0);
    } else {
      AdjustedChains(o, n - 1);
      assert SaneAt(o, n - 1) && SaneOne(o[n - 1]);
      StepKeepsChains(o, n - 1, Adjusted(o, n - 1).value);
    }
  }

  /** There is one result segment for each chain of page-sharing segments, and it is what that chain makes of it. */
  lemma {:induction false} ResultIsChains(o: seq<Segment>, i: nat) returns (s: Segment)
    requires Sane(o) && i < |o| && Adjusted(o, |o|).Some? && EndsChain(o, i, |o|)
    ensures var r := Adjusted(o, |o|).value;
      |r| == Owner(o, |o| - 1) + 1 && Owner(o, i) < |r| && s == r[Owner(o, i)]
    ensures IsChain(o, ChainStart(o, i), i, s)
  {
    AdjustedChains(o, |o|);
    assert ChainAt(o, |o|, Adjusted(o, |o|).value, i);
    s := Adjusted(o, |o|).value[Owner(o, i)];
  }

  /** Every result segment is that of some chain. */
  lemma {:induction false} ChainOf(o: seq<Segment>, k: nat, n: nat) returns (i: nat)
    requires 0 < n <= |o| && k <= Owner(o, n - 1)
    ensures i < n && EndsChain(o, i, n) && Owner(o, i) == k
  {
    if k == Owner(o, n - 1) {
      i := n - 1;
    } else {
      i := ChainOf(o, k, n - 1);
    }
  }

  /** The file end of a result segment, with the sum that wraps. */
  lemma {:induction false} FileEndOfChain(o: seq<Segment>, a: nat, z: nat, r: Segment)
    requires a <= z < |o| && a == ChainStart(o, z) && IsChain(o, a, z, r)
    ensures OffsetEnd(r) == ChainFileEnd(o, z)
  {
    assert r.offset + r.filesz == o[z].FileEnd() - o[a].Delta();
  }

  /** Which segments are marked as remapped, for the power-of-two alignments that the format prescribes: the loop does
      not mark the first; it marks another exactly when its first original segment has an offset that is not aligned,
      and the file page of that offset begins below the file end of the result segment before it. */
  lemma {:induction false} RemappedIff(o: seq<Segment>, a: nat, e: nat)
    requires Sane(o) && a < |o| && Adjusted(o, |o|).Some? && o[0].align == Pow2(e)
    requires a == ChainStart(o, a)
    ensures var r, k := Adjusted(o, |o|).value, Owner(o, a);
      && k < |r| && (k == 0 <==> a == 0)
      && (r[k].remappedWriteable <==>
           || o[a].remappedWriteable
           || (k > 0 && o[a].offset % o[0].align != 0
               && o[a].offset / 4096 * 4096 < (r[k - 1].offset + r[k - 1].filesz) % SIZE_MODULUS))
  {
    MarkedIff(o, a);
    if a > 0 {
      AgainIff(o, a, e);
      PreviousFileEnd(o, a);
    }
  }

  /** The same for any alignment: the test is on the bits of the alignment less one. */
  lemma {:induction false} MarkedIff(o: seq<Segment>, a: nat)
    requires Sane(o) && a < |o| && Adjusted(o, |o|).Some? && a == ChainStart(o, a)
    ensures var r, k := Adjusted(o, |o|).value, Owner(o, a);
      && k < |r| && (k == 0 <==> a == 0)
      && r[k].remappedWriteable == (o[a].remappedWriteable || (a > 0 && Again(o, a)))
  {
    OwnerGrows(o, a, |o| - 1);
    var z := ChainOf(o, Owner(o, a), |o|);
    SameChain(o, a, z);
    var s := ResultIsChains(o, z);
  }

  lemma {:induction false} PreviousFileEnd(o: seq<Segment>, a: nat)
    requires Sane(o) && 0 < a < |o| && Adjusted(o, |o|).Some? && a == ChainStart(o, a)
    ensures var r, k := Adjusted(o, |o|).value, Owner(o, a);
      0 < k <= |r| && OffsetEnd(r[k - 1]) == ChainFileEnd(o, a - 1)
  {
    var s := ResultIsChains(o, a - 1);
    FileEndOfChain(o, ChainStart(o, a - 1), a - 1, s);
  }

  lemma {:induction false} AgainIff(o: seq<Segment>, a: nat, e: nat)
    requires 0 < a < |o| && o[0].align == Pow2(e)
    ensures Again(o, a) <==>
      o[a].offset % o[0].align != 0 && o[a].offset / 4096 * 4096 < ChainFileEnd(o, a - 1)
  {
    AndMask(o[a].offset, e);
  }

  /** Segments with the same owner are of one chain. */
  lemma {:induction false} SameChain(o: seq<Segment>, i: nat, j: nat)
    requires i < |o| && j < |o| && Owner(o, i) == Owner(o, j)
    ensures ChainStart(o, i) == ChainStart(o, j)
    decreases i + j
  {
    if i < j {
      OwnerGrows(o, i, j - 1);
      SameChain(o, i, j - 1);
    } else if j < i {
      OwnerGrows(o, j, i - 1);
      SameChain(o, i - 1, j);
    }
  }

  /** What the merging loop asserts of segment `i`, in terms of the originals: one that shares a page agrees with its
      offset in the bits of the alignment, and the one before it has no zero-filled part; one that is mapped again is
      writable. */
  predicate Passes(o: seq<Segment>, i: nat)
    requires 0 < i < |o|
  {
    o[0].align > 0 &&
    if Shares(o[i - 1], o[i]) then
      And(o[i].vaddr, o[0].align - 1) == And(o[i].offset, o[0].align - 1) && o[i - 1].memsz == o[i - 1].filesz
    else Again(o, i) ==> Bit(o[i].flags, 1)
  }

  lemma {:induction false} WritableBit(flags: nat)
    ensures And(flags, PF_W) != 0 <==> Bit(flags, 1)
  {
    assert And(flags, PF_W) == (if flags == 0 then 0 else 2 * And(flags / 2, 1));
    assert flags != 0 ==> And(flags / 2, 1) == (if flags / 2 % 2 == 1 then 1 else 0);
  }

  lemma {:induction false} StepPasses(o: seq<Segment>, n: nat, r: seq<Segment>)
    requires Sane(o) && 0 < n < |o| && AllChains(o, n, r) && o[0].align > 0
    requires r[|r| - 1].vaddr <= o[n].vaddr
    ensures AdjustStep(r, o[n], o[0].align - 1).Some? <==> Passes(o, n)
  {
    var p, a := r[|r| - 1], ChainStart(o, n - 1);
    assert ChainAt(o, n, r, n - 1);
    FileEndOfChain(o, a, n - 1, p);
    WritableBit(o[n].flags);
    if Shares(p, o[n]) && n - 1 > 0 {
      assert SaneOne(o[n - 1]);
    }
  }

  lemma {:induction false} AdjustsNext(o: seq<Segment>, n: nat)
    requires Sane(o) && 1 < n <= |o| && Adjusted(o, n - 1).Some?
    ensures Adjusted(o, n).Some? <==> Passes(o, n - 1)
  {
    assert SaneOne(o[0]) && SaneAt(o, n - 1) && SaneOne(o[n - 1]);
    AdjustedChains(o, n - 1);
    StepPasses(o, n - 1, Adjusted(o, n - 1).value);
  }

  /** The first `n` segments pass. */
  predicate AllPass(o: seq<Segment>, n: nat)
    requires n <= |o|
  {
    n > 1 ==> AllPass(o, n - 1) && Passes(o, n - 1)
  }

  lemma {:induction false} AllPassAt(o: seq<Segment>, n: nat)
    requires n <= |o|
    ensures AllPass(o, n) <==> forall i {:trigger Passes(o, i)} :: 0 < i < n ==> Passes(o, i)
  {
    if n > 1 {
      AllPassAt(o, n - 1);
    }
  }

  /** The merging loop comes to its end exactly when every segment passes. */
  lemma {:induction false} AdjustsIff(o: seq<Segment>, n: nat)
    requires Sane(o) && 0 < n <= |o|
    ensures Adjusted(o, n).Some? <==> AllPass(o, n)
  {
    if n > 1 {
      AdjustsIff(o, n - 1);
      if Adjusted(o, n - 1).Some? {
        AdjustsNext(o, n);
      }
    }
  }

  // ----- what adjust_segments guarantees

  lemma {:induction false} Ordered(r: seq<Segment>, i: nat, j: nat)
    requires i < j < |r| && forall k {:trigger ApartAt(r, k)} :: 0 < k < |r| ==> ApartAt(r, k)
    ensures r[i].End() <= RoundDown(r[j].vaddr) == r[j].vaddr
    decreases j
  {
    assert ApartAt(r, j);
    if i < j - 1 {
      Ordered(r, i, j - 1);
    }
  }

  /** The result is sorted, and no page holds bytes of two segments. */
  lemma {:induction false} ResultPageDisjoint(o: seq<Segment>, i: nat, j: nat, a: nat, b: nat)
    requires Sane(o) && |o| > 0 && Adjusted(o, |o|).Some? && i < j < |Adjusted(o, |o|).value|
    requires var r := Adjusted(o, |o|).value; r[i].vaddr <= a < r[i].End() && r[j].vaddr <= b < r[j].End()
    ensures RoundDown(a) < RoundDown(b)
  {
    var r := AdjustedInv(o, |o|);
    Ordered(r, i, j);
    PageFloor(r[j].vaddr, b);
  }

  lemma {:induction false} PageFloor(v: nat, b: nat)
    requires v % PAGE == 0 && v <= b
    ensures v <= RoundDown(b)
  {
  }

  /** Each byte of each original segment lies in exactly one result segment, with its permissions. */
  lemma {:induction false} BytesInOneSegment(o: seq<Segment>, i: nat, a: nat, k: nat)
    requires Sane(o) && |o| > 0 && Adjusted(o, |o|).Some?
    requires i < |o| && o[i].vaddr <= a < o[i].End() && k < |Adjusted(o, |o|).value|
    ensures var r := Adjusted(o, |o|).value;
      && Owner(o, i) < |r|
      && (r[k].vaddr <= a < r[k].End() <==> k == Owner(o, i))
      && (k == Owner(o, i) ==> And(r[k].flags, o[i].flags) == o[i].flags)
      && (k == Owner(o, i) && a < o[i].FileEnd() ==> a < r[k].FileEnd())
  {
    var r := AdjustedInv(o, |o|);
    var w := Owner(o, i);
    assert Placed(o, i, r);
    if k < w {
      Ordered(r, k, w);
    } else if w < k {
      Ordered(r, w, k);
    }
  }

  /** The file offset a result segment gives to address `a`. */
  function OffsetOf(s: Segment, a: nat): int { a - s.Delta() }

  /** Every file byte keeps its offset. */
  ghost predicate OffsetsKept(o: seq<Segment>)
    requires Sane(o) && |o| > 0 && Adjusted(o, |o|).Some?
  {
    var r := Adjusted(o, |o|).value;
    forall i, a {:trigger OffsetOf(o[i], a)} :: 0 <= i < |o| && o[i].vaddr <= a < o[i].FileEnd() ==>
      Owner(o, i) < |r| && OffsetOf(r[Owner(o, i)], a) == OffsetOf(o[i], a)
  }

  /** Segments with file bytes load from where the start of their page-sharing chain does. */
  ghost predicate ChainsLineUp(o: seq<Segment>) {
    forall i {:trigger ChainStart(o, i)} :: 0 <= i < |o| && o[i].filesz > 0 ==>
      o[ChainStart(o, i)].Delta() == o[i].Delta()
  }

  /** Offsets are kept exactly when the chains line up; the assertions alone do not ensure it. */
  lemma {:induction false} OffsetsKeptIff(o: seq<Segment>)
    requires Sane(o) && |o| > 0 && Adjusted(o, |o|).Some?
    ensures OffsetsKept(o) <==> ChainsLineUp(o)
  {
    var r := AdjustedInv(o, |o|);
    if OffsetsKept(o) {
      forall i | 0 <= i < |o| && o[i].filesz > 0
        ensures o[ChainStart(o, i)].Delta() == o[i].Delta()
      {
        assert Placed(o, i, r);
        assert OffsetOf(r[Owner(o, i)], o[i].vaddr) == OffsetOf(o[i], o[i].vaddr);
      }
    }
    if ChainsLineUp(o) {
      forall i, a | 0 <= i < |o| && o[i].vaddr <= a < o[i].FileEnd()
        ensures Owner(o, i) < |r| && OffsetOf(r[Owner(o, i)], a) == OffsetOf(o[i], a)
      {
        assert Placed(o, i, r);
      }
    }
  }

  predicate LinesUpAt(o: seq<Segment>, i: nat)
    requires 0 < i < |o|
  {
    Shares(o[i - 1], o[i]) ==> o[i - 1].Delta() == o[i].Delta()
  }

  /** Page-sharing neighbours with equal address-to-offset distance are enough. */
  lemma {:induction false} NeighboursLineUp(o: seq<Segment>)
    requires forall i {:trigger LinesUpAt(o, i)} :: 0 < i < |o| ==> LinesUpAt(o, i)
    ensures ChainsLineUp(o)
  {
    forall i | 0 <= i < |o|
      ensures o[ChainStart(o, i)].Delta() == o[i].Delta()
    {
      ChainDelta(o, i);
    }
  }

  lemma {:induction false} ChainDelta(o: seq<Segment>, i: nat)
    requires i < |o|
    requires forall i {:trigger LinesUpAt(o, i)} :: 0 < i < |o| ==> LinesUpAt(o, i)
    ensures o[ChainStart(o, i)].Delta() == o[i].Delta()
  {
    if i > 0 && Shares(o[i - 1], o[i]) {
      ChainDelta(o, i - 1);
      assert LinesUpAt(o, i);
    }
  }

  /** Two segments that pass every assertion, share a page, and load the second from the wrong offset. */
  lemma {:induction false} MisalignedChainExample()
    ensures var o := [Segment(0, 0, 10, 10, 5, PAGE, false), Segment(PAGE + 20, 20, 10, 10, 6, PAGE, false)];
      Sane(o) && Adjusted(o, 2).Some? && !ChainsLineUp(o)
  {
    var o := [Segment(0, 0, 10, 10, 5, PAGE, false), Segment(PAGE + 20, 20, 10, 10, 6, PAGE, false)];
    assert Adjusted(o, 1) == Some([o[0]]);
    MaskIgnoresHigh(20, 12);
    assert Pow2(12) == PAGE by { assert Pow2(6) == 64; }
    assert ChainStart(o, 1) == ChainStart(o, 0) == 0;
  }

  /** A mask of low bits does not see a multiple of the next power of two. */
  lemma {:induction false} MaskIgnoresHigh(x: nat, n: nat)
    ensures And(x + Pow2(n), Pow2(n) - 1) == And(x, Pow2(n) - 1)
    decreases n
  {
    if n > 0 {
      var m := Pow2(n - 1);
      assert Pow2(n) == 2 * m && (Pow2(n) - 1) / 2 == m - 1 && (x + Pow2(n)) / 2 == x / 2 + m;
      MaskIgnoresHigh(x / 2, n - 1);
    }
  }

  // ----- the segment list of a loaded file

  class SegmentList {
    var segs: seq<Segment>

    constructor ()
      ensures segs == []
    {
      segs := [];
    }

    /** Appends a load segment; a memory size below the file size is a format error. */
    method AddSegment(offset: nat, vaddr: nat, filesz: nat, memsz: nat, flags: nat, align: nat) returns (ok: bool)
      modifies this
      ensures ok <==> memsz >= filesz
      ensures segs == if ok then old(segs) + [Segment(offset, vaddr, filesz, memsz, flags, align, false)] else old(segs)
    {
      if memsz < filesz {
        return false;
      }
      segs := segs + [Segment(offset, vaddr, filesz, memsz, flags, align, false)];
      return true;
    }

    /** The sanity loop. */
    method CheckSanity() returns (ok: bool)
      ensures ok <==> Sane(segs)
    {
      var align := 0;
      for i := 0 to |segs|
        invariant forall k :: 0 <= k < i ==> SaneOne(segs[k]) && segs[k].align == segs[0].align
        invariant forall k {:trigger SaneAt(segs, k)} :: 0 < k < i ==> SaneAt(segs, k)
        invariant align == if i == 0 then 0 else segs[0].align
      {
        var s := segs[i];
        if !SaneOne(s) {
          return false;
        }
        if i > 0 && !SaneAt(segs, i) {
          return false;
        }
        if align == 0 {
          align := s.align;
        }
        if align != s.align {
          return false;
        }
      }
      return true;
    }

    /** One turn of the merging loop: segment `i` is merged into the one before it, or aligned. */
    method Turn(i: nat, mask: nat) returns (ok: bool, merged: bool)
      requires 1 <= i < |segs| && segs[i - 1].vaddr <= segs[i].vaddr
      modifies this
      ensures var r := AdjustStep(old(segs)[..i], old(segs)[i], mask);
        if !ok then r.None?
        else r.Some? && |r.value| == (if merged then i else i + 1) && segs == r.value + old(segs)[i + 1..]
    {
      var p, s := segs[i - 1], segs[i];
      merged := RoundDown(s.vaddr) < p.vaddr + p.memsz;
      if merged {
        if And(s.vaddr, mask) != And(s.offset, mask) || p.memsz != p.filesz {
          return false, merged;
        }
        assert segs[..i][..i - 1] == segs[..i - 1];
        segs := segs[..i - 1] + [Merge(p, s)] + segs[i + 1..];
      } else {
        if Remapped(p, s, mask) && And(s.flags, PF_W) == 0 {
          return false, merged;
        }
        segs := segs[..i] + [Align(p, s, mask)] + segs[i + 1..];
      }
      return true, merged;
    }

    /** A turn on the next of the original segments `o`, the first `n` of which are done. */
    method Advance(i: nat, mask: nat, ghost o: seq<Segment>, ghost n: nat) returns (ok: bool, merged: bool)
      requires Sane(o) && 0 < n < |o| && 0 < i < |segs| && mask == o[0].align - 1
      requires segs[i..] == o[n..] && Adjusted(o, n) == Some(segs[..i])
      modifies this
      ensures !ok ==> Adjusted(o, |o|).None?
      ensures ok ==> var k := if merged then i else i + 1;
        k <= |segs| && segs[k..] == o[n + 1..] && Adjusted(o, n + 1) == Some(segs[..k])
    {
      NextIs(o, n, segs, i);
      ok, merged := Turn(i, mask);
    }

    /** Merges page-sharing segments and aligns the rest, in place, removing merged nodes as it goes. */
    method AdjustSegments() returns (ok: bool)
      modifies this
      ensures ok <==> Sane(old(segs)) && (|old(segs)| > 0 ==> Adjusted(old(segs), |old(segs)|).Some?)
      ensures ok ==> segs == if |old(segs)| == 0 then [] else Adjusted(old(segs), |old(segs)|).value
    {
      var sane := CheckSanity();
      if !sane {
        return false;
      }
      if |segs| == 0 {
        return true;
      }
      ghost var o := segs;
      var mask := segs[0].align - 1;
      ghost var n := 1;
      var i := 1;
      assert segs[..1] == [o[0]];
      while i < |segs|
        invariant 1 <= i <= |segs| && 1 <= n <= |o| && |segs| - i == |o| - n
        invariant segs[i..] == o[n..] && Adjusted(o, n) == Some(segs[..i])
        decreases |o| - n
      {
        var turned, merged := Advance(i, mask, o, n);
        if !turned {
          return false;
        }
        n := n + 1;
        if !merged {
          i := i + 1;
        }
      }
      assert segs[..i] == segs;
      return true;
    }
  }

  /** In the loop, the segment at `i` is the next original one, and handling it is one more step of Adjusted. */
  lemma {:induction false} NextIs(o: seq<Segment>, n: nat, segs: seq<Segment>, i: nat)
    requires Sane(o) && 0 < n < |o| && 0 < i < |segs| && segs[i..] == o[n..] && Adjusted(o, n) == Some(segs[..i])
    ensures segs[i] == o[n] && segs[i + 1..] == o[n + 1..]
    ensures segs[..i][i - 1] == segs[i - 1] && segs[i - 1].vaddr <= segs[i].vaddr
    ensures Adjusted(o, n + 1) == AdjustStep(segs[..i], segs[i], o[0].align - 1)
    ensures Adjusted(o, n + 1).None? ==> Adjusted(o, |o|).None?
  {
    SameTail(o, n, segs, i);
    assert SaneAt(o, n) && SaneOne(o[n]);
    assert segs[..i][i - 1] == segs[i - 1];
    NoneStays(o, n + 1);
  }

  lemma {:induction false} SameTail(o: seq<Segment>, n: nat, segs: seq<Segment>, i: nat)
    requires n < |o| && i < |segs| && segs[i..] == o[n..]
    ensures segs[i] == o[n] && segs[i + 1..] == o[n + 1..]
  {
    assert segs[i] == segs[i..][0] && o[n] == o[n..][0];
    assert segs[i + 1..] == segs[i..][1..] && o[n + 1..] == o[n..][1..];
  }

  /** A failed assertion is not undone by later segments. */
  lemma {:induction false} NoneStays(o: seq<Segment>, n: nat)
    requires Sane(o) && 0 < n <= |o|
    ensures Adjusted(o, n).None? ==> Adjusted(o, |o|).None?
    decreases |o| - n
  {
    if n < |o| {
      NoneStays(o, n + 1);
    }
  }
}
