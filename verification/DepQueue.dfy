/** Loading an ELF binary and everything it needs: a queue that grows while it is walked. */
module DepQueue {
  import opened Wrappers

  type Uuid = nat

  /** What a binary on disk says of itself; a UUID without a binary cannot be loaded. */
  datatype Binary = Binary(is32: bool, needed: seq<Uuid>)

  type Store = map<Uuid, Binary>

  predicate Loadable(bin: Store, is32: bool, u: Uuid) { u in bin && bin[u].is32 == is32 }

  function Needed(bin: Store, u: Uuid): seq<Uuid> { if u in bin then bin[u].needed else [] }

  // ----- the order of first mention

  function Add(q: seq<Uuid>, u: Uuid): seq<Uuid> { if u in q then q else q + [u] }

  /** `q` with the members of `us` it lacks appended, each once, in order. */
  function AddAll(q: seq<Uuid>, us: seq<Uuid>): (r: seq<Uuid>)
    ensures q <= r
    decreases |us|
  {
    if |us| == 0 then q else Add(AddAll(q, us[..|us| - 1]), us[|us| - 1])
  }

  /** The DT_NEEDED lists of the queue members from `s` up to `i`, one after the other. */
  function Mentioned(bin: Store, q: seq<Uuid>, s: nat, i: nat): seq<Uuid>
    requires s <= i <= |q|
    decreases i - s
  {
    if i == s then [] else Mentioned(bin, q, s, i - 1) + Needed(bin, q[i - 1])
  }

  lemma {:induction false} AddAllMore(q: seq<Uuid>, xs: seq<Uuid>, ys: seq<Uuid>)
    ensures AddAll(AddAll(q, xs), ys) == AddAll(q, xs + ys)
    decreases |ys|
  {
    if |ys| == 0 {
      assert xs + ys == xs;
    } else {
      AddAllMore(q, xs, ys[..|ys| - 1]);
      assert (xs + ys)[..|xs + ys| - 1] == xs + ys[..|ys| - 1];
    }
  }

  /** The position of the first mention of `u`, past the end if there is none. */
  function FirstAt(us: seq<Uuid>, u: Uuid): (k: nat)
    ensures k <= |us| && (k < |us| ==> us[k] == u) && u !in us[..k]
    decreases |us|
  {
    if |us| == 0 then 0
    else
      var k := FirstAt(us[..|us| - 1], u);
      assert us[..|us| - 1][..k] == us[..k];
      if k < |us| - 1 || us[|us| - 1] == u then k
      else assert us[..|us|] == us[..|us| - 1] + [us[|us| - 1]]; |us|
  }

  /** Nothing is lost, nothing else comes in, and what is added comes in the order of first mention. */
  lemma {:induction false} AddAllInOrder(q: seq<Uuid>, us: seq<Uuid>, i: nat, j: nat)
    requires |q| <= i <= j < |AddAll(q, us)|
    ensures var r := AddAll(q, us);
      && FirstAt(us, r[i]) < |us| && FirstAt(us, r[j]) < |us|
      && (i < j ==> FirstAt(us, r[i]) < FirstAt(us, r[j]))
    decreases |us|
  {
    if |us| > 0 {
      var n := |us| - 1;
      var before := AddAll(q, us[..n]);
      AddAllHas(q, us[..n], us[n]);
      if j < |before| {
        AddAllInOrder(q, us[..n], i, j);
      } else {
        MissingAt(us[..n], us[n]);
        if i < |before| {
          AddAllInOrder(q, us[..n], i, i);
        }
      }
    }
  }

  lemma {:induction false} MissingAt(us: seq<Uuid>, u: Uuid)
    requires u !in us
    ensures FirstAt(us, u) == |us|
  {
  }

  lemma {:induction false} AddAllHas(q: seq<Uuid>, us: seq<Uuid>, u: Uuid)
    ensures u in AddAll(q, us) <==> u in q || u in us
    decreases |us|
  {
    if |us| > 0 {
      AddAllHas(q, us[..|us| - 1], u);
      assert us == us[..|us| - 1] + [us[|us| - 1]];
    }
  }

  /** Growing the queue does not change what its first members mention. */
  lemma {:induction false} MentionedPrefix(bin: Store, q: seq<Uuid>, r: seq<Uuid>, s: nat, i: nat)
    requires s <= i <= |q| && q <= r
    ensures Mentioned(bin, q, s, i) == Mentioned(bin, r, s, i)
    decreases i - s
  {
    if i > s {
      MentionedPrefix(bin, q, r, s, i - 1);
    }
  }

  // ----- reachability

  /** `u` is `n` DT_NEEDED steps from `root`. */
  ghost predicate ReachIn(bin: Store, root: Uuid, u: Uuid, n: nat)
    decreases n
  {
    if n == 0 then u == root
    else exists v: Uuid :: ReachIn(bin, root, v, n - 1) && v in bin && u in bin[v].needed
  }

  ghost predicate Reachable(bin: Store, root: Uuid, u: Uuid) {
    exists n: nat :: ReachIn(bin, root, u, n)
  }

  /** No UUID occurs twice. */
  predicate Distinct(q: seq<Uuid>)
    decreases |q|
  {
    |q| > 0 ==> q[|q| - 1] !in q[..|q| - 1] && Distinct(q[..|q| - 1])
  }

  lemma {:induction false} DistinctAt(q: seq<Uuid>, i: nat, j: nat)
    requires Distinct(q) && i < j < |q|
    ensures q[i] != q[j]
    decreases |q|
  {
    if j < |q| - 1 {
      DistinctAt(q[..|q| - 1], i, j);
    }
  }

  predicate Ascending(d: seq<nat>)
    decreases |d|
  {
    |d| > 1 ==> d[|d| - 2] <= d[|d| - 1] && Ascending(d[..|d| - 1])
  }

  lemma {:induction false} AscendingAt(d: seq<nat>, i: nat, j: nat)
    requires Ascending(d) && i <= j < |d|
    ensures d[i] <= d[j]
    decreases |d|
  {
    if j < |d| - 1 {
      AscendingAt(d[..|d| - 1], i, j);
    } else if i < j {
      AscendingAt(d[..|d| - 1], i, j - 1);
    }
  }

  /** `u` is in the queue, before `s` or at a depth of at most `bound`. */
  ghost predicate Near(q: seq<Uuid>, s: nat, d: seq<nat>, u: Uuid, bound: nat)
    requires s <= |q| && |d| == |q| - s
    decreases |d|
  {
    if |d| == 0 then u in q
    else (q[|q| - 1] == u && d[|d| - 1] <= bound) || Near(q[..|q| - 1], s, d[..|d| - 1], u, bound)
  }

  /** What Near says, by position. */
  lemma {:induction false} NearIff(q: seq<Uuid>, s: nat, d: seq<nat>, u: Uuid, bound: nat)
    requires s <= |q| && |d| == |q| - s
    ensures Near(q, s, d, u, bound) <==> u in q[..s] || exists j :: s <= j < |q| && q[j] == u && d[j - s] <= bound
    decreases |d|
  {
    if |d| == 0 {
      assert q[..s] == q;
    } else {
      var p, e := q[..|q| - 1], d[..|d| - 1];
      NearIff(p, s, e, u, bound);
      assert p[..s] == q[..s];
      assert forall j :: s <= j < |p| ==> p[j] == q[j] && e[j - s] == d[j - s];
    }
  }

  /** The walk from position `s` has handled the members before `i`; `d` holds the depth of each member. */
  ghost predicate Walk(bin: Store, q: seq<Uuid>, s: nat, d: seq<nat>, i: nat) {
    && s < |q| && |d| == |q| - s && s <= i <= |q|
    && Distinct(q) && Ascending(d) && d[0] == 0
    && (i < |q| ==> d[|d| - 1] <= d[i - s] + 1)
    && (forall j {:trigger DepthAt(bin, q, s, d, j)} :: s <= j < |q| ==> DepthAt(bin, q, s, d, j))
    && (forall k {:trigger Handled(bin, q, s, d, k)} :: s <= k < i ==> Handled(bin, q, s, d, k))
  }

  ghost predicate DepthAt(bin: Store, q: seq<Uuid>, s: nat, d: seq<nat>, j: nat)
    requires s <= j < |q| && |d| == |q| - s
  {
    ReachIn(bin, q[s], q[j], d[j - s])
  }

  /** All that member `k` needs is in the queue, at most one deeper. */
  ghost predicate Handled(bin: Store, q: seq<Uuid>, s: nat, d: seq<nat>, k: nat)
    requires s <= k < |q| && |d| == |q| - s
  {
    NearAll(q, s, d, Needed(bin, q[k]), d[k - s] + 1)
  }

  /** Near, for each of `us`. */
  ghost predicate NearAll(q: seq<Uuid>, s: nat, d: seq<nat>, us: seq<Uuid>, bound: nat)
    requires s <= |q| && |d| == |q| - s
    decreases |us|
  {
    |us| > 0 ==> Near(q, s, d, us[|us| - 1], bound) && NearAll(q, s, d, us[..|us| - 1], bound)
  }

  lemma {:induction false} NearAllAt(q: seq<Uuid>, s: nat, d: seq<nat>, us: seq<Uuid>, bound: nat, u: Uuid)
    requires s <= |q| && |d| == |q| - s && NearAll(q, s, d, us, bound) && u in us
    ensures Near(q, s, d, u, bound)
    decreases |us|
  {
    if u != us[|us| - 1] {
      assert us == us[..|us| - 1] + [us[|us| - 1]];
      NearAllAt(q, s, d, us[..|us| - 1], bound, u);
    }
  }

  /** The members before `s` need nothing outside themselves. */
  ghost predicate ClosedBefore(bin: Store, q: seq<Uuid>, s: nat)
    requires s <= |q|
  {
    forall k, u :: 0 <= k < s && u in Needed(bin, q[k]) ==> u in q[..s]
  }

  /** The order in which the queue was filled from position `s`. */
  ghost predicate FirstMention(bin: Store, q: seq<Uuid>, s: nat, i: nat) {
    s < |q| && s <= i <= |q| && FilledBy(q, q[..s + 1], Mentioned(bin, q, s, i))
  }

  /** `q` is `start` followed by the first mentions in `us`. */
  ghost predicate FilledBy(q: seq<Uuid>, start: seq<Uuid>, us: seq<Uuid>) {
    q == AddAll(start, us)
  }

  lemma {:induction false} NearGrows(q: seq<Uuid>, s: nat, d: seq<nat>, u: Uuid, bound: nat, v: Uuid, e: nat)
    requires s <= |q| && |d| == |q| - s && Near(q, s, d, u, bound)
    ensures Near(q + [v], s, d + [e], u, bound)
  {
    assert (q + [v])[..|q|] == q && (d + [e])[..|d|] == d;
  }

  lemma {:induction false} NearAllGrows(q: seq<Uuid>, s: nat, d: seq<nat>, us: seq<Uuid>, bound: nat, v: Uuid, e: nat)
    requires s <= |q| && |d| == |q| - s && NearAll(q, s, d, us, bound)
    ensures NearAll(q + [v], s, d + [e], us, bound)
    decreases |us|
  {
    if |us| > 0 {
      NearGrows(q, s, d, us[|us| - 1], bound, v, e);
      NearAllGrows(q, s, d, us[..|us| - 1], bound, v, e);
    }
  }

  lemma {:induction false} AppendKeepsWalk(bin: Store, q: seq<Uuid>, s: nat, d: seq<nat>, i: nat, v: Uuid)
    requires Walk(bin, q, s, d, i) && i < |q| && v in Needed(bin, q[i]) && v !in q
    ensures Walk(bin, q + [v], s, d + [d[i - s] + 1], i)
    ensures Near(q + [v], s, d + [d[i - s] + 1], v, d[i - s] + 1)
  {
    var e := d[i - s] + 1;
    var q', d' := q + [v], d + [e];
    assert DepthAt(bin, q, s, d, i);
    assert ReachIn(bin, q[s], v, e);
    assert q'[..|q|] == q && d'[..|d|] == d;
    DepthsStay(bin, q, s, d, v, e, i);
  }

  /** One more member changes nothing for those before it. */
  lemma {:induction false} DepthsStay(bin: Store, q: seq<Uuid>, s: nat, d: seq<nat>, v: Uuid, e: nat, i: nat)
    requires Walk(bin, q, s, d, i) && ReachIn(bin, q[s], v, e)
    ensures forall j {:trigger DepthAt(bin, q + [v], s, d + [e], j)} ::
      s <= j <= |q| ==> DepthAt(bin, q + [v], s, d + [e], j)
    ensures forall k {:trigger Handled(bin, q + [v], s, d + [e], k)} ::
      s <= k < i ==> Handled(bin, q + [v], s, d + [e], k)
  {
    forall j | s <= j <= |q|
      ensures DepthAt(bin, q + [v], s, d + [e], j)
    {
      if j < |q| {
        assert DepthAt(bin, q, s, d, j);
        DepthStays(bin, q, s, d, v, e, j);
      }
    }
    forall k | s <= k < i
      ensures Handled(bin, q + [v], s, d + [e], k)
    {
      assert Handled(bin, q, s, d, k);
      HandledStays(bin, q, s, d, v, e, k);
    }
  }

  lemma {:induction false} DepthStays(bin: Store, q: seq<Uuid>, s: nat, d: seq<nat>, v: Uuid, e: nat, j: nat)
    requires s <= j < |q| && |d| == |q| - s && DepthAt(bin, q, s, d, j)
    ensures DepthAt(bin, q + [v], s, d + [e], j)
  {
  }

  lemma {:induction false} HandledStays(bin: Store, q: seq<Uuid>, s: nat, d: seq<nat>, v: Uuid, e: nat, k: nat)
    requires s <= k < |q| && |d| == |q| - s && Handled(bin, q, s, d, k)
    ensures Handled(bin, q + [v], s, d + [e], k)
  {
    NearAllGrows(q, s, d, Needed(bin, q[k]), d[k - s] + 1, v, e);
  }

  /** Going on to the next member once all that member `i` needs is queued. */
  lemma {:induction false} AdvanceWalk(bin: Store, q: seq<Uuid>, s: nat, d: seq<nat>, i: nat)
    requires Walk(bin, q, s, d, i) && i < |q| && Handled(bin, q, s, d, i)
    ensures Walk(bin, q, s, d, i + 1)
  {
    if i + 1 < |q| {
      AscendingAt(d, i - s, i + 1 - s);
    }
  }

  // ----- what a finished walk means

  /** A finished walk from a closed start holds everything reachable, at its shortest distance. */
  lemma {:induction false} WalkCovers(bin: Store, q: seq<Uuid>, s: nat, d: seq<nat>, u: Uuid, n: nat)
    requires Walk(bin, q, s, d, |q|) && ClosedBefore(bin, q, s) && ReachIn(bin, q[s], u, n)
    ensures Near(q, s, d, u, n)
    decreases n
  {
    if n == 0 {
      assert q[s] == u && d[s - s] <= 0;
      NearIff(q, s, d, u, n);
    } else {
      var v: Uuid :| ReachIn(bin, q[s], v, n - 1) && v in bin && u in bin[v].needed;
      WalkCovers(bin, q, s, d, v, n - 1);
      NearIff(q, s, d, v, n - 1);
      NearSuccessor(bin, q, s, d, v, u, n - 1);
    }
  }

  lemma {:induction false} NearSuccessor(bin: Store, q: seq<Uuid>, s: nat, d: seq<nat>, v: Uuid, u: Uuid, n: nat)
    requires Walk(bin, q, s, d, |q|) && ClosedBefore(bin, q, s) && u in Needed(bin, v)
    requires v in q[..s] || exists j :: s <= j < |q| && q[j] == v && d[j - s] <= n
    ensures Near(q, s, d, u, n + 1)
  {
    if v in q[..s] {
      var k :| 0 <= k < s && q[..s][k] == v;
      assert q[k] == v;
      NearIff(q, s, d, u, n + 1);
    } else {
      var k :| s <= k < |q| && q[k] == v && d[k - s] <= n;
      assert Handled(bin, q, s, d, k);
      NearAllAt(q, s, d, Needed(bin, q[k]), d[k - s] + 1, u);
      NearWeaker(q, s, d, u, d[k - s] + 1, n + 1);
    }
  }

  lemma {:induction false} NearWeaker(q: seq<Uuid>, s: nat, d: seq<nat>, u: Uuid, a: nat, b: nat)
    requires s <= |q| && |d| == |q| - s && Near(q, s, d, u, a) && a <= b
    ensures Near(q, s, d, u, b)
    decreases |d|
  {
    if |d| > 0 && !(q[|q| - 1] == u && d[|d| - 1] <= a) {
      NearWeaker(q[..|q| - 1], s, d[..|d| - 1], u, a, b);
    }
  }

  /** The queue after a finished load of `q[0]` is exactly the set reachable from it. */
  lemma {:induction false} QueueIsClosure(bin: Store, q: seq<Uuid>, d: seq<nat>, u: Uuid)
    requires Walk(bin, q, 0, d, |q|)
    ensures u in q <==> Reachable(bin, q[0], u)
  {
    if u in q {
      var j :| 0 <= j < |q| && q[j] == u;
      assert DepthAt(bin, q, 0, d, j);
    }
    if Reachable(bin, q[0], u) {
      var n: nat :| ReachIn(bin, q[0], u, n);
      WalkCovers(bin, q, 0, d, u, n);
      NearIff(q, 0, d, u, n);
    }
  }

  /** Breadth first: a member is never behind one that is nearer to the root. If `q[j]` can be reached in
      `n` steps, then every member before it can be reached in at most `n`. */
  lemma {:induction false} QueueIsBreadthFirst(bin: Store, q: seq<Uuid>, d: seq<nat>, i: nat, j: nat, n: nat)
    requires Walk(bin, q, 0, d, |q|) && i <= j < |q| && ReachIn(bin, q[0], q[j], n)
    ensures exists m: nat :: m <= n && ReachIn(bin, q[0], q[i], m)
  {
    WalkCovers(bin, q, 0, d, q[j], n);
    NearIff(q, 0, d, q[j], n);
    var k: nat :| 0 <= k < |q| && q[k] == q[j] && d[k - 0] <= n;
    if k != j {
      DistinctAt(q, if k < j then k else j, if k < j then j else k);
    }
    AscendingAt(d, i, j);
    assert DepthAt(bin, q, 0, d, i);
  }

  /** A finished walk leaves the whole queue closed, whatever closed queue it extended. */
  lemma {:induction false} WalkCloses(bin: Store, q: seq<Uuid>, s: nat, d: seq<nat>)
    requires Walk(bin, q, s, d, |q|) && ClosedBefore(bin, q, s)
    ensures ClosedBefore(bin, q, |q|)
  {
    assert q[..|q|] == q;
    forall k, u | 0 <= k < |q| && u in Needed(bin, q[k])
      ensures u in q
    {
      if k < s {
        assert u in q[..s];
      } else {
        assert Handled(bin, q, s, d, k);
        NearAllAt(q, s, d, Needed(bin, q[k]), d[k - s] + 1, u);
        NearIff(q, s, d, u, d[k - s] + 1);
      }
    }
  }

  // ----- the growing loop

  function Members(q: seq<Uuid>): set<Uuid>
    decreases |q|
  {
    if |q| == 0 then {} else Members(q[..|q| - 1]) + {q[|q| - 1]}
  }

  /** Everything that some binary needs. */
  function NamedIn(bin: Store): set<Uuid> { set b, u | b in bin && u in bin[b].needed :: u }

  /** `q` is free of duplicates and `universe` holds all that can ever be queued behind it. */
  ghost predicate Fits(bin: Store, q: seq<Uuid>, universe: set<Uuid>) {
    Distinct(q) && Members(q) + NamedIn(bin) <= universe
  }

  /** The queue once every member from position `i` on has been loaded; `None` when one cannot be. */
  ghost function Fill(bin: Store, is32: bool, universe: set<Uuid>, q: seq<Uuid>, i: nat): (r: Option<seq<Uuid>>)
    requires Fits(bin, q, universe) && i <= |q|
    decreases |universe| - i
  {
    if i == |q| then Some(q)
    else if !Loadable(bin, is32, q[i]) then None
    else
      FitsStep(bin, q, i, universe);
      Fill(bin, is32, universe, AddAll(q, Needed(bin, q[i])), i + 1)
  }

  lemma {:induction false} FitsStep(bin: Store, q: seq<Uuid>, i: nat, universe: set<Uuid>)
    requires Fits(bin, q, universe) && i < |q|
    ensures Fits(bin, AddAll(q, Needed(bin, q[i])), universe) && i < |universe|
  {
    DistinctFits(q, universe);
    AddAllMembers(q, Needed(bin, q[i]), universe);
    AddAllDistinct(q, Needed(bin, q[i]));
  }

  /** Queuing one thing that member `i` needs. */
  lemma {:induction false} OneNeed(bin: Store, q: seq<Uuid>, s: nat, d: seq<nat>, i: nat, us: seq<Uuid>, v: Uuid)
    returns (d': seq<nat>)
    requires Walk(bin, q, s, d, i) && i < |q| && v in Needed(bin, q[i]) && NearAll(q, s, d, us, d[i - s] + 1)
    ensures Walk(bin, Add(q, v), s, d', i) && d'[i - s] == d[i - s]
    ensures NearAll(Add(q, v), s, d', us, d[i - s] + 1) && Near(Add(q, v), s, d', v, d[i - s] + 1)
  {
    if v in q {
      d' := d;
      QueuedIsNear(bin, q, s, d, i, v);
    } else {
      d' := d + [d[i - s] + 1];
      AppendKeepsWalk(bin, q, s, d, i, v);
      NearAllGrows(q, s, d, us, d[i - s] + 1, v, d[i - s] + 1);
    }
  }

  /** Queuing some of the things that member `i` needs, one after the other. */
  lemma {:induction false} NeedsKeepWalk(bin: Store, q: seq<Uuid>, s: nat, d: seq<nat>, i: nat, us: seq<Uuid>)
    returns (d': seq<nat>)
    requires Walk(bin, q, s, d, i) && i < |q| && forall u :: u in us ==> u in Needed(bin, q[i])
    ensures Walk(bin, AddAll(q, us), s, d', i) && d'[i - s] == d[i - s]
    ensures NearAll(AddAll(q, us), s, d', us, d[i - s] + 1)
    decreases |us|
  {
    if |us| == 0 {
      d' := d;
    } else {
      var before, v := us[..|us| - 1], us[|us| - 1];
      assert before <= us;
      var d1 := NeedsKeepWalk(bin, q, s, d, i, before);
      assert AddAll(q, before)[i] == q[i];
      d' := OneNeed(bin, AddAll(q, before), s, d1, i, before, v);
    }
  }

  lemma {:induction false} WalkStep(bin: Store, q: seq<Uuid>, s: nat, d: seq<nat>, i: nat) returns (d': seq<nat>)
    requires Walk(bin, q, s, d, i) && i < |q|
    ensures Walk(bin, AddAll(q, Needed(bin, q[i])), s, d', i + 1)
  {
    var needed := Needed(bin, q[i]);
    d' := NeedsKeepWalk(bin, q, s, d, i, needed);
    AdvanceWalk(bin, AddAll(q, needed), s, d', i);
  }

  /** A filled queue is a finished walk. */
  lemma {:induction false} FillWalks(bin: Store, is32: bool, universe: set<Uuid>, q: seq<Uuid>, i: nat, s: nat,
                                     d: seq<nat>)
    returns (d': seq<nat>)
    requires Fits(bin, q, universe) && Walk(bin, q, s, d, i)
    requires Fill(bin, is32, universe, q, i).Some?
    ensures var r := Fill(bin, is32, universe, q, i).value; Walk(bin, r, s, d', |r|)
    decreases |universe| - i
  {
    if i == |q| {
      d' := d;
    } else {
      FitsStep(bin, q, i, universe);
      var d1 := WalkStep(bin, q, s, d, i);
      d' := FillWalks(bin, is32, universe, AddAll(q, Needed(bin, q[i])), i + 1, s, d1);
    }
  }

  /** A filled queue is in order of first mention. */
  lemma {:induction false} FillMentions(bin: Store, is32: bool, universe: set<Uuid>, q: seq<Uuid>, i: nat, s: nat)
    requires Fits(bin, q, universe) && FirstMention(bin, q, s, i)
    requires Fill(bin, is32, universe, q, i).Some?
    ensures var r := Fill(bin, is32, universe, q, i).value; FirstMention(bin, r, s, |r|)
    decreases |universe| - i
  {
    if i < |q| {
      var q1 := AddAll(q, Needed(bin, q[i]));
      FitsStep(bin, q, i, universe);
      FirstMentionStep(bin, q, q1, s, i);
      FillMentions(bin, is32, universe, q1, i + 1, s);
    }
  }

  /** What has been loaded can be. */
  lemma {:induction false} FillLoads(bin: Store, is32: bool, universe: set<Uuid>, q: seq<Uuid>, i: nat)
    requires Fits(bin, q, universe) && i <= |q| && Fill(bin, is32, universe, q, i).Some?
    ensures var r := Fill(bin, is32, universe, q, i).value;
      q <= r && forall k :: i <= k < |r| ==> Loadable(bin, is32, r[k])
    decreases |universe| - i
  {
    if i < |q| {
      FitsStep(bin, q, i, universe);
      FillLoads(bin, is32, universe, AddAll(q, Needed(bin, q[i])), i + 1);
    }
  }

  /** A walk of one member. */
  lemma {:induction false} FreshWalk(bin: Store, was: seq<Uuid>, u: Uuid)
    requires Distinct(was) && u !in was
    ensures Walk(bin, was + [u], |was|, [0], |was|) && FirstMention(bin, was + [u], |was|, |was|)
  {
    var q := was + [u];
    assert q[..|was|] == was && q[..|was| + 1] == q;
    assert DepthAt(bin, q, |was|, [0], |was|);
  }

  // ----- what loading the main binary gives

  /** The queue after loading `main` and everything behind it. */
  ghost function MainQueue(bin: Store, main: Uuid): Option<seq<Uuid>> {
    if main !in bin then None
    else
      FitsFirst(bin, main);
      Fill(bin, bin[main].is32, {main} + NamedIn(bin), [main], 0)
  }

  lemma {:induction false} FitsFirst(bin: Store, main: Uuid)
    ensures Fits(bin, [main], {main} + NamedIn(bin))
  {
    assert [main][..0] == [];
    assert Members([main]) == {main};
  }

  lemma {:induction false} FitsOneMore(bin: Store, was: seq<Uuid>, u: Uuid)
    requires Distinct(was) && u !in was
    ensures Fits(bin, was + [u], Members(was + [u]) + NamedIn(bin))
  {
    assert (was + [u])[..|was|] == was;
  }

  /** The walk that loading the main binary amounts to. */
  lemma {:induction false} MainWalk(bin: Store, main: Uuid) returns (d: seq<nat>)
    requires MainQueue(bin, main).Some?
    ensures var q := MainQueue(bin, main).value;
      |q| > 0 && q[0] == main && Walk(bin, q, 0, d, |q|) && FirstMention(bin, q, 0, |q|)
  {
    var is32, universe := bin[main].is32, {main} + NamedIn(bin);
    FreshWalk(bin, [], main);
    assert [] + [main] == [main];
    d := FillWalks(bin, is32, universe, [main], 0, 0, [0]);
    FillMentions(bin, is32, universe, [main], 0, 0);
    FillLoads(bin, is32, universe, [main], 0);
  }

  /** The queue is the duplicate-free closure of the main binary under DT_NEEDED, in order of first mention. */
  lemma {:induction false} MainQueueIsClosure(bin: Store, main: Uuid, u: Uuid)
    requires MainQueue(bin, main).Some?
    ensures var q := MainQueue(bin, main).value;
      && |q| > 0 && q[0] == main && Distinct(q) && FirstMention(bin, q, 0, |q|)
      && (u in q <==> Reachable(bin, main, u))
  {
    var d := MainWalk(bin, main);
    QueueIsClosure(bin, MainQueue(bin, main).value, d, u);
  }

  /** The order of the queue behind the main binary is that of first mention in the DT_NEEDED lists of its members,
      taken one after the other. */
  lemma {:induction false} MainQueueInOrder(bin: Store, main: Uuid, i: nat, j: nat)
    requires MainQueue(bin, main).Some? && 0 < i < j < |MainQueue(bin, main).value|
    ensures var q := MainQueue(bin, main).value;
      var mentioned := Mentioned(bin, q, 0, |q|);
      FirstAt(mentioned, q[i]) < FirstAt(mentioned, q[j]) < |mentioned|
  {
    var q := MainQueue(bin, main).value;
    var d := MainWalk(bin, main);
    assert |q[..1]| == 1;
    AddAllInOrder(q[..1], Mentioned(bin, q, 0, |q|), i, j);
  }

  lemma {:induction false} MainMembersLoad(bin: Store, main: Uuid, u: Uuid)
    requires MainQueue(bin, main).Some? && Reachable(bin, main, u)
    ensures Loadable(bin, bin[main].is32, u)
  {
    var q := MainQueue(bin, main).value;
    FillLoads(bin, bin[main].is32, {main} + NamedIn(bin), [main], 0);
    MainQueueIsClosure(bin, main, u);
    var k :| 0 <= k < |q| && q[k] == u;
  }

  /** The load succeeds exactly when everything the main binary reaches can be loaded. */
  lemma {:induction false} MainLoadsIff(bin: Store, main: Uuid)
    ensures MainQueue(bin, main).Some? <==>
      main in bin && forall u: Uuid :: Reachable(bin, main, u) ==> u in bin && bin[u].is32 == bin[main].is32
  {
    if MainQueue(bin, main).Some? {
      forall u: Uuid | Reachable(bin, main, u)
        ensures Loadable(bin, bin[main].is32, u)
      {
        MainMembersLoad(bin, main, u);
      }
    } else if main in bin {
      FreshWalk(bin, [], main);
      assert [] + [main] == [main];
      var u := FillFails(bin, bin[main].is32, {main} + NamedIn(bin), [main], 0, 0, [0]);
    }
  }

  /** The queue is in breadth-first order: if a member can be reached in `n` steps, every member before it
      can be reached in at most `n`. */
  lemma {:induction false} MainQueueIsBreadthFirst(bin: Store, main: Uuid, i: nat, j: nat, n: nat)
    requires MainQueue(bin, main).Some? && i <= j < |MainQueue(bin, main).value|
    requires ReachIn(bin, main, MainQueue(bin, main).value[j], n)
    ensures exists m: nat :: m <= n && ReachIn(bin, main, MainQueue(bin, main).value[i], m)
  {
    var d := MainWalk(bin, main);
    QueueIsBreadthFirst(bin, MainQueue(bin, main).value, d, i, j, n);
  }

  // ----- what adding a library gives

  /** The queue after adding the library `u` to `was`. */
  ghost function LibraryQueue(bin: Store, is32: bool, was: seq<Uuid>, u: Uuid): (r: Option<seq<Uuid>>)
    requires Distinct(was)
  {
    if u in was then Some(was)
    else
      FitsOneMore(bin, was, u);
      Fill(bin, is32, Members(was + [u]) + NamedIn(bin), was + [u], |was|)
  }

  /** A closed queue is extended to a closed queue, by exactly what the library reaches and the queue lacked. */
  lemma {:induction false} LibraryQueueIsClosed(bin: Store, is32: bool, was: seq<Uuid>, u: Uuid)
    requires Distinct(was) && ClosedBefore(bin, was, |was|)
    requires LibraryQueue(bin, is32, was, u).Some?
    ensures var r := LibraryQueue(bin, is32, was, u).value;
      && was <= r && u in r && Distinct(r) && ClosedBefore(bin, r, |r|)
      && (forall v: Uuid :: v in r <==> v in was || Reachable(bin, u, v))
      && (u !in was ==> FirstMention(bin, r, |was|, |r|))
  {
    if u in was {
      ClosedHoldsReachable(bin, was, u);
    } else {
      var q, s, universe := was + [u], |was|, Members(was + [u]) + NamedIn(bin);
      FreshWalk(bin, was, u);
      var d := FillWalks(bin, is32, universe, q, s, s, [0]);
      FillMentions(bin, is32, universe, q, s, s);
      FillLoads(bin, is32, universe, q, s);
      ExtensionCloses(bin, was, u, Fill(bin, is32, universe, q, s).value, d);
    }
  }

  lemma {:induction false} ExtensionCloses(bin: Store, was: seq<Uuid>, u: Uuid, r: seq<Uuid>, d: seq<nat>)
    requires ClosedBefore(bin, was, |was|) && was + [u] <= r && Walk(bin, r, |was|, d, |r|)
    ensures u in r && ClosedBefore(bin, r, |r|)
    ensures forall v: Uuid :: v in r <==> v in was || Reachable(bin, u, v)
  {
    var s := |was|;
    assert r[s] == (was + [u])[s] == u && r[..s] == (was + [u])[..s] == was;
    ClosedPrefix(bin, was, r);
    WalkCloses(bin, r, s, d);
    NewMembers(bin, r, s, d);
  }

  /** Adding a library fails exactly when it is new and something it reaches outside the queue cannot be loaded. */
  lemma {:induction false} LibraryLoadsIff(bin: Store, is32: bool, was: seq<Uuid>, u: Uuid)
    requires Distinct(was) && ClosedBefore(bin, was, |was|)
    ensures LibraryQueue(bin, is32, was, u).Some? <==>
      forall v: Uuid :: Reachable(bin, u, v) && v !in was ==> v in bin && bin[v].is32 == is32
  {
    if u in was {
      ClosedHoldsReachable(bin, was, u);
      return;
    }
    var q, s, universe := was + [u], |was|, Members(was + [u]) + NamedIn(bin);
    FreshWalk(bin, was, u);
    if LibraryQueue(bin, is32, was, u).Some? {
      forall v: Uuid | Reachable(bin, u, v) && v !in was
        ensures Loadable(bin, is32, v)
      {
        LibraryMemberLoads(bin, is32, was, u, v);
      }
    } else {
      var v := FillFails(bin, is32, universe, q, s, s, [0]);
      assert q[s] == u && q[..s] == was;
    }
  }

  lemma {:induction false} LibraryMemberLoads(bin: Store, is32: bool, was: seq<Uuid>, u: Uuid, v: Uuid)
    requires Distinct(was) && ClosedBefore(bin, was, |was|) && LibraryQueue(bin, is32, was, u).Some?
    requires u !in was && Reachable(bin, u, v) && v !in was
    ensures Loadable(bin, is32, v)
  {
    var r, s := LibraryQueue(bin, is32, was, u).value, |was|;
    LibraryQueueIsClosed(bin, is32, was, u);
    FitsOneMore(bin, was, u);
    FillLoads(bin, is32, Members(was + [u]) + NamedIn(bin), was + [u], s);
    assert forall k :: 0 <= k < s ==> r[k] == was[k];
    var k :| 0 <= k < |r| && r[k] == v;
  }

  /** A load fails only over something new that the walk's start reaches. */
  lemma {:induction false} FillFails(bin: Store, is32: bool, universe: set<Uuid>, q: seq<Uuid>, i: nat, s: nat,
                                     d: seq<nat>)
    returns (u: Uuid)
    requires Fits(bin, q, universe) && Walk(bin, q, s, d, i) && Fill(bin, is32, universe, q, i).None?
    ensures Reachable(bin, q[s], u) && !Loadable(bin, is32, u) && u !in q[..s]
    decreases |universe| - i
  {
    u := q[i];
    assert DepthAt(bin, q, s, d, i);
    if Loadable(bin, is32, u) {
      FitsStep(bin, q, i, universe);
      var d1 := WalkStep(bin, q, s, d, i);
      var q1 := AddAll(q, Needed(bin, q[i]));
      assert q1[..s] == q[..s];
      u := FillFails(bin, is32, universe, q1, i + 1, s, d1);
    } else {
      DistinctFrom(q, s, i);
    }
  }

  lemma {:induction false} DistinctFrom(q: seq<Uuid>, s: nat, i: nat)
    requires Distinct(q) && s <= i < |q|
    ensures q[i] !in q[..s]
  {
    if q[i] in q[..s] {
      var k :| 0 <= k < s && q[..s][k] == q[i];
      DistinctAt(q, k, i);
    }
  }

  // ----- the loader

  class Loader {
    const bin: Store
    var queue: seq<Uuid>
    /** The modules that have been loaded, in order. */
    var loaded: seq<Uuid>
    var is32: bool

    constructor (bin: Store)
      ensures this.bin == bin && queue == [] && loaded == []
    {
      this.bin, queue, loaded, is32 := bin, [], [], false;
    }

    /** Whether a module with this UUID is queued. */
    method FindElf(u: Uuid) returns (found: bool)
      ensures found <==> u in queue
    {
      for i := 0 to |queue|
        invariant u !in queue[..i]
      {
        if queue[i] == u {
          return true;
        }
      }
      return false;
    }

    method QueueElf(u: Uuid)
      modifies this`queue
      ensures queue == Add(old(queue), u)
    {
      var found := FindElf(u);
      if !found {
        queue := queue + [u];
      }
    }

    /** Queues what a module needs: the loop over its DT_NEEDED entries. */
    method AddDependencies(needed: seq<Uuid>)
      modifies this`queue
      ensures queue == AddAll(old(queue), needed)
    {
      for m := 0 to |needed|
        invariant queue == AddAll(old(queue), needed[..m])
      {
        assert needed[..m + 1][..m] == needed[..m];
        QueueElf(needed[m]);
      }
      assert needed[..|needed|] == needed;
    }

    /** Loads member `i`: `false` when its binary is missing or of the wrong width. */
    method LoadDependency(i: nat) returns (ok: bool)
      requires i < |queue|
      modifies this`queue, this`loaded
      ensures ok <==> Loadable(bin, is32, old(queue)[i])
      ensures ok ==> queue == AddAll(old(queue), Needed(bin, old(queue)[i])) && loaded == old(loaded) + [old(queue)[i]]
    {
      var u := queue[i];
      if u !in bin || bin[u].is32 != is32 {
        return false;
      }
      AddDependencies(bin[u].needed);
      loaded := loaded + [u];
      return true;
    }

    /** The growing loop, over the members from position `first` on. */
    method LoadFrom(first: nat, ghost universe: set<Uuid>) returns (ok: bool)
      requires Fits(bin, queue, universe) && first <= |queue|
      modifies this`queue, this`loaded
      ensures ok <==> Fill(bin, is32, universe, old(queue), first).Some?
      ensures ok ==> queue == Fill(bin, is32, universe, old(queue), first).value && first <= |queue|
      ensures ok ==> loaded == old(loaded) + queue[first..]
    {
      var i := first;
      ghost var was := loaded;
      assert queue[first..first] == [];
      while i < |queue|
        invariant first <= i <= |queue| && Fits(bin, queue, universe)
        invariant Fill(bin, is32, universe, queue, i) == Fill(bin, is32, universe, old(queue), first)
        invariant loaded == was + queue[first..i]
        decreases |universe| - i
      {
        ok := LoadNext(i, first, universe, was);
        if !ok {
          return;
        }
        i := i + 1;
      }
      assert queue[first..i] == queue[first..];
      return true;
    }

    /** One turn of that loop. */
    method LoadNext(i: nat, first: nat, ghost universe: set<Uuid>, ghost was: seq<Uuid>) returns (ok: bool)
      requires Fits(bin, queue, universe) && first <= i < |queue| && loaded == was + queue[first..i]
      modifies this`queue, this`loaded
      ensures ok <==> Loadable(bin, is32, old(queue)[i])
      ensures ok ==> i < |universe| && Fits(bin, queue, universe) && i < |queue| && loaded == was + queue[first..i + 1]
      ensures ok ==> Fill(bin, is32, universe, queue, i + 1) == Fill(bin, is32, universe, old(queue), i)
      ensures !ok ==> Fill(bin, is32, universe, old(queue), i).None?
    {
      ghost var q := queue;
      FitsStep(bin, queue, i, universe);
      ok := LoadDependency(i);
      if ok {
        SliceSnoc(q, queue, first, i);
        assert was + q[first..i] + [q[i]] == was + (q[first..i] + [q[i]]);
      }
    }

    /** Loads the main binary into an empty queue, then walks the queue; the walk skips the main binary,
        which is already loaded. */
    method LoadMain(main: Uuid) returns (ok: bool)
      requires queue == [] && loaded == []
      modifies this
      ensures ok <==> MainQueue(bin, main).Some?
      ensures ok ==> queue == MainQueue(bin, main).value && loaded == queue
    {
      QueueElf(main);
      if main !in bin {
        return false;
      }
      is32 := bin[main].is32;
      ghost var universe := {main} + NamedIn(bin);
      FitsStep(bin, queue, 0, universe);
      var _ := LoadDependency(0);
      assert loaded == [main];
      ghost var q := queue;
      ok := LoadFrom(1, universe);
      if ok {
        FillLoads(bin, is32, universe, q, 1);
        assert queue == queue[..1] + queue[1..] && queue[..1] == [main];
      }
    }

    /** Adds a library, with all it needs, to a queue that is already loaded. */
    method AddLibrary(u: Uuid) returns (ok: bool)
      requires Distinct(queue) && loaded == queue
      modifies this`queue, this`loaded
      ensures ok <==> LibraryQueue(bin, is32, old(queue), u).Some?
      ensures ok ==> queue == LibraryQueue(bin, is32, old(queue), u).value && loaded == queue
    {
      var found := FindElf(u);
      if found {
        return true;
      }
      var first := |queue|;
      FitsOneMore(bin, queue, u);
      ghost var universe := Members(queue + [u]) + NamedIn(bin);
      queue := queue + [u];
      ghost var q := queue;
      ok := LoadFrom(first, universe);
      if ok {
        FillLoads(bin, is32, universe, q, first);
        Rejoin(old(queue), u, queue);
      }
    }
  }

  // ----- lemmas of the loop

  lemma {:induction false} Rejoin(was: seq<Uuid>, u: Uuid, r: seq<Uuid>)
    requires was + [u] <= r
    ensures was + r[|was|..] == r
  {
    assert r[..|was|] == (was + [u])[..|was|] == was;
  }

  lemma {:induction false} SliceSnoc(q: seq<Uuid>, r: seq<Uuid>, first: nat, i: nat)
    requires q <= r && first <= i < |q|
    ensures r[first..i + 1] == q[first..i] + [q[i]]
  {
  }

  lemma {:induction false} InMembers(q: seq<Uuid>, u: Uuid)
    ensures u in q <==> u in Members(q)
    decreases |q|
  {
    if |q| > 0 {
      InMembers(q[..|q| - 1], u);
      assert q == q[..|q| - 1] + [q[|q| - 1]];
    }
  }

  lemma {:induction false} DistinctFits(q: seq<Uuid>, universe: set<Uuid>)
    requires Distinct(q) && Members(q) <= universe
    ensures |q| <= |universe|
    decreases |q|
  {
    if |q| > 0 {
      var k := |q| - 1;
      InMembers(q[..k], q[k]);
      DistinctFits(q[..k], universe - {q[k]});
    }
  }

  lemma {:induction false} AddAllMembers(q: seq<Uuid>, us: seq<Uuid>, universe: set<Uuid>)
    requires Members(q) <= universe && forall u :: u in us ==> u in universe
    ensures Members(AddAll(q, us)) <= universe
    decreases |us|
  {
    if |us| > 0 {
      var q1, v := AddAll(q, us[..|us| - 1]), us[|us| - 1];
      AddAllMembers(q, us[..|us| - 1], universe);
      assert (q1 + [v])[..|q1|] == q1;
    }
  }

  lemma {:induction false} FirstMentionStep(bin: Store, q: seq<Uuid>, r: seq<Uuid>, s: nat, i: nat)
    requires FirstMention(bin, q, s, i) && i < |q| && r == AddAll(q, Needed(bin, q[i]))
    ensures FirstMention(bin, r, s, i + 1)
  {
    MentionedPrefix(bin, q, r, s, i);
    assert r[..s + 1] == q[..s + 1] && r[i] == q[i];
    AddAllMore(q[..s + 1], Mentioned(bin, q, s, i), Needed(bin, q[i]));
  }

  lemma {:induction false} AddAllDistinct(q: seq<Uuid>, us: seq<Uuid>)
    requires Distinct(q)
    ensures Distinct(AddAll(q, us))
    decreases |us|
  {
    if |us| > 0 {
      var q1, v := AddAll(q, us[..|us| - 1]), us[|us| - 1];
      AddAllDistinct(q, us[..|us| - 1]);
      assert (q1 + [v])[..|q1|] == q1;
    }
  }

  lemma {:induction false} ClosedPrefix(bin: Store, was: seq<Uuid>, q: seq<Uuid>)
    requires was <= q && ClosedBefore(bin, was, |was|)
    ensures ClosedBefore(bin, q, |was|)
  {
    assert q[..|was|] == was == was[..|was|];
    forall k, u | 0 <= k < |was| && u in Needed(bin, q[k])
      ensures u in q[..|was|]
    {
      assert q[k] == was[k];
    }
  }

  /** A closed queue holds all that its members reach. */
  lemma {:induction false} ClosedHoldsReachable(bin: Store, q: seq<Uuid>, u: Uuid)
    requires ClosedBefore(bin, q, |q|) && u in q
    ensures forall v :: Reachable(bin, u, v) ==> v in q
  {
    forall v | Reachable(bin, u, v)
      ensures v in q
    {
      var n: nat :| ReachIn(bin, u, v, n);
      ClosedHoldsStep(bin, q, u, v, n);
    }
  }

  lemma {:induction false} ClosedHoldsStep(bin: Store, q: seq<Uuid>, u: Uuid, v: Uuid, n: nat)
    requires ClosedBefore(bin, q, |q|) && u in q && ReachIn(bin, u, v, n)
    ensures v in q
    decreases n
  {
    if n > 0 {
      var w: Uuid :| ReachIn(bin, u, w, n - 1) && w in bin && v in bin[w].needed;
      ClosedHoldsStep(bin, q, u, w, n - 1);
      var k :| 0 <= k < |q| && q[k] == w;
      assert v in q[..|q|];
    }
  }

  /** The members a finished walk added are those reachable from its start that were not there before. */
  lemma {:induction false} NewMembers(bin: Store, q: seq<Uuid>, s: nat, d: seq<nat>)
    requires Walk(bin, q, s, d, |q|) && ClosedBefore(bin, q, |q|)
    ensures forall v :: v in q <==> v in q[..s] || Reachable(bin, q[s], v)
  {
    ClosedHoldsReachable(bin, q, q[s]);
    forall v | v in q && v !in q[..s]
      ensures Reachable(bin, q[s], v)
    {
      assert q == q[..s] + q[s..];
      var j :| 0 <= j < |q[s..]| && q[s..][j] == v;
      assert DepthAt(bin, q, s, d, s + j);
    }
  }

  /** A member found already queued is near: everything in the queue is at most one deeper than `i`. */
  lemma {:induction false} QueuedIsNear(bin: Store, q: seq<Uuid>, s: nat, d: seq<nat>, i: nat, v: Uuid)
    requires Walk(bin, q, s, d, i) && i < |q| && v in q
    ensures Near(q, s, d, v, d[i - s] + 1)
  {
    var j :| 0 <= j < |q| && q[j] == v;
    if j < s {
      assert q[..s][j] == v;
    } else {
      AscendingAt(d, j - s, |d| - 1);
      assert q[j] == v && d[j - s] <= d[i - s] + 1;
    }
    NearIff(q, s, d, v, d[i - s] + 1);
  }
}
