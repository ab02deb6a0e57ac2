/** The EL3 exception handling framework: a stack of active priority levels kept as a bitmap, and the two
    priority masks it stashes. A panic or a failed assertion ends a run. */
module Ehf {
  import opened Arithmetic
  import opened Bitmap
  import opened Wrappers

  const HIGHEST_NS_PRIORITY: nat := 0x80
  const PRI_BITS_WIDTH: nat := 32

  /** The platform's priority table: which indices carry a valid descriptor. */
  datatype Config = Config(numPriorities: nat, priBits: nat, valid: set<nat>)

  ghost predicate ConfigOk(cfg: Config) {
    cfg.numPriorities <= PRI_BITS_WIDTH && cfg.priBits <= 7
  }

  /** Per-CPU data, and the interrupt controller's priority mask. */
  datatype Pe = Pe(activeBits: nat, initMask: nat, nsMask: nat, pmr: nat)

  predicate PeOk(s: Pe) {
    s.activeBits < Pow2(PRI_BITS_WIDTH) && s.initMask < 256 && s.nsMask < 256 && s.pmr < 256
  }

  /** One call; `runPri` is the running priority that the interrupt controller reports. */
  datatype Op =
    | Activate(pri: nat, runPri: nat)
    | Deactivate(pri: nat, runPri: nat)
    | ExitedNormal(runPri: nat)
    | EnteringNormal(runPri: nat)
    | AllowPreemption

  /** The index a priority selects: its top `priBits` of the low seven bits. */
  function PriToIdx(cfg: Config, pri: nat): nat
    requires cfg.priBits <= 7
  {
    Quotient(pri % 128, Pow2(7 - cfg.priBits))
  }

  predicate IsSecure(pri: nat) { pri / 128 % 2 == 0 }

  /** `pri` names a valid index, as pri_to_idx asserts. */
  predicate IdxOk(cfg: Config, pri: nat)
    requires cfg.priBits <= 7
  {
    PriToIdx(cfg, pri) < cfg.numPriorities && PriToIdx(cfg, pri) in cfg.valid
  }

  function ActivateStep(cfg: Config, s: Pe, pri: nat, runPri: nat): (r: Option<Pe>)
    requires ConfigOk(cfg) && PeOk(s)
  {
    if pri >= runPri || !IdxOk(cfg, pri) then None
    else
      var idx := PriToIdx(cfg, pri);
      if s.activeBits != 0 && idx >= Ctz(s.activeBits) then None
      else if pri >= s.pmr then None
      else Some(Pe(Or(s.activeBits, Pow2(idx)), if s.activeBits == 0 then s.pmr else s.initMask, s.nsMask, pri))
  }

  function DeactivateStep(cfg: Config, s: Pe, pri: nat, runPri: nat): (r: Option<Pe>)
    requires ConfigOk(cfg) && PeOk(s)
  {
    if pri >= runPri || !IdxOk(cfg, pri) then None
    else if s.activeBits == 0 || PriToIdx(cfg, pri) != Ctz(s.activeBits) then None
    else
      var bits := And(s.activeBits, s.activeBits - 1);
      if s.pmr > pri then None
      else Some(s.(activeBits := bits, pmr := if bits == 0 then s.initMask else pri))
  }

  function ExitedNormalStep(s: Pe, runPri: nat): (r: Option<Pe>)
    requires PeOk(s)
  {
    if IsSecure(runPri) || s.activeBits != 0 then Some(s)
    else if s.nsMask != 0 || IsSecure(s.pmr) then None
    else Some(s.(nsMask := s.pmr, pmr := HIGHEST_NS_PRIORITY))
  }

  function EnteringNormalStep(s: Pe, runPri: nat): (r: Option<Pe>)
    requires PeOk(s)
  {
    if IsSecure(runPri) || s.activeBits != 0 || s.nsMask == 0 then Some(s)
    else if s.pmr != HIGHEST_NS_PRIORITY && s.pmr != s.nsMask then None
    else Some(s.(nsMask := 0, pmr := s.nsMask))
  }

  function AllowPreemptionStep(s: Pe): (r: Option<Pe>)
    requires PeOk(s)
  {
    if s.nsMask == 0 || s.activeBits != 0 then None else Some(s.(nsMask := 0, pmr := s.nsMask))
  }

  /** The interrupt controller reports running priorities as bytes. */
  predicate OpOk(op: Op) {
    op.Activate? || op.Deactivate? ==> op.runPri < 256
  }

  function Step(cfg: Config, s: Pe, op: Op): (r: Option<Pe>)
    requires ConfigOk(cfg) && PeOk(s) && OpOk(op)
    ensures r.Some? ==> PeOk(r.value)
  {
    match op
    case Activate(pri, runPri) => ActivateFits(cfg, s, pri, runPri); ActivateStep(cfg, s, pri, runPri)
    case Deactivate(pri, runPri) => DeactivateStep(cfg, s, pri, runPri)
    case ExitedNormal(runPri) => ExitedNormalStep(s, runPri)
    case EnteringNormal(runPri) => EnteringNormalStep(s, runPri)
    case AllowPreemption => AllowPreemptionStep(s)
  }

  lemma {:induction false} ActivateFits(cfg: Config, s: Pe, pri: nat, runPri: nat)
    requires ConfigOk(cfg) && PeOk(s) && runPri < 256
    ensures ActivateStep(cfg, s, pri, runPri).Some? ==> PeOk(ActivateStep(cfg, s, pri, runPri).value)
  {
    if ActivateStep(cfg, s, pri, runPri).Some? {
      Pow2Grows(PriToIdx(cfg, pri), PRI_BITS_WIDTH);
      OrBelow(s.activeBits, Pow2(PriToIdx(cfg, pri)), PRI_BITS_WIDTH);
    }
  }

  /** A run of calls; `None` once one of them panics. */
  function Run(cfg: Config, s: Pe, ops: seq<Op>): (r: Option<Pe>)
    requires ConfigOk(cfg) && PeOk(s) && forall op :: op in ops ==> OpOk(op)
    ensures r.Some? ==> PeOk(r.value)
    decreases |ops|
  {
    if |ops| == 0 then Some(s)
    else
      match Step(cfg, s, ops[0])
      case None => None
      case Some(t) => Run(cfg, t, ops[1..])
  }

  // ----- the Non-secure mask is conserved

  /** The mask the normal world is to see again: the stashed one, else the one saved before the first
      activation, else the one in force. */
  function NsView(s: Pe): nat {
    if s.nsMask != 0 then s.nsMask else if s.activeBits != 0 then s.initMask else s.pmr
  }

  lemma {:induction false} StepConserves(cfg: Config, s: Pe, op: Op)
    requires ConfigOk(cfg) && PeOk(s) && OpOk(op) && Step(cfg, s, op).Some?
    ensures NsView(Step(cfg, s, op).value) == NsView(s)
  {
    if op.Activate? {
      SetBelow(s.activeBits, PriToIdx(cfg, op.pri), 0);
    }
  }

  lemma {:induction false} MaskConserved(cfg: Config, s: Pe, ops: seq<Op>)
    requires ConfigOk(cfg) && PeOk(s) && forall op :: op in ops ==> OpOk(op)
    requires Run(cfg, s, ops).Some?
    ensures NsView(Run(cfg, s, ops).value) == NsView(s)
    decreases |ops|
  {
    if |ops| > 0 {
      StepConserves(cfg, s, ops[0]);
      MaskConserved(cfg, Step(cfg, s, ops[0]).value, ops[1..]);
    }
  }

  // ----- the bitmap is a stack

  /** The stack a run of calls describes, most urgent level first: a push must be more urgent than the top,
      a pop must name the top. */
  function StackAfter(cfg: Config, stack: seq<nat>, ops: seq<Op>): (r: Option<seq<nat>>)
    requires cfg.priBits <= 7
    decreases |ops|
  {
    if |ops| == 0 then Some(stack)
    else
      match ops[0]
      case Activate(pri, _) =>
        if |stack| > 0 && stack[0] <= PriToIdx(cfg, pri) then None
        else StackAfter(cfg, [PriToIdx(cfg, pri)] + stack, ops[1..])
      case Deactivate(pri, _) =>
        if |stack| == 0 || stack[0] != PriToIdx(cfg, pri) then None else StackAfter(cfg, stack[1..], ops[1..])
      case _ => StackAfter(cfg, stack, ops[1..])
  }

  /** Every run that does not panic is a correct use of that stack, and the bitmap ends up holding it. */
  lemma {:induction false} BitmapIsStack(cfg: Config, s: Pe, ops: seq<Op>)
    requires ConfigOk(cfg) && PeOk(s) && forall op :: op in ops ==> OpOk(op)
    requires Run(cfg, s, ops).Some?
    ensures StackAfter(cfg, Levels(s.activeBits), ops) == Some(Levels(Run(cfg, s, ops).value.activeBits))
    decreases |ops|
  {
    if |ops| > 0 {
      BitmapIsStack(cfg, Step(cfg, s, ops[0]).value, ops[1..]);
      StepIsStack(cfg, s, ops[0]);
    }
  }

  /** One call that does not panic: a push of a more urgent level, a pop of the top, or neither. */
  lemma {:induction false} StepIsStack(cfg: Config, s: Pe, op: Op)
    requires ConfigOk(cfg) && PeOk(s) && OpOk(op) && Step(cfg, s, op).Some?
    ensures var stack, after := Levels(s.activeBits), Levels(Step(cfg, s, op).value.activeBits);
      match op
      case Activate(pri, _) =>
        (|stack| == 0 || PriToIdx(cfg, pri) < stack[0]) && after == [PriToIdx(cfg, pri)] + stack
      case Deactivate(pri, _) => |stack| > 0 && stack[0] == PriToIdx(cfg, pri) && after == stack[1..]
      case _ => after == stack
  {
    if op.Activate? {
      SetBelow(s.activeBits, PriToIdx(cfg, op.pri), 0);
    } else if op.Deactivate? {
      ClearLowest(s.activeBits, 0);
    }
  }

  /** The stacked levels strictly gain urgency towards the top, and all fit the bitmap. */
  lemma {:induction false} StackOrdered(s: Pe)
    requires PeOk(s)
    ensures forall i, j :: 0 <= i < j < |Levels(s.activeBits)| ==> Levels(s.activeBits)[i] < Levels(s.activeBits)[j]
    ensures forall i :: 0 <= i < |Levels(s.activeBits)| ==> Levels(s.activeBits)[i] < PRI_BITS_WIDTH
  {
    LevelsAscend(s.activeBits, 0);
    LevelsBelow(s.activeBits, PRI_BITS_WIDTH, 0);
  }

  // ----- emptying the stack restores the mask

  /** Every call but the last leaves some level active. */
  ghost predicate ActiveUntilEnd(cfg: Config, s: Pe, ops: seq<Op>)
    requires ConfigOk(cfg) && PeOk(s) && forall op :: op in ops ==> OpOk(op)
    decreases |ops|
  {
    |ops| > 1 ==>
      && Step(cfg, s, ops[0]).Some?
      && Step(cfg, s, ops[0]).value.activeBits != 0
      && ActiveUntilEnd(cfg, Step(cfg, s, ops[0]).value, ops[1..])
  }

  lemma {:induction false} LastDeactivationRestores(cfg: Config, s: Pe, ops: seq<Op>)
    requires ConfigOk(cfg) && PeOk(s) && forall op :: op in ops ==> OpOk(op)
    requires s.activeBits != 0 && |ops| > 0 && ActiveUntilEnd(cfg, s, ops)
    requires Run(cfg, s, ops).Some? && Run(cfg, s, ops).value.activeBits == 0
    ensures Run(cfg, s, ops).value.pmr == s.initMask && Run(cfg, s, ops).value.nsMask == s.nsMask
    decreases |ops|
  {
    var t := Step(cfg, s, ops[0]).value;
    if ops[0].Activate? {
      SetBelow(s.activeBits, PriToIdx(cfg, ops[0].pri), 0);
    }
    if |ops| > 1 {
      LastDeactivationRestores(cfg, t, ops[1..]);
    } else {
      assert Run(cfg, t, ops[1..]) == Some(t);
    }
  }

  /** From the first activation to the deactivation that empties the stack, whatever happens in between,
      the controller's mask and the stashed mask come back to what they were. */
  lemma {:induction false} EpisodeRestoresMask(cfg: Config, s: Pe, ops: seq<Op>)
    requires ConfigOk(cfg) && PeOk(s) && forall op :: op in ops ==> OpOk(op)
    requires s.activeBits == 0 && |ops| > 1 && ops[0].Activate? && ActiveUntilEnd(cfg, s, ops)
    requires Run(cfg, s, ops).Some? && Run(cfg, s, ops).value.activeBits == 0
    ensures Run(cfg, s, ops).value == s.(initMask := Run(cfg, s, ops).value.initMask)
  {
    LastDeactivationRestores(cfg, Step(cfg, s, ops[0]).value, ops[1..]);
  }

  // ----- which calls panic, and what they program

  /** A priority selects the level whose range of low seven bits it lies in. */
  lemma {:induction false} LevelOf(cfg: Config, pri: nat)
    requires cfg.priBits <= 7
    ensures var level, width := PriToIdx(cfg, pri), Pow2(7 - cfg.priBits);
      level * width <= pri % 128 < (level + 1) * width
  {
    var width := Pow2(7 - cfg.priBits);
    var q, r := pri % 128 / width, pri % 128 % width;
    assert pri % 128 == q * width + r;
    assert (q + 1) * width == q * width + width;
  }

  /** In terms of the stack: an activation must be more urgent than the running priority, the mask in force and the top;
      a deactivation must name the top and not tighten the mask. Each programs the mask with its own priority, but the
      deactivation of the last level programs the mask saved at the first activation. */
  lemma {:induction false} PanicsUnless(cfg: Config, s: Pe, op: Op)
    requires ConfigOk(cfg) && PeOk(s) && OpOk(op) && (op.Activate? || op.Deactivate?)
    ensures var stack, level, r := Levels(s.activeBits), PriToIdx(cfg, op.pri), Step(cfg, s, op);
      var known := op.pri < op.runPri && level < cfg.numPriorities && level in cfg.valid;
      if op.Activate? then
        && (r.Some? <==> known && op.pri < s.pmr && (|stack| == 0 || level < stack[0]))
        && (r.Some? ==>
             && r.value.pmr == op.pri && r.value.nsMask == s.nsMask
             && r.value.initMask == if |stack| == 0 then s.pmr else s.initMask)
      else
        && (r.Some? <==> known && s.pmr <= op.pri && |stack| > 0 && level == stack[0])
        && (r.Some? ==>
             && r.value.pmr == (if |stack| == 1 then s.initMask else op.pri)
             && r.value.nsMask == s.nsMask && r.value.initMask == s.initMask)
  {
    if op.Deactivate? && s.activeBits > 0 {
      ClearLowest(s.activeBits, 0);
    }
  }

  // ----- leaving and entering the normal world

  /** With a running priority that is not secure (bit 7 set) and no level active, leaving the normal world stashes the
      mask and programs 0x80, and entering it or allowing preemption puts a stashed mask back in force and clears the
      stash. With a secure running priority or an active level, leaving and entering do nothing. */
  lemma {:induction false} WorldSwitchMasks(cfg: Config, s: Pe, runPri: nat)
    requires ConfigOk(cfg) && PeOk(s)
    ensures var away, back := Step(cfg, s, ExitedNormal(runPri)), Step(cfg, s, EnteringNormal(runPri));
      if runPri / 128 % 2 == 0 || |Levels(s.activeBits)| > 0 then away == back == Some(s)
      else
        && away == (if s.nsMask == 0 && s.pmr >= 0x80 then Some(s.(nsMask := s.pmr, pmr := 0x80)) else None)
        && back == if s.nsMask == 0 then Some(s)
                   else if s.pmr == 0x80 || s.pmr == s.nsMask then Some(s.(nsMask := 0, pmr := s.nsMask)) else None
    ensures Step(cfg, s, AllowPreemption) ==
      if s.nsMask != 0 && |Levels(s.activeBits)| == 0 then Some(s.(nsMask := 0, pmr := s.nsMask)) else None
  {
    assert s.pmr / 128 % 2 == 0 <==> s.pmr < 0x80;
  }

  /** The mask in force while no level is active is 0x80. */
  predicate Masked(s: Pe) { (if s.activeBits == 0 then s.pmr else s.initMask) == 0x80 }

  /** The call does not hand the mask back. */
  predicate StaysAway(op: Op) { !op.EnteringNormal? && !op.AllowPreemption? }

  lemma {:induction false} StepStaysMasked(cfg: Config, s: Pe, op: Op)
    requires ConfigOk(cfg) && PeOk(s) && OpOk(op) && StaysAway(op) && s.nsMask != 0 && Masked(s)
    requires Step(cfg, s, op).Some?
    ensures var t := Step(cfg, s, op).value; t.nsMask == s.nsMask && Masked(t)
  {
    if op.Activate? {
      SetBelow(s.activeBits, PriToIdx(cfg, op.pri), 0);
    }
  }

  lemma {:induction false} RunStaysMasked(cfg: Config, s: Pe, ops: seq<Op>)
    requires ConfigOk(cfg) && PeOk(s) && forall op :: op in ops ==> OpOk(op) && StaysAway(op)
    requires s.nsMask != 0 && Masked(s) && Run(cfg, s, ops).Some?
    ensures var t := Run(cfg, s, ops).value; t.nsMask == s.nsMask && Masked(t)
    decreases |ops|
  {
    if |ops| > 0 {
      StepStaysMasked(cfg, s, ops[0]);
      RunStaysMasked(cfg, Step(cfg, s, ops[0]).value, ops[1..]);
    }
  }

  /** From the moment the normal world is left until it is entered or preemption is allowed, whatever levels are
      activated and deactivated: with none active the mask is 0x80, so that no Non-secure interrupt gets through. Then
      entering the normal world does not panic, and the mask is the one that was left. */
  lemma {:induction false} MaskedUntilReturn(cfg: Config, s: Pe, out: nat, ops: seq<Op>, back: nat)
    requires ConfigOk(cfg) && PeOk(s) && forall op :: op in ops ==> OpOk(op) && StaysAway(op)
    requires s.activeBits == 0 && out / 128 % 2 == 1 && back / 128 % 2 == 1
    requires Step(cfg, s, ExitedNormal(out)).Some? && Run(cfg, Step(cfg, s, ExitedNormal(out)).value, ops).Some?
    requires Run(cfg, Step(cfg, s, ExitedNormal(out)).value, ops).value.activeBits == 0
    ensures var t := Run(cfg, Step(cfg, s, ExitedNormal(out)).value, ops).value;
      && t.pmr == 0x80 && t.nsMask == s.pmr
      && Step(cfg, t, EnteringNormal(back)) == Some(t.(nsMask := 0, pmr := s.pmr))
  {
    WorldSwitchMasks(cfg, s, out);
    var away := Step(cfg, s, ExitedNormal(out)).value;
    RunStaysMasked(cfg, away, ops);
    WorldSwitchMasks(cfg, Run(cfg, away, ops).value, back);
  }

  // ----- how restrictive the programmed mask is

  /** No level that is less urgent than the most urgent active one gets through the mask. */
  predicate Restrictive(cfg: Config, s: Pe)
    requires cfg.priBits <= 7
  {
    s.activeBits != 0 ==> s.pmr < 128 && PriToIdx(cfg, s.pmr) <= Ctz(s.activeBits)
  }

  /** A call that changes the stack leaves the mask restrictive exactly when its priority argument is in
      the secure range: only the low seven bits select the level, but all eight go into the mask. */
  lemma {:induction false} RestrictiveIff(cfg: Config, s: Pe, op: Op)
    requires ConfigOk(cfg) && PeOk(s) && OpOk(op) && (op.Activate? || op.Deactivate?)
    requires Step(cfg, s, op).Some? && Step(cfg, s, op).value.activeBits != 0
    ensures Restrictive(cfg, Step(cfg, s, op).value) <==> op.pri < 128
  {
    var t := Step(cfg, s, op).value;
    if op.Activate? {
      SetBelow(s.activeBits, PriToIdx(cfg, op.pri), 0);
    } else {
      ClearLowest(s.activeBits, 0);
      LevelsAscend(s.activeBits, 0);
      assert Levels(t.activeBits)[0] == Levels(s.activeBits)[1];
    }
  }

  const LAX_CONFIG: Config := Config(8, 3, {1, 2})

  lemma {:induction false} SmallPowers()
    ensures Pow2(1) == 2 && Pow2(2) == 4 && Pow2(3) == 8 && Pow2(4) == 16 && Pow2(PRI_BITS_WIDTH) > 8
  {
    assert Pow2(2) == 2 * Pow2(1) && Pow2(3) == 2 * Pow2(2) && Pow2(4) == 2 * Pow2(3);
    Pow2Grows(4, PRI_BITS_WIDTH);
  }

  lemma {:induction false} LaxFirst()
    ensures Pow2(PRI_BITS_WIDTH) > 8
    ensures Step(LAX_CONFIG, Pe(0, 0, 0, 0xff), Activate(0x20, 0xff)) == Some(Pe(4, 0xff, 0, 0x20))
  {
    SmallPowers();
  }

  lemma {:induction false} LaxSecond()
    ensures Pow2(PRI_BITS_WIDTH) > 8
    ensures Step(LAX_CONFIG, Pe(4, 0xff, 0, 0x20), Activate(0x10, 0xff)) == Some(Pe(6, 0xff, 0, 0x10))
  {
    SmallPowers();
    assert Ctz(4) == 2 && Or(4, 2) == 6;
  }

  lemma {:induction false} LaxThird()
    ensures Pow2(PRI_BITS_WIDTH) > 8
    ensures Step(LAX_CONFIG, Pe(6, 0xff, 0, 0x10), Deactivate(0x90, 0xff)) == Some(Pe(4, 0xff, 0, 0x90))
  {
    SmallPowers();
    assert Ctz(6) == 1 && And(6, 5) == 4;
  }

  /** A run that ends with a lax mask: two nested levels, the inner one deactivated by a priority with bit 7 set. */
  lemma {:induction false} LaxMaskExample()
    ensures var s, ops := Pe(0, 0, 0, 0xff), [Activate(0x20, 0xff), Activate(0x10, 0xff), Deactivate(0x90, 0xff)];
      && PeOk(s) && Run(LAX_CONFIG, s, ops) == Some(Pe(4, 0xff, 0, 0x90))
      && !Restrictive(LAX_CONFIG, Pe(4, 0xff, 0, 0x90))
  {
    LaxFirst();
    LaxSecond();
    LaxThird();
    ThreeSteps(LAX_CONFIG, Pe(0, 0, 0, 0xff), Pe(4, 0xff, 0, 0x20), Pe(6, 0xff, 0, 0x10), Pe(4, 0xff, 0, 0x90),
               Activate(0x20, 0xff), Activate(0x10, 0xff), Deactivate(0x90, 0xff));
  }

  lemma {:induction false} ThreeSteps(cfg: Config, s: Pe, s1: Pe, s2: Pe, s3: Pe, a: Op, b: Op, c: Op)
    requires ConfigOk(cfg) && PeOk(s) && PeOk(s1) && PeOk(s2) && OpOk(a) && OpOk(b) && OpOk(c)
    requires Step(cfg, s, a) == Some(s1) && Step(cfg, s1, b) == Some(s2) && Step(cfg, s2, c) == Some(s3)
    ensures Run(cfg, s, [a, b, c]) == Some(s3)
  {
    assert [a, b, c][1..] == [b, c] && [b, c][1..] == [c] && [c][1..] == [];
    assert Run(cfg, s2, [c]) == Some(s3);
    assert Run(cfg, s1, [b, c]) == Some(s3);
  }

  predicate SecureArgs(op: Op) {
    op.Activate? || op.Deactivate? ==> op.pri < 128
  }

  /** Over every run with secure priorities the mask never lets a less urgent level in. */
  lemma {:induction false} MaskStaysRestrictive(cfg: Config, s: Pe, ops: seq<Op>)
    requires ConfigOk(cfg) && PeOk(s) && forall op :: op in ops ==> OpOk(op) && SecureArgs(op)
    requires Restrictive(cfg, s) && Run(cfg, s, ops).Some?
    ensures Restrictive(cfg, Run(cfg, s, ops).value)
    decreases |ops|
  {
    if |ops| > 0 {
      var t := Step(cfg, s, ops[0]).value;
      if t.activeBits != 0 && (ops[0].Activate? || ops[0].Deactivate?) {
        RestrictiveIff(cfg, s, ops[0]);
      }
      MaskStaysRestrictive(cfg, t, ops[1..]);
    }
  }

  // ----- the framework with its fields

  class ExceptionFramework {
    const cfg: Config
    var activeBits: nat
    var initMask: nat
    var nsMask: nat
    var pmr: nat

    ghost function State(): Pe
      reads this
    {
      Pe(activeBits, initMask, nsMask, pmr)
    }

    ghost predicate Valid()
      reads this
    {
      ConfigOk(cfg) && PeOk(State())
    }

    constructor (cfg: Config, pmr: nat)
      requires ConfigOk(cfg) && pmr < 256
      ensures Valid() && this.cfg == cfg && State() == Pe(0, 0, 0, pmr)
    {
      this.cfg := cfg;
      this.activeBits, this.initMask, this.nsMask, this.pmr := 0, 0, 0, pmr;
      new;
      assert Pow2(0) > 0;
      Pow2Grows(0, PRI_BITS_WIDTH);
    }

    /** Programs the mask and returns the old one. */
    method SetPriorityMask(mask: nat) returns (oldMask: nat)
      modifies this`pmr
      ensures oldMask == old(pmr) && pmr == mask
    {
      oldMask := pmr;
      pmr := mask;
    }

    method ActivateStepwise(pri: nat, runPri: nat) returns (ok: bool)
      requires Valid() && runPri < 256
      modifies this
      ensures ok <==> ActivateStep(cfg, old(State()), pri, runPri).Some?
      ensures ok ==> Valid() && State() == ActivateStep(cfg, old(State()), pri, runPri).value
    {
      ActivateFits(cfg, State(), pri, runPri);
      if pri >= runPri || !IdxOk(cfg, pri) {
        return false;
      }
      var idx, idle := PriToIdx(cfg, pri), activeBits == 0;
      if !idle && idx >= Ctz(activeBits) {
        return false;
      }
      activeBits := Or(activeBits, Pow2(idx));
      var oldMask := SetPriorityMask(pri);
      if pri >= oldMask {
        return false;
      }
      if idle {
        initMask := oldMask % 256;
      }
      return true;
    }

    method ActivatePriority(pri: nat, runPri: nat) returns (ok: bool)
      requires Valid() && runPri < 256
      modifies this
      ensures ok <==> ActivateStep(cfg, old(State()), pri, runPri).Some?
      ensures ok ==> Valid() && State() == ActivateStep(cfg, old(State()), pri, runPri).value
      ensures ok ==> NsView(State()) == old(NsView(State()))
      ensures ok ==> Levels(activeBits) == [PriToIdx(cfg, pri)] + old(Levels(activeBits))
    {
      ghost var op := Activate(pri, runPri);
      if Step(cfg, State(), op).Some? {
        StepConserves(cfg, State(), op);
        SetBelow(activeBits, PriToIdx(cfg, pri), 0);
      }
      ok := ActivateStepwise(pri, runPri);
    }

    method DeactivateStepwise(pri: nat, runPri: nat) returns (ok: bool)
      requires Valid() && runPri < 256
      modifies this
      ensures ok <==> DeactivateStep(cfg, old(State()), pri, runPri).Some?
      ensures ok ==> Valid() && State() == DeactivateStep(cfg, old(State()), pri, runPri).value
    {
      if pri >= runPri || !IdxOk(cfg, pri) {
        return false;
      }
      if activeBits == 0 || PriToIdx(cfg, pri) != Ctz(activeBits) {
        return false;
      }
      activeBits := And(activeBits, activeBits - 1);
      var oldMask;
      if activeBits == 0 {
        oldMask := SetPriorityMask(initMask);
      } else {
        oldMask := SetPriorityMask(pri);
      }
      return oldMask <= pri;
    }

    method DeactivatePriority(pri: nat, runPri: nat) returns (ok: bool)
      requires Valid() && runPri < 256
      modifies this
      ensures ok <==> DeactivateStep(cfg, old(State()), pri, runPri).Some?
      ensures ok ==> Valid() && State() == DeactivateStep(cfg, old(State()), pri, runPri).value
      ensures ok ==> NsView(State()) == old(NsView(State())) && Levels(activeBits) == old(Levels(activeBits))[1..]
    {
      ghost var op := Deactivate(pri, runPri);
      if Step(cfg, State(), op).Some? {
        StepConserves(cfg, State(), op);
        ClearLowest(activeBits, 0);
      }
      ok := DeactivateStepwise(pri, runPri);
    }

    method ExitedNormalWorld(runPri: nat) returns (ok: bool)
      requires Valid()
      modifies this
      ensures ok <==> ExitedNormalStep(old(State()), runPri).Some?
      ensures ok ==> Valid() && State() == ExitedNormalStep(old(State()), runPri).value
      ensures ok ==> NsView(State()) == old(NsView(State())) && activeBits == old(activeBits)
      ensures ok && runPri / 128 % 2 == 1 && old(activeBits) == 0 ==> nsMask == old(pmr) && pmr == 0x80
    {
      ghost var op := ExitedNormal(runPri);
      if Step(cfg, State(), op).Some? {
        StepConserves(cfg, State(), op);
      }
      if IsSecure(runPri) || activeBits != 0 {
        return true;
      }
      if nsMask != 0 {
        return false;
      }
      var oldMask := SetPriorityMask(HIGHEST_NS_PRIORITY);
      nsMask := oldMask % 256;
      return !IsSecure(nsMask);
    }

    method EnteringNormalWorld(runPri: nat) returns (ok: bool)
      requires Valid()
      modifies this
      ensures ok <==> EnteringNormalStep(old(State()), runPri).Some?
      ensures ok ==> Valid() && State() == EnteringNormalStep(old(State()), runPri).value
      ensures ok ==> NsView(State()) == old(NsView(State())) && activeBits == old(activeBits)
      ensures ok && runPri / 128 % 2 == 1 && old(activeBits) == 0 && old(nsMask) != 0 ==>
        nsMask == 0 && pmr == old(nsMask)
    {
      ghost var op := EnteringNormal(runPri);
      if Step(cfg, State(), op).Some? {
        StepConserves(cfg, State(), op);
      }
      if IsSecure(runPri) || activeBits != 0 || nsMask == 0 {
        return true;
      }
      var oldMask := SetPriorityMask(nsMask);
      if oldMask != HIGHEST_NS_PRIORITY && oldMask != nsMask {
        return false;
      }
      nsMask := 0;
      return true;
    }

    method AllowNsPreemption() returns (ok: bool)
      requires Valid()
      modifies this
      ensures ok <==> AllowPreemptionStep(old(State())).Some?
      ensures ok ==> Valid() && State() == AllowPreemptionStep(old(State())).value
      ensures ok ==> NsView(State()) == old(NsView(State())) && activeBits == old(activeBits)
      ensures ok ==> nsMask == 0 && pmr == old(nsMask)
    {
      ghost var op := AllowPreemption;
      if Step(cfg, State(), op).Some? {
        StepConserves(cfg, State(), op);
      }
      if nsMask == 0 || activeBits != 0 {
        return false;
      }
      var _ := SetPriorityMask(nsMask);
      nsMask := 0;
      return true;
    }
  }
}
