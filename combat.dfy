/** The damage rule of src/combat.rs. Entities that may take damage
    (`targets`) and entities that deal it (`sources`) are listed with the
    components the two queries of `deal_damage` look at; the hit points
    inside the targets' `Health(i8)` components form the array `health`. The physics engine's
    intersection test is the parameter `intersecting`, and the commands the
    system queues are returned as a list. */
module Combat {
  import opened Wrappers
  import opened RustInts

  type EntityId = nat

  /** What a damage source does to the entities it touches. */
  datatype Damage = Kill | Fixed(amount: i8)

  /** An entity with `Health`, with the components the query filters on. */
  datatype Target = Target(id: EntityId, hasSensor: bool, hasCollider: bool, hasIframes: bool)

  /** An entity with `Damage`, with the components the query filters on. */
  datatype DamageSource = DamageSource(id: EntityId, damage: Damage, hasSensor: bool, hasCollider: bool)

  /** A queued command: grant invincibility frames for a hit of `amount`,
      or despawn an entity with its children. */
  datatype Command = InsertIframes(entity: EntityId, amount: i8) | DespawnRecursive(entity: EntityId)

  /** The health query visits only entities with a collider and without
      invincibility frames. */
  predicate Queried(t: Target) {
    t.hasCollider && !t.hasIframes
  }

  /** A source hits a target when it has a collider, is another entity, one
      of the two is a sensor, and the physics engine reports them
      intersecting. */
  predicate Hits(t: Target, s: DamageSource, intersecting: (EntityId, EntityId) -> bool) {
    && s.hasCollider
    && t.id != s.id
    && (t.hasSensor || s.hasSensor)
    && intersecting(t.id, s.id)
  }

  /** One iteration of the inner loop: the target's new health and the
      commands it queues, or `None` when `hp - d` overflows `i8`. */
  function Hit(hp: i8, t: Target, s: DamageSource, intersecting: (EntityId, EntityId) -> bool)
    : Option<(i8, seq<Command>)>
  {
    if !Hits(t, s, intersecting) then Some((hp, []))
    else match s.damage
      case Kill => Some((0, []))
      case Fixed(d) =>
        match CheckedSubI8(hp, d)
        case None => None
        case Some(h) => Some((h, if d > 0 then [InsertIframes(t.id, d)] else []))
  }

  /** The inner loop over all damage sources, in order. */
  function Apply(hp: i8, t: Target, sources: seq<DamageSource>, intersecting: (EntityId, EntityId) -> bool)
    : Option<(i8, seq<Command>)>
  {
    if |sources| == 0 then Some((hp, []))
    else match Apply(hp, t, sources[..|sources| - 1], intersecting)
      case None => None
      case Some((h, cmds)) =>
        match Hit(h, t, sources[|sources| - 1], intersecting)
        case None => None
        case Some((h', more)) => Some((h', cmds + more))
  }

  /** The whole body of the outer loop for one visited target: the inner
      loop, then a despawn when health is at most 0. */
  function TargetPass(hp: i8, t: Target, sources: seq<DamageSource>, intersecting: (EntityId, EntityId) -> bool)
    : Option<(i8, seq<Command>)>
  {
    match Apply(hp, t, sources, intersecting)
    case None => None
    case Some((h, cmds)) => Some((h, if h <= 0 then cmds + [DespawnRecursive(t.id)] else cmds))
  }

  /** `deal_damage` over all targets, in order: the new health of every
      target and all queued commands, or `None` if some subtraction
      overflows. Targets the query does not visit are left alone. */
  function Pass(targets: seq<Target>, hps: seq<i8>, sources: seq<DamageSource>, intersecting: (EntityId, EntityId) -> bool)
    : (r: Option<(seq<i8>, seq<Command>)>)
    requires |targets| == |hps|
    ensures r.Some? ==> |r.value.0| == |targets|
  {
    if |targets| == 0 then Some(([], []))
    else
      var n := |targets| - 1;
      match Pass(targets[..n], hps[..n], sources, intersecting)
      case None => None
      case Some((hs, cmds)) =>
        if !Queried(targets[n]) then Some((hs + [hps[n]], cmds))
        else match TargetPass(hps[n], targets[n], sources, intersecting)
          case None => None
          case Some((h, more)) => Some((hs + [h], cmds + more))
  }

  lemma {:induction false} ApplyNoneExtends(hp: i8, t: Target, sources: seq<DamageSource>, j: nat,
                                            intersecting: (EntityId, EntityId) -> bool)
    requires j <= |sources| && Apply(hp, t, sources[..j], intersecting).None?
    ensures Apply(hp, t, sources, intersecting).None?
    decreases |sources| - j
  {
    if j < |sources| {
      assert sources[..j + 1][..j] == sources[..j];
      ApplyNoneExtends(hp, t, sources, j + 1, intersecting);
    } else {
      assert sources[..j] == sources;
    }
  }

  lemma {:induction false} PassNoneExtends(targets: seq<Target>, hps: seq<i8>, i: nat, sources: seq<DamageSource>,
                                           intersecting: (EntityId, EntityId) -> bool)
    requires |targets| == |hps| && i <= |targets|
    requires Pass(targets[..i], hps[..i], sources, intersecting).None?
    ensures Pass(targets, hps, sources, intersecting).None?
    decreases |targets| - i
  {
    if i < |targets| {
      assert targets[..i + 1][..i] == targets[..i];
      assert hps[..i + 1][..i] == hps[..i];
      PassNoneExtends(targets, hps, i + 1, sources, intersecting);
    } else {
      assert targets[..i] == targets && hps[..i] == hps;
    }
  }

  /** The inner loop of `deal_damage` for the target at index `i`: every
      source that hits it is applied in order to `health[i]`, and a command
      granting invincibility frames is queued for each positive fixed hit.
      `ok` is false when a subtraction overflows `i8`. */
  method ApplySources(t: Target, health: array<i8>, i: nat, sources: seq<DamageSource>,
                      intersecting: (EntityId, EntityId) -> bool, cmds0: seq<Command>)
    returns (cmds: seq<Command>, ok: bool)
    requires i < health.Length
    modifies health
    ensures forall k :: 0 <= k < health.Length && k != i ==> health[k] == old(health[k])
    ensures ok <==> Apply(old(health[i]), t, sources, intersecting).Some?
    ensures ok ==> |cmds0| <= |cmds| && cmds[..|cmds0|] == cmds0
    ensures ok ==> Apply(old(health[i]), t, sources, intersecting) == Some((health[i], cmds[|cmds0|..]))
  {
    cmds := cmds0;
    ghost var granted: seq<Command> := [];
    for j := 0 to |sources|
      invariant forall k :: 0 <= k < health.Length && k != i ==> health[k] == old(health[k])
      invariant cmds == cmds0 + granted
      invariant Apply(old(health[i]), t, sources[..j], intersecting) == Some((health[i], granted))
    {
      assert sources[..j + 1][..j] == sources[..j];
      var s := sources[j];
      ghost var before, granted0 := health[i], granted;
      if Hits(t, s, intersecting) {
        match s.damage
        case Kill =>
          health[i] := 0;
          assert granted == granted0 + [];
        case Fixed(d) =>
          var r := CheckedSubI8(health[i], d);
          if r.None? {
            assert Apply(old(health[i]), t, sources[..j + 1], intersecting).None?;
            ApplyNoneExtends(old(health[i]), t, sources, j + 1, intersecting);
            return cmds, false;
          }
          health[i] := r.value;
          if d > 0 {
            cmds := cmds + [InsertIframes(t.id, d)];
            granted := granted + [InsertIframes(t.id, d)];
            assert Hit(before, t, s, intersecting) == Some((health[i], [InsertIframes(t.id, d)]));
          } else {
            assert Hit(before, t, s, intersecting) == Some((health[i], []));
            assert granted == granted0 + [];
          }
      } else {
        assert granted == granted0 + [];
      }
    }
    assert sources[..|sources|] == sources;
    assert cmds[..|cmds0|] == cmds0 && cmds[|cmds0|..] == granted;
    return cmds, true;
  }

  /** `deal_damage`: for every visited target, every source that hits it
      is applied in order to its health, invincibility frames are queued
      for each positive fixed hit, and the target is despawned when its
      health ends at or below 0. `ok` is false when a subtraction
      overflows `i8`. */
  method DealDamage(targets: seq<Target>, health: array<i8>, sources: seq<DamageSource>,
                    intersecting: (EntityId, EntityId) -> bool)
    returns (cmds: seq<Command>, ok: bool)
    requires health.Length == |targets|
    modifies health
    ensures ok <==> Pass(targets, old(health[..]), sources, intersecting).Some?
    ensures ok ==> Pass(targets, old(health[..]), sources, intersecting) == Some((health[..], cmds))
  {
    ghost var hps := health[..];
    cmds := [];
    for i := 0 to |targets|
      invariant forall k :: i <= k < |targets| ==> health[k] == hps[k]
      invariant Pass(targets[..i], hps[..i], sources, intersecting) == Some((health[..i], cmds))
    {
      assert targets[..i + 1][..i] == targets[..i] && hps[..i + 1][..i] == hps[..i];
      assert targets[..i + 1][i] == targets[i] && hps[..i + 1][i] == hps[i];
      var t := targets[i];
      if !Queried(t) {
        assert health[..i + 1] == health[..i] + [hps[i]];
        continue;
      }
      ghost var cmds0, done, hp0 := cmds, health[..i], health[i];
      assert hp0 == hps[i];
      var applied;
      cmds, applied := ApplySources(t, health, i, sources, intersecting, cmds);
      if !applied {
        assert Pass(targets[..i + 1], hps[..i + 1], sources, intersecting).None?;
        PassNoneExtends(targets, hps, i + 1, sources, intersecting);
        return cmds, false;
      }
      assert health[..i] == done;
      ghost var granted := cmds[|cmds0|..];
      ghost var despawn := if health[i] <= 0 then [DespawnRecursive(t.id)] else [];
      assert Apply(hp0, t, sources, intersecting) == Some((health[i], granted));
      assert granted + despawn == if health[i] <= 0 then granted + [DespawnRecursive(t.id)] else granted;
      assert TargetPass(hps[i], t, sources, intersecting) == Some((health[i], granted + despawn));
      if health[i] <= 0 {
        cmds := cmds + [DespawnRecursive(t.id)];
      }
      assert cmds == cmds0 + (granted + despawn);
      assert health[..i + 1] == done + [health[i]];
    }
    assert targets[..|targets|] == targets && hps[..|targets|] == hps && health[..|targets|] == health[..];
    return cmds, true;
  }

  // Properties of one pass, stated on the specification functions.

  /** The health a target reaches after the sources, in unbounded integers:
      a hit by `Kill` sets it to 0 and a hit by `Fixed(d)` subtracts `d`. */
  function HpAfter(hp: int, t: Target, sources: seq<DamageSource>, intersecting: (EntityId, EntityId) -> bool): int {
    if |sources| == 0 then hp
    else
      var h := HpAfter(hp, t, sources[..|sources| - 1], intersecting);
      var s := sources[|sources| - 1];
      if !Hits(t, s, intersecting) then h
      else match s.damage
        case Kill => 0
        case Fixed(d) => h - d
  }

  /** The invincibility grants the sources cause: one per hit by a positive
      fixed amount, in order. */
  function Grants(t: Target, sources: seq<DamageSource>, intersecting: (EntityId, EntityId) -> bool): seq<Command> {
    if |sources| == 0 then []
    else
      var s := sources[|sources| - 1];
      Grants(t, sources[..|sources| - 1], intersecting)
        + (if Hits(t, s, intersecting) && s.damage.Fixed? && s.damage.amount > 0
           then [InsertIframes(t.id, s.damage.amount)] else [])
  }

  /** The inner loop panics exactly when the health leaves the `i8` range
      after some prefix of the sources; otherwise it ends at `HpAfter` and
      queues exactly `Grants`. */
  lemma {:induction false} ApplyMatchesReference(hp: i8, t: Target, sources: seq<DamageSource>,
                                                 intersecting: (EntityId, EntityId) -> bool)
    ensures Apply(hp, t, sources, intersecting).Some?
      <==> forall j :: 0 <= j <= |sources| ==> IsI8(HpAfter(hp, t, sources[..j], intersecting))
    ensures Apply(hp, t, sources, intersecting).Some? ==>
      Apply(hp, t, sources, intersecting).value == (HpAfter(hp, t, sources, intersecting), Grants(t, sources, intersecting))
  {
    var n := |sources|;
    if n == 0 {
      assert sources[..0] == sources;
    } else {
      var pre := sources[..n - 1];
      ApplyMatchesReference(hp, t, pre, intersecting);
      assert forall j :: 0 <= j <= n - 1 ==> pre[..j] == sources[..j];
      assert sources[..n] == sources;
      if forall j :: 0 <= j <= n ==> IsI8(HpAfter(hp, t, sources[..j], intersecting)) {
        assert forall j :: 0 <= j <= n - 1 ==> IsI8(HpAfter(hp, t, pre[..j], intersecting));
      }
    }
  }

  /** The sum of the fixed amounts of the sources that hit the target. */
  function SumFixed(t: Target, sources: seq<DamageSource>, intersecting: (EntityId, EntityId) -> bool): int {
    if |sources| == 0 then 0
    else
      var s := sources[|sources| - 1];
      SumFixed(t, sources[..|sources| - 1], intersecting)
        + (if Hits(t, s, intersecting) && s.damage.Fixed? then s.damage.amount else 0)
  }

  /** Without a `Kill` hit, fixed hits add up: the health drops by the sum
      of their amounts, and a negative amount raises it. */
  lemma {:induction false} FixedHitsAccumulate(hp: int, t: Target, sources: seq<DamageSource>,
                                               intersecting: (EntityId, EntityId) -> bool)
    requires forall j :: 0 <= j < |sources| && Hits(t, sources[j], intersecting) ==> sources[j].damage.Fixed?
    ensures HpAfter(hp, t, sources, intersecting) == hp - SumFixed(t, sources, intersecting)
  {
    if |sources| > 0 {
      var pre := sources[..|sources| - 1];
      assert forall j :: 0 <= j < |pre| ==> pre[j] == sources[j];
      FixedHitsAccumulate(hp, t, pre, intersecting);
    }
  }

  /** Applying two runs of sources one after the other. */
  lemma {:induction false} HpAfterAppend(hp: int, t: Target, a: seq<DamageSource>, b: seq<DamageSource>,
                                         intersecting: (EntityId, EntityId) -> bool)
    ensures HpAfter(hp, t, a + b, intersecting) == HpAfter(HpAfter(hp, t, a, intersecting), t, b, intersecting)
  {
    if |b| == 0 {
      assert a + b == a;
    } else {
      assert (a + b)[..|a + b| - 1] == a + b[..|b| - 1];
      HpAfterAppend(hp, t, a, b[..|b| - 1], intersecting);
    }
  }

  /** A `Kill` hit sets the health to 0 whatever came before, so only the
      hits after it count. */
  lemma KillResets(hp: int, t: Target, a: seq<DamageSource>, k: DamageSource, b: seq<DamageSource>,
                   intersecting: (EntityId, EntityId) -> bool)
    requires Hits(t, k, intersecting) && k.damage.Kill?
    ensures HpAfter(hp, t, a + [k] + b, intersecting) == HpAfter(0, t, b, intersecting)
  {
    HpAfterAppend(hp, t, a + [k], b, intersecting);
    assert (a + [k])[..|a + [k]| - 1] == a;
  }

  /** Invincibility frames are granted exactly when some hit is by a
      positive fixed amount, and every grant names the target with a
      positive amount. A `Kill` hit never grants any. */
  lemma {:induction false} GrantsExactly(t: Target, sources: seq<DamageSource>, intersecting: (EntityId, EntityId) -> bool)
    ensures |Grants(t, sources, intersecting)| > 0 <==>
      exists j :: 0 <= j < |sources| && Hits(t, sources[j], intersecting)
        && sources[j].damage.Fixed? && sources[j].damage.amount > 0
    ensures forall c :: c in Grants(t, sources, intersecting) ==>
      c.InsertIframes? && c.entity == t.id && c.amount > 0
  {
    if |sources| > 0 {
      var n := |sources| - 1;
      var pre := sources[..n];
      GrantsExactly(t, pre, intersecting);
      assert forall j :: 0 <= j < n ==> pre[j] == sources[j];
      if exists j :: 0 <= j < |sources| && Hits(t, sources[j], intersecting)
           && sources[j].damage.Fixed? && sources[j].damage.amount > 0 {
        var j :| 0 <= j < |sources| && Hits(t, sources[j], intersecting)
           && sources[j].damage.Fixed? && sources[j].damage.amount > 0;
        if j < n {
          assert pre[j] == sources[j];
        }
      }
    }
  }

  /** When no source hits the target, its health and the commands are
      unchanged. */
  lemma {:induction false} NoHitNoChange(hp: i8, t: Target, sources: seq<DamageSource>,
                                         intersecting: (EntityId, EntityId) -> bool)
    requires forall j :: 0 <= j < |sources| ==> !Hits(t, sources[j], intersecting)
    ensures Apply(hp, t, sources, intersecting) == Some((hp, []))
  {
    if |sources| > 0 {
      var pre := sources[..|sources| - 1];
      assert forall j :: 0 <= j < |pre| ==> pre[j] == sources[j];
      NoHitNoChange(hp, t, pre, intersecting);
      assert Hit(hp, t, sources[|sources| - 1], intersecting) == Some((hp, []));
      var none: seq<Command> := [];
      assert none + none == none;
    }
  }

  /** A visited target is despawned exactly when its health ends at or
      below 0, whether or not it was hit in this pass. */
  lemma DespawnIffDead(hp: i8, t: Target, sources: seq<DamageSource>, intersecting: (EntityId, EntityId) -> bool)
    requires TargetPass(hp, t, sources, intersecting).Some?
    ensures var r := TargetPass(hp, t, sources, intersecting).value;
      DespawnRecursive(t.id) in r.1 <==> r.0 <= 0
  {
    ApplyMatchesReference(hp, t, sources, intersecting);
    GrantsExactly(t, sources, intersecting);
  }

  /** Every command of a visited target's pass names that target. */
  lemma TargetPassNamesTarget(hp: i8, t: Target, sources: seq<DamageSource>, intersecting: (EntityId, EntityId) -> bool)
    requires TargetPass(hp, t, sources, intersecting).Some?
    ensures forall c :: c in TargetPass(hp, t, sources, intersecting).value.1 ==> c.entity == t.id
  {
    ApplyMatchesReference(hp, t, sources, intersecting);
    GrantsExactly(t, sources, intersecting);
  }

  /** Over a whole pass, with distinct entities: a target the query skips
      (no collider, or invincibility frames) keeps its health and no
      command names it; a visited target ends with the health of its own
      `TargetPass`. */
  lemma {:induction false} PassPerTarget(targets: seq<Target>, hps: seq<i8>, sources: seq<DamageSource>,
                                         intersecting: (EntityId, EntityId) -> bool)
    requires |targets| == |hps|
    requires forall i, j :: 0 <= i < j < |targets| ==> targets[i].id != targets[j].id
    requires Pass(targets, hps, sources, intersecting).Some?
    ensures var r := Pass(targets, hps, sources, intersecting).value;
      && |r.0| == |targets|
      && (forall i :: 0 <= i < |targets| && !Queried(targets[i]) ==>
            r.0[i] == hps[i] && forall c :: c in r.1 ==> c.entity != targets[i].id)
      && (forall i :: 0 <= i < |targets| && Queried(targets[i]) ==>
            TargetPass(hps[i], targets[i], sources, intersecting).Some?
            && r.0[i] == TargetPass(hps[i], targets[i], sources, intersecting).value.0)
      && (forall c :: c in r.1 ==> exists i :: 0 <= i < |targets| && Queried(targets[i]) && c.entity == targets[i].id)
  {
    var n := |targets|;
    if n > 0 {
      var m := n - 1;
      var tp, hp := targets[..m], hps[..m];
      assert forall i :: 0 <= i < m ==> tp[i] == targets[i] && hp[i] == hps[i];
      PassPerTarget(tp, hp, sources, intersecting);
      if Queried(targets[m]) {
        TargetPassNamesTarget(hps[m], targets[m], sources, intersecting);
      }
    }
  }

  /** The commands of `cmds` that name entity `id`, in order. */
  function Naming(cmds: seq<Command>, id: EntityId): seq<Command> {
    if |cmds| == 0 then []
    else
      var n := |cmds| - 1;
      Naming(cmds[..n], id) + (if cmds[n].entity == id then [cmds[n]] else [])
  }

  /** `Naming` keeps exactly the commands that name `id`. */
  lemma {:induction false} NamingMembers(cmds: seq<Command>, id: EntityId)
    ensures forall c :: c in Naming(cmds, id) <==> c in cmds && c.entity == id
  {
    if |cmds| > 0 {
      var n := |cmds| - 1;
      NamingMembers(cmds[..n], id);
      assert cmds == cmds[..n] + [cmds[n]];
    }
  }

  lemma {:induction false} NamingAppend(a: seq<Command>, b: seq<Command>, id: EntityId)
    ensures Naming(a + b, id) == Naming(a, id) + Naming(b, id)
  {
    if |b| == 0 {
      assert a + b == a;
    } else {
      var n := |b| - 1;
      assert (a + b)[..|a + b| - 1] == a + b[..n];
      NamingAppend(a, b[..n], id);
    }
  }

  lemma {:induction false} NamingAll(cmds: seq<Command>, id: EntityId)
    requires forall c :: c in cmds ==> c.entity == id
    ensures Naming(cmds, id) == cmds
  {
    if |cmds| > 0 {
      var n := |cmds| - 1;
      NamingAll(cmds[..n], id);
      assert cmds == cmds[..n] + [cmds[n]];
    }
  }

  lemma {:induction false} NamingNone(cmds: seq<Command>, id: EntityId)
    requires forall c :: c in cmds ==> c.entity != id
    ensures Naming(cmds, id) == []
  {
    if |cmds| > 0 {
      var n := |cmds| - 1;
      assert forall c :: c in cmds[..n] ==> c in cmds;
      NamingNone(cmds[..n], id);
    }
  }

  /** The commands the outer loop body queues for target `t`: those of its
      `TargetPass` when the query visits it, none otherwise. */
  function OwnCommands(hp: i8, t: Target, sources: seq<DamageSource>, intersecting: (EntityId, EntityId) -> bool)
    : seq<Command>
  {
    if Queried(t) && TargetPass(hp, t, sources, intersecting).Some?
    then TargetPass(hp, t, sources, intersecting).value.1
    else []
  }

  /** The last target's iteration appends its own commands. */
  lemma PassLast(targets: seq<Target>, hps: seq<i8>, sources: seq<DamageSource>,
                 intersecting: (EntityId, EntityId) -> bool)
    requires |targets| == |hps| && |targets| > 0
    requires Pass(targets, hps, sources, intersecting).Some?
    ensures var m := |targets| - 1;
      && Pass(targets[..m], hps[..m], sources, intersecting).Some?
      && Pass(targets, hps, sources, intersecting).value.1
        == Pass(targets[..m], hps[..m], sources, intersecting).value.1
          + OwnCommands(hps[m], targets[m], sources, intersecting)
  {
  }

  /** No command of a pass names an entity that is none of its targets. */
  lemma PassNamesNoOther(targets: seq<Target>, hps: seq<i8>, sources: seq<DamageSource>,
                         intersecting: (EntityId, EntityId) -> bool, id: EntityId)
    requires |targets| == |hps|
    requires forall i, j :: 0 <= i < j < |targets| ==> targets[i].id != targets[j].id
    requires Pass(targets, hps, sources, intersecting).Some?
    requires forall k :: 0 <= k < |targets| ==> targets[k].id != id
    ensures forall c :: c in Pass(targets, hps, sources, intersecting).value.1 ==> c.entity != id
  {
    PassPerTarget(targets, hps, sources, intersecting);
  }

  /** Over a whole pass, with distinct entities, the commands naming
      target `k` are exactly its own commands: those of its `TargetPass`
      when the query visits it, in order, and none when the query skips
      it. */
  lemma {:induction false} PassCommandsPerTarget(targets: seq<Target>, hps: seq<i8>, sources: seq<DamageSource>,
                                                 intersecting: (EntityId, EntityId) -> bool, k: nat)
    requires |targets| == |hps| && k < |targets|
    requires forall i, j :: 0 <= i < j < |targets| ==> targets[i].id != targets[j].id
    requires Pass(targets, hps, sources, intersecting).Some?
    ensures Naming(Pass(targets, hps, sources, intersecting).value.1, targets[k].id)
      == OwnCommands(hps[k], targets[k], sources, intersecting)
  {
    var m := |targets| - 1;
    var tp, hp := targets[..m], hps[..m];
    PassLast(targets, hps, sources, intersecting);
    var pre := Pass(tp, hp, sources, intersecting).value.1;
    var more := OwnCommands(hps[m], targets[m], sources, intersecting);
    var id := targets[k].id;
    if Queried(targets[m]) {
      TargetPassNamesTarget(hps[m], targets[m], sources, intersecting);
    }
    NamingAppend(pre, more, id);
    if k < m {
      assert tp[k] == targets[k] && hp[k] == hps[k];
      PassCommandsPerTarget(tp, hp, sources, intersecting, k);
      NamingNone(more, id);
      var kept := Naming(pre, id);
      assert kept + [] == kept;
    } else {
      PassNamesNoOther(tp, hp, sources, intersecting, id);
      NamingNone(pre, id);
      NamingAll(more, id);
      var none: seq<Command> := [];
      assert none + more == more;
    }
  }

  /** Some source hits the target by a positive fixed amount. */
  predicate PositiveHit(t: Target, sources: seq<DamageSource>, intersecting: (EntityId, EntityId) -> bool) {
    exists j :: 0 <= j < |sources| && Hits(t, sources[j], intersecting)
      && sources[j].damage.Fixed? && sources[j].damage.amount > 0
  }

  /** `deal_damage`'s whole command list, with distinct entities: a target
      is despawned exactly when the query visits it and its health ends at
      or below 0, and it is granted invincibility frames exactly when the
      query visits it and some source hits it by a positive fixed amount. */
  lemma DealDamageCommands(targets: seq<Target>, hps: seq<i8>, sources: seq<DamageSource>,
                           intersecting: (EntityId, EntityId) -> bool, i: nat)
    requires |targets| == |hps| && i < |targets|
    requires forall i, j :: 0 <= i < j < |targets| ==> targets[i].id != targets[j].id
    requires Pass(targets, hps, sources, intersecting).Some?
    ensures var r := Pass(targets, hps, sources, intersecting).value;
      && (DespawnRecursive(targets[i].id) in r.1 <==> Queried(targets[i]) && r.0[i] <= 0)
      && ((exists a :: InsertIframes(targets[i].id, a) in r.1) <==>
            Queried(targets[i]) && PositiveHit(targets[i], sources, intersecting))
  {
    var r := Pass(targets, hps, sources, intersecting).value;
    var t := targets[i];
    PassCommandsPerTarget(targets, hps, sources, intersecting, i);
    PassPerTarget(targets, hps, sources, intersecting);
    var named := Naming(r.1, t.id);
    NamingMembers(r.1, t.id);
    if Queried(t) {
      DespawnIffDead(hps[i], t, sources, intersecting);
      ApplyMatchesReference(hps[i], t, sources, intersecting);
      GrantsExactly(t, sources, intersecting);
      var grants := Grants(t, sources, intersecting);
      if |grants| > 0 {
        assert grants[0] in named;
        assert InsertIframes(t.id, grants[0].amount) in r.1;
      }
    }
  }
}
