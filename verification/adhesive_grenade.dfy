/** The Adhesive Grenade device abilities: three tiers that share one recast
    group and differ in stamina cost, chance to immobilize and effect length,
    and the per-target impact rule run for every creature the explosion
    reaches. The d100 roll is a parameter. */
module AdhesiveGrenade {
  import opened Character

  datatype Tier = I | II | III

  datatype Feat = AdhesiveGrenade1 | AdhesiveGrenade2 | AdhesiveGrenade3
  datatype Perk = AdhesiveGrenadePerk
  datatype RecastGroup = Grenades
  datatype Animation = ThrowGrenade
  datatype CustomValidation = ExplosiveValidation

  /** The settings one builder chain declares; times and ranges are whole
      seconds and metres. */
  datatype AbilityDefinition = AbilityDefinition(
    feat: Feat,
    perk: Perk,
    name: string,
    level: nat,
    recastGroup: RecastGroup,
    recastSeconds: nat,
    activationDelaySeconds: nat,
    stamina: nat,
    animation: Animation,
    isCasted: bool,
    unaffectedByHeavyArmor: bool,
    maxRange: nat,
    validation: CustomValidation,
    immobilizeChance: int,
    effectSeconds: nat)

  function Rank(t: Tier): nat
  {
    match t
    case I => 1
    case II => 2
    case III => 3
  }

  /** The three definitions. */
  function Definition(t: Tier): (d: AbilityDefinition)
    ensures d.level == Rank(t)
  {
    var base := AbilityDefinition(
      AdhesiveGrenade1, AdhesiveGrenadePerk, "Adhesive Grenade I", 1, Grenades, 30, 1, 3,
      ThrowGrenade, true, true, 15, ExplosiveValidation, 0, 4);
    match t
    case I => base
    case II => base.(feat := AdhesiveGrenade2, name := "Adhesive Grenade II", level := 2,
                     stamina := 5, immobilizeChance := 30, effectSeconds := 6)
    case III => base.(feat := AdhesiveGrenade3, name := "Adhesive Grenade III", level := 3,
                      stamina := 7, immobilizeChance := 50, effectSeconds := 8)
  }

  /** All tiers declare the same recast group, recast time, activation
      delay, animation, range, validation and perk. */
  lemma SharedSettings(t: Tier, t': Tier)
    ensures var d, d' := Definition(t), Definition(t');
      && d.recastGroup == d'.recastGroup == Grenades
      && d.recastSeconds == d'.recastSeconds == 30
      && d.activationDelaySeconds == d'.activationDelaySeconds == 1
      && d.maxRange == d'.maxRange == 15
      && d.validation == d'.validation == ExplosiveValidation
      && d.animation == d'.animation && d.perk == d'.perk
      && d.isCasted && d.unaffectedByHeavyArmor
      && (t != t' ==> d.feat != d'.feat)
  {
  }

  /** A higher tier has a strictly higher level, stamina cost, chance to
      immobilize and effect length. */
  lemma RisesWithTier(t: Tier, t': Tier)
    requires Rank(t) < Rank(t')
    ensures Definition(t).level < Definition(t').level
    ensures Definition(t).stamina < Definition(t').stamina
    ensures Definition(t).immobilizeChance < Definition(t').immobilizeChance
    ensures Definition(t).effectSeconds < Definition(t').effectSeconds
  {
  }

  datatype Effect = Immobilize(seconds: nat) | Slow(seconds: nat)

  const CombatPointAmount: nat := 3
  const EnmityAmount: nat := 150

  /** What one target receives: nothing, or one timed effect together with
      Devices combat points for the activator and enmity toward it. */
  datatype ImpactResult =
    | Skipped
    | Struck(effect: Effect, combatSkill: Skill, combatPoints: nat, enmity: nat)

  /** The impact rule for one target. `sameFaction` is `GetFactionEqual` of
      activator and target, `roll` the d100 result. */
  function Impact(sameFaction: bool, roll: int, immobilizeChance: int, seconds: nat): (r: ImpactResult)
    ensures r.Skipped? <==> sameFaction
    ensures r.Struck? ==> (r.effect.Immobilize? <==> roll <= immobilizeChance)
    ensures r.Struck? ==> r.effect.seconds == seconds
    ensures r.Struck? ==> r.combatSkill == Devices && r.combatPoints == 3 && r.enmity == 150
  {
    if sameFaction then Skipped
    else
      var effect := if roll <= immobilizeChance then Immobilize(seconds) else Slow(seconds);
      Struck(effect, Devices, CombatPointAmount, EnmityAmount)
  }

  /** The impact of a tier's grenade on one target. */
  function TierImpact(t: Tier, sameFaction: bool, roll: int): ImpactResult
  {
    Impact(sameFaction, roll, Definition(t).immobilizeChance, Definition(t).effectSeconds)
  }

  predicate Immobilizes(r: ImpactResult)
  {
    r.Struck? && r.effect.Immobilize?
  }

  /** With a d100 roll, tier I never immobilizes: it always slows. */
  lemma TierOneNeverImmobilizes(sameFaction: bool, roll: int)
    requires 1 <= roll <= 100
    ensures !Immobilizes(TierImpact(I, sameFaction, roll))
    ensures !sameFaction ==> TierImpact(I, sameFaction, roll) == Struck(Slow(4), Devices, 3, 150)
  {
  }

  /** For a fixed roll, raising the chance never turns an immobilize into a
      slow, and a higher tier immobilizes whenever a lower one does. */
  lemma ChanceMonotone(roll: int, chance: int, chance': int, seconds: nat, seconds': nat)
    requires chance <= chance'
    ensures Immobilizes(Impact(false, roll, chance, seconds)) ==>
      Immobilizes(Impact(false, roll, chance', seconds'))
  {
  }

  lemma TierMonotone(t: Tier, t': Tier, roll: int)
    requires Rank(t) <= Rank(t')
    ensures Immobilizes(TierImpact(t, false, roll)) ==> Immobilizes(TierImpact(t', false, roll))
  {
  }

  /** The d100 results that immobilize a non-allied target. */
  function ImmobilizingRolls(chance: int): set<int>
  {
    set roll | 1 <= roll <= 100 && Immobilizes(Impact(false, roll, chance, 0))
  }

  function Clamp(chance: int): nat
  {
    if chance < 0 then 0 else if chance > 100 then 100 else chance
  }

  /** The rolls 1..n. */
  function RollsUpTo(n: nat): (s: set<int>)
    ensures |s| == n
    ensures forall roll :: roll in s <==> 1 <= roll <= n
  {
    if n == 0 then {} else RollsUpTo(n - 1) + {n}
  }

  /** Exactly `chance` of the hundred equally likely rolls immobilize, the
      chance capped to 0..100: none at chance 0, every roll at chance 100. */
  lemma ImmobilizeOdds(chance: int)
    ensures |ImmobilizingRolls(chance)| == Clamp(chance)
  {
    assert ImmobilizingRolls(chance) == RollsUpTo(Clamp(chance));
  }

  /** Each tier immobilizes on exactly as many of the hundred rolls as its
      chance says: 0 for tier I, 30 for tier II, 50 for tier III. */
  lemma TierOdds(t: Tier)
    ensures |ImmobilizingRolls(Definition(t).immobilizeChance)| == Definition(t).immobilizeChance
  {
    ImmobilizeOdds(Definition(t).immobilizeChance);
  }
}
