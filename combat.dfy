/**
 * The combat rule of Zone Wreck as a function on values. The first striker
 * subtracts its attack from the second's health; if that health is now at
 * most zero the first striker wins, otherwise the second strikes back and
 * wins if the first's health is now at most zero; otherwise a new round
 * starts with the same order. `Game.Combat` in module ZoneWreck runs this
 * loop in place on two pieces and is proved against `Fight`.
 */
module CombatRules {

  /** One side of a fight: the attack it deals and its current health. */
  datatype Side = Side(attack: int, health: int)

  /** Whether the first striker won, in which round the fight ended, and both final healths. */
  datatype Outcome = Outcome(firstWins: bool, rounds: nat, firstHealth: int, secondHealth: int)

  /** What is left of `health` after `strikes` blows of strength `attack`. */
  function HealthAfter(health: int, attack: int, strikes: nat): int {
    health - strikes * attack
  }

  /**
   * The fight ends: some side deals positive damage, or a health is already
   * knocked out in the first round. Otherwise neither health ever falls and
   * the source's loop never exits (see `StalemateNeverEnds`).
   */
  predicate Terminates(first: Side, second: Side) {
    first.attack > 0 || second.attack > 0 ||
    second.health - first.attack <= 0 || first.health - second.attack <= 0
  }

  /** The outcome of the round-by-round exchange. */
  function Fight(first: Side, second: Side): (o: Outcome)
    requires Terminates(first, second)
    ensures o.rounds >= 1
    decreases if first.attack > 0 then second.health else first.health
  {
    var secondHealth := second.health - first.attack;
    if secondHealth <= 0 then
      Outcome(true, 1, first.health, secondHealth)
    else
      var firstHealth := first.health - second.attack;
      if firstHealth <= 0 then
        Outcome(false, 1, firstHealth, secondHealth)
      else
        var o := Fight(Side(first.attack, firstHealth), Side(second.attack, secondHealth));
        o.(rounds := o.rounds + 1)
  }

  lemma HealthAfterStep(health: int, attack: int, strikes: nat)
    ensures HealthAfter(health - attack, attack, strikes) == HealthAfter(health, attack, strikes + 1)
  {
  }

  /**
   * Exact damage: a fight that ends in round k has taken k blows from the
   * first striker off the second, and k - 1 (if the first striker won) or
   * k (if the second won) blows from the second striker off the first.
   */
  lemma {:induction false} FightDamage(first: Side, second: Side)
    requires Terminates(first, second)
    ensures var o := Fight(first, second);
      && o.secondHealth == HealthAfter(second.health, first.attack, o.rounds)
      && o.firstHealth == HealthAfter(first.health, second.attack,
                                      if o.firstWins then o.rounds - 1 else o.rounds)
    decreases if first.attack > 0 then second.health else first.health
  {
    var secondHealth := second.health - first.attack;
    var firstHealth := first.health - second.attack;
    if secondHealth > 0 && firstHealth > 0 {
      var f, s := Side(first.attack, firstHealth), Side(second.attack, secondHealth);
      FightDamage(f, s);
      var o := Fight(f, s);
      HealthAfterStep(second.health, first.attack, o.rounds);
      HealthAfterStep(first.health, second.attack, o.rounds);
      if o.firstWins {
        HealthAfterStep(first.health, second.attack, o.rounds - 1);
      }
    }
  }

  /**
   * The loser is knocked out (health at most zero) and the fight stops at the
   * first knock-out: before round k both healths stayed positive after every
   * full round, and when the second striker wins, the second striker
   * survived the first blow of round k.
   */
  lemma {:induction false} FightStopsAtFirstKnockout(first: Side, second: Side)
    requires Terminates(first, second)
    ensures var o := Fight(first, second);
      && (o.firstWins ==> o.secondHealth <= 0)
      && (!o.firstWins ==> o.firstHealth <= 0 && o.secondHealth > 0)
      && forall j: nat :: 1 <= j < o.rounds ==>
           HealthAfter(second.health, first.attack, j) > 0 &&
           HealthAfter(first.health, second.attack, j) > 0
    decreases if first.attack > 0 then second.health else first.health
  {
    var secondHealth := second.health - first.attack;
    var firstHealth := first.health - second.attack;
    if secondHealth > 0 && firstHealth > 0 {
      var f, s := Side(first.attack, firstHealth), Side(second.attack, secondHealth);
      FightStopsAtFirstKnockout(f, s);
      var o := Fight(f, s);
      forall j: nat | 1 <= j < o.rounds + 1
        ensures HealthAfter(second.health, first.attack, j) > 0
        ensures HealthAfter(first.health, second.attack, j) > 0
      {
        if j > 1 {
          HealthAfterStep(second.health, first.attack, j - 1);
          HealthAfterStep(first.health, second.attack, j - 1);
        }
      }
    }
  }

  /** Without `Terminates`, both healths stay positive after every round: the loop never exits. */
  lemma StalemateNeverEnds(first: Side, second: Side, j: nat)
    requires !Terminates(first, second)
    ensures HealthAfter(second.health, first.attack, j + 1) > 0
    ensures HealthAfter(first.health, second.attack, j + 1) > 0
  {
    assert (j + 1) * first.attack == j * first.attack + first.attack;
    assert (j + 1) * second.attack == j * second.attack + second.attack;
    assert j * first.attack <= 0 && j * second.attack <= 0 by {
      NonPositiveProduct(j, first.attack);
      NonPositiveProduct(j, second.attack);
    }
  }

  lemma NonPositiveProduct(j: nat, x: int)
    requires x <= 0
    ensures j * x <= 0
  {
  }

  /** The mover strikes first when it is strictly faster, and also on a speed tie. */
  function MoverStrikesFirst(moverSpeed: int, defenderSpeed: int): (first: bool)
    ensures first <==> moverSpeed >= defenderSpeed
  {
    var moverFaster := moverSpeed > defenderSpeed;
    if moverSpeed == defenderSpeed then true else moverFaster
  }

  /** A piece's combat-relevant values. */
  datatype Fighter = Fighter(attack: int, health: int, speed: int)

  /** The two sides in striking order. */
  function Ordered(mover: Fighter, defender: Fighter): (sides: (Side, Side)) {
    var m, d := Side(mover.attack, mover.health), Side(defender.attack, defender.health);
    if MoverStrikesFirst(mover.speed, defender.speed) then (m, d) else (d, m)
  }

  predicate CombatEnds(mover: Fighter, defender: Fighter) {
    var sides := Ordered(mover, defender);
    Terminates(sides.0, sides.1)
  }

  /** The result of a combat seen from the mover and the defender. */
  datatype Result = Result(moverWins: bool, rounds: nat, moverHealth: int, defenderHealth: int)

  function Resolve(mover: Fighter, defender: Fighter): (r: Result)
    requires CombatEnds(mover, defender)
  {
    var sides := Ordered(mover, defender);
    var o := Fight(sides.0, sides.1);
    if MoverStrikesFirst(mover.speed, defender.speed) then
      Result(o.firstWins, o.rounds, o.firstHealth, o.secondHealth)
    else
      Result(!o.firstWins, o.rounds, o.secondHealth, o.firstHealth)
  }

  /**
   * Combat in the mover's and defender's terms. When the mover is at least
   * as fast it strikes first: the defender loses k mover attacks, the mover
   * k - 1 defender attacks if it won and k otherwise. When the defender is
   * faster the roles swap. The loser ends with health at most zero.
   */
  lemma ResolveDamage(mover: Fighter, defender: Fighter)
    requires CombatEnds(mover, defender)
    ensures var r := Resolve(mover, defender);
      var k := r.rounds;
      && k >= 1
      && (mover.speed >= defender.speed ==>
            && r.defenderHealth == HealthAfter(defender.health, mover.attack, k)
            && r.moverHealth == HealthAfter(mover.health, defender.attack, if r.moverWins then k - 1 else k))
      && (mover.speed < defender.speed ==>
            && r.moverHealth == HealthAfter(mover.health, defender.attack, k)
            && r.defenderHealth == HealthAfter(defender.health, mover.attack, if r.moverWins then k else k - 1))
      && (r.moverWins ==> r.defenderHealth <= 0)
      && (!r.moverWins ==> r.moverHealth <= 0)
  {
    var sides := Ordered(mover, defender);
    FightDamage(sides.0, sides.1);
    FightStopsAtFirstKnockout(sides.0, sides.1);
  }
}
