/** A puzzle: the start and goal grids and the player's rules (`Level` in
    src/level.rs; its constructor survives in src/logic.rs). */
module Levels {
  import opened Grid
  import opened Automata

  datatype Level = Level(start: Field, goal: Field, auto: Automaton, id: nat)

  /** A fresh level: start and goal as given and no rules yet. The
      src/logic.rs revision has no id; the model takes it as a parameter. */
  function NewLevel(start: Field, goal: Field, id: nat): (l: Level)
    ensures l.start == start && l.goal == goal && l.id == id
    ensures |l.auto.rules| == 0
  {
    Level(start, goal, Automaton([]), id)
  }

  /** Stepping a fresh level's automaton changes nothing. */
  lemma NewLevelStepIsIdentity(start: Field, goal: Field, id: nat, f: Field)
    requires Valid(f)
    ensures Step(NewLevel(start, goal, id).auto, f) == f
  {
    StepWithoutRules(NewLevel(start, goal, id).auto, f);
  }
}
