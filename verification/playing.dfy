/** The simulation driver of the playing screen (`PlayingUI` in
    src/playing_ui.rs, lines 27-81): it steps the current grid toward the
    goal, counts generations, and restarts from the start grid after every
    edit of the rules. Drawing and key handling are not part of it. */
module Playing {
  import opened Bytes
  import opened Grid
  import opened Rules
  import opened Automata
  import opened Levels
  import opened Cursor

  /** `field` is the generation on screen and `curStep` how many steps
      produced it; `animate` is the flag `toggle` flips (whatever reads it
      is outside this model). */
  datatype PlayingUI = PlayingUI(lvl: Level, cursor: CursorPos, animate: bool, curStep: nat, field: Field)

  function RulesOf(s: PlayingUI): seq<Rule> {
    s.lvl.auto.rules
  }

  /** `f` stepped k times by `a`. */
  function StepN(a: Automaton, f: Field, k: nat): (r: Field)
    requires Valid(f)
    ensures Valid(r) && r.w == f.w && r.h == f.h
  {
    if k == 0 then f else Step(a, StepN(a, f, k - 1))
  }

  /** The driver's invariant: the grid on screen is the start grid after
      exactly `curStep` generations of the current rules. */
  predicate Tracks(s: PlayingUI) {
    Valid(s.lvl.start) && s.field == StepN(s.lvl.auto, s.lvl.start, s.curStep)
  }

  /** A fresh screen: the start grid, no steps taken, animation off, the
      cursor on the first pattern cell of the first rule. */
  function New(lvl: Level): (s: PlayingUI)
    ensures s.lvl == lvl && s.field == lvl.start && s.curStep == 0
    ensures !s.animate && s.cursor == Pattern(0, 0, 0)
    ensures Valid(lvl.start) ==> Tracks(s)
  {
    PlayingUI(lvl, Pattern(0, 0, 0), false, 0, lvl.start)
  }

  /** Back to the start grid and step 0; nothing else changes. */
  function ResetField(s: PlayingUI): (r: PlayingUI)
    ensures r.field == s.lvl.start && r.curStep == 0
    ensures r.lvl == s.lvl && r.cursor == s.cursor && r.animate == s.animate
    ensures Valid(s.lvl.start) ==> Tracks(r)
  {
    s.(field := s.lvl.start, curStep := 0)
  }

  /** `set_char` does not panic: the cursor's rule exists and, on a
      pattern, the cell index x + 3*y is inside that rule's pattern. */
  predicate CanEdit(s: PlayingUI) {
    match s.cursor
    case Pattern(i, x, y) => 0 <= i < |RulesOf(s)| && 0 <= x + 3 * y < |RulesOf(s)[i].pattern|
    case Replace(i) => 0 <= i < |RulesOf(s)|
    case State(_) => true
  }

  /** Writes the typed symbol under the cursor (its first UTF-8 byte in the
      source) into the rule being edited, then restarts the simulation. */
  function SetChar(s: PlayingUI, c: byte): (r: PlayingUI)
    requires CanEdit(s)
    ensures r.field == s.lvl.start && r.curStep == 0
    ensures r.cursor == s.cursor && r.animate == s.animate
    ensures r.lvl.start == s.lvl.start && r.lvl.goal == s.lvl.goal && r.lvl.id == s.lvl.id
    ensures |RulesOf(r)| == |RulesOf(s)|
    ensures s.cursor.State? ==> r.lvl == s.lvl
    ensures s.cursor.Replace? ==>
      && (forall j :: 0 <= j < |RulesOf(s)| && j != s.cursor.i ==> RulesOf(r)[j] == RulesOf(s)[j])
      && RulesOf(r)[s.cursor.i].pattern == RulesOf(s)[s.cursor.i].pattern
      && RulesOf(r)[s.cursor.i].replace == c
    ensures s.cursor.Pattern? ==>
      var i, k := s.cursor.i, s.cursor.x + 3 * s.cursor.y;
      && (forall j :: 0 <= j < |RulesOf(s)| && j != i ==> RulesOf(r)[j] == RulesOf(s)[j])
      && RulesOf(r)[i].replace == RulesOf(s)[i].replace
      && |RulesOf(r)[i].pattern| == |RulesOf(s)[i].pattern|
      && RulesOf(r)[i].pattern[k] == c
      && (forall m :: 0 <= m < |RulesOf(s)[i].pattern| && m != k ==>
            RulesOf(r)[i].pattern[m] == RulesOf(s)[i].pattern[m])
  {
    var rules := RulesOf(s);
    var rules' :=
      match s.cursor
      case Pattern(i, x, y) =>
        rules[i := rules[i].(pattern := rules[i].pattern[x + 3 * y := c])]
      case Replace(i) => rules[i := rules[i].(replace := c)]
      case State(_) => rules;
    ResetField(s.(lvl := s.lvl.(auto := Automaton(rules'))))
  }

  /** The space key: on the state line it starts or stops the animation,
      anywhere else it types a blank. */
  function Toggle(s: PlayingUI): (r: PlayingUI)
    requires !InState(s.cursor) ==> CanEdit(s)
    ensures InState(s.cursor) ==>
      && r.animate != s.animate
      && r.lvl == s.lvl && r.field == s.field && r.curStep == s.curStep && r.cursor == s.cursor
    ensures !InState(s.cursor) ==> r == SetChar(s, BLANK) && r.animate == s.animate
  {
    if InState(s.cursor) then s.(animate := !s.animate) else SetChar(s, BLANK)
  }

  /** One timer tick. When the grid on screen equals the goal (structural
      equality of the two fields) it reports true and changes nothing;
      otherwise it steps the grid, counts the step and reports false. */
  function Update(s: PlayingUI): (r: (PlayingUI, bool))
    requires Valid(s.field)
    ensures r.1 <==> s.field == s.lvl.goal
    ensures r.1 ==> r.0 == s
    ensures !r.1 ==>
      && r.0.field == Step(s.lvl.auto, s.field) && r.0.curStep == s.curStep + 1
      && r.0.lvl == s.lvl && r.0.cursor == s.cursor && r.0.animate == s.animate
    ensures Valid(r.0.field)
  {
    if s.field != s.lvl.goal then
      (s.(field := Step(s.lvl.auto, s.field), curStep := s.curStep + 1), false)
    else
      (s, true)
  }

  /** Every driver operation, and every cursor move, keeps the grid on
      screen equal to the start grid stepped `curStep` times by the
      current rules: an edit never leaves a stale simulation behind. */
  lemma OperationsKeepTracking(s: PlayingUI, c: byte)
    requires Tracks(s)
    ensures Tracks(ResetField(s))
    ensures CanEdit(s) ==> Tracks(SetChar(s, c))
    ensures (!InState(s.cursor) ==> CanEdit(s)) ==> Tracks(Toggle(s))
    ensures Tracks(Update(s).0)
    ensures Tracks(s.(cursor := Up(s.cursor))) && Tracks(s.(cursor := Down(s.cursor)))
    ensures (WrapsLeft(s.cursor) ==> |RulesOf(s)| > 0) ==> Tracks(s.(cursor := Left(s.cursor, |RulesOf(s)|)))
    ensures (WrapsRight(s.cursor) ==> |RulesOf(s)| > 0) ==> Tracks(s.(cursor := Right(s.cursor, |RulesOf(s)|)))
  {
  }

  /** An in-range cursor over nine-symbol patterns can always edit. */
  lemma InRangeCursorCanEdit(s: PlayingUI)
    requires InRange(s.cursor, |RulesOf(s)|)
    requires forall j :: 0 <= j < |RulesOf(s)| ==> |RulesOf(s)[j].pattern| == 9
    ensures CanEdit(s)
  {
  }

  /** n timer ticks in a row. */
  function Run(s: PlayingUI, n: nat): (r: PlayingUI)
    requires Valid(s.field)
    ensures Valid(r.field)
  {
    if n == 0 then s else Update(Run(s, n - 1)).0
  }

  /** Starting from a freshly reset screen, as long as no earlier
      generation equals the goal, tick n shows generation n of the start
      grid and has counted n steps. */
  lemma {:induction false} RunFollowsGenerations(s: PlayingUI, n: nat)
    requires Tracks(s) && s.curStep == 0
    requires forall j :: 0 <= j < n ==> StepN(s.lvl.auto, s.lvl.start, j) != s.lvl.goal
    ensures Run(s, n) == s.(field := StepN(s.lvl.auto, s.lvl.start, n), curStep := n)
  {
    if n > 0 {
      RunFollowsGenerations(s, n - 1);
      var prev := Run(s, n - 1);
      assert prev.field == StepN(s.lvl.auto, s.lvl.start, n - 1) != s.lvl.goal;
      assert prev.lvl == s.lvl;
      assert Run(s, n) == Update(prev).0;
    }
  }

  /** When generation k is the first to equal the goal, the driver reports
      the puzzle solved at tick k + 1 with a step count of exactly k, never
      earlier, and stays put from then on. */
  lemma {:induction false} SolvedAfterExactly(s: PlayingUI, k: nat)
    requires Tracks(s) && s.curStep == 0
    requires StepN(s.lvl.auto, s.lvl.start, k) == s.lvl.goal
    requires forall j :: 0 <= j < k ==> StepN(s.lvl.auto, s.lvl.start, j) != s.lvl.goal
    ensures Run(s, k).curStep == k && Run(s, k).field == s.lvl.goal
    ensures Update(Run(s, k)).1 && Update(Run(s, k)).0 == Run(s, k)
    ensures forall j :: 0 <= j < k ==> !Update(Run(s, j)).1
  {
    RunFollowsGenerations(s, k);
    forall j | 0 <= j < k
      ensures !Update(Run(s, j)).1
    {
      RunFollowsGenerations(s, j);
    }
  }
}
