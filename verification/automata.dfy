/** The ordered rule list and one synchronous generation (`Automaton` in
    src/automaton.rs, and the copy with `add_rule` in src/logic.rs). */
module Automata {
  import opened Wrappers
  import opened Bytes
  import opened Grid
  import opened Rules

  /** Rule order matters: the first rule that matches a cell decides it. */
  datatype Automaton = Automaton(rules: seq<Rule>)

  /** The output of the first rule, in declaration order, that matches the
      neighbourhood; None when no rule matches. */
  function FirstMatch(rules: seq<Rule>, n: seq<byte>): (r: Option<byte>)
    ensures r.Some? <==> exists i :: 0 <= i < |rules| && Apply(rules[i], n).Some?
    ensures r.Some? ==> exists i ::
      && 0 <= i < |rules| && Apply(rules[i], n) == r
      && forall j :: 0 <= j < i ==> Apply(rules[j], n).None?
  {
    if |rules| == 0 then None
    else
      match Apply(rules[0], n)
      case Some(v) => Some(v)
      case None =>
        var r := FirstMatch(rules[1..], n);
        assert forall i :: 1 <= i < |rules| ==> rules[i] == rules[1..][i - 1];
        r
  }

  /** The earliest matching rule decides, whatever the later ones would say. */
  lemma {:induction false} FirstMatchIsEarliest(rules: seq<Rule>, n: seq<byte>, i: nat)
    requires i < |rules| && Apply(rules[i], n).Some?
    requires forall j :: 0 <= j < i ==> Apply(rules[j], n).None?
    ensures FirstMatch(rules, n) == Apply(rules[i], n)
  {
    if i > 0 {
      assert Apply(rules[0], n).None?;
      assert rules[1..][i - 1] == rules[i];
      FirstMatchIsEarliest(rules[1..], n, i - 1);
    }
  }

  /** What a cell becomes in the next generation: the first matching rule's
      output, or its old symbol when no rule matches. */
  function NextCell(rules: seq<Rule>, f: Field, x: nat, y: nat): byte {
    match FirstMatch(rules, Neighborhood(f, x, y))
    case Some(v) => v
    case None => Get(f, x, y)
  }

  /** One iteration of the loop over coordinates: the cell is matched
      against the input field `f` and written into `next`. */
  function Visit(rules: seq<Rule>, f: Field, next: Field, c: (nat, nat)): (r: Field)
    requires Valid(next) && c.0 < next.w && c.1 < next.h
    ensures Valid(r) && r.w == next.w && r.h == next.h
  {
    match FirstMatch(rules, Neighborhood(f, c.0, c.1))
    case Some(v) => Set(next, c.0, c.1, v)
    case None => next
  }

  /** The loop over coordinates in the given order, writing into `next`. */
  function StepOver(rules: seq<Rule>, f: Field, next: Field, order: seq<(nat, nat)>): (r: Field)
    requires Valid(next)
    requires forall k :: 0 <= k < |order| ==> order[k].0 < next.w && order[k].1 < next.h
    ensures Valid(r) && r.w == next.w && r.h == next.h
    decreases |order|
  {
    if |order| == 0 then next
    else StepOver(rules, f, Visit(rules, f, next, order[0]), order[1..])
  }

  /** One generation: a copy of the field, overwritten cell by cell in the
      order of Coords, every cell matched against the unchanged input. */
  function Step(a: Automaton, f: Field): (r: Field)
    requires Valid(f)
    ensures Valid(r) && r.w == f.w && r.h == f.h
  {
    StepOver(a.rules, f, f, Coords(f.w, f.h))
  }

  /** After the loop over `order`, a cell visited by it holds the first
      matching rule's output when some rule matched it, and every other
      cell holds what it held in `next`. */
  lemma {:induction false} StepOverCells(rules: seq<Rule>, f: Field, next: Field, order: seq<(nat, nat)>)
    requires Valid(next)
    requires forall k :: 0 <= k < |order| ==> order[k].0 < next.w && order[k].1 < next.h
    ensures forall x: nat, y: nat :: x < next.w && y < next.h ==>
      Get(StepOver(rules, f, next, order), x, y) ==
        if (x, y) in order && FirstMatch(rules, Neighborhood(f, x, y)).Some?
        then FirstMatch(rules, Neighborhood(f, x, y)).value
        else Get(next, x, y)
    decreases |order|
  {
    if |order| > 0 {
      var next' := Visit(rules, f, next, order[0]);
      StepOverCells(rules, f, next', order[1..]);
      forall x: nat, y: nat | x < next.w && y < next.h
        ensures Get(StepOver(rules, f, next, order), x, y) ==
          if (x, y) in order && FirstMatch(rules, Neighborhood(f, x, y)).Some?
          then FirstMatch(rules, Neighborhood(f, x, y)).value
          else Get(next, x, y)
      {
        assert (x, y) in order <==> (x, y) == order[0] || (x, y) in order[1..];
      }
    }
  }

  /** Every cell of the next generation is decided by its own neighbourhood
      in the input field: the first matching rule's output, or the old
      symbol when no rule matches. */
  lemma StepCell(a: Automaton, f: Field, x: nat, y: nat)
    requires Valid(f) && x < f.w && y < f.h
    ensures Get(Step(a, f), x, y) == NextCell(a.rules, f, x, y)
  {
    StepOverCells(a.rules, f, f, Coords(f.w, f.h));
  }

  /** Visiting the cells in any order that reaches each of them (repeats
      allowed) gives the same generation: matching reads only the input,
      never the field being written, so the order is not observable. */
  lemma StepOrderIndependent(a: Automaton, f: Field, order: seq<(nat, nat)>)
    requires Valid(f)
    requires forall k :: 0 <= k < |order| ==> order[k].0 < f.w && order[k].1 < f.h
    requires forall x: nat, y: nat :: x < f.w && y < f.h ==> (x, y) in order
    ensures StepOver(a.rules, f, f, order) == Step(a, f)
  {
    var r := StepOver(a.rules, f, f, order);
    StepOverCells(a.rules, f, f, order);
    forall x, y | InBounds(f, x, y)
      ensures Get(r, x, y) == Get(Step(a, f), x, y)
    {
      StepCell(a, f, x, y);
    }
    FieldEquality(r, Step(a, f));
  }

  /** With no rules nothing ever matches, and a generation is the identity. */
  lemma StepWithoutRules(a: Automaton, f: Field)
    requires Valid(f) && |a.rules| == 0
    ensures Step(a, f) == f
  {
    forall x, y | InBounds(f, x, y)
      ensures Get(Step(a, f), x, y) == Get(f, x, y)
    {
      StepCell(a, f, x, y);
    }
    FieldEquality(Step(a, f), f);
  }

  /** First match wins: when rule i is the earliest to match a cell's
      neighbourhood, the cell takes rule i's output; in particular a later
      matching rule with a different output never shows there. */
  lemma StepPrecedence(a: Automaton, f: Field, x: nat, y: nat, i: nat, j: nat)
    requires Valid(f) && x < f.w && y < f.h
    requires i < j < |a.rules|
    requires Apply(a.rules[i], Neighborhood(f, x, y)).Some?
    requires forall k :: 0 <= k < i ==> Apply(a.rules[k], Neighborhood(f, x, y)).None?
    ensures Get(Step(a, f), x, y) == Apply(a.rules[i], Neighborhood(f, x, y)).value
    ensures Apply(a.rules[j], Neighborhood(f, x, y)) != Apply(a.rules[i], Neighborhood(f, x, y)) ==>
      Some(Get(Step(a, f), x, y)) != Apply(a.rules[j], Neighborhood(f, x, y))
  {
    StepCell(a, f, x, y);
    FirstMatchIsEarliest(a.rules, Neighborhood(f, x, y), i);
  }

  /** A cell of the next generation depends on nothing but the input
      field's window around it: two fields with the same window there give
      the same new symbol there. */
  lemma StepIsLocal(a: Automaton, f: Field, g: Field, x: nat, y: nat)
    requires Valid(f) && Valid(g) && x < f.w && y < f.h && x < g.w && y < g.h
    requires Neighborhood(f, x, y) == Neighborhood(g, x, y)
    ensures Get(Step(a, f), x, y) == Get(Step(a, g), x, y)
  {
    StepCell(a, f, x, y);
    StepCell(a, g, x, y);
  }

  /** The source's loop, statement for statement: start from a copy of the
      field, and for each coordinate try the rules in order, writing the
      first output and leaving the rule loop. */
  method StepLoop(a: Automaton, f: Field) returns (next: Field)
    requires Valid(f)
    ensures Valid(next) && next.w == f.w && next.h == f.h
    ensures forall x: nat, y: nat :: x < f.w && y < f.h ==> Get(next, x, y) == NextCell(a.rules, f, x, y)
  {
    next := f;
    var x := 0;
    while x < f.w
      invariant 0 <= x <= f.w
      invariant Valid(next) && next.w == f.w && next.h == f.h
      invariant forall cx: nat, cy: nat :: cx < f.w && cy < f.h ==>
        Get(next, cx, cy) == if cx < x then NextCell(a.rules, f, cx, cy) else Get(f, cx, cy)
    {
      var y := 0;
      while y < f.h
        invariant 0 <= y <= f.h
        invariant Valid(next) && next.w == f.w && next.h == f.h
        invariant forall cx: nat, cy: nat :: cx < f.w && cy < f.h ==>
          Get(next, cx, cy) ==
            if cx < x || (cx == x && cy < y) then NextCell(a.rules, f, cx, cy) else Get(f, cx, cy)
      {
        var n := Neighborhood(f, x, y);
        var k := 0;
        var written := false;
        ghost var before := next;
        while k < |a.rules|
          invariant 0 <= k <= |a.rules| && !written && next == before
          invariant forall j :: 0 <= j < k ==> Apply(a.rules[j], n).None?
        {
          var res := Apply(a.rules[k], n);
          if res.Some? {
            FirstMatchIsEarliest(a.rules, n, k);
            next := Set(next, x, y, res.value);
            written := true;
            break;
          }
          k := k + 1;
        }
        if !written {
          assert FirstMatch(a.rules, n).None?;
        }
        y := y + 1;
      }
      x := x + 1;
    }
  }

  /** `add_rule`: the new rule goes at the end, behind every existing one. */
  function AddRule(a: Automaton, pattern: seq<byte>, replace: byte): (r: Automaton)
    ensures |r.rules| == |a.rules| + 1
    ensures r.rules[..|a.rules|] == a.rules
    ensures r.rules[|a.rules|] == Rule(pattern, replace)
  {
    Automaton(a.rules + [Rule(pattern, replace)])
  }

  /** An added rule has the lowest precedence: it only decides the
      neighbourhoods no existing rule matches. */
  lemma AddRuleIsLowestPrecedence(a: Automaton, pattern: seq<byte>, replace: byte, n: seq<byte>)
    ensures FirstMatch(AddRule(a, pattern, replace).rules, n) ==
      if FirstMatch(a.rules, n).Some? then FirstMatch(a.rules, n) else Apply(Rule(pattern, replace), n)
  {
    var rules := AddRule(a, pattern, replace).rules;
    if FirstMatch(a.rules, n).Some? {
      var i :|
        && 0 <= i < |a.rules| && Apply(a.rules[i], n) == FirstMatch(a.rules, n)
        && forall j :: 0 <= j < i ==> Apply(a.rules[j], n).None?;
      assert rules[i] == a.rules[i];
      FirstMatchIsEarliest(rules, n, i);
    } else if Apply(Rule(pattern, replace), n).Some? {
      FirstMatchIsEarliest(rules, n, |a.rules|);
    } else {
      assert forall i :: 0 <= i < |rules| ==> Apply(rules[i], n).None? by {
        forall i | 0 <= i < |rules|
          ensures Apply(rules[i], n).None?
        {
          if i < |a.rules| {
            assert rules[i] == a.rules[i];
          }
        }
      }
    }
  }
}
