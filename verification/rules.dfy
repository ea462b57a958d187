/** One rewrite rule: a 3x3 pattern and the symbol it writes (`Rule` in
    src/rule.rs and its copy in src/logic.rs). */
module Rules {
  import opened Wrappers
  import opened Bytes

  /** The wildcard `_`: matches any symbol and binds nothing. */
  const WILDCARD: byte := 0x5f

  /** `pattern` is read row-major against a neighbourhood (index 4 is the
      cell itself); the program keeps it at nine symbols. The source's
      `mutable` flag is not modelled: matching never reads it. */
  datatype Rule = Rule(pattern: seq<byte>, replace: byte)

  /** Variables are the upper-case letters: 0x40 ('@') is excluded. */
  predicate IsVar(p: byte) {
    0x40 < p && p <= 0x5a
  }

  /** Any pattern symbol that is neither the wildcard nor a variable,
      the blank included, stands for itself. */
  predicate IsLiteral(p: byte) {
    p != WILDCARD && !IsVar(p)
  }

  /** The letter-to-symbol map built up during one match attempt. */
  type Bindings = map<byte, byte>

  lemma VariablesAreUpperCaseLetters()
    ensures forall p: byte :: IsVar(p) <==> 0x41 <= p <= 0x5a
    ensures !IsVar(0x40) && !IsVar(0x5b) && !IsVar(WILDCARD) && !IsVar(0x20)
  {
  }

  /** One pattern symbol against one neighbour symbol, extending the
      bindings when a variable occurs for the first time. */
  function MatchCell(p: byte, n: byte, b: Bindings): (r: Option<Bindings>)
  {
    if p == WILDCARD then Some(b)
    else if IsVar(p) then
      if p in b then (if b[p] == n then Some(b) else None)
      else Some(b[p := n])
    else if p == n then Some(b) else None
  }

  function Min(a: nat, b: nat): nat {
    if a <= b then a else b
  }

  /** Walks pattern and neighbourhood in lockstep from position k, as the
      source's `zip(..).all(..)` does: the walk stops at the end of the
      shorter sequence and at the first position that fails. */
  function MatchFrom(ps: seq<byte>, ns: seq<byte>, k: nat, b: Bindings): Option<Bindings>
    decreases |ps| - k
  {
    if k >= |ps| || k >= |ns| then Some(b)
    else match MatchCell(ps[k], ns[k], b)
      case None => None
      case Some(b') => MatchFrom(ps, ns, k + 1, b')
  }

  /** A rule's output on a neighbourhood: None when the pattern fails to
      match; otherwise the symbol bound to `replace` when `replace` was
      bound during this match, and `replace` itself when it was not. The
      bindings start empty on every call. */
  function Apply(r: Rule, n: seq<byte>): Option<byte> {
    match MatchFrom(r.pattern, n, 0, map[])
    case None => None
    case Some(b) => Some(if r.replace in b then b[r.replace] else r.replace)
  }

  // A declarative description of matching, independent of the walk.

  /** The first k positions are consistent: each literal equals its
      neighbour, and all occurrences of one variable see the same symbol. */
  predicate Agrees(ps: seq<byte>, ns: seq<byte>, k: nat)
    requires k <= |ps| && k <= |ns|
  {
    && (forall i :: 0 <= i < k && IsLiteral(ps[i]) ==> ns[i] == ps[i])
    && (forall i, j :: 0 <= i < k && 0 <= j < k && IsVar(ps[i]) && ps[i] == ps[j] ==> ns[i] == ns[j])
  }

  /** The pattern matches the neighbourhood over their common length. */
  predicate Matches(ps: seq<byte>, ns: seq<byte>) {
    Agrees(ps, ns, Min(|ps|, |ns|))
  }

  /** `b` holds exactly the variables of the first k pattern positions,
      each bound to the neighbour symbol at (every) one of its positions. */
  predicate BindsPrefix(ps: seq<byte>, ns: seq<byte>, k: nat, b: Bindings)
    requires k <= |ps| && k <= |ns|
  {
    && (forall v :: v in b ==> IsVar(v) && exists i :: 0 <= i < k && ps[i] == v)
    && (forall i :: 0 <= i < k && IsVar(ps[i]) ==> ps[i] in b && b[ps[i]] == ns[i])
  }

  lemma AgreesPrefix(ps: seq<byte>, ns: seq<byte>, k: nat, m: nat)
    requires k <= m <= |ps| && m <= |ns|
    requires Agrees(ps, ns, m)
    ensures Agrees(ps, ns, k)
  {
  }

  /** The walk from position k, started with the bindings of a consistent
      prefix, succeeds exactly when the whole common length is consistent,
      and then returns the bindings of all of it. */
  lemma {:induction false} MatchFromAgrees(ps: seq<byte>, ns: seq<byte>, k: nat, b: Bindings)
    requires k <= Min(|ps|, |ns|)
    requires Agrees(ps, ns, k) && BindsPrefix(ps, ns, k, b)
    ensures MatchFrom(ps, ns, k, b).Some? <==> Matches(ps, ns)
    ensures MatchFrom(ps, ns, k, b).Some? ==>
      BindsPrefix(ps, ns, Min(|ps|, |ns|), MatchFrom(ps, ns, k, b).value)
    decreases |ps| - k
  {
    var m := Min(|ps|, |ns|);
    if k == m {
      return;
    }
    var p, n := ps[k], ns[k];
    match MatchCell(p, n, b)
    case None =>
      assert MatchFrom(ps, ns, k, b) == None;
      MatchCellStep(ps, ns, k, b);
      if Matches(ps, ns) {
        AgreesPrefix(ps, ns, k + 1, m);
      }
    case Some(b') =>
      assert MatchFrom(ps, ns, k, b) == MatchFrom(ps, ns, k + 1, b');
      MatchCellStep(ps, ns, k, b);
      MatchFromAgrees(ps, ns, k + 1, b');
  }

  /** One step of the walk against the declarative description: from a
      consistent prefix with its bindings, position k matches exactly when
      the prefix stays consistent one position further, and then the new
      bindings are those of the longer prefix. */
  lemma MatchCellStep(ps: seq<byte>, ns: seq<byte>, k: nat, b: Bindings)
    requires k < |ps| && k < |ns|
    requires Agrees(ps, ns, k) && BindsPrefix(ps, ns, k, b)
    ensures MatchCell(ps[k], ns[k], b).Some? <==> Agrees(ps, ns, k + 1)
    ensures MatchCell(ps[k], ns[k], b).Some? ==>
      BindsPrefix(ps, ns, k + 1, MatchCell(ps[k], ns[k], b).value)
  {
    match MatchCell(ps[k], ns[k], b)
    case None => MatchCellFailureBreaksAgreement(ps, ns, k, b);
    case Some(b') => MatchCellSuccessExtends(ps, ns, k, b, b');
  }

  /** A failing position makes the prefix up to it inconsistent. */
  lemma MatchCellFailureBreaksAgreement(ps: seq<byte>, ns: seq<byte>, k: nat, b: Bindings)
    requires k < |ps| && k < |ns|
    requires BindsPrefix(ps, ns, k, b)
    requires MatchCell(ps[k], ns[k], b).None?
    ensures !Agrees(ps, ns, k + 1)
  {
    var p := ps[k];
    if IsVar(p) {
      var i :| 0 <= i < k && ps[i] == p;
      assert ns[i] == b[p] != ns[k];
    }
  }

  /** A succeeding position extends a consistent prefix and its bindings
      by one. */
  lemma MatchCellSuccessExtends(ps: seq<byte>, ns: seq<byte>, k: nat, b: Bindings, b': Bindings)
    requires k < |ps| && k < |ns|
    requires Agrees(ps, ns, k) && BindsPrefix(ps, ns, k, b)
    requires MatchCell(ps[k], ns[k], b) == Some(b')
    ensures Agrees(ps, ns, k + 1) && BindsPrefix(ps, ns, k + 1, b')
  {
    var p, n := ps[k], ns[k];
    assert Agrees(ps, ns, k + 1) by {
      if IsVar(p) {
        forall i | 0 <= i < k && ps[i] == p
          ensures ns[i] == n
        {
          assert p in b;
        }
      }
    }
    forall v | v in b'
      ensures IsVar(v) && exists i :: 0 <= i < k + 1 && ps[i] == v
    {
      if v !in b {
        assert ps[k] == v;
      }
    }
    forall i | 0 <= i < k + 1 && IsVar(ps[i])
      ensures ps[i] in b' && b'[ps[i]] == ns[i]
    {
      if i < k {
        assert ps[i] in b && b[ps[i]] == ns[i];
        if IsVar(p) && p !in b {
          assert b' == b[p := n] && p != ps[i];
          assert b'[ps[i]] == b[ps[i]];
        } else {
          assert b' == b;
        }
      } else if p !in b {
        assert b' == b[p := n];
      } else {
        assert b' == b && b[p] == n;
      }
    }
  }

  /** A rule produces an output exactly when its pattern matches the
      neighbourhood declaratively. */
  lemma ApplyMatchesIff(r: Rule, n: seq<byte>)
    ensures Apply(r, n).Some? <==> Matches(r.pattern, n)
  {
    MatchFromAgrees(r.pattern, n, 0, map[]);
  }

  /** On a match the output is the neighbour symbol under any occurrence of
      `replace` in the pattern when `replace` is a variable there, and
      `replace` itself otherwise: an unbound upper-case letter, or any
      non-variable, is written literally. */
  lemma ApplyResolvesReplace(r: Rule, n: seq<byte>)
    requires Apply(r, n).Some?
    ensures forall i :: 0 <= i < Min(|r.pattern|, |n|) && IsVar(r.replace) && r.pattern[i] == r.replace ==>
      Apply(r, n).value == n[i]
    ensures (!IsVar(r.replace) || forall i :: 0 <= i < Min(|r.pattern|, |n|) ==> r.pattern[i] != r.replace) ==>
      Apply(r, n).value == r.replace
  {
    MatchFromAgrees(r.pattern, n, 0, map[]);
  }

  /** A wildcard position is ignored: changing the neighbour under it
      changes neither whether the rule fires nor what it writes. */
  lemma WildcardIgnoresCell(r: Rule, n: seq<byte>, k: nat, v: byte)
    requires k < |r.pattern| && k < |n| && r.pattern[k] == WILDCARD
    ensures Apply(r, n[k := v]) == Apply(r, n)
  {
    var n' := n[k := v];
    var m := Min(|r.pattern|, |n|);
    ApplyMatchesIff(r, n);
    ApplyMatchesIff(r, n');
    assert Matches(r.pattern, n) <==> Matches(r.pattern, n') by {
      assert forall i :: 0 <= i < m && (IsLiteral(r.pattern[i]) || IsVar(r.pattern[i])) ==> n'[i] == n[i];
    }
    if Apply(r, n).Some? {
      ApplyResolvesReplace(r, n);
      ApplyResolvesReplace(r, n');
      if IsVar(r.replace) && exists i :: 0 <= i < m && r.pattern[i] == r.replace {
        var i :| 0 <= i < m && r.pattern[i] == r.replace;
        assert n'[i] == n[i];
      }
    }
  }

  /** A literal pattern symbol, the blank included, only accepts the very
      same neighbour symbol. */
  lemma LiteralMismatchRejects(r: Rule, n: seq<byte>, k: nat)
    requires k < |r.pattern| && k < |n| && IsLiteral(r.pattern[k]) && n[k] != r.pattern[k]
    ensures Apply(r, n) == None
  {
    ApplyMatchesIff(r, n);
  }

  /** Two occurrences of one variable only accept equal neighbours. */
  lemma RepeatedVariableRejects(r: Rule, n: seq<byte>, i: nat, j: nat)
    requires i < |r.pattern| && j < |r.pattern| && i < |n| && j < |n|
    requires IsVar(r.pattern[i]) && r.pattern[i] == r.pattern[j] && n[i] != n[j]
    ensures Apply(r, n) == None
  {
    ApplyMatchesIff(r, n);
  }

  /** The pattern `___A_A___`: it fires on a window exactly when the west
      and east neighbours are equal; with replacement `A` it copies them. */
  lemma WestEqualsEast(n: seq<byte>, replace: byte)
    requires |n| == 9
    ensures var a: byte := 0x41; var u := WILDCARD;
      && (Apply(Rule([u, u, u, a, u, a, u, u, u], replace), n).Some? <==> n[3] == n[5])
      && (replace == a && n[3] == n[5] ==> Apply(Rule([u, u, u, a, u, a, u, u, u], replace), n) == Some(n[3]))
  {
    var a: byte := 0x41;
    var u := WILDCARD;
    var r := Rule([u, u, u, a, u, a, u, u, u], replace);
    ApplyMatchesIff(r, n);
    if n[3] == n[5] {
      assert Matches(r.pattern, n) by {
        forall i, j | 0 <= i < 9 && 0 <= j < 9 && IsVar(r.pattern[i]) && r.pattern[i] == r.pattern[j]
          ensures n[i] == n[j]
        {
          assert i == 3 || i == 5;
          assert j == 3 || j == 5;
        }
      }
      ApplyResolvesReplace(r, n);
    } else {
      assert !Agrees(r.pattern, n, 9) by {
        assert IsVar(r.pattern[3]) && r.pattern[3] == r.pattern[5];
      }
    }
  }

  /** A pattern of nothing but wildcards fires on every neighbourhood and
      writes its replacement as given (nothing was bound). */
  lemma AllWildcardMatches(r: Rule, n: seq<byte>)
    requires forall i :: 0 <= i < |r.pattern| ==> r.pattern[i] == WILDCARD
    ensures Apply(r, n) == Some(r.replace)
  {
    ApplyMatchesIff(r, n);
    ApplyResolvesReplace(r, n);
  }
}
