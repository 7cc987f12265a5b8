/**
 * `generate_network`: split nodes 0..N-1 into classes A and B, grow a set of
 * ordered edges by rejection sampling until it reaches the density target, and
 * optionally replace it by its complement.
 *
 * The random numbers are inputs: `uniforms` stands for the successive values of
 * `np.random.random()`, and `draws` for the successive (edge type, source
 * pick, target pick) choices of the sampling loop. Every property below holds
 * for every such input. The Python loop may run forever; here it stops with
 * `DrawsExhausted` when the supplied draws run out.
 */
module NetworkGenerator {
  import opened Wrappers

  type Edge = (nat, nat)

  /** The four edge types, in the order the probability vector lists them. */
  datatype EdgeType = AA | AB | BA | BB
  {
    /** The label `np.random.choice` draws: its letters name the classes of source and target. */
    function Name(): (s: string)
      ensures |s| == 2 && (s[0] == 'a' || s[0] == 'b') && (s[1] == 'a' || s[1] == 'b')
      ensures s == ["aa", "ab", "ba", "bb"][Index()]
    {
      match this
      case AA => "aa"
      case AB => "ab"
      case BA => "ba"
      case BB => "bb"
    }

    /** Position of this type in `['aa', 'ab', 'ba', 'bb']`, hence in `probs`. */
    function Index(): (k: nat)
      ensures k < 4
    {
      match this
      case AA => 0
      case AB => 1
      case BA => 2
      case BB => 3
    }
  }

  /** One turn of the sampling loop: the drawn type and the two uniform picks. */
  datatype Draw = Draw(kind: EdgeType, sourcePick: nat, targetPick: nat)

  datatype GenError =
    | AssertionFailed      // the `assert`s on probs and Mc
    | InvalidDistribution  // np.random.choice rejects p
    | EmptyClass           // np.random.choice on an empty node list
    | DrawsExhausted       // the sampling loop would go on past the supplied draws

  datatype Network = Network(nodesA: seq<nat>, nodesB: seq<nat>, edges: seq<Edge>)

  predicate StrictlyIncreasing(s: seq<nat>)
  {
    forall i, j :: 0 <= i < j < |s| ==> s[i] < s[j]
  }

  predicate Below(s: seq<nat>, n: nat)
  {
    forall i :: 0 <= i < |s| ==> s[i] < n
  }

  /** Node i's random number sends it to class A. */
  predicate ToClassA(uniforms: seq<real>, i: nat)
    requires i < |uniforms|
  {
    uniforms[i] < 0.5
  }

  /**
   * The nodes below |uniforms| that the random numbers send to class A (when
   * `inA`) or to class B, in increasing order.
   */
  function ClassMembers(uniforms: seq<real>, inA: bool): seq<nat>
    decreases |uniforms|
  {
    if uniforms == [] then []
    else
      var i := |uniforms| - 1;
      ClassMembers(uniforms[..i], inA) + (if (uniforms[i] < 0.5) == inA then [i] else [])
  }

  /** A class list is strictly increasing and below the number of nodes. */
  lemma {:induction false} ClassMembersIncreasing(uniforms: seq<real>, inA: bool)
    ensures StrictlyIncreasing(ClassMembers(uniforms, inA)) && Below(ClassMembers(uniforms, inA), |uniforms|)
    decreases |uniforms|
  {
    if uniforms != [] {
      ClassMembersIncreasing(uniforms[..|uniforms| - 1], inA);
    }
  }

  /** Node i is in the list of class A (or B) exactly when its draw sends it there. */
  lemma {:induction false} ClassMembersExact(uniforms: seq<real>, inA: bool)
    ensures forall i :: 0 <= i < |uniforms| ==> (i in ClassMembers(uniforms, inA) <==> (uniforms[i] < 0.5) == inA)
    decreases |uniforms|
  {
    if uniforms != [] {
      var n := |uniforms| - 1;
      var front := uniforms[..n];
      ClassMembersExact(front, inA);
      ClassMembersIncreasing(front, inA);
      assert forall i :: 0 <= i < n ==> front[i] == uniforms[i];
    }
  }

  /** The two class lists together have one entry per node. */
  lemma {:induction false} ClassMembersCount(uniforms: seq<real>)
    ensures |ClassMembers(uniforms, true)| + |ClassMembers(uniforms, false)| == |uniforms|
    decreases |uniforms|
  {
    if uniforms != [] {
      ClassMembersCount(uniforms[..|uniforms| - 1]);
    }
  }

  /** The two class lists split the nodes as the random numbers say, each in increasing order. */
  lemma ClassMembersPartition(uniforms: seq<real>)
    ensures IsPartition(|uniforms|, uniforms, ClassMembers(uniforms, true), ClassMembers(uniforms, false))
  {
    ClassMembersIncreasing(uniforms, true);
    ClassMembersIncreasing(uniforms, false);
    ClassMembersExact(uniforms, true);
    ClassMembersExact(uniforms, false);
    ClassMembersCount(uniforms);
  }

  /** The node-splitting loop: node i joins A when its random number is below 0.5, else B. */
  method Partition(n: nat, uniforms: seq<real>) returns (nodesA: seq<nat>, nodesB: seq<nat>)
    requires |uniforms| == n
    ensures nodesA == ClassMembers(uniforms, true) && nodesB == ClassMembers(uniforms, false)
    ensures IsPartition(n, uniforms, nodesA, nodesB)
  {
    nodesA, nodesB := [], [];
    for i := 0 to n
      invariant nodesA == ClassMembers(uniforms[..i], true)
      invariant nodesB == ClassMembers(uniforms[..i], false)
    {
      assert uniforms[..i + 1][..i] == uniforms[..i];
      if uniforms[i] < 0.5 {
        nodesA := nodesA + [i];
      } else {
        nodesB := nodesB + [i];
      }
    }
    assert uniforms[..n] == uniforms;
    ClassMembersPartition(uniforms);
  }

  /** The list a label letter selects: `nodes_A if letter == 'a' else nodes_B`. */
  function Pool(nodesA: seq<nat>, nodesB: seq<nat>, letter: char): seq<nat>
  {
    if letter == 'a' then nodesA else nodesB
  }

  /**
   * The two `np.random.choice(..., 1)[0]` calls of one turn: each endpoint is an
   * element of the list its letter selects; an empty list is an error.
   */
  function Pick(nodesA: seq<nat>, nodesB: seq<nat>, d: Draw): (r: Result<Edge, GenError>)
    ensures r.Ok? <==> |Pool(nodesA, nodesB, d.kind.Name()[0])| > 0 && |Pool(nodesA, nodesB, d.kind.Name()[1])| > 0
    ensures r.Err? ==> r.error == EmptyClass
    ensures r.Ok? ==> r.value.0 in Pool(nodesA, nodesB, d.kind.Name()[0])
    ensures r.Ok? ==> r.value.1 in Pool(nodesA, nodesB, d.kind.Name()[1])
  {
    var sources := Pool(nodesA, nodesB, d.kind.Name()[0]);
    var targets := Pool(nodesA, nodesB, d.kind.Name()[1]);
    if |sources| == 0 || |targets| == 0 then Err(EmptyClass)
    else Ok((sources[d.sourcePick % |sources|], targets[d.targetPick % |targets|]))
  }

  /** The weight `probs` gives to an edge type (0 where probs has no such entry). */
  function Weight(probs: seq<real>, t: EdgeType): real
  {
    if t.Index() < |probs| then probs[t.Index()] else 0.0
  }

  function Sum(xs: seq<real>): real
  {
    if xs == [] then 0.0 else xs[0] + Sum(xs[1..])
  }

  predicate NonNegative(probs: seq<real>)
  {
    forall i :: 0 <= i < |probs| ==> probs[i] >= 0.0
  }

  /** What np.random.choice accepts as `p` for four choices. */
  predicate ValidDistribution(probs: seq<real>)
  {
    |probs| == 4 && NonNegative(probs) && Sum(probs) == 1.0
  }

  /** Every drawn type is one np.random.choice can return: its probability is positive. */
  predicate DrawsFollow(probs: seq<real>, draws: seq<Draw>)
  {
    forall i :: 0 <= i < |draws| ==> Weight(probs, draws[i].kind) > 0.0
  }

  /** `M = Mc * N * (N - 1)`, in exact arithmetic. */
  function Goal(n: nat, mc: real): real
  {
    mc * (n * (n - 1)) as real
  }

  /** k is the least natural number that is not below the goal. */
  predicate LeastReaching(k: nat, goal: real)
  {
    k as real >= goal && (k == 0 || ((k - 1) as real) < goal)
  }

  predicate ProperEdge(e: Edge, n: nat)
  {
    e.0 != e.1 && e.0 < n && e.1 < n
  }

  /** The class letter of a node: 'a' for class A, 'b' otherwise. */
  function Letter(nodesA: seq<nat>, v: nat): char
  {
    if v in nodesA then 'a' else 'b'
  }

  /** Edge e was produced by turn i of the sampling loop. */
  predicate FromDraw(nodesA: seq<nat>, nodesB: seq<nat>, draws: seq<Draw>, i: nat, e: Edge)
  {
    i < |draws| && Pick(nodesA, nodesB, draws[i]) == Ok(e)
  }

  /** Edge e was produced by one of the first `turns` turns. */
  predicate Produced(nodesA: seq<nat>, nodesB: seq<nat>, draws: seq<Draw>, turns: nat, e: Edge)
  {
    exists i :: 0 <= i < turns && FromDraw(nodesA, nodesB, draws, i, e)
  }

  /** What one turn adds to the set: its pick, unless that is a self-loop or fails. */
  function Gain(nodesA: seq<nat>, nodesB: seq<nat>, d: Draw): set<Edge>
  {
    match Pick(nodesA, nodesB, d)
    case Ok(e) => if e.0 != e.1 then {e} else {}
    case Err(_) => {}
  }

  /** The set after the first t turns, each adding its pick unless it is a self-loop. */
  function Accepted(nodesA: seq<nat>, nodesB: seq<nat>, draws: seq<Draw>, t: nat): (s: set<Edge>)
    requires t <= |draws|
    ensures |s| <= t
    ensures forall e :: e in s ==> e.0 != e.1
  {
    if t == 0 then {} else Accepted(nodesA, nodesB, draws, t - 1) + Gain(nodesA, nodesB, draws[t - 1])
  }

  lemma GainOf(nodesA: seq<nat>, nodesB: seq<nat>, d: Draw, e: Edge)
    ensures e in Gain(nodesA, nodesB, d) <==> e.0 != e.1 && Pick(nodesA, nodesB, d) == Ok(e)
  {
  }

  /** One turn adds its pick to the set unless the pick is a self-loop. */
  lemma AcceptedStep(nodesA: seq<nat>, nodesB: seq<nat>, draws: seq<Draw>, t: nat, e: Edge)
    requires t < |draws| && Pick(nodesA, nodesB, draws[t]) == Ok(e)
    ensures Accepted(nodesA, nodesB, draws, t + 1)
         == if e.0 != e.1 then Accepted(nodesA, nodesB, draws, t) + {e} else Accepted(nodesA, nodesB, draws, t)
  {
    assert Gain(nodesA, nodesB, draws[t]) == if e.0 != e.1 then {e} else {};
  }

  /** The set only grows from turn to turn. */
  lemma {:induction false} AcceptedGrows(nodesA: seq<nat>, nodesB: seq<nat>, draws: seq<Draw>, s: nat, t: nat)
    requires s <= t <= |draws|
    ensures Accepted(nodesA, nodesB, draws, s) <= Accepted(nodesA, nodesB, draws, t)
    decreases t
  {
    if s < t {
      AcceptedGrows(nodesA, nodesB, draws, s, t - 1);
      var before, after := Accepted(nodesA, nodesB, draws, t - 1), Accepted(nodesA, nodesB, draws, t);
      assert after == before + Gain(nodesA, nodesB, draws[t - 1]);
      assert before <= after;
    }
  }

  /** An edge is in the set after t turns exactly when it is no self-loop and one of those turns picked it. */
  lemma {:induction false} AcceptedProduced(nodesA: seq<nat>, nodesB: seq<nat>, draws: seq<Draw>, t: nat, e: Edge)
    requires t <= |draws|
    ensures e in Accepted(nodesA, nodesB, draws, t) <==> e.0 != e.1 && Produced(nodesA, nodesB, draws, t, e)
    decreases t
  {
    if e in Accepted(nodesA, nodesB, draws, t) {
      AcceptedFromDraw(nodesA, nodesB, draws, t, e);
    }
    if e.0 != e.1 && Produced(nodesA, nodesB, draws, t, e) {
      var i :| 0 <= i < t && FromDraw(nodesA, nodesB, draws, i, e);
      GainOf(nodesA, nodesB, draws[i], e);
      assert e in Accepted(nodesA, nodesB, draws, i + 1);
      AcceptedGrows(nodesA, nodesB, draws, i + 1, t);
    }
  }

  lemma {:induction false} AcceptedFromDraw(nodesA: seq<nat>, nodesB: seq<nat>, draws: seq<Draw>, t: nat, e: Edge)
    requires t <= |draws| && e in Accepted(nodesA, nodesB, draws, t)
    ensures Produced(nodesA, nodesB, draws, t, e)
    decreases t
  {
    if e in Accepted(nodesA, nodesB, draws, t - 1) {
      AcceptedFromDraw(nodesA, nodesB, draws, t - 1, e);
      var i :| 0 <= i < t - 1 && FromDraw(nodesA, nodesB, draws, i, e);
      assert 0 <= i < t && FromDraw(nodesA, nodesB, draws, i, e);
    } else {
      GainOf(nodesA, nodesB, draws[t - 1], e);
      assert FromDraw(nodesA, nodesB, draws, t - 1, e);
    }
  }

  /**
   * The loop is still running after turn t: every earlier set was below the
   * goal, and every earlier pick succeeded.
   */
  predicate ShortBefore(nodesA: seq<nat>, nodesB: seq<nat>, draws: seq<Draw>, goal: real, t: nat)
  {
    && t <= |draws|
    && (forall u :: 0 <= u < t ==> (|Accepted(nodesA, nodesB, draws, u)| as real) < goal)
    && (forall u :: 0 <= u < t ==> Pick(nodesA, nodesB, draws[u]).Ok?)
  }

  /** The loop stops after exactly t turns: the first turn whose set reaches the goal. */
  predicate StopsAt(nodesA: seq<nat>, nodesB: seq<nat>, draws: seq<Draw>, goal: real, t: nat)
  {
    ShortBefore(nodesA, nodesB, draws, goal, t) && (|Accepted(nodesA, nodesB, draws, t)| as real) >= goal
  }

  /** The draws fix the turn at which the loop stops, and so the set it returns. */
  lemma StopsAtUnique(nodesA: seq<nat>, nodesB: seq<nat>, draws: seq<Draw>, goal: real, t1: nat, t2: nat)
    requires StopsAt(nodesA, nodesB, draws, goal, t1) && StopsAt(nodesA, nodesB, draws, goal, t2)
    ensures t1 == t2
    ensures Accepted(nodesA, nodesB, draws, t1) == Accepted(nodesA, nodesB, draws, t2)
  {
  }

  /** The set the loop stops with has the least size not below the goal: it grows by at most one per turn. */
  lemma StopsAtLeast(nodesA: seq<nat>, nodesB: seq<nat>, draws: seq<Draw>, goal: real, t: nat)
    requires StopsAt(nodesA, nodesB, draws, goal, t)
    ensures LeastReaching(|Accepted(nodesA, nodesB, draws, t)|, goal)
  {
    if t > 0 {
      var before, gain := Accepted(nodesA, nodesB, draws, t - 1), Gain(nodesA, nodesB, draws[t - 1]);
      assert Accepted(nodesA, nodesB, draws, t) == before + gain;
      assert |gain| <= 1;
      assert (|before| as real) < goal;
    }
  }

  /** One more turn whose set was below the goal and whose pick succeeded. */
  lemma ShortBeforeStep(nodesA: seq<nat>, nodesB: seq<nat>, draws: seq<Draw>, goal: real, t: nat)
    requires ShortBefore(nodesA, nodesB, draws, goal, t) && t < |draws|
    requires (|Accepted(nodesA, nodesB, draws, t)| as real) < goal && Pick(nodesA, nodesB, draws[t]).Ok?
    ensures ShortBefore(nodesA, nodesB, draws, goal, t + 1)
  {
  }

  /**
   * The sampling loop `while len(edges) < M`: each turn draws a type and two
   * endpoints and adds the pair unless it is a self-loop. It stops at the first
   * turn whose set reaches M, returning that set, whose size is therefore the
   * least integer not below M.
   */
  method SampleEdges(nodesA: seq<nat>, nodesB: seq<nat>, goal: real, probs: seq<real>, draws: seq<Draw>)
    returns (r: Result<set<Edge>, GenError>, turns: nat)
    ensures ShortBefore(nodesA, nodesB, draws, goal, turns)
    ensures r.Ok? ==> StopsAt(nodesA, nodesB, draws, goal, turns)
    ensures r.Ok? ==> r.value == Accepted(nodesA, nodesB, draws, turns)
    ensures r.Ok? ==> LeastReaching(|r.value|, goal)
    ensures r.Ok? ==> forall e :: e in r.value ==> Produced(nodesA, nodesB, draws, turns, e)
    ensures r.Err? ==> (|Accepted(nodesA, nodesB, draws, turns)| as real) < goal
    ensures r == Err(InvalidDistribution) <==> goal > 0.0 && !ValidDistribution(probs)
    ensures r == Err(InvalidDistribution) ==> turns == 0
    ensures r == Err(EmptyClass) ==> turns < |draws| && Pick(nodesA, nodesB, draws[turns]).Err?
    ensures r == Err(DrawsExhausted) ==> turns == |draws|
    ensures r.Err? ==> r.error != AssertionFailed
  {
    var edges: set<Edge> := {};
    turns := 0;
    while (|edges| as real) < goal
      invariant ShortBefore(nodesA, nodesB, draws, goal, turns)
      invariant edges == Accepted(nodesA, nodesB, draws, turns)
      invariant turns > 0 ==> ValidDistribution(probs)
      decreases |draws| - turns
    {
      if !ValidDistribution(probs) {
        return Err(InvalidDistribution), turns;
      }
      if turns == |draws| {
        return Err(DrawsExhausted), turns;
      }
      var picked := Pick(nodesA, nodesB, draws[turns]);
      if picked.Err? {
        return Err(EmptyClass), turns;
      }
      var e := picked.value;
      ShortBeforeStep(nodesA, nodesB, draws, goal, turns);
      AcceptedStep(nodesA, nodesB, draws, turns, e);
      if e.0 != e.1 {
        edges := edges + {e};
      }
      turns := turns + 1;
    }
    StopsAtLeast(nodesA, nodesB, draws, goal, turns);
    forall e | e in edges ensures Produced(nodesA, nodesB, draws, turns, e) {
      AcceptedProduced(nodesA, nodesB, draws, turns, e);
    }
    r := Ok(edges);
  }

  /** All ordered pairs of distinct nodes below n. */
  function AllPairs(n: nat): set<Edge>
  {
    set u: nat, v: nat | u < n && v < n && u != v :: (u, v)
  }

  /** The invert step: every ordered non-self-loop pair not in `edges`. */
  function Complement(n: nat, edges: set<Edge>): set<Edge>
  {
    AllPairs(n) - edges
  }

  function Row(u: nat, m: nat): set<Edge>
  {
    set v: nat | v < m :: (u, v)
  }

  function Column(v: nat, m: nat): set<Edge>
  {
    set u: nat | u < m :: (u, v)
  }

  lemma {:induction false} RowSize(u: nat, m: nat)
    ensures |Row(u, m)| == m
  {
    if m > 0 {
      RowSize(u, m - 1);
      assert Row(u, m) == Row(u, m - 1) + {(u, m - 1)};
    }
  }

  lemma {:induction false} ColumnSize(v: nat, m: nat)
    ensures |Column(v, m)| == m
  {
    if m > 0 {
      ColumnSize(v, m - 1);
      assert Column(v, m) == Column(v, m - 1) + {(m - 1, v)};
    }
  }

  /** The pairs below m + 1 are those below m, row m and column m, which do not overlap. */
  lemma AllPairsSplit(m: nat)
    ensures AllPairs(m + 1) == AllPairs(m) + Row(m, m) + Column(m, m)
    ensures AllPairs(m) * Row(m, m) == {} && (AllPairs(m) + Row(m, m)) * Column(m, m) == {}
  {
    var old_, row, col := AllPairs(m), Row(m, m), Column(m, m);
    forall e | e in AllPairs(m + 1) ensures e in old_ + row + col {
      if e.0 == m {
        assert e in row;
      } else if e.1 == m {
        assert e in col;
      } else {
        assert e in old_;
      }
    }
  }

  lemma SquareStep(m: nat)
    ensures m * (m - 1) + m + m == (m + 1) * m
  {
  }

  /** There are N(N-1) ordered pairs of distinct nodes. */
  lemma {:induction false} AllPairsSize(n: nat)
    ensures |AllPairs(n)| == n * (n - 1)
  {
    if n > 0 {
      var m := n - 1;
      AllPairsSize(m);
      RowSize(m, m);
      ColumnSize(m, m);
      AllPairsSplit(m);
      var old_, row, col := AllPairs(m), Row(m, m), Column(m, m);
      assert |old_ + row| == |old_| + |row|;
      assert |old_ + row + col| == |old_ + row| + |col|;
      SquareStep(m);
    }
  }

  /**
   * The complement laws: for an edge set of proper pairs, the complement is
   * disjoint from it, the two together are all pairs, the complement has
   * N(N-1) - |edges| elements, and complementing twice gives the set back.
   */
  lemma ComplementLaws(n: nat, edges: set<Edge>)
    requires forall e :: e in edges ==> ProperEdge(e, n)
    ensures Complement(n, edges) * edges == {}
    ensures Complement(n, edges) + edges == AllPairs(n)
    ensures |Complement(n, edges)| == n * (n - 1) - |edges|
    ensures Complement(n, Complement(n, edges)) == edges
    ensures forall e :: e in Complement(n, edges) ==> ProperEdge(e, n)
  {
    assert edges <= AllPairs(n) by {
      forall e | e in edges ensures e in AllPairs(n) {
        assert ProperEdge(e, n);
      }
    }
    AllPairsSize(n);
    assert Complement(n, edges) + edges == AllPairs(n);
  }

  /** `list(edges)`: the members of a set in some order, each exactly once. */
  method ListOfSet(s: set<Edge>) returns (xs: seq<Edge>)
    ensures |xs| == |s|
    ensures forall e :: e in xs <==> e in s
    ensures forall i, j :: 0 <= i < j < |xs| ==> xs[i] != xs[j]
  {
    xs := [];
    var rest := s;
    while rest != {}
      invariant rest <= s
      invariant |xs| + |rest| == |s|
      invariant forall e :: e in xs <==> e in s && e !in rest
      invariant forall i, j :: 0 <= i < j < |xs| ==> xs[i] != xs[j]
      decreases |rest|
    {
      var e :| e in rest;
      xs := xs + [e];
      rest := rest - {e};
    }
  }

  /** The edge type whose letters are the classes of e's source and target. */
  function TypeOf(nodesA: seq<nat>, e: Edge): (t: EdgeType)
    ensures t.Name()[0] == Letter(nodesA, e.0) && t.Name()[1] == Letter(nodesA, e.1)
  {
    match (e.0 in nodesA, e.1 in nodesA)
    case (true, true) => AA
    case (true, false) => AB
    case (false, true) => BA
    case (false, false) => BB
  }

  /** nodesA and nodesB are the classes the random numbers assign to nodes 0..n-1. */
  predicate IsPartition(n: nat, uniforms: seq<real>, nodesA: seq<nat>, nodesB: seq<nat>)
    requires |uniforms| == n
  {
    && StrictlyIncreasing(nodesA) && StrictlyIncreasing(nodesB)
    && Below(nodesA, n) && Below(nodesB, n)
    && (forall i :: 0 <= i < n ==> (i in nodesA <==> ToClassA(uniforms, i)))
    && (forall i :: 0 <= i < n ==> (i in nodesB <==> !ToClassA(uniforms, i)))
    && |nodesA| + |nodesB| == n
  }

  /**
   * Every sampled edge joins two distinct nodes below n and was produced by a
   * turn whose drawn type names the classes of its two endpoints.
   */
  predicate SampledByType(n: nat, nodesA: seq<nat>, nodesB: seq<nat>, draws: seq<Draw>, sampled: set<Edge>)
  {
    forall e :: e in sampled ==>
      ProperEdge(e, n) && exists i :: 0 <= i < |draws| && FromDraw(nodesA, nodesB, draws, i, e) && draws[i].kind == TypeOf(nodesA, e)
  }

  /**
   * With a partition into two disjoint classes, an endpoint chosen from the
   * list a letter selects is in class A exactly when the letter is 'a'.
   */
  lemma ClassOfPick(n: nat, uniforms: seq<real>, nodesA: seq<nat>, nodesB: seq<nat>, d: Draw, e: Edge)
    requires |uniforms| == n && IsPartition(n, uniforms, nodesA, nodesB)
    requires Pick(nodesA, nodesB, d) == Ok(e) && e.0 != e.1
    ensures ProperEdge(e, n)
    ensures d.kind == TypeOf(nodesA, e)
  {
  }

  /** What the sampling loop returns satisfies `SampledByType` under a partition. */
  lemma SampledEdgesTyped(n: nat, uniforms: seq<real>, nodesA: seq<nat>, nodesB: seq<nat>, draws: seq<Draw>, turns: nat, sampled: set<Edge>)
    requires |uniforms| == n && IsPartition(n, uniforms, nodesA, nodesB)
    requires turns <= |draws|
    requires forall e :: e in sampled ==> e.0 != e.1
    requires forall e :: e in sampled ==> Produced(nodesA, nodesB, draws, turns, e)
    ensures SampledByType(n, nodesA, nodesB, draws, sampled)
  {
    forall e | e in sampled
      ensures ProperEdge(e, n)
      ensures exists i :: 0 <= i < |draws| && FromDraw(nodesA, nodesB, draws, i, e) && draws[i].kind == TypeOf(nodesA, e)
    {
      assert Produced(nodesA, nodesB, draws, turns, e);
      var i :| 0 <= i < turns && FromDraw(nodesA, nodesB, draws, i, e);
      ClassOfPick(n, uniforms, nodesA, nodesB, draws[i], e);
    }
  }

  /**
   * When every drawn type has positive probability, so has the type of every
   * sampled edge: with `p_bb == 0`, say, no edge joins two class-B nodes.
   */
  lemma {:induction false} SampledTypesHaveWeight(n: nat, nodesA: seq<nat>, nodesB: seq<nat>, probs: seq<real>, draws: seq<Draw>, sampled: set<Edge>)
    requires SampledByType(n, nodesA, nodesB, draws, sampled)
    requires DrawsFollow(probs, draws)
    ensures forall e :: e in sampled ==> Weight(probs, TypeOf(nodesA, e)) > 0.0
  {
    forall e | e in sampled ensures Weight(probs, TypeOf(nodesA, e)) > 0.0 {
      var i :| 0 <= i < |draws| && FromDraw(nodesA, nodesB, draws, i, e) && draws[i].kind == TypeOf(nodesA, e);
    }
  }

  /**
   * `generate_network(N, Mc, probs, invert)`. The sampled set and the number of
   * loop turns are returned as ghost results so that the output can be related
   * to the draws: the classes are fixed by `uniforms`, the loop stops at the
   * first turn whose set reaches the goal, and the edges are that set or, with
   * `invert`, its complement.
   */
  method GenerateNetwork(n: nat, mc: real, probs: seq<real>, invert: bool, uniforms: seq<real>, draws: seq<Draw>)
    returns (r: Result<Network, GenError>, ghost sampled: set<Edge>, ghost turns: nat)
    requires |uniforms| == n
    ensures r == Err(AssertionFailed) <==> !(NonNegative(probs) && 0.0 < mc < 1.0)
    ensures r == Err(InvalidDistribution) <==>
      NonNegative(probs) && 0.0 < mc < 1.0 && Goal(n, mc) > 0.0 && !ValidDistribution(probs)
    ensures r.Err? && r.error != AssertionFailed ==>
      ShortBefore(ClassMembers(uniforms, true), ClassMembers(uniforms, false), draws, Goal(n, mc), turns)
      && (|Accepted(ClassMembers(uniforms, true), ClassMembers(uniforms, false), draws, turns)| as real) < Goal(n, mc)
    ensures r == Err(EmptyClass) ==>
      turns < |draws| && Pick(ClassMembers(uniforms, true), ClassMembers(uniforms, false), draws[turns]).Err?
    ensures r == Err(DrawsExhausted) ==> turns == |draws|
    ensures r.Ok? ==> r.value.nodesA == ClassMembers(uniforms, true) && r.value.nodesB == ClassMembers(uniforms, false)
    ensures r.Ok? ==> IsPartition(n, uniforms, r.value.nodesA, r.value.nodesB)
    ensures r.Ok? ==> StopsAt(r.value.nodesA, r.value.nodesB, draws, Goal(n, mc), turns)
    ensures r.Ok? ==> sampled == Accepted(r.value.nodesA, r.value.nodesB, draws, turns)
    ensures r.Ok? ==> SampledByType(n, r.value.nodesA, r.value.nodesB, draws, sampled)
    ensures r.Ok? ==> LeastReaching(|sampled|, Goal(n, mc))
    ensures r.Ok? ==> forall i, j :: 0 <= i < j < |r.value.edges| ==> r.value.edges[i] != r.value.edges[j]
    ensures r.Ok? ==> forall e :: e in r.value.edges ==> ProperEdge(e, n)
    ensures r.Ok? ==> forall e :: e in r.value.edges <==> e in (if invert then Complement(n, sampled) else sampled)
    ensures r.Ok? && !invert ==> LeastReaching(|r.value.edges|, Goal(n, mc))
    ensures r.Ok? && invert ==> |r.value.edges| == n * (n - 1) - |sampled|
  {
    sampled, turns := {}, 0;
    if !(NonNegative(probs) && 0.0 < mc < 1.0) {
      return Err(AssertionFailed), sampled, turns;
    }
    var nodesA, nodesB := Partition(n, uniforms);
    var grown;
    grown, turns := SampleEdges(nodesA, nodesB, Goal(n, mc), probs, draws);
    if grown.Err? {
      return Err(grown.error), sampled, turns;
    }
    sampled := grown.value;
    SampledEdgesTyped(n, uniforms, nodesA, nodesB, draws, turns, sampled);
    var edgeSet := grown.value;
    if invert {
      ComplementLaws(n, grown.value);
      edgeSet := Complement(n, grown.value);
    }
    assert forall e :: e in edgeSet ==> ProperEdge(e, n);
    var edges := ListOfSet(edgeSet);
    r := Ok(Network(nodesA, nodesB, edges));
  }
}
