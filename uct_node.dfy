/**
 * A node of the Monte-Carlo search tree (src/UCTNode.cpp), modelled
 * sequentially.  The node's counters, status and rotation bookkeeping are
 * fields that the methods update in place; its children are other node
 * objects.  The neural network, the move-legality test of the game state,
 * the random rotation, `sqrt` and the search's tuning constants are
 * parameters.  Floats and doubles are modelled as exact reals.
 */
module UCT {
  import opened Sorting

  /** Colours as `FastBoard` numbers them. */
  const Black := 0
  const White := 1

  /** Number of losses a virtual loss stands for (UCTNode.h). */
  const VirtualLossCount := 3

  /** `std::numeric_limits<float>::min()`, the smallest normal float, 2^-126. */
  const FloatMin: real := 1.0 / 85070591730234615865843651857942052864.0

  // -------------------------------------------------------------------
  // Node status

  datatype Status = Active | Pruned | Invalid

  /** The two operations that change a node's status. */
  datatype StatusOp = InvalidateOp | SetActiveOp(active: bool)

  /** Effect of one status operation (`invalidate`, `set_active`). */
  function StatusStep(s: Status, op: StatusOp): Status {
    match op
    case InvalidateOp => Invalid
    case SetActiveOp(active) => if s != Invalid then (if active then Active else Pruned) else s
  }

  function StatusRun(s: Status, ops: seq<StatusOp>): Status
    decreases |ops|
  {
    if ops == [] then s else StatusRun(StatusStep(s, ops[0]), ops[1..])
  }

  /** Once invalid, no sequence of status operations makes a node valid again. */
  lemma {:induction false} InvalidIsFinal(ops: seq<StatusOp>)
    ensures StatusRun(Invalid, ops) == Invalid
  {
    if ops != [] {
      InvalidIsFinal(ops[1..]);
    }
  }

  /** `set_active` is obeyed by a valid node and ignored by an invalid one. */
  lemma SetActiveOnStatus(s: Status, active: bool)
    ensures s == Invalid ==> StatusStep(s, SetActiveOp(active)) == Invalid
    ensures s != Invalid ==> StatusStep(s, SetActiveOp(active)) == (if active then Active else Pruned)
  {
  }

  // -------------------------------------------------------------------
  // Network output and the list of candidate moves

  /** A `Network::scored_node`: a prior probability and the vertex it is for. */
  datatype ScoredMove = ScoredMove(score: real, vertex: int)

  /** The network's answer: scored moves, and the winrate of the side to move. */
  datatype NetOutput = NetOutput(moves: seq<ScoredMove>, winrate: real)

  /** `operator<` of `std::pair<float, int>`: by score, then by vertex. */
  predicate ScoredLess(a: ScoredMove, b: ScoredMove) {
    a.score < b.score || (a.score == b.score && a.vertex < b.vertex)
  }

  function Same(m: ScoredMove): ScoredMove { m }

  lemma ScoredLessIsStrictWeakOrder()
    ensures StrictWeakOrder(ScoredLess)
  {
  }

  /** The entries of `raw` whose vertex is legal, in their original order. */
  function LegalMoves(raw: seq<ScoredMove>, legal: set<int>): seq<ScoredMove> {
    if raw == [] then []
    else
      var init := raw[..|raw| - 1];
      var last := raw[|raw| - 1];
      if last.vertex in legal then LegalMoves(init, legal) + [last] else LegalMoves(init, legal)
  }

  /** The filter keeps every legal entry as often as it occurs, and nothing else. */
  lemma {:induction false} LegalMovesCount(raw: seq<ScoredMove>, legal: set<int>)
    ensures forall m :: multiset(LegalMoves(raw, legal))[m] == if m.vertex in legal then multiset(raw)[m] else 0
  {
    if raw != [] {
      var init := raw[..|raw| - 1];
      var last := raw[|raw| - 1];
      assert raw == init + [last];
      LegalMovesCount(init, legal);
    }
  }

  function SumScores(s: seq<ScoredMove>): real {
    if s == [] then 0.0 else SumScores(s[..|s| - 1]) + s[|s| - 1].score
  }

  /**
   * The list after renormalisation: every score divided by the legal sum,
   * or, when that sum is not above the smallest normal float, the uniform
   * distribution.
   */
  function Renormalised(nodelist: seq<ScoredMove>, legalSum: real): seq<ScoredMove> {
    seq(|nodelist|, i requires 0 <= i < |nodelist| =>
      ScoredMove(if legalSum > FloatMin then nodelist[i].score / legalSum else 1.0 / |nodelist| as real,
                 nodelist[i].vertex))
  }

  /** The legal entries of the network's list with their priors renormalised. */
  function LegalPriors(raw: seq<ScoredMove>, legal: set<int>): seq<ScoredMove> {
    Renormalised(LegalMoves(raw, legal), SumScores(LegalMoves(raw, legal)))
  }

  /** The children of a fresh expansion come best first: no later entry outranks an earlier one. */
  lemma ExpandedListBestFirst(raw: seq<ScoredMove>, legal: set<int>)
    ensures SortedDesc(ExpandedList(raw, legal), Same, ScoredLess)
  {
    ScoredLessIsStrictWeakOrder();
    SortDescSorted(LegalPriors(raw, legal), Same, ScoredLess);
  }

  /** The move list a fresh expansion links under the node, best first. */
  function ExpandedList(raw: seq<ScoredMove>, legal: set<int>): seq<ScoredMove> {
    SortDesc(LegalPriors(raw, legal), Same, ScoredLess)
  }

  /** The loop that keeps the legal moves and sums their priors. */
  method FilterLegal(raw: seq<ScoredMove>, legal: set<int>) returns (nodelist: seq<ScoredMove>, legalSum: real)
    ensures nodelist == LegalMoves(raw, legal)
    ensures legalSum == SumScores(nodelist)
  {
    nodelist, legalSum := [], 0.0;
    var i := 0;
    while i < |raw|
      invariant 0 <= i <= |raw|
      invariant nodelist == LegalMoves(raw[..i], legal)
      invariant legalSum == SumScores(nodelist)
    {
      assert raw[..i + 1][..i] == raw[..i];
      if raw[i].vertex in legal {
        nodelist := nodelist + [raw[i]];
        assert nodelist[..|nodelist| - 1] == LegalMoves(raw[..i], legal);
        legalSum := legalSum + raw[i].score;
      }
      i := i + 1;
    }
    assert raw[..i] == raw;
  }

  /**
   * Filtering and renormalisation as `create_children` and
   * `do_next_rotation` both do them.
   */
  method ComputeLegalPriors(raw: seq<ScoredMove>, legal: set<int>) returns (nodelist: seq<ScoredMove>)
    ensures nodelist == LegalPriors(raw, legal)
  {
    var legalSum;
    nodelist, legalSum := FilterLegal(raw, legal);
    nodelist := Renormalise(nodelist, legalSum);
  }

  /** The loop that renormalises the priors in place. */
  method Renormalise(nodelist: seq<ScoredMove>, legalSum: real) returns (r: seq<ScoredMove>)
    ensures r == Renormalised(nodelist, legalSum)
  {
    r := nodelist;
    var i := 0;
    if legalSum > FloatMin {
      while i < |r|
        invariant 0 <= i <= |r| == |nodelist|
        invariant forall k :: 0 <= k < i ==> r[k] == ScoredMove(nodelist[k].score / legalSum, nodelist[k].vertex)
        invariant forall k :: i <= k < |r| ==> r[k] == nodelist[k]
      {
        r := r[i := ScoredMove(r[i].score / legalSum, r[i].vertex)];
        i := i + 1;
      }
    } else {
      // `1.0f / 0` is never stored: an empty list has no entry to set.
      var uniform := if |nodelist| > 0 then 1.0 / |nodelist| as real else 0.0;
      while i < |r|
        invariant 0 <= i <= |r| == |nodelist|
        invariant forall k :: 0 <= k < i ==> r[k] == ScoredMove(uniform, nodelist[k].vertex)
        invariant forall k :: i <= k < |r| ==> r[k] == nodelist[k]
      {
        r := r[i := ScoredMove(uniform, r[i].vertex)];
        i := i + 1;
      }
    }
  }

  lemma {:induction false} SumScaled(s: seq<ScoredMove>, d: real)
    requires d != 0.0
    ensures SumScores(seq(|s|, i requires 0 <= i < |s| => ScoredMove(s[i].score / d, s[i].vertex))) == SumScores(s) / d
  {
    var t := seq(|s|, i requires 0 <= i < |s| => ScoredMove(s[i].score / d, s[i].vertex));
    if s != [] {
      var init := s[..|s| - 1];
      SumScaled(init, d);
      assert t[..|t| - 1] == seq(|init|, i requires 0 <= i < |init| => ScoredMove(init[i].score / d, init[i].vertex));
    }
  }

  lemma {:induction false} SumUniform(s: seq<ScoredMove>, u: real)
    requires forall i :: 0 <= i < |s| ==> s[i].score == u
    ensures SumScores(s) == |s| as real * u
  {
    if s != [] {
      SumUniform(s[..|s| - 1], u);
    }
  }

  /**
   * In exact arithmetic the renormalised priors of a non-empty list sum to
   * one, whichever branch is taken.
   */
  lemma RenormalisedSumsToOne(nodelist: seq<ScoredMove>)
    requires nodelist != []
    ensures SumScores(Renormalised(nodelist, SumScores(nodelist))) == 1.0
  {
    var sum := SumScores(nodelist);
    if sum > FloatMin {
      ScaledSum(nodelist, sum);
      DivideBySelf(sum);
    } else {
      var u := 1.0 / |nodelist| as real;
      SumUniform(Renormalised(nodelist, sum), u);
    }
  }

  lemma DivideBySelf(x: real)
    requires x > FloatMin
    ensures x / x == 1.0
  {
    assert FloatMin > 0.0;
  }

  /** Above the threshold every prior is divided by the same sum. */
  lemma ScaledSum(nodelist: seq<ScoredMove>, sum: real)
    requires sum > FloatMin
    ensures SumScores(Renormalised(nodelist, sum)) == SumScores(nodelist) / sum
  {
    assert Renormalised(nodelist, sum)
      == seq(|nodelist|, i requires 0 <= i < |nodelist| => ScoredMove(nodelist[i].score / sum, nodelist[i].vertex));
    SumScaled(nodelist, sum);
  }

  /**
   * The children an expansion creates are exactly the legal entries of the
   * network's list: one per entry, for the same vertices.
   */
  lemma ExpandedListIsLegalEntries(raw: seq<ScoredMove>, legal: set<int>)
    ensures |ExpandedList(raw, legal)| == |LegalMoves(raw, legal)|
    ensures forall v ::
      (exists k :: 0 <= k < |ExpandedList(raw, legal)| && ExpandedList(raw, legal)[k].vertex == v)
      <==> (v in legal && exists i :: 0 <= i < |raw| && raw[i].vertex == v)
  {
    var norm := LegalPriors(raw, legal);
    assert |norm| == |LegalMoves(raw, legal)|;
    assert |ExpandedList(raw, legal)| == |SortDesc(norm, Same, ScoredLess)|;
    forall v
      ensures (exists k :: 0 <= k < |ExpandedList(raw, legal)| && ExpandedList(raw, legal)[k].vertex == v)
          <==> (v in legal && exists i :: 0 <= i < |raw| && raw[i].vertex == v)
    {
      ExpandedVertex(raw, legal, v);
    }
  }

  /** One vertex at a time: it has a child exactly when it is legal and listed. */
  lemma ExpandedVertex(raw: seq<ScoredMove>, legal: set<int>, v: int)
    ensures (exists k :: 0 <= k < |ExpandedList(raw, legal)| && ExpandedList(raw, legal)[k].vertex == v)
        <==> (v in legal && exists i :: 0 <= i < |raw| && raw[i].vertex == v)
  {
    var e := ExpandedList(raw, legal);
    if k :| 0 <= k < |e| && e[k].vertex == v {
      ExpandedEntryIsLegal(raw, legal, k);
    }
    if v in legal && exists i :: 0 <= i < |raw| && raw[i].vertex == v {
      var i :| 0 <= i < |raw| && raw[i].vertex == v;
      LegalEntryIsExpanded(raw, legal, i);
    }
  }

  /** An entry of the expanded list comes from a legal entry of the network's list. */
  lemma ExpandedEntryIsLegal(raw: seq<ScoredMove>, legal: set<int>, k: int)
    requires 0 <= k < |ExpandedList(raw, legal)|
    ensures ExpandedList(raw, legal)[k].vertex in legal
    ensures exists i :: 0 <= i < |raw| && raw[i].vertex == ExpandedList(raw, legal)[k].vertex
  {
    var nodelist := LegalMoves(raw, legal);
    var norm := Renormalised(nodelist, SumScores(nodelist));
    var e := ExpandedList(raw, legal);
    SortDescPermutation(norm, Same, ScoredLess);
    LegalMovesCount(raw, legal);
    assert e[k] in multiset(norm);
    var j :| 0 <= j < |norm| && norm[j] == e[k];
    assert nodelist[j] in multiset(nodelist);
    assert multiset(raw)[nodelist[j]] > 0;
    var i :| 0 <= i < |raw| && raw[i] == nodelist[j];
  }

  /** A legal entry of the network's list gets a child with its vertex. */
  lemma LegalEntryIsExpanded(raw: seq<ScoredMove>, legal: set<int>, i: int)
    requires 0 <= i < |raw| && raw[i].vertex in legal
    ensures exists k :: 0 <= k < |ExpandedList(raw, legal)| && ExpandedList(raw, legal)[k].vertex == raw[i].vertex
  {
    var nodelist := LegalMoves(raw, legal);
    var norm := Renormalised(nodelist, SumScores(nodelist));
    var e := ExpandedList(raw, legal);
    SortDescPermutation(norm, Same, ScoredLess);
    LegalMovesCount(raw, legal);
    assert raw[i] in multiset(raw);
    assert multiset(nodelist)[raw[i]] > 0;
    var j :| 0 <= j < |nodelist| && nodelist[j] == raw[i];
    assert norm[j] in multiset(e);
    var k :| 0 <= k < |e| && e[k] == norm[j];
  }

  // -------------------------------------------------------------------
  // Averaging in the result of a further rotation

  /** Running mean after `n` earlier samples: `(n * old + new) / (n + 1)`. */
  function Averaged(old_: real, new_: real, n: nat): real {
    (n as real * old_ + new_) / (n as real + 1.0)
  }

  /** Index of the first occurrence of `v` in `moves`, or `|moves|`. */
  function FirstIndex(moves: seq<int>, v: int): (k: nat)
    ensures k <= |moves|
    ensures forall t :: 0 <= t < k ==> moves[t] != v
    ensures k < |moves| ==> moves[k] == v
  {
    if moves == [] || moves[0] == v then 0 else 1 + FirstIndex(moves[1..], v)
  }

  /**
   * Children's scores after the nested loop of `do_next_rotation`: each entry
   * of `nodelist`, in order, averages its score into the first child with the
   * same vertex.
   */
  function AverageIn(scores: seq<real>, moves: seq<int>, nodelist: seq<ScoredMove>, n: nat): (r: seq<real>)
    requires |scores| == |moves|
    ensures |r| == |scores|
  {
    if nodelist == [] then scores
    else
      var prev := AverageIn(scores, moves, nodelist[..|nodelist| - 1], n);
      AverageOne(prev, moves, nodelist[|nodelist| - 1], n)
  }

  lemma AverageInStep(scores: seq<real>, moves: seq<int>, nodelist: seq<ScoredMove>, i: int, n: nat)
    requires |scores| == |moves| && 0 <= i < |nodelist|
    ensures AverageIn(scores, moves, nodelist[..i + 1], n)
      == AverageOne(AverageIn(scores, moves, nodelist[..i], n), moves, nodelist[i], n)
  {
    assert nodelist[..i + 1][..i] == nodelist[..i];
  }

  /** One entry of that loop: its score is averaged into the first child with its vertex. */
  function AverageOne(scores: seq<real>, moves: seq<int>, e: ScoredMove, n: nat): (r: seq<real>)
    requires |scores| == |moves|
    ensures |r| == |scores|
  {
    var k := FirstIndex(moves, e.vertex);
    if k < |moves| then scores[k := Averaged(scores[k], e.score, n)] else scores
  }

  /**
   * With distinct vertices on both sides, every matched child's score becomes
   * the running mean of its old score and the new prior, and every other
   * child keeps its score.
   */
  lemma {:induction false} AverageInDistinct(scores: seq<real>, moves: seq<int>, nodelist: seq<ScoredMove>, n: nat)
    requires |scores| == |moves|
    requires forall a, b :: 0 <= a < b < |moves| ==> moves[a] != moves[b]
    requires forall a, b :: 0 <= a < b < |nodelist| ==> nodelist[a].vertex != nodelist[b].vertex
    ensures forall k, i :: 0 <= k < |moves| && 0 <= i < |nodelist| && nodelist[i].vertex == moves[k] ==>
      AverageIn(scores, moves, nodelist, n)[k] == Averaged(scores[k], nodelist[i].score, n)
    ensures forall k :: 0 <= k < |moves| && (forall i :: 0 <= i < |nodelist| ==> nodelist[i].vertex != moves[k]) ==>
      AverageIn(scores, moves, nodelist, n)[k] == scores[k]
  {
    if nodelist != [] {
      var init := nodelist[..|nodelist| - 1];
      var e := nodelist[|nodelist| - 1];
      AverageInDistinct(scores, moves, init, n);
      var prev := AverageIn(scores, moves, init, n);
      var k0 := FirstIndex(moves, e.vertex);
      forall k, i | 0 <= k < |moves| && 0 <= i < |nodelist| && nodelist[i].vertex == moves[k]
        ensures AverageIn(scores, moves, nodelist, n)[k] == Averaged(scores[k], nodelist[i].score, n)
      {
        if i == |nodelist| - 1 {
          assert k0 == k;
          assert forall j :: 0 <= j < |init| ==> init[j].vertex != moves[k];
        } else {
          assert init[i] == nodelist[i];
          assert k != k0;
        }
      }
    }
  }

  // -------------------------------------------------------------------
  // Child ordering (NodeComp)

  /** What `NodeComp` looks at in a child: visits, prior score and evaluation. */
  datatype NodeKey = NodeKey(visits: nat, score: real, eval: real)

  /**
   * `NodeComp`: fewer visits is smaller; between two unvisited children the
   * lower prior is smaller; between equally visited children the lower
   * evaluation is smaller.
   */
  predicate NodeKeyLess(a: NodeKey, b: NodeKey) {
    if a.visits != b.visits then a.visits < b.visits
    else if a.visits == 0 then a.score < b.score
    else a.eval < b.eval
  }

  /** `NodeComp` is a strict weak ordering, so sorting and `max_element` are well defined. */
  lemma NodeKeyLessIsStrictWeakOrder()
    ensures StrictWeakOrder(NodeKeyLess)
  {
  }

  function NoKey(): NodeKey { NodeKey(0, 0.0, 0.0) }

  // -------------------------------------------------------------------
  // The node

  class UCTNode {
    var move: int
    var score: real
    var visits: nat
    var virtualLoss: int
    var blackevals: real
    var netEval: real
    var status: Status
    var children: seq<UCTNode>
    var hasChildren: bool
    var isExpanding: bool
    var numRotations: int
    var lastRotation: int
    /** This node and every node below it. */
    ghost var Repr: set<UCTNode>

    /** The nodes of the subtrees rooted at `cs`. */
    static ghost function ReprOf(cs: seq<UCTNode>): set<UCTNode>
      reads cs`Repr
    {
      if cs == [] then {} else ReprOf(cs[..|cs| - 1]) + cs[|cs| - 1].Repr
    }

    /** The nodes of `cs`, as a set. */
    static ghost function Nodes(cs: seq<UCTNode>): set<UCTNode> {
      set c | c in cs
    }

    /** A node is below one of `cs` exactly when it is in that node's subtree. */
    static lemma {:induction false} ReprOfMembers(cs: seq<UCTNode>)
      ensures forall c :: c in cs ==> c.Repr <= ReprOf(cs)
      ensures forall o :: o in ReprOf(cs) ==> exists c :: c in cs && o in c.Repr
    {
      if cs != [] {
        var init := cs[..|cs| - 1];
        ReprOfMembers(init);
        assert forall c :: c in cs ==> c in init || c == cs[|cs| - 1];
        assert forall c :: c in init ==> c in cs;
      }
    }

    static lemma {:induction false} ReprOfAppend(cs: seq<UCTNode>, ds: seq<UCTNode>)
      ensures ReprOf(cs + ds) == ReprOf(cs) + ReprOf(ds)
    {
      if ds != [] {
        ReprOfAppend(cs, ds[..|ds| - 1]);
        assert (cs + ds)[..|cs + ds| - 1] == cs + ds[..|ds| - 1];
      } else {
        assert cs + ds == cs;
      }
    }

    /** Adding the next child's subtree to those before it adds that many nodes. */
    static lemma ReprOfStep(cs: seq<UCTNode>, i: int)
      requires 0 <= i < |cs|
      requires Distinct(cs)
      requires forall c, d :: c in cs && d in cs && c != d ==> c.Repr !! d.Repr
      ensures ReprOf(cs[..i + 1]) == ReprOf(cs[..i]) + cs[i].Repr
      ensures |ReprOf(cs[..i + 1])| == |ReprOf(cs[..i])| + |cs[i].Repr|
    {
      assert cs[..i + 1][..i] == cs[..i];
      ReprOfMembers(cs[..i]);
      forall o | o in ReprOf(cs[..i])
        ensures o !in cs[i].Repr
      {
        var d :| d in cs[..i] && o in d.Repr;
        var t :| 0 <= t < i && cs[t] == d;
      }
      assert ReprOf(cs[..i]) !! cs[i].Repr;
    }

    /** Sequences with the same elements have the same subtrees below them. */
    static lemma ReprOfSameElements(cs: seq<UCTNode>, ds: seq<UCTNode>)
      requires forall c :: c in cs <==> c in ds
      ensures ReprOf(cs) == ReprOf(ds)
    {
      ReprOfMembers(cs);
      ReprOfMembers(ds);
    }

    /**
     * The tree invariant: the children are distinct nodes with disjoint
     * subtrees that do not contain this node, and `has_children` tells
     * whether there are children.  It reads only the structural fields, so
     * updates of counters, scores and rotations keep it.
     */
    ghost predicate WellFormed()
      reads this`Repr, Repr`children, Repr`Repr, Repr`hasChildren
      decreases Repr
    {
      && this in Repr
      && (hasChildren <==> children != [])
      && (forall c :: c in children ==> c in Repr && c.Repr <= Repr && this !in c.Repr && c.WellFormed())
      && Distinct(children)
      && (forall c, d :: c in children && d in children && c != d ==> c.Repr !! d.Repr)
      && Repr == {this} + ReprOf(children)
    }

    /**
     * What `WellFormed` asks of the children `kids` and footprint `R` of
     * `self`, stated without reading `self`'s own fields, so that it
     * survives updates of those fields.
     */
    static ghost predicate TreeShape(self: UCTNode, kids: seq<UCTNode>, R: set<UCTNode>)
      reads kids`Repr, (R - {self})`children, (R - {self})`Repr, (R - {self})`hasChildren
    {
      && self !in kids
      && (forall c :: c in kids ==> c in R && c.Repr <= R - {self} && c.WellFormed())
      && Distinct(kids)
      && (forall c, d :: c in kids && d in kids && c != d ==> c.Repr !! d.Repr)
      && R == {self} + ReprOf(kids)
    }

    lemma ShapeOfWellFormed()
      requires WellFormed()
      ensures TreeShape(this, children, Repr)
    {
      forall c | c in children
        ensures c != this && c.Repr <= Repr - {this}
      {
        assert c in c.Repr;
      }
    }

    lemma WellFormedOfShape()
      requires this in Repr && (hasChildren <==> children != [])
      requires TreeShape(this, children, Repr)
      ensures WellFormed()
    {
    }

    /**
     * The rotation bookkeeping of this node: the last rotation is one of the
     * eight symmetries, at most eight have been evaluated, and a node is
     * being expanded exactly when at least one has.
     */
    ghost predicate RotationOk()
      reads this`isExpanding, this`numRotations, this`lastRotation
    {
      && 0 <= lastRotation < 8
      && 0 <= numRotations <= 8
      && (numRotations == 0 <==> !isExpanding)
    }

    constructor (vertex: int, score: real)
      ensures move == vertex && this.score == score
      ensures visits == 0 && virtualLoss == 0 && blackevals == 0.0 && netEval == 0.0 && status == Active
      ensures children == [] && !hasChildren && !isExpanding && numRotations == 0 && lastRotation == 0
      ensures Repr == {this} && WellFormed() && RotationOk()
    {
      move := vertex;
      this.score := score;
      visits, virtualLoss, blackevals, netEval, status := 0, 0, 0.0, 0.0, Active;
      children, hasChildren, isExpanding := [], false, false;
      numRotations, lastRotation := 0, 0;
      Repr := {this};
    }

    // --- status

    predicate IsValid()
      reads this`status
    {
      status != Invalid
    }

    predicate IsActive()
      reads this`status
      ensures IsActive() ==> IsValid()
    {
      status == Active
    }

    method Invalidate()
      modifies this`status
      ensures status == StatusStep(old(status), InvalidateOp)
      ensures !IsValid()
    {
      status := Invalid;
    }

    method SetActive(active: bool)
      modifies this`status
      ensures status == StatusStep(old(status), SetActiveOp(active))
      ensures old(status) == Invalid ==> status == Invalid
      ensures old(status) != Invalid ==> (IsActive() <==> active) && IsValid()
    {
      if IsValid() {
        status := if active then Active else Pruned;
      }
    }

    // --- visits, evaluations and virtual loss

    predicate FirstVisit()
      reads this`visits
    {
      visits == 0
    }

    method Update(eval: real)
      modifies this`visits, this`blackevals
      ensures visits == old(visits) + 1 && blackevals == old(blackevals) + eval
      ensures !FirstVisit()
    {
      visits := visits + 1;
      blackevals := blackevals + eval;
    }

    method VirtualLoss()
      modifies this`virtualLoss
      ensures virtualLoss == old(virtualLoss) + VirtualLossCount
    {
      virtualLoss := virtualLoss + VirtualLossCount;
    }

    method VirtualLossUndo()
      modifies this`virtualLoss
      ensures virtualLoss == old(virtualLoss) - VirtualLossCount
    {
      virtualLoss := virtualLoss - VirtualLossCount;
    }

    /**
     * Average evaluation for `tomove`, from black's results, with each
     * virtual loss counted as a lost playout for the side asked about.
     */
    function GetEval(tomove: int): real
      reads this`visits, this`virtualLoss, this`blackevals
      requires visits + virtualLoss > 0
    {
      EvalOf(visits, blackevals, virtualLoss, tomove)
    }

    function GetNetEval(tomove: int): real
      reads this`netEval
    {
      if tomove == White then 1.0 - netEval else netEval
    }

    // --- children

    /** The vertices of `cs`, in order. */
    static function Moves(cs: seq<UCTNode>): seq<int>
      reads cs
    {
      seq(|cs|, i requires 0 <= i < |cs| reads cs => cs[i].move)
    }

    /** The prior scores of `cs`, in order. */
    static function Scores(cs: seq<UCTNode>): seq<real>
      reads cs
    {
      seq(|cs|, i requires 0 <= i < |cs| reads cs => cs[i].score)
    }

    /** `cs` seen as the scored moves they were built from. */
    static function Entries(cs: seq<UCTNode>): seq<ScoredMove>
      reads cs
    {
      seq(|cs|, i requires 0 <= i < |cs| reads cs => ScoredMove(cs[i].score, cs[i].move))
    }

    /** One fresh, unvisited leaf per entry, in the order of `entries`. */
    static method NewLeaves(entries: seq<ScoredMove>) returns (created: seq<UCTNode>)
      ensures Entries(created) == entries
      ensures Distinct(created)
      ensures forall c :: c in created ==>
        && fresh(c) && c.Repr == {c} && c.WellFormed()
        && c.visits == 0 && c.virtualLoss == 0 && c.status == Active && c.children == []
    {
      created := [];
      var i := 0;
      while i < |entries|
        invariant 0 <= i <= |entries|
        invariant |created| == i
        invariant forall k :: 0 <= k < i ==> created[k].score == entries[k].score && created[k].move == entries[k].vertex
        invariant Distinct(created)
        invariant forall c :: c in created ==>
          && fresh(c) && c.Repr == {c} && c.WellFormed()
          && c.visits == 0 && c.virtualLoss == 0 && c.status == Active && c.children == []
      {
        var node := new UCTNode(entries[i].vertex, entries[i].score);
        created := created + [node];
        i := i + 1;
      }
      assert Entries(created) == entries;
    }

    /**
     * `link_nodelist`: sorts the list best first and appends one fresh child
     * per entry; an empty list changes nothing.
     */
    method LinkNodelist(nodecount: int, nodelist: seq<ScoredMove>) returns (nodecount': int, ghost created: seq<UCTNode>)
      requires WellFormed()
      modifies this`children, this`hasChildren, this`Repr
      ensures WellFormed()
      ensures children == old(children) + created
      ensures Entries(created) == SortDesc(nodelist, Same, ScoredLess)
      ensures SortedDesc(Entries(created), Same, ScoredLess)
      ensures forall c :: c in created ==>
        fresh(c) && c.visits == 0 && c.virtualLoss == 0 && c.status == Active && c.children == []
      ensures hasChildren == (old(hasChildren) || nodelist != [])
      ensures nodecount' == if nodelist == [] then nodecount else nodecount + |children|
      ensures fresh(Repr - old(Repr))
    {
      if nodelist == [] {
        return nodecount, [];
      }
      ScoredLessIsStrictWeakOrder();
      SortDescSorted(nodelist, Same, ScoredLess);
      var leaves := NewLeaves(SortDesc(nodelist, Same, ScoredLess));
      AppendLeaves(leaves);
      nodecount', created := nodecount + |children|, leaves;
    }

    /** Appends the fresh leaves `created` to the children, keeping the tree invariant. */
    method AppendLeaves(created: seq<UCTNode>)
      requires WellFormed()
      requires created != [] && Distinct(created)
      requires forall c :: c in created ==> c !in Repr && c.Repr == {c} && c.WellFormed()
      modifies this`children, this`hasChildren, this`Repr
      ensures WellFormed()
      ensures children == old(children) + created && hasChildren
      ensures Repr == old(Repr) + Nodes(created)
    {
      ShapeOfWellFormed();
      var kids := children + created;
      ghost var repr := Repr + Nodes(created);
      ExtendedShape(this, children, created, Repr);
      children, Repr, hasChildren := kids, repr, true;
      WellFormedOfShape();
    }

    /** Appending fresh leaves to the children keeps the tree's shape. */
    static lemma ExtendedShape(self: UCTNode, kids: seq<UCTNode>, created: seq<UCTNode>, R: set<UCTNode>)
      requires TreeShape(self, kids, R)
      requires Distinct(created)
      requires forall c :: c in created ==> c !in R && c.Repr == {c} && c.WellFormed()
      ensures TreeShape(self, kids + created, R + Nodes(created))
    {
      AppendedChildren(self, kids, created, R);
      ReprOfAppend(kids, created);
      ReprOfLeaves(created);
      var all := kids + created;
      forall c | c in all
        ensures c.WellFormed()
      {
        var k :| 0 <= k < |all| && all[k] == c;
        if k >= |kids| {
          assert created[k - |kids|] == c;
        }
      }
    }

    /** The children of a node with the fresh leaves `created` appended keep their shape. */
    static lemma AppendedChildren(self: UCTNode, kids: seq<UCTNode>, created: seq<UCTNode>, R: set<UCTNode>)
      requires Distinct(kids) && Distinct(created) && self !in kids
      requires forall c :: c in kids ==> c in R && c.Repr <= R && self !in c.Repr
      requires forall c, d :: c in kids && d in kids && c != d ==> c.Repr !! d.Repr
      requires forall c :: c in created ==> c !in R && c.Repr == {c} && c != self
      ensures self !in kids + created
      ensures Distinct(kids + created)
      ensures forall c, d :: c in kids + created && d in kids + created && c != d ==> c.Repr !! d.Repr
      ensures forall c :: c in kids + created ==>
        c in R + Nodes(created) && c.Repr <= R + Nodes(created) && self !in c.Repr
    {
      var all := kids + created;
      forall c | c in all
        ensures c in kids || c in created
      {
        var k :| 0 <= k < |all| && all[k] == c;
        if k >= |kids| {
          assert created[k - |kids|] == c;
        }
      }
      forall a, b | 0 <= a < b < |all|
        ensures all[a] != all[b]
      {
        if b >= |kids| && a < |kids| {
          assert all[a] in kids;
        } else if a >= |kids| {
          assert all[a] == created[a - |kids|] && all[b] == created[b - |kids|];
        }
      }
    }

    /** The subtrees of fresh leaves are the leaves themselves. */
    static lemma ReprOfLeaves(cs: seq<UCTNode>)
      requires forall c :: c in cs ==> c.Repr == {c}
      ensures ReprOf(cs) == Nodes(cs)
    {
      ReprOfMembers(cs);
    }

    /**
     * `create_children`: expands the node from the network's answer for a
     * random rotation, unless it already has children, the game is over
     * (two passes) or another expansion is under way.
     */
    method CreateChildren(nodecount: int, eval: real, passes: int, whiteToMove: bool, legal: set<int>,
                          rotation: int, network: int -> NetOutput)
      returns (expanded: bool, nodecount': int, eval': real)
      requires WellFormed() && RotationOk()
      requires 0 <= rotation < 8
      modifies this`children, this`hasChildren, this`Repr, this`isExpanding, this`lastRotation,
               this`numRotations, this`netEval
      ensures WellFormed() && RotationOk()
      ensures expanded <==> !old(hasChildren) && passes < 2 && !old(isExpanding)
      ensures !expanded ==>
        && children == old(children) && hasChildren == old(hasChildren) && isExpanding == old(isExpanding)
        && numRotations == old(numRotations) && lastRotation == old(lastRotation) && netEval == old(netEval)
        && nodecount' == nodecount && eval' == eval
      ensures expanded ==>
        && isExpanding
        && numRotations == 1
        && lastRotation == rotation
        && netEval == (if whiteToMove then 1.0 - network(rotation).winrate else network(rotation).winrate)
        && eval' == netEval
        && Entries(children) == ExpandedList(network(rotation).moves, legal)
        && SortedDesc(Entries(children), Same, ScoredLess)
        && nodecount' == nodecount + |children|
        && (forall c :: c in children ==> fresh(c) && c.visits == 0 && c.status == Active)
      ensures fresh(Repr - old(Repr))
    {
      nodecount', eval' := nodecount, eval;
      if hasChildren {
        return false, nodecount', eval';
      }
      if passes >= 2 {
        return false, nodecount', eval';
      }
      if isExpanding {
        return false, nodecount', eval';
      }
      nodecount', eval' := Expand(nodecount, whiteToMove, legal, rotation, network);
      ExpandedListBestFirst(network(rotation).moves, legal);
      return true, nodecount', eval';
    }

    /** The expansion proper, once `create_children` has claimed the node. */
    method Expand(nodecount: int, whiteToMove: bool, legal: set<int>, rotation: int, network: int -> NetOutput)
      returns (nodecount': int, eval': real)
      requires WellFormed() && RotationOk()
      requires !hasChildren && !isExpanding && 0 <= rotation < 8
      modifies this`children, this`hasChildren, this`Repr, this`isExpanding, this`lastRotation,
               this`numRotations, this`netEval
      ensures WellFormed() && RotationOk()
      ensures isExpanding && numRotations == 1 && lastRotation == rotation
      ensures netEval == (if whiteToMove then 1.0 - network(rotation).winrate else network(rotation).winrate)
      ensures eval' == netEval
      ensures Entries(children) == ExpandedList(network(rotation).moves, legal)
      ensures nodecount' == nodecount + |children|
      ensures forall c :: c in children ==> fresh(c) && c.visits == 0 && c.status == Active
      ensures fresh(Repr - old(Repr))
    {
      var raw := network(rotation);
      BeginExpansion(rotation, raw.winrate, whiteToMove);
      eval' := netEval;
      nodecount' := LinkExpansion(nodecount, raw.moves, legal);
    }

    /** The children of a fresh expansion: the legal moves, renormalised, best first. */
    method LinkExpansion(nodecount: int, raw: seq<ScoredMove>, legal: set<int>) returns (nodecount': int)
      requires WellFormed() && !hasChildren
      modifies this`children, this`hasChildren, this`Repr
      ensures WellFormed()
      ensures Entries(children) == ExpandedList(raw, legal)
      ensures nodecount' == nodecount + |children|
      ensures forall c :: c in children ==> fresh(c) && c.visits == 0 && c.status == Active
      ensures fresh(Repr - old(Repr))
    {
      var nodelist := ComputeLegalPriors(raw, legal);
      ghost var created;
      nodecount', created := LinkNodelist(nodecount, nodelist);
    }

    /**
     * This node's part of `create_children`: it is marked as being expanded
     * and takes the network's value for the first rotation, from black's
     * point of view.
     */
    method BeginExpansion(rotation: int, winrate: real, whiteToMove: bool)
      requires RotationOk()
      requires !isExpanding && 0 <= rotation < 8
      modifies this`isExpanding, this`lastRotation, this`numRotations, this`netEval
      ensures RotationOk()
      ensures isExpanding && lastRotation == rotation && numRotations == 1
      ensures netEval == if whiteToMove then 1.0 - winrate else winrate
    {
      // The network answers for the side to move; the node keeps black's view.
      var value := winrate;
      if whiteToMove {
        value := 1.0 - value;
      }
      isExpanding, lastRotation, numRotations, netEval := true, rotation, 1, value;
    }

    /**
     * `do_next_rotation`: evaluates the next rotation and averages its
     * value and priors into the node and its children.
     */
    method DoNextRotation(whiteToMove: bool, legal: set<int>, network: int -> NetOutput)
      returns (thisNetEval: real)
      requires WellFormed() && RotationOk()
      requires 0 < numRotations < 8
      requires hasChildren
      modifies this`lastRotation, this`netEval, this`numRotations, children`score
      ensures WellFormed() && RotationOk()
      ensures lastRotation == (old(lastRotation) + 1) % 8
      ensures thisNetEval ==
        if whiteToMove then 1.0 - network(lastRotation).winrate else network(lastRotation).winrate
      ensures netEval == Averaged(old(netEval), thisNetEval, old(numRotations))
      ensures numRotations == old(numRotations) + 1
      ensures Scores(children) ==
        AverageIn(old(Scores(children)), Moves(children), LegalPriors(network(lastRotation).moves, legal),
                  old(numRotations))
    {
      var rotation := (lastRotation + 1) % 8;
      var raw := network(rotation);
      var nodelist := ComputeLegalPriors(raw.moves, legal);
      var n := numRotations;
      thisNetEval := raw.winrate;
      if whiteToMove {
        thisNetEval := 1.0 - thisNetEval;
      }
      ghost var scores0, moves0 := Scores(children), Moves(children);
      RecordRotation(rotation, thisNetEval);
      assert Scores(children) == scores0 && Moves(children) == moves0;
      AverageScores(nodelist, n);
    }

    /** This node's part of `do_next_rotation`: one more rotation averaged into its value. */
    method RecordRotation(rotation: int, thisNetEval: real)
      requires RotationOk()
      requires 0 < numRotations < 8 && 0 <= rotation < 8
      modifies this`lastRotation, this`netEval, this`numRotations
      ensures RotationOk()
      ensures lastRotation == rotation
      ensures netEval == Averaged(old(netEval), thisNetEval, old(numRotations))
      ensures numRotations == old(numRotations) + 1
    {
      lastRotation, netEval, numRotations := rotation, Averaged(netEval, thisNetEval, numRotations), numRotations + 1;
    }

    /**
     * The nested loop of `do_next_rotation`: each entry, in order, is
     * averaged into the first child with its vertex.
     */
    method AverageScores(nodelist: seq<ScoredMove>, n: nat)
      requires Distinct(children)
      modifies children`score
      ensures children == old(children)
      ensures Moves(children) == old(Moves(children))
      ensures Scores(children) == AverageIn(old(Scores(children)), Moves(children), nodelist, n)
    {
      ghost var scores0 := Scores(children);
      ghost var moves := Moves(children);
      ghost var kids := children;
      var i := 0;
      while i < |nodelist|
        invariant 0 <= i <= |nodelist|
        invariant children == kids && Distinct(children)
        invariant Moves(children) == moves && |scores0| == |moves|
        invariant Scores(children) == AverageIn(scores0, moves, nodelist[..i], n)
      {
        AverageInStep(scores0, moves, nodelist, i, n);
        AverageEntry(nodelist[i], n);
        i := i + 1;
      }
      assert nodelist[..i] == nodelist;
    }

    /** The inner loop of `do_next_rotation`: entry `e` meets the first child with its vertex. */
    method AverageEntry(e: ScoredMove, n: nat)
      requires Distinct(children)
      modifies children`score
      ensures children == old(children)
      ensures Moves(children) == old(Moves(children))
      ensures Scores(children) == AverageOne(old(Scores(children)), Moves(children), e, n)
    {
      ghost var moves := Moves(children);
      var j := 0;
      while j < |children|
        invariant 0 <= j <= |children| == |moves|
        invariant Moves(children) == moves && Scores(children) == old(Scores(children))
        invariant forall t :: 0 <= t < j ==> moves[t] != e.vertex
      {
        if e.vertex == children[j].move {
          assert moves[j] == e.vertex;
          assert FirstIndex(moves, e.vertex) == j;
          SetChildScore(j, Averaged(children[j].score, e.score, n));
          return;
        }
        j := j + 1;
      }
      assert FirstIndex(moves, e.vertex) == |moves|;
    }

    /** `children[j].score = v`. */
    method SetChildScore(j: nat, v: real)
      requires j < |children| && Distinct(children)
      modifies children`score
      ensures Moves(children) == old(Moves(children))
      ensures Scores(children) == old(Scores(children))[j := v]
    {
      ghost var moves, scores := Moves(children), Scores(children);
      children[j].score := v;
      assert forall k :: 0 <= k < |children| && k != j ==> children[k] != children[j];
      assert Moves(children) == moves;
      assert Scores(children) == scores[j := v];
    }

    /** The sum of the subtree sizes of `cs`, counting overlaps twice. */
    static ghost function SizeSum(cs: seq<UCTNode>): nat
      reads cs`Repr
    {
      if cs == [] then 0 else SizeSum(cs[..|cs| - 1]) + |cs[|cs| - 1].Repr|
    }

    static lemma SizeSumStep(cs: seq<UCTNode>, i: int)
      requires 0 <= i < |cs|
      ensures SizeSum(cs[..i + 1]) == SizeSum(cs[..i]) + |cs[i].Repr|
    {
      assert cs[..i + 1][..i] == cs[..i];
    }

    /** Disjoint subtrees: their union is as large as the sum of their sizes. */
    static lemma {:induction false} ReprOfSize(cs: seq<UCTNode>, i: nat)
      requires i <= |cs|
      requires Distinct(cs)
      requires forall c, d :: c in cs && d in cs && c != d ==> c.Repr !! d.Repr
      ensures |ReprOf(cs[..i])| == SizeSum(cs[..i])
    {
      if i > 0 {
        ReprOfSize(cs, i - 1);
        ReprOfStep(cs, i - 1);
        assert cs[..i][..i - 1] == cs[..i - 1];
      }
    }

    /** A well-formed node's subtree is the node and the disjoint subtrees of its children. */
    lemma SizeOfRepr()
      requires WellFormed()
      ensures |Repr| == 1 + SizeSum(children)
    {
      ReprOfChildren();
      ReprOfSize(children, |children|);
      assert children[..|children|] == children;
    }

    /** The node itself is not inside the subtrees of its children. */
    lemma ReprOfChildren()
      requires WellFormed()
      ensures |Repr| == 1 + |ReprOf(children)|
    {
      ReprOfMembers(children);
      assert {this} * ReprOf(children) == {};
    }

    /** `count_nodes`: the number of nodes strictly below this one. */
    method CountNodes() returns (n: nat)
      requires WellFormed()
      ensures n == |Repr| - 1
      decreases Repr, 1
    {
      n := 0;
      if hasChildren {
        var below := CountBelow(children, Repr);
        n := |children| + below;
      }
      SizeOfRepr();
    }

    /** The loop of `count_nodes`: the nodes strictly below each of `cs`, summed. */
    static method CountBelow(cs: seq<UCTNode>, ghost R: set<UCTNode>) returns (n: nat)
      requires forall i :: 0 <= i < |cs| ==> cs[i].WellFormed() && cs[i].Repr < R
      ensures n + |cs| == SizeSum(cs)
      decreases R, 0
    {
      n := 0;
      var i := 0;
      while i < |cs|
        invariant 0 <= i <= |cs|
        invariant n + i == SizeSum(cs[..i])
      {
        var k := cs[i].CountNodes();
        SizeSumStep(cs, i);
        n := n + k;
        i := i + 1;
      }
      assert cs[..i] == cs;
    }

    // --- selection and ordering

    /** Sum of the visits of the valid children (`parentvisits`). */
    static function ParentVisits(cs: seq<UCTNode>): nat
      reads cs
    {
      if cs == [] then 0
      else ParentVisits(cs[..|cs| - 1]) + (if cs[|cs| - 1].IsValid() then cs[|cs| - 1].visits else 0)
    }

    /** Sum of the priors of the valid, visited children (`total_visited_policy`). */
    static function VisitedPolicy(cs: seq<UCTNode>): real
      reads cs
    {
      if cs == [] then 0.0
      else
        var c := cs[|cs| - 1];
        VisitedPolicy(cs[..|cs| - 1]) + (if c.IsValid() && c.visits > 0 then c.score else 0.0)
    }

    /** `get_eval` may be asked of a visited child. */
    static predicate EvalOk(c: UCTNode)
      reads c`visits, c`virtualLoss
    {
      c.visits > 0 ==> c.visits + c.virtualLoss > 0
    }

    /**
     * The PUCT value `winrate + puct` of child `c`, given the parent's
     * `numerator` (square root of its visits) and first-play-urgency value.
     */
    static function Value(c: UCTNode, color: int, cfgPuct: real, numerator: real, fpuEval: real): real
      reads c
      requires EvalOk(c)
    {
      var winrate := if c.visits > 0 then c.GetEval(color) else fpuEval;
      var puct := cfgPuct * c.score * (numerator / (1.0 + c.visits as real));
      winrate + puct
    }

    /** `numerator` of `uct_select_child`: the square root of the parent's visits. */
    function Numerator(sqrt: real -> real): real
      reads this`children, children
    {
      sqrt(ParentVisits(children) as real)
    }

    /**
     * `fpu_eval` of `uct_select_child`: the value assumed for an unvisited
     * child, the parent's network evaluation less the first-play-urgency
     * reduction.
     */
    function FpuEval(color: int, cfgFpuReduction: real, sqrt: real -> real): real
      reads this`netEval, this`children, children
    {
      GetNetEval(color) - cfgFpuReduction * sqrt(VisitedPolicy(children))
    }

    /**
     * `uct_select_child`: the first active child of maximal PUCT value.
     * Pruned and invalid children are never chosen.
     */
    method UCTSelectChild(color: int, cfgPuct: real, cfgFpuReduction: real, sqrt: real -> real)
      returns (best: UCTNode)
      requires exists k :: 0 <= k < |children| && children[k].IsActive()
      requires forall k :: 0 <= k < |children| && children[k].IsActive() ==> EvalOk(children[k])
      requires forall k :: 0 <= k < |children| && children[k].IsActive() ==>
        Value(children[k], color, cfgPuct, Numerator(sqrt), FpuEval(color, cfgFpuReduction, sqrt)) > -1000.0
      ensures exists k ::
        && 0 <= k < |children| && best == children[k] && best.IsActive()
        && (forall j :: 0 <= j < |children| && children[j].IsActive() ==>
              Value(children[j], color, cfgPuct, Numerator(sqrt), FpuEval(color, cfgFpuReduction, sqrt))
              <= Value(best, color, cfgPuct, Numerator(sqrt), FpuEval(color, cfgFpuReduction, sqrt)))
        && (forall j :: 0 <= j < k && children[j].IsActive() ==>
              Value(children[j], color, cfgPuct, Numerator(sqrt), FpuEval(color, cfgFpuReduction, sqrt))
              < Value(best, color, cfgPuct, Numerator(sqrt), FpuEval(color, cfgFpuReduction, sqrt)))
    {
      var parentvisits, totalVisitedPolicy := VisitTotals(children);
      var numerator := sqrt(parentvisits as real);
      var fpuReduction := cfgFpuReduction * sqrt(totalVisitedPolicy);
      var fpuEval := GetNetEval(color) - fpuReduction;
      assert numerator == Numerator(sqrt) && fpuEval == FpuEval(color, cfgFpuReduction, sqrt);
      ghost var k;
      best, k := FirstBest(children, color, cfgPuct, numerator, fpuEval);
    }

    /** The first loop of `uct_select_child`: the parent's visits and visited policy, counted over valid children. */
    static method VisitTotals(cs: seq<UCTNode>) returns (parentvisits: nat, totalVisitedPolicy: real)
      ensures parentvisits == ParentVisits(cs)
      ensures totalVisitedPolicy == VisitedPolicy(cs)
    {
      totalVisitedPolicy := 0.0;
      parentvisits := 0;
      var i := 0;
      while i < |cs|
        invariant 0 <= i <= |cs|
        invariant parentvisits == ParentVisits(cs[..i])
        invariant totalVisitedPolicy == VisitedPolicy(cs[..i])
      {
        assert cs[..i + 1][..i] == cs[..i];
        var child := cs[i];
        if child.IsValid() {
          parentvisits := parentvisits + child.visits;
          if child.visits > 0 {
            totalVisitedPolicy := totalVisitedPolicy + child.score;
          }
        }
        i := i + 1;
      }
      assert cs[..i] == cs;
    }

    /**
     * The second loop of `uct_select_child`: the first active child whose
     * value is strictly above every earlier one's and not below any later one's.
     */
    static method FirstBest(cs: seq<UCTNode>, color: int, cfgPuct: real, numerator: real, fpuEval: real)
      returns (best: UCTNode, ghost k: int)
      requires exists k :: 0 <= k < |cs| && cs[k].IsActive()
      requires forall k :: 0 <= k < |cs| && cs[k].IsActive() ==> EvalOk(cs[k])
      requires forall k :: 0 <= k < |cs| && cs[k].IsActive() ==>
        Value(cs[k], color, cfgPuct, numerator, fpuEval) > -1000.0
      ensures 0 <= k < |cs| && best == cs[k] && best.IsActive()
      ensures forall j :: 0 <= j < |cs| && cs[j].IsActive() ==>
        Value(cs[j], color, cfgPuct, numerator, fpuEval) <= Value(best, color, cfgPuct, numerator, fpuEval)
      ensures forall j :: 0 <= j < k && cs[j].IsActive() ==>
        Value(cs[j], color, cfgPuct, numerator, fpuEval) < Value(best, color, cfgPuct, numerator, fpuEval)
    {
      var found: UCTNode? := null;
      var bestValue := -1000.0;
      k := -1;
      var i := 0;
      while i < |cs|
        invariant 0 <= i <= |cs|
        invariant found == null ==>
          && k == -1 && bestValue == -1000.0
          && (forall j :: 0 <= j < i ==> !cs[j].IsActive())
        invariant found != null ==>
          && 0 <= k < i && found == cs[k] && found.IsActive()
          && bestValue == Value(found, color, cfgPuct, numerator, fpuEval)
          && (forall j :: 0 <= j < i && cs[j].IsActive() ==>
                Value(cs[j], color, cfgPuct, numerator, fpuEval) <= bestValue)
          && (forall j :: 0 <= j < k && cs[j].IsActive() ==>
                Value(cs[j], color, cfgPuct, numerator, fpuEval) < bestValue)
      {
        var child := cs[i];
        if child.IsActive() {
          var value := Value(child, color, cfgPuct, numerator, fpuEval);
          if value > bestValue {
            bestValue := value;
            found := child;
            k := i;
          }
        }
        i := i + 1;
      }
      best := found;
    }

    /** The part of a child `NodeComp` looks at. */
    static function Key(c: UCTNode, color: int): NodeKey
      reads c`visits, c`score, c`virtualLoss, c`blackevals
      requires EvalOk(c)
    {
      NodeKey(c.visits, c.score, if c.visits > 0 then c.GetEval(color) else 0.0)
    }

    /** `NodeComp(color)(a, b)`: `a` ranks below `b`. */
    static predicate NodeComp(a: UCTNode, b: UCTNode, color: int)
      reads a`visits, a`score, a`virtualLoss, a`blackevals, b`visits, b`score, b`virtualLoss, b`blackevals
      requires EvalOk(a) && EvalOk(b)
    {
      NodeKeyLess(Key(a, color), Key(b, color))
    }

    /** `sort_children`: the children, best first by `NodeComp`. */
    method SortChildren(color: int)
      requires WellFormed()
      requires forall c :: c in children ==> EvalOk(c)
      modifies this`children
      ensures WellFormed()
      ensures multiset(children) == multiset(old(children))
      ensures forall c :: c in children ==> EvalOk(c)
      ensures forall i, j :: 0 <= i < j < |children| ==> !NodeComp(children[i], children[j], color)
    {
      var sorted := SortedByNodeComp(children, color);
      Reorder(sorted);
    }

    /** Replaces the children by a permutation of them. */
    method Reorder(kids: seq<UCTNode>)
      requires WellFormed()
      requires multiset(kids) == multiset(children)
      modifies this`children
      ensures WellFormed() && children == kids
    {
      ShapeOfWellFormed();
      SameChildren(children, kids);
      ReorderedShape(this, children, kids, Repr);
      children := kids;
      WellFormedOfShape();
    }

    /** Reordering the children keeps the tree's shape. */
    static lemma ReorderedShape(self: UCTNode, kids: seq<UCTNode>, perm: seq<UCTNode>, R: set<UCTNode>)
      requires TreeShape(self, kids, R)
      requires Distinct(perm) && (forall c :: c in perm <==> c in kids)
      requires ReprOf(perm) == ReprOf(kids)
      ensures TreeShape(self, perm, R)
    {
    }

    /** `cs` sorted best first by `NodeComp`, on a snapshot of their keys. */
    static method SortedByNodeComp(cs: seq<UCTNode>, color: int) returns (sorted: seq<UCTNode>)
      requires forall c :: c in cs ==> EvalOk(c)
      ensures multiset(sorted) == multiset(cs)
      ensures forall c :: c in sorted ==> EvalOk(c)
      ensures forall i, j :: 0 <= i < j < |sorted| ==> !NodeComp(sorted[i], sorted[j], color)
    {
      var keys := map c | c in cs :: Key(c, color);
      var key := c => if c in keys then keys[c] else NoKey();
      sorted := SortDesc(cs, key, NodeKeyLess);
      SortDescPermutation(cs, key, NodeKeyLess);
      SortedByKey(cs, key, color);
    }

    /** Sorting by a snapshot of the children's `NodeComp` keys orders them by `NodeComp`. */
    static lemma SortedByKey(cs: seq<UCTNode>, key: UCTNode -> NodeKey, color: int)
      requires forall c :: c in cs ==> EvalOk(c) && key(c) == Key(c, color)
      ensures forall k :: 0 <= k < |SortDesc(cs, key, NodeKeyLess)| ==> SortDesc(cs, key, NodeKeyLess)[k] in cs
      ensures forall i, j :: 0 <= i < j < |SortDesc(cs, key, NodeKeyLess)| ==>
        !NodeComp(SortDesc(cs, key, NodeKeyLess)[i], SortDesc(cs, key, NodeKeyLess)[j], color)
    {
      var r := SortDesc(cs, key, NodeKeyLess);
      NodeKeyLessIsStrictWeakOrder();
      SortDescSorted(cs, key, NodeKeyLess);
      SortDescPermutation(cs, key, NodeKeyLess);
      forall k | 0 <= k < |r|
        ensures r[k] in cs
      {
        assert r[k] in multiset(r);
      }
    }

    /** A permutation of distinct children has the same members and the same subtrees. */
    static lemma SameChildren(kids: seq<UCTNode>, perm: seq<UCTNode>)
      requires Distinct(kids) && multiset(perm) == multiset(kids)
      ensures Distinct(perm)
      ensures forall c :: c in perm <==> c in kids
      ensures ReprOf(perm) == ReprOf(kids)
    {
      PermutationDistinct(kids, perm);
      forall c
        ensures c in perm <==> c in kids
      {
        assert c in perm <==> c in multiset(perm);
        assert c in kids <==> c in multiset(kids);
      }
      ReprOfSameElements(perm, kids);
    }

    /**
     * `get_best_root_child`: what `std::max_element` with `NodeComp`
     * returns, the first child that no other child ranks above.
     */
    method GetBestRootChild(color: int) returns (best: UCTNode)
      requires children != []
      requires forall c :: c in children ==> EvalOk(c)
      ensures exists k ::
        && 0 <= k < |children| && best == children[k]
        && (forall j :: 0 <= j < |children| ==> !NodeComp(best, children[j], color))
        && (forall j :: 0 <= j < k ==> NodeComp(children[j], best, color))
    {
      NodeKeyLessIsStrictWeakOrder();
      best := children[0];
      ghost var bi := 0;
      var i := 1;
      while i < |children|
        invariant 1 <= i <= |children|
        invariant 0 <= bi < i && best == children[bi]
        invariant forall j :: 0 <= j < i ==> !NodeComp(best, children[j], color)
        invariant forall j :: 0 <= j < bi ==> NodeComp(children[j], best, color)
      {
        if NodeComp(best, children[i], color) {
          best := children[i];
          bi := i;
        }
        i := i + 1;
      }
    }
  }

  // -------------------------------------------------------------------
  // Facts about a node's evaluations

  /** With no virtual loss pending the two sides' evaluations add up to one. */
  lemma EvalSymmetry(n: UCTNode)
    requires n.virtualLoss == 0 && n.visits > 0
    ensures n.GetEval(White) == 1.0 - n.GetEval(Black)
  {
  }

  /** The network evaluation of white is always one minus that of black. */
  lemma NetEvalSymmetry(n: UCTNode)
    ensures n.GetNetEval(White) == 1.0 - n.GetNetEval(Black)
  {
  }

  /**
   * A virtual loss makes a node look worse to both sides: with black's
   * results between 0 and the number of visits, adding one never raises the
   * evaluation asked for either colour.
   */
  lemma VirtualLossLowersEval(visits: nat, blackevals: real, vl: int, color: int)
    requires 0.0 <= blackevals <= visits as real
    requires visits + vl > 0 && vl >= 0
    ensures EvalOf(visits, blackevals, vl + VirtualLossCount, color) <= EvalOf(visits, blackevals, vl, color)
  {
    var n := (visits + vl) as real;
    var m := n + VirtualLossCount as real;
    if color == White {
      var w := visits as real - blackevals;
      OneMinusQuotient(blackevals + vl as real, n);
      OneMinusQuotient(blackevals + (vl + VirtualLossCount) as real, m);
      assert n - (blackevals + vl as real) == w;
      assert m - (blackevals + (vl + VirtualLossCount) as real) == w;
      DivMonotone(w, n, m);
    } else {
      DivMonotone(blackevals, n, m);
    }
  }

  /** `virtual_loss` on a visited node never raises the evaluation `get_eval` reports for either colour. */
  method VirtualLossLowersNodeEval(n: UCTNode, color: int)
    requires 0.0 <= n.blackevals <= n.visits as real
    requires n.visits + n.virtualLoss > 0 && n.virtualLoss >= 0
    modifies n`virtualLoss
    ensures n.virtualLoss == old(n.virtualLoss) + VirtualLossCount
    ensures n.GetEval(color) <= old(n.GetEval(color))
  {
    VirtualLossLowersEval(n.visits, n.blackevals, n.virtualLoss, color);
    n.VirtualLoss();
  }

  lemma OneMinusQuotient(a: real, n: real)
    requires n > 0.0
    ensures 1.0 - a / n == (n - a) / n
  {
    assert n / n == 1.0;
    assert (n - a) / n == n / n - a / n;
  }

  /** Dividing a non-negative number by a larger divisor gives no more. */
  lemma DivMonotone(w: real, n: real, m: real)
    requires w >= 0.0 && 0.0 < n <= m
    ensures w / m <= w / n
  {
    var a, b := w / m, w / n;
    assert a * m == w && b * n == w;
    assert b >= 0.0;
    assert b * n <= b * m;
    assert a * m <= b * m;
  }

  /** `get_eval` on the values of a node's fields. */
  function EvalOf(visits: nat, blackevals: real, vl: int, tomove: int): real
    requires visits + vl > 0
  {
    var n := (visits + vl) as real;
    var blackeval := if tomove == White then blackevals + vl as real else blackevals;
    var score := blackeval / n;
    if tomove == White then 1.0 - score else score
  }

  /** A virtual loss followed by its undo leaves the node's counter as it was. */
  method VirtualLossRoundTrip(n: UCTNode)
    modifies n`virtualLoss
    ensures n.virtualLoss == old(n.virtualLoss)
  {
    n.VirtualLoss();
    n.VirtualLossUndo();
  }
}
