/** Properties of minimax and get_best_move, proved about the functions of Search: finite
    scores, the grid left behind, and the answer get_best_move gives in each of its cases. */
module SearchFacts {
  import opened Rules
  import opened Candidates
  import opened Search

  /** minimax always answers a finite score: a leaf is scored by evaluate() or the win
      constants, and an inner node always has a candidate to search. */
  lemma {:induction false} MinimaxFinite(g: Grid, last: Option<Coord>, depth: nat, alpha: ExtInt, beta: ExtInt, maximizing: bool)
    requires WellFormed(g)
    ensures Minimax(g, last, depth, alpha, beta, maximizing).0.Fin?
    decreases depth, 1, 0
  {
    MinimaxUnfold(g, last, depth, alpha, beta, maximizing);
    if FirstWinner(g).None? && depth > 0 {
      var o := Order(g, last, NearbyList(g, last));
      ExploreFinite(o.1, last, o.0, ChildDepth(depth), alpha, beta, maximizing, Worst(maximizing));
    }
  }

  /** A child search answers a finite score too: it is minimax one level down. */
  lemma {:induction false} ChildFinite(g: Grid, last: Option<Coord>, x: int, y: int, d: nat, alpha: ExtInt, beta: ExtInt, maximizing: bool)
    requires WellFormed(g) && InRange(x, y)
    ensures Child(g, last, x, y, d, alpha, beta, maximizing).0.Fin?
    decreases d, 2, 0
  {
    MinimaxFinite(Place(g, x, y, Stone(maximizing)), last, d, alpha, beta, !maximizing);
  }

  /** The candidate loop answers a finite score once one candidate has been searched, provided
      the running extremum does not start at the wrong infinity. */
  lemma {:induction false} ExploreFinite(g: Grid, last: Option<Coord>, moves: seq<Coord>, d: nat,
                                         alpha: ExtInt, beta: ExtInt, maximizing: bool, best: ExtInt)
    requires WellFormed(g) && AllInRange(moves)
    requires best.Fin? || (moves != [] && best == Worst(maximizing))
    ensures Explore(g, last, moves, d, alpha, beta, maximizing, best).0.Fin?
    decreases d, 3, |moves|
  {
    if moves != [] {
      ExploreStep(g, last, moves, d, alpha, beta, maximizing, best);
      var child := Child(g, last, moves[0].0, moves[0].1, d, alpha, beta, maximizing);
      ChildFinite(g, last, moves[0].0, moves[0].1, d, alpha, beta, maximizing);
      var g' := Place(child.1, moves[0].0, moves[0].1, 0);
      if maximizing {
        ExploreFinite(g', last, moves[1..], d, Max(alpha, child.0), beta, maximizing, Max(best, child.0));
      } else {
        ExploreFinite(g', last, moves[1..], d, alpha, Min(beta, child.0), maximizing, Min(best, child.0));
      }
    }
  }

  /** Top is the maximum of a and the scores: at least each of them, and equal to one of them. */
  lemma {:induction false} TopIsMax(a: ExtInt, s: seq<ExtInt>)
    ensures Le(a, Top(a, s))
    ensures forall i :: 0 <= i < |s| ==> Le(s[i], Top(a, s))
    ensures Top(a, s) == a || exists i :: 0 <= i < |s| && Top(a, s) == s[i]
    decreases |s|
  {
    if s != [] {
      TopIsMax(Max(a, s[0]), s[1..]);
      forall i | 1 <= i < |s|
        ensures Le(s[i], Top(a, s))
      {
        assert s[i] == s[1..][i - 1];
      }
      if Top(a, s) != Max(a, s[0]) {
        var j :| 0 <= j < |s[1..]| && Top(a, s) == s[1..][j];
        assert Top(a, s) == s[j + 1];
      }
    }
  }

  /** Bottom is the minimum of a and the scores: at most each of them, and equal to one of them. */
  lemma {:induction false} BottomIsMin(a: ExtInt, s: seq<ExtInt>)
    ensures Le(Bottom(a, s), a)
    ensures forall i :: 0 <= i < |s| ==> Le(Bottom(a, s), s[i])
    ensures Bottom(a, s) == a || exists i :: 0 <= i < |s| && Bottom(a, s) == s[i]
    decreases |s|
  {
    if s != [] {
      BottomIsMin(Min(a, s[0]), s[1..]);
      forall i | 1 <= i < |s|
        ensures Le(Bottom(a, s), s[i])
      {
        assert s[i] == s[1..][i - 1];
      }
      if Bottom(a, s) != Min(a, s[0]) {
        var j :| 0 <= j < |s[1..]| && Bottom(a, s) == s[1..][j];
        assert Bottom(a, s) == s[j + 1];
      }
    }
  }

  /** Folding over a prefix of sc :: rest is folding over the shorter prefix of rest from the
      running value sc has produced. */
  lemma FoldCons(a: ExtInt, sc: ExtInt, rest: seq<ExtInt>, i: int)
    requires 1 <= i <= |rest| + 1
    ensures ([sc] + rest)[..i] == [sc] + rest[..i - 1]
    ensures Top(a, ([sc] + rest)[..i]) == Top(Max(a, sc), rest[..i - 1])
    ensures Bottom(a, ([sc] + rest)[..i]) == Bottom(Min(a, sc), rest[..i - 1])
  {
    assert ([sc] + rest)[..i] == [sc] + rest[..i - 1];
    assert ([sc] + rest[..i - 1])[1..] == rest[..i - 1];
  }

  /** The candidate loop answers the extremum of the running value it starts from and the child
      scores it has seen: the maximum when maximizing, the minimum otherwise. */
  lemma {:induction false} ExploreValue(g: Grid, last: Option<Coord>, moves: seq<Coord>, d: nat,
                                        alpha: ExtInt, beta: ExtInt, maximizing: bool, best: ExtInt)
    requires WellFormed(g) && AllInRange(moves)
    ensures var s := ExploreScores(g, last, moves, d, alpha, beta, maximizing);
      Explore(g, last, moves, d, alpha, beta, maximizing, best).0 == if maximizing then Top(best, s) else Bottom(best, s)
    decreases |moves|
  {
    if moves != [] {
      ExploreStep(g, last, moves, d, alpha, beta, maximizing, best);
      var child := Child(g, last, moves[0].0, moves[0].1, d, alpha, beta, maximizing);
      var g' := Place(child.1, moves[0].0, moves[0].1, 0);
      var sc := child.0;
      if maximizing && !Le(beta, Max(alpha, sc)) {
        ExploreValue(g', last, moves[1..], d, Max(alpha, sc), beta, maximizing, Max(best, sc));
        var rest := ExploreScores(g', last, moves[1..], d, Max(alpha, sc), beta, maximizing);
        assert ([sc] + rest)[1..] == rest;
      } else if !maximizing && !Le(Min(beta, sc), alpha) {
        ExploreValue(g', last, moves[1..], d, alpha, Min(beta, sc), maximizing, Min(best, sc));
        var rest := ExploreScores(g', last, moves[1..], d, alpha, Min(beta, sc), maximizing);
        assert ([sc] + rest)[1..] == rest;
      }
    }
  }

  /** The candidate loop stops right after the first child score that brings beta <= alpha: the
      running bound keeps beta > alpha after every earlier score, and a loop that stops before
      the last candidate has reached beta <= alpha. */
  lemma {:induction false} ExploreCutoff(g: Grid, last: Option<Coord>, moves: seq<Coord>, d: nat,
                                         alpha: ExtInt, beta: ExtInt, maximizing: bool)
    requires WellFormed(g) && AllInRange(moves)
    ensures var s := ExploreScores(g, last, moves, d, alpha, beta, maximizing);
      maximizing ==>
        (forall j :: 1 <= j < |s| ==> Lt(Top(alpha, s[..j]), beta)) &&
        (|s| < |moves| ==> Le(beta, Top(alpha, s)))
    ensures var s := ExploreScores(g, last, moves, d, alpha, beta, maximizing);
      !maximizing ==>
        (forall j :: 1 <= j < |s| ==> Lt(alpha, Bottom(beta, s[..j]))) &&
        (|s| < |moves| ==> Le(Bottom(beta, s), alpha))
  {
    if maximizing {
      CutoffAbove(g, last, moves, d, alpha, beta);
    } else {
      CutoffBelow(g, last, moves, d, alpha, beta);
    }
  }

  /** The maximizing half of ExploreCutoff. */
  lemma {:induction false} CutoffAbove(g: Grid, last: Option<Coord>, moves: seq<Coord>, d: nat,
                                       alpha: ExtInt, beta: ExtInt)
    requires WellFormed(g) && AllInRange(moves)
    ensures var s := ExploreScores(g, last, moves, d, alpha, beta, true);
      (forall j :: 1 <= j < |s| ==> Lt(Top(alpha, s[..j]), beta)) &&
      (|s| < |moves| ==> Le(beta, Top(alpha, s)))
    decreases |moves|
  {
    if moves != [] {
      var child := Child(g, last, moves[0].0, moves[0].1, d, alpha, beta, true);
      var g' := Place(child.1, moves[0].0, moves[0].1, 0);
      var sc := child.0;
      var s := ExploreScores(g, last, moves, d, alpha, beta, true);
      var alpha' := Max(alpha, sc);
      assert Top(alpha, [sc]) == alpha';
      if !Le(beta, alpha') {
        var rest := ExploreScores(g', last, moves[1..], d, alpha', beta, true);
        CutoffAbove(g', last, moves[1..], d, alpha', beta);
        assert s == [sc] + rest;
        forall j | 1 <= j < |s|
          ensures Lt(Top(alpha, s[..j]), beta)
        {
          FoldCons(alpha, sc, rest, j);
        }
        assert s[1..] == rest;
      } else {
        assert s == [sc];
      }
    }
  }

  /** The minimizing half of ExploreCutoff. */
  lemma {:induction false} CutoffBelow(g: Grid, last: Option<Coord>, moves: seq<Coord>, d: nat,
                                       alpha: ExtInt, beta: ExtInt)
    requires WellFormed(g) && AllInRange(moves)
    ensures var s := ExploreScores(g, last, moves, d, alpha, beta, false);
      (forall j :: 1 <= j < |s| ==> Lt(alpha, Bottom(beta, s[..j]))) &&
      (|s| < |moves| ==> Le(Bottom(beta, s), alpha))
    decreases |moves|
  {
    if moves != [] {
      var child := Child(g, last, moves[0].0, moves[0].1, d, alpha, beta, false);
      var g' := Place(child.1, moves[0].0, moves[0].1, 0);
      var sc := child.0;
      var s := ExploreScores(g, last, moves, d, alpha, beta, false);
      var beta' := Min(beta, sc);
      assert Bottom(beta, [sc]) == beta';
      if !Le(beta', alpha) {
        var rest := ExploreScores(g', last, moves[1..], d, alpha, beta', false);
        CutoffBelow(g', last, moves[1..], d, alpha, beta');
        assert s == [sc] + rest;
        forall j | 1 <= j < |s|
          ensures Lt(alpha, Bottom(beta, s[..j]))
        {
          FoldCons(beta, sc, rest, j);
        }
        assert s[1..] == rest;
      } else {
        assert s == [sc];
      }
    }
  }

  /** When every child restores the grid, the i-th score the candidate loop sees is the child
      search of the i-th candidate on g itself, with the bound raised (or lowered) by the scores
      before it. */
  lemma {:induction false} ExploreScoresAre(g: Grid, last: Option<Coord>, moves: seq<Coord>, d: nat,
                                            alpha: ExtInt, beta: ExtInt, maximizing: bool)
    requires WellFormed(g) && AllInRange(moves)
    requires ChildrenRestore(g, last, moves, d, maximizing)
    ensures var s := ExploreScores(g, last, moves, d, alpha, beta, maximizing);
      forall i :: 0 <= i < |s| ==>
        s[i] == Child(g, last, moves[i].0, moves[i].1, d,
                      if maximizing then Top(alpha, s[..i]) else alpha,
                      if maximizing then beta else Bottom(beta, s[..i]), maximizing).0
  {
    if maximizing {
      ScoresAbove(g, last, moves, d, alpha, beta);
    } else {
      ScoresBelow(g, last, moves, d, alpha, beta);
    }
  }

  /** The maximizing half of ExploreScoresAre. */
  lemma {:induction false} ScoresAbove(g: Grid, last: Option<Coord>, moves: seq<Coord>, d: nat,
                                       alpha: ExtInt, beta: ExtInt)
    requires WellFormed(g) && AllInRange(moves)
    requires ChildrenRestore(g, last, moves, d, true)
    ensures var s := ExploreScores(g, last, moves, d, alpha, beta, true);
      forall i :: 0 <= i < |s| ==>
        s[i] == Child(g, last, moves[i].0, moves[i].1, d, Top(alpha, s[..i]), beta, true).0
    decreases |moves|
  {
    if moves != [] {
      var child := Child(g, last, moves[0].0, moves[0].1, d, alpha, beta, true);
      assert Place(child.1, moves[0].0, moves[0].1, 0) == g;
      var sc := child.0;
      var alpha' := Max(alpha, sc);
      var s := ExploreScores(g, last, moves, d, alpha, beta, true);
      if s != [sc] {
        var rest := ExploreScores(g, last, moves[1..], d, alpha', beta, true);
        assert s == [sc] + rest;
        ScoresAbove(g, last, moves[1..], d, alpha', beta);
        forall i | 1 <= i < |s|
          ensures s[i] == Child(g, last, moves[i].0, moves[i].1, d, Top(alpha, s[..i]), beta, true).0
        {
          assert s[i] == rest[i - 1] && moves[i] == moves[1..][i - 1];
          FoldCons(alpha, sc, rest, i);
        }
      }
    }
  }

  /** The minimizing half of ExploreScoresAre. */
  lemma {:induction false} ScoresBelow(g: Grid, last: Option<Coord>, moves: seq<Coord>, d: nat,
                                       alpha: ExtInt, beta: ExtInt)
    requires WellFormed(g) && AllInRange(moves)
    requires ChildrenRestore(g, last, moves, d, false)
    ensures var s := ExploreScores(g, last, moves, d, alpha, beta, false);
      forall i :: 0 <= i < |s| ==>
        s[i] == Child(g, last, moves[i].0, moves[i].1, d, alpha, Bottom(beta, s[..i]), false).0
    decreases |moves|
  {
    if moves != [] {
      var child := Child(g, last, moves[0].0, moves[0].1, d, alpha, beta, false);
      assert Place(child.1, moves[0].0, moves[0].1, 0) == g;
      var sc := child.0;
      var beta' := Min(beta, sc);
      var s := ExploreScores(g, last, moves, d, alpha, beta, false);
      if s != [sc] {
        var rest := ExploreScores(g, last, moves[1..], d, alpha, beta', false);
        assert s == [sc] + rest;
        ScoresBelow(g, last, moves[1..], d, alpha, beta');
        forall i | 1 <= i < |s|
          ensures s[i] == Child(g, last, moves[i].0, moves[i].1, d, alpha, Bottom(beta, s[..i]), false).0
        {
          assert s[i] == rest[i - 1] && moves[i] == moves[1..][i - 1];
          FoldCons(beta, sc, rest, i);
        }
      }
    }
  }

  /** minimax's value at a node with no winner and at least one candidate: the maximum (or
      minimum) of the child scores of the ordered candidates it explores (LoopScores says which,
      when there are enough candidates for every child to restore the grid). */
  lemma {:induction false} MinimaxValue(g: Grid, last: Option<Coord>, depth: nat, alpha: ExtInt, beta: ExtInt, maximizing: bool)
    requires WellFormed(g) && FirstWinner(g).None? && depth >= 1 && NearbySet(g, last) != {}
    ensures var moves := Order(g, last, NearbyList(g, last)).0;
      var s := ExploreScores(g, last, moves, ChildDepth(depth), alpha, beta, maximizing);
      Minimax(g, last, depth, alpha, beta, maximizing).0 == if maximizing then Top(NegInf, s) else Bottom(PosInf, s)
  {
    MinimaxUnfold(g, last, depth, alpha, beta, maximizing);
    LoopValue(g, last, ChildDepth(depth), alpha, beta, maximizing);
  }

  /** The candidate loop over the ordered candidates, when there is at least one, answers the
      maximum (or minimum) of the child scores it explores; ordering leaves the grid as it was. */
  lemma {:induction false} LoopValue(g: Grid, last: Option<Coord>, d: nat, alpha: ExtInt, beta: ExtInt, maximizing: bool)
    requires WellFormed(g) && NearbySet(g, last) != {}
    ensures var o := Order(g, last, NearbyList(g, last));
      var s := ExploreScores(g, last, o.0, d, alpha, beta, maximizing);
      o.1 == g &&
      Explore(o.1, last, o.0, d, alpha, beta, maximizing, Worst(maximizing)).0 ==
        (if maximizing then Top(NegInf, s) else Bottom(PosInf, s))
  {
    OrderedCandidates(g, last);
    var o := Order(g, last, NearbyList(g, last));
    ExploreValue(o.1, last, o.0, d, alpha, beta, maximizing, Worst(maximizing));
  }

  /** With more than d candidates, the i-th child score the candidate loop explores is the child
      search of the i-th ordered candidate on g itself, with the bound raised (or lowered) by
      the scores before it. */
  lemma {:induction false} LoopScores(g: Grid, last: Option<Coord>, d: nat, alpha: ExtInt, beta: ExtInt, maximizing: bool)
    requires WellFormed(g) && |NearbySet(g, last)| >= d + 1
    ensures var moves := Order(g, last, NearbyList(g, last)).0;
      var s := ExploreScores(g, last, moves, d, alpha, beta, maximizing);
      forall i :: 0 <= i < |s| ==>
        s[i] == Child(g, last, moves[i].0, moves[i].1, d,
                      if maximizing then Top(alpha, s[..i]) else alpha,
                      if maximizing then beta else Bottom(beta, s[..i]), maximizing).0
  {
    OrderedChildrenRestore(g, last, d, maximizing);
    var o := Order(g, last, NearbyList(g, last));
    ExploreScoresAre(o.1, last, o.0, d, alpha, beta, maximizing);
  }

  /** Every move is a candidate of get_nearby_cells on g. */
  predicate AllCandidates(g: Grid, last: Option<Coord>, moves: seq<Coord>)
    requires WellFormed(g)
  {
    forall i :: 0 <= i < |moves| ==> moves[i] in NearbySet(g, last)
  }

  /** The moves minimax searches at a node of g are the candidates of get_nearby_cells, ordered,
      and ordering them leaves g as it was, provided the candidate set is not empty. */
  lemma {:induction false} OrderedCandidates(g: Grid, last: Option<Coord>)
    requires WellFormed(g) && NearbySet(g, last) != {}
    ensures Order(g, last, NearbyList(g, last)).1 == g
    ensures AllCandidates(g, last, Order(g, last, NearbyList(g, last)).0)
  {
    var moves := NearbyList(g, last);
    NearbyListIs(g, last);
    assert AllEmpty(g, moves);
    OrderSorts(g, last, moves);
    var r := Order(g, last, moves).0;
    forall i | 0 <= i < |r|
      ensures r[i] in NearbySet(g, last)
    {
      assert r[i] in multiset(moves);
    }
  }

  /** Searching each of `moves` as a child to depth d, with any bounds, and writing 0 back
      leaves g as it was. */
  ghost predicate ChildrenRestore(g: Grid, last: Option<Coord>, moves: seq<Coord>, d: nat, maximizing: bool)
    requires WellFormed(g) && AllInRange(moves)
    decreases |moves|
  {
    moves == [] ||
    ((forall a, b :: Place(Child(g, last, moves[0].0, moves[0].1, d, a, b, maximizing).1, moves[0].0, moves[0].1, 0) == g) &&
     ChildrenRestore(g, last, moves[1..], d, maximizing))
  }

  /** Search restores the grid when every node has a candidate: with at least `depth` empty cells
      in the candidate set, each placement removes one candidate, so no node falls back on the
      centre, and every stone written on an empty cell is later overwritten with 0. */
  lemma {:induction false} MinimaxRestores(g: Grid, last: Option<Coord>, depth: nat, alpha: ExtInt, beta: ExtInt, maximizing: bool)
    requires WellFormed(g) && |NearbySet(g, last)| >= depth
    ensures Minimax(g, last, depth, alpha, beta, maximizing).1 == g
    decreases depth, 1, 0
  {
    MinimaxUnfold(g, last, depth, alpha, beta, maximizing);
    if FirstWinner(g).None? && depth > 0 {
      LoopRestores(g, last, ChildDepth(depth), alpha, beta, maximizing);
    }
  }

  /** The candidate loop over the ordered candidates, whose children search to depth d,
      restores the grid when there are more than d candidates. */
  lemma {:induction false} LoopRestores(g: Grid, last: Option<Coord>, d: nat, alpha: ExtInt, beta: ExtInt, maximizing: bool)
    requires WellFormed(g) && |NearbySet(g, last)| >= d + 1
    ensures var o := Order(g, last, NearbyList(g, last));
      Explore(o.1, last, o.0, d, alpha, beta, maximizing, Worst(maximizing)).1 == g
    decreases d, 6, 1
  {
    OrderedChildrenRestore(g, last, d, maximizing);
    var o := Order(g, last, NearbyList(g, last));
    ExploreRestores(o.1, last, o.0, d, alpha, beta, maximizing, Worst(maximizing));
  }

  /** At a node with more than d candidates, ordering them leaves the grid as it was and the
      child search of each ordered candidate restores it. */
  lemma {:induction false} OrderedChildrenRestore(g: Grid, last: Option<Coord>, d: nat, maximizing: bool)
    requires WellFormed(g) && |NearbySet(g, last)| >= d + 1
    ensures var o := Order(g, last, NearbyList(g, last));
      o.1 == g && ChildrenRestore(o.1, last, o.0, d, maximizing)
    decreases d, 5, 0
  {
    OrderedCandidates(g, last);
    var o := Order(g, last, NearbyList(g, last));
    CandidatesRestore(g, last, o.0, d, maximizing);
  }

  /** The children of candidates restore the grid when at least d + 1 candidates are available. */
  lemma {:induction false} CandidatesRestore(g: Grid, last: Option<Coord>, moves: seq<Coord>, d: nat, maximizing: bool)
    requires WellFormed(g) && AllInRange(moves)
    requires AllCandidates(g, last, moves) && |NearbySet(g, last)| >= d + 1
    ensures ChildrenRestore(g, last, moves, d, maximizing)
    decreases d, 4, |moves|
  {
    if moves != [] {
      forall a, b
        ensures Place(Child(g, last, moves[0].0, moves[0].1, d, a, b, maximizing).1, moves[0].0, moves[0].1, 0) == g
      {
        CandidateRestores(g, last, moves[0].0, moves[0].1, d, a, b, maximizing);
      }
      assert AllInRange(moves[1..]) && AllCandidates(g, last, moves[1..]) by {
        forall i | 0 <= i < |moves[1..]|
          ensures moves[1..][i] == moves[i + 1]
        {
        }
      }
      CandidatesRestore(g, last, moves[1..], d, maximizing);
    }
  }

  /** Searching a candidate and writing 0 back restores the grid, when at least d + 1
      candidates are available: the stone removes at most one of them, so the child search
      still has d candidates and restores the grid it was given. */
  lemma {:induction false} CandidateRestores(g: Grid, last: Option<Coord>, x: int, y: int, d: nat, alpha: ExtInt, beta: ExtInt, maximizing: bool)
    requires WellFormed(g) && InRange(x, y)
    requires (x, y) in NearbySet(g, last) && |NearbySet(g, last)| >= d + 1
    ensures Place(Child(g, last, x, y, d, alpha, beta, maximizing).1, x, y, 0) == g
    decreases d, 2, 0
  {
    var v := Stone(maximizing);
    NearbyShrinksByOne(g, last, x, y, v);
    MinimaxRestores(Place(g, x, y, v), last, d, alpha, beta, !maximizing);
    PlaceUndo(g, x, y, v);
  }

  /** Writing v and then 0 over an empty cell restores the grid. */
  lemma {:induction false} PlaceUndo(g: Grid, x: int, y: int, v: int)
    requires WellFormed(g) && InRange(x, y) && At(g, x, y) == 0
    ensures Place(Place(g, x, y, v), x, y, 0) == g
  {
    assert Place(Place(g, x, y, v), x, y, 0) == g[Index(x, y) := 0];
  }

  /** The candidate loop of minimax restores the grid when each candidate's child does. */
  lemma {:induction false} ExploreRestores(g: Grid, last: Option<Coord>, moves: seq<Coord>, d: nat,
                                           alpha: ExtInt, beta: ExtInt, maximizing: bool, best: ExtInt)
    requires WellFormed(g) && AllInRange(moves)
    requires ChildrenRestore(g, last, moves, d, maximizing)
    ensures Explore(g, last, moves, d, alpha, beta, maximizing, best).1 == g
    decreases |moves|
  {
    if moves != [] {
      ExploreStep(g, last, moves, d, alpha, beta, maximizing, best);
      var child := Child(g, last, moves[0].0, moves[0].1, d, alpha, beta, maximizing);
      assert Place(child.1, moves[0].0, moves[0].1, 0) == g;
      if maximizing {
        ExploreRestores(g, last, moves[1..], d, Max(alpha, child.0), beta, maximizing, Max(best, child.0));
      } else {
        ExploreRestores(g, last, moves[1..], d, alpha, Min(beta, child.0), maximizing, Min(best, child.0));
      }
    }
  }

  /** The root loop over candidates restores the grid when each candidate's child does, and
      answers either the move it started with or one of the candidates. */
  lemma {:induction false} RootSearchRestores(g: Grid, last: Option<Coord>, moves: seq<Coord>, d: nat,
                                              alpha: ExtInt, bestScore: ExtInt, bestMove: Option<Coord>)
    requires WellFormed(g) && AllInRange(moves)
    requires ChildrenRestore(g, last, moves, d, true)
    ensures var r := RootSearch(g, last, moves, d, alpha, bestScore, bestMove);
      r.1 == g && (r.0 == bestMove || (r.0.Some? && r.0.value in moves))
    decreases |moves|
  {
    if moves != [] {
      var x, y := moves[0].0, moves[0].1;
      var child := Child(g, last, x, y, d, alpha, PosInf, true);
      assert Place(child.1, x, y, 0) == g;
      var s := child.0;
      if Lt(bestScore, s) {
        RootSearchRestores(g, last, moves[1..], d, Max(alpha, s), s, Some((x, y)));
      } else {
        RootSearchRestores(g, last, moves[1..], d, Max(alpha, s), bestScore, bestMove);
      }
    }
  }

  /** The root loop answers a move as soon as it has one candidate, since every score beats -inf. */
  lemma {:induction false} RootSearchAnswers(g: Grid, last: Option<Coord>, moves: seq<Coord>, d: nat,
                                             alpha: ExtInt, bestScore: ExtInt, bestMove: Option<Coord>)
    requires WellFormed(g) && AllInRange(moves)
    requires bestMove.Some? || (moves != [] && bestScore == NegInf)
    ensures RootSearch(g, last, moves, d, alpha, bestScore, bestMove).0.Some?
    decreases |moves|
  {
    if moves != [] {
      var x, y := moves[0].0, moves[0].1;
      var child := Child(g, last, x, y, d, alpha, PosInf, true);
      ChildFinite(g, last, x, y, d, alpha, PosInf, true);
      var g' := Place(child.1, x, y, 0);
      var s := child.0;
      if Lt(bestScore, s) {
        RootSearchAnswers(g', last, moves[1..], d, Max(alpha, s), s, Some((x, y)));
      } else {
        RootSearchAnswers(g', last, moves[1..], d, Max(alpha, s), bestScore, bestMove);
      }
    }
  }

  /** The choice the root loop makes from the scores it sees: a score strictly above the best
      one so far replaces the best move. */
  function Pick(s: seq<ExtInt>, moves: seq<Coord>, bestScore: ExtInt, bestMove: Option<Coord>): Option<Coord>
    requires |s| == |moves|
    decreases |s|
  {
    if s == [] then bestMove
    else if Lt(bestScore, s[0]) then Pick(s[1..], moves[1..], s[0], Some(moves[0]))
    else Pick(s[1..], moves[1..], bestScore, bestMove)
  }

  /** The root loop's answer is the choice Pick makes from the scores it sees. */
  lemma {:induction false} RootSearchIsPick(g: Grid, last: Option<Coord>, moves: seq<Coord>, d: nat,
                                            alpha: ExtInt, bestScore: ExtInt, bestMove: Option<Coord>)
    requires WellFormed(g) && AllInRange(moves)
    ensures RootSearch(g, last, moves, d, alpha, bestScore, bestMove).0 ==
      Pick(RootScores(g, last, moves, d, alpha), moves, bestScore, bestMove)
    decreases |moves|
  {
    if moves != [] {
      var x, y := moves[0].0, moves[0].1;
      var child := Child(g, last, x, y, d, alpha, PosInf, true);
      var g' := Place(child.1, x, y, 0);
      var sc := child.0;
      var rest := RootScores(g', last, moves[1..], d, Max(alpha, sc));
      assert ([sc] + rest)[1..] == rest;
      if Lt(bestScore, sc) {
        RootSearchIsPick(g', last, moves[1..], d, Max(alpha, sc), sc, Some((x, y)));
      } else {
        RootSearchIsPick(g', last, moves[1..], d, Max(alpha, sc), bestScore, bestMove);
      }
    }
  }

  /** Pick keeps the first move whose score strictly beats every score before it and is not
      beaten after it, provided that score also beats the starting score; otherwise it keeps
      the starting move, and no score beat the starting score. */
  lemma {:induction false} PickIsFirstGreatest(s: seq<ExtInt>, moves: seq<Coord>, bestScore: ExtInt, bestMove: Option<Coord>)
    requires |s| == |moves|
    ensures var r := Pick(s, moves, bestScore, bestMove);
      (r == bestMove && forall j :: 0 <= j < |s| ==> Le(s[j], bestScore)) ||
      (exists k :: 0 <= k < |moves| && r == Some(moves[k]) && Lt(bestScore, s[k]) && FirstGreatest(s, k))
    decreases |s|
  {
    if s != [] {
      var r := Pick(s, moves, bestScore, bestMove);
      var score' := if Lt(bestScore, s[0]) then s[0] else bestScore;
      var move' := if Lt(bestScore, s[0]) then Some(moves[0]) else bestMove;
      var rest := s[1..];
      assert r == Pick(rest, moves[1..], score', move');
      PickIsFirstGreatest(rest, moves[1..], score', move');
      if r == move' && forall j :: 0 <= j < |rest| ==> Le(rest[j], score') {
        if Lt(bestScore, s[0]) {
          assert r == Some(moves[0]);
          assert FirstGreatest(s, 0) by {
            forall j | 0 < j < |s|
              ensures Le(s[j], s[0])
            {
              assert s[j] == rest[j - 1];
            }
          }
        } else {
          forall j | 0 <= j < |s|
            ensures Le(s[j], bestScore)
          {
            if j > 0 {
              assert s[j] == rest[j - 1];
            }
          }
        }
      } else {
        var k' :| 0 <= k' < |moves[1..]| && r == Some(moves[1..][k']) && Lt(score', rest[k']) && FirstGreatest(rest, k');
        var k := k' + 1;
        assert r == Some(moves[k]) && s[k] == rest[k'];
        assert Lt(bestScore, s[k]);
        assert FirstGreatest(s, k) by {
          forall j | 0 <= j < k
            ensures Lt(s[j], s[k])
          {
            if j > 0 {
              assert s[j] == rest[j - 1];
            }
          }
          forall j | k < j < |s|
            ensures Le(s[j], s[k])
          {
            assert s[j] == rest[j - 1];
          }
        }
      }
    }
  }

  /** When every child restores the grid, the j-th score the root loop sees is the child search
      of the j-th candidate on g itself, with alpha raised by the scores before it. */
  lemma {:induction false} RootScoresAre(g: Grid, last: Option<Coord>, moves: seq<Coord>, d: nat, alpha: ExtInt)
    requires WellFormed(g) && AllInRange(moves)
    requires ChildrenRestore(g, last, moves, d, true)
    ensures var s := RootScores(g, last, moves, d, alpha);
      forall j :: 0 <= j < |s| ==> s[j] == Child(g, last, moves[j].0, moves[j].1, d, Top(alpha, s[..j]), PosInf, true).0
    decreases |moves|
  {
    if moves != [] {
      var child := Child(g, last, moves[0].0, moves[0].1, d, alpha, PosInf, true);
      assert Place(child.1, moves[0].0, moves[0].1, 0) == g;
      var sc := child.0;
      var s := RootScores(g, last, moves, d, alpha);
      var rest := RootScores(g, last, moves[1..], d, Max(alpha, sc));
      assert s == [sc] + rest;
      RootScoresAre(g, last, moves[1..], d, Max(alpha, sc));
      forall j | 1 <= j < |s|
        ensures s[j] == Child(g, last, moves[j].0, moves[j].1, d, Top(alpha, s[..j]), PosInf, true).0
      {
        assert s[j] == rest[j - 1] && moves[j] == moves[1..][j - 1];
        FoldCons(alpha, sc, rest, j);
      }
    }
  }

  /** get_best_move answers without searching in the opening and when a move completes five;
      otherwise it is the root loop over the ordered candidates. */
  lemma {:induction false} BestMoveUnfold(g: Grid, last: Option<Coord>, depth: nat)
    requires WellFormed(g) && depth >= 1
    ensures Stones(g) < 2 || FirstCompletion(g, 2).Some? || FirstCompletion(g, 1).Some? ==>
      BestMove(g, last, depth).0.Some? && BestMove(g, last, depth).1 == g
    ensures Stones(g) >= 2 && FirstCompletion(g, 2).None? && FirstCompletion(g, 1).None? ==>
      var o := Order(g, last, NearbyList(g, last));
      BestMove(g, last, depth) == RootSearch(o.1, last, o.0, ChildDepth(depth), NegInf, NegInf, None)
  {
    if Stones(g) < 2 && At(g, Centre, Centre) != 0 && At(g, Centre - 1, Centre) != 0 {
      StonesTwo(g, Index(Centre - 1, Centre), Index(Centre, Centre));
    }
  }

  /** get_best_move always answers a move: an opening reply, an immediate win or block, or the
      best root candidate, since get_nearby_cells never returns an empty list. */
  lemma {:induction false} BestMoveAnswers(g: Grid, last: Option<Coord>, depth: nat)
    requires WellFormed(g) && depth >= 1
    ensures BestMove(g, last, depth).0.Some?
  {
    BestMoveUnfold(g, last, depth);
    if Stones(g) >= 2 && FirstCompletion(g, 2).None? && FirstCompletion(g, 1).None? {
      var o := Order(g, last, NearbyList(g, last));
      RootSearchAnswers(o.1, last, o.0, ChildDepth(depth), NegInf, NegInf, None);
    }
  }

  /** With fewer than two stones on the board, the answer is the centre when it is empty.
      Otherwise the centre holds the only stone, so the cell left of it is free (the opening
      test passes) and so is the cell above it, (x=7, y=6), which is the answer. The grid is
      untouched. */
  lemma {:induction false} BestMoveOpening(g: Grid, last: Option<Coord>, depth: nat)
    requires WellFormed(g) && depth >= 1 && Stones(g) < 2
    ensures var r := BestMove(g, last, depth);
      r.1 == g &&
      r.0 == Some(if At(g, Centre, Centre) == 0 then (Centre, Centre) else (Centre, Centre - 1)) &&
      IsValidMove(g, r.0.value.0, r.0.value.1)
  {
    if At(g, Centre, Centre) != 0 {
      if At(g, Centre - 1, Centre) != 0 {
        StonesTwo(g, Index(Centre - 1, Centre), Index(Centre, Centre));
      }
      if At(g, Centre, Centre - 1) != 0 {
        StonesTwo(g, Index(Centre, Centre - 1), Index(Centre, Centre));
      }
    }
  }

  /** Past the opening, when some empty cell lets the AI complete five, get_best_move answers
      the first such cell in row-major order and leaves the grid as it was. */
  lemma {:induction false} BestMoveWins(g: Grid, last: Option<Coord>, depth: nat)
    requires WellFormed(g) && depth >= 1 && Stones(g) >= 2
    requires exists x, y :: InRange(x, y) && Completes(g, x, y, 2)
    ensures var r := BestMove(g, last, depth);
      r.1 == g && r.0.Some? && InRange(r.0.value.0, r.0.value.1) &&
      Completes(g, r.0.value.0, r.0.value.1, 2) &&
      forall x, y :: InRange(x, y) && Before(x, y, r.0.value.0, r.0.value.1) ==> !Completes(g, x, y, 2)
  {
    FirstCompletionIsFirst(g, 2);
  }

  /** Past the opening, when the AI cannot complete five but the human could, get_best_move
      answers the first cell in row-major order where a human stone would win, blocking it. */
  lemma {:induction false} BestMoveBlocks(g: Grid, last: Option<Coord>, depth: nat)
    requires WellFormed(g) && depth >= 1 && Stones(g) >= 2
    requires forall x, y :: InRange(x, y) ==> !Completes(g, x, y, 2)
    requires exists x, y :: InRange(x, y) && Completes(g, x, y, 1)
    ensures var r := BestMove(g, last, depth);
      r.1 == g && r.0.Some? && InRange(r.0.value.0, r.0.value.1) &&
      Completes(g, r.0.value.0, r.0.value.1, 1) &&
      forall x, y :: InRange(x, y) && Before(x, y, r.0.value.0, r.0.value.1) ==> !Completes(g, x, y, 1)
  {
    FirstCompletionIsFirst(g, 2);
    FirstCompletionIsFirst(g, 1);
  }

  /** Past the opening and with no immediate win or block, get_best_move answers the first
      ordered candidate whose child score in the root loop is strictly greatest; when
      get_nearby_cells has candidates, that is one of them, so an empty cell. */
  lemma {:induction false} BestMoveChooses(g: Grid, last: Option<Coord>, depth: nat)
    requires WellFormed(g) && depth >= 1 && Stones(g) >= 2
    requires forall x, y :: InRange(x, y) ==> !Completes(g, x, y, 2) && !Completes(g, x, y, 1)
    ensures var o := Order(g, last, NearbyList(g, last));
      var s := RootScores(o.1, last, o.0, ChildDepth(depth), NegInf);
      exists k :: 0 <= k < |o.0| && BestMove(g, last, depth).0 == Some(o.0[k]) && FirstGreatest(s, k)
    ensures NearbySet(g, last) != {} ==>
      var r := BestMove(g, last, depth).0;
      r.Some? && r.value in NearbySet(g, last) && IsValidMove(g, r.value.0, r.value.1)
  {
    FirstCompletionIsFirst(g, 2);
    FirstCompletionIsFirst(g, 1);
    BestMoveUnfold(g, last, depth);
    var o := Order(g, last, NearbyList(g, last));
    var d := ChildDepth(depth);
    var s := RootScores(o.1, last, o.0, d, NegInf);
    RootSearchIsPick(o.1, last, o.0, d, NegInf, NegInf, None);
    PickIsFirstGreatest(s, o.0, NegInf, None);
    ChildFinite(o.1, last, o.0[0].0, o.0[0].1, d, NegInf, PosInf, true);
    assert s[0].Fin?;
    if NearbySet(g, last) != {} {
      OrderedCandidates(g, last);
    }
  }

  /** Past the opening and with no immediate win or block, and with at least `depth`
      candidates, get_best_move answers one of the candidates of get_nearby_cells (so an empty
      cell), namely the first ordered candidate whose child score is strictly greatest, and the
      search leaves the grid as it was. */
  lemma {:induction false} BestMoveSearches(g: Grid, last: Option<Coord>, depth: nat)
    requires WellFormed(g) && depth >= 1 && Stones(g) >= 2
    requires forall x, y :: InRange(x, y) ==> !Completes(g, x, y, 2) && !Completes(g, x, y, 1)
    requires |NearbySet(g, last)| >= depth
    ensures var r := BestMove(g, last, depth);
      r.1 == g && r.0.Some? && r.0.value in NearbySet(g, last) && IsValidMove(g, r.0.value.0, r.0.value.1)
    ensures var moves := Order(g, last, NearbyList(g, last)).0;
      var s := RootScores(g, last, moves, ChildDepth(depth), NegInf);
      exists k :: 0 <= k < |moves| && BestMove(g, last, depth).0 == Some(moves[k]) && FirstGreatest(s, k)
  {
    FirstCompletionIsFirst(g, 2);
    FirstCompletionIsFirst(g, 1);
    RootLoopRestores(g, last, ChildDepth(depth));
    RootLoopPicks(g, last, ChildDepth(depth));
  }

  /** The root loop over the ordered candidates, whose children search to depth d, answers one
      of them and restores the grid when there are more than d candidates. */
  lemma {:induction false} RootLoopRestores(g: Grid, last: Option<Coord>, d: nat)
    requires WellFormed(g) && |NearbySet(g, last)| >= d + 1
    ensures var o := Order(g, last, NearbyList(g, last));
      var r := RootSearch(o.1, last, o.0, d, NegInf, NegInf, None);
      r.1 == g && r.0.Some? && r.0.value in NearbySet(g, last)
  {
    OrderedChildrenRestore(g, last, d, true);
    OrderedCandidates(g, last);
    var o := Order(g, last, NearbyList(g, last));
    RootSearchRestores(o.1, last, o.0, d, NegInf, NegInf, None);
    RootSearchAnswers(o.1, last, o.0, d, NegInf, NegInf, None);
  }

  /** With more than d candidates, the root loop over the ordered candidates answers the first
      one whose score is strictly greatest, each child searched on g itself with alpha raised by
      the scores before it. */
  lemma {:induction false} RootLoopPicks(g: Grid, last: Option<Coord>, d: nat)
    requires WellFormed(g) && |NearbySet(g, last)| >= d + 1
    ensures var o := Order(g, last, NearbyList(g, last));
      var s := RootScores(g, last, o.0, d, NegInf);
      o.1 == g &&
      (exists k :: 0 <= k < |o.0| && RootSearch(g, last, o.0, d, NegInf, NegInf, None).0 == Some(o.0[k]) && FirstGreatest(s, k)) &&
      forall j :: 0 <= j < |s| ==> s[j] == Child(g, last, o.0[j].0, o.0[j].1, d, Top(NegInf, s[..j]), PosInf, true).0
  {
    OrderedChildrenRestore(g, last, d, true);
    var o := Order(g, last, NearbyList(g, last));
    var s := RootScores(g, last, o.0, d, NegInf);
    RootScoresAre(g, last, o.0, d, NegInf);
    RootSearchIsPick(g, last, o.0, d, NegInf, NegInf, None);
    PickIsFirstGreatest(s, o.0, NegInf, None);
    ChildFinite(g, last, o.0[0].0, o.0[0].1, d, Top(NegInf, s[..0]), PosInf, true);
    assert s[0].Fin?;
  }

  /** order_moves on a single move: the move itself, with the cell set to 0 by the trial undo. */
  lemma {:induction false} OrderSingle(g: Grid, last: Option<Coord>, c: Coord)
    requires WellFormed(g) && InRange(c.0, c.1)
    ensures Order(g, last, [c]) == ([c], Place(g, c.0, c.1, 0))
  {
    var moves := [c];
    var e := Entries(g, last, moves);
    assert moves[..|moves| - 1] == [];
    assert Entries(g, last, moves[..|moves| - 1]) == ([], g);
    assert |e.0| == 1 && e.0[1..] == [];
    assert SortDesc(e.0[1..]) == [];
    assert SortDesc(e.0) == [e.0[0]];
    assert (e.0[0].x, e.0[0].y) == c;
    assert Coords([e.0[0]]) == [c];
  }

  /** With no candidate cell get_nearby_cells falls back on the centre whether or not it is
      occupied, and order_moves scores it by writing a 2 there and then a 0: the centre is
      cleared, erasing any stone on it. */
  lemma {:induction false} OrderCentreFallback(g: Grid, last: Option<Coord>)
    requires WellFormed(g) && NearbySet(g, last) == {}
    ensures Order(g, last, NearbyList(g, last)) == ([(Centre, Centre)], Place(g, Centre, Centre, 0))
  {
    assert NearbyList(g, last) == [(Centre, Centre)];
    OrderSingle(g, last, (Centre, Centre));
  }

  /** So a search node with no candidate and no winner leaves the centre empty, whatever the
      centre held: the grid is not restored when a stone sat there. */
  lemma {:induction false} MinimaxCentreFallback(g: Grid, last: Option<Coord>, depth: nat, alpha: ExtInt, beta: ExtInt, maximizing: bool)
    requires WellFormed(g) && NearbySet(g, last) == {} && FirstWinner(g) == None && depth >= 1
    ensures At(Minimax(g, last, depth, alpha, beta, maximizing).1, Centre, Centre) == 0
  {
    MinimaxUnfold(g, last, depth, alpha, beta, maximizing);
    OrderCentreFallback(g, last);
    var g0 := Place(g, Centre, Centre, 0);
    var moves: seq<Coord> := [(Centre, Centre)];
    ExploreStep(g0, last, moves, ChildDepth(depth), alpha, beta, maximizing, Worst(maximizing));
    assert moves[1..] == [];
  }

}
