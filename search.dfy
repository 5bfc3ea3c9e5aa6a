/** The meaning of AIPlayer.order_moves, minimax and get_best_move as pure functions.
    Every function returns the grid it leaves behind together with its value, because the
    source searches by writing into the board and undoing each placement by writing 0. */
module Search {
  import opened Rules
  import opened Heuristic
  import opened Candidates

  /** The integers extended with the sentinels -inf and +inf (float('inf') in the source). */
  datatype ExtInt = NegInf | Fin(n: int) | PosInf

  predicate Le(a: ExtInt, b: ExtInt)
  {
    a.NegInf? || b.PosInf? || (a.Fin? && b.Fin? && a.n <= b.n)
  }

  predicate Lt(a: ExtInt, b: ExtInt) { !Le(b, a) }

  function Max(a: ExtInt, b: ExtInt): ExtInt { if Le(a, b) then b else a }

  function Min(a: ExtInt, b: ExtInt): ExtInt { if Le(a, b) then a else b }

  // ---------------------------------------------------------------------
  // order_moves

  /** The tuple (priority, (x, y)) that order_moves sorts. */
  datatype Entry = Entry(priority: int, x: int, y: int)

  /** a > b in Python's tuple order: priority, then x, then y. */
  predicate Above(a: Entry, b: Entry)
  {
    a.priority > b.priority || (a.priority == b.priority && (a.x > b.x || (a.x == b.x && a.y > b.y)))
  }

  /** Insert e into a sequence sorted in descending order. */
  function Insert(e: Entry, s: seq<Entry>): (r: seq<Entry>)
    ensures multiset(r) == multiset(s) + multiset{e}
  {
    if s == [] then [e]
    else if !Above(s[0], e) then [e] + s
    else assert s == [s[0]] + s[1..]; [s[0]] + Insert(e, s[1..])
  }

  /** list.sort(reverse=True), as an insertion sort. */
  function SortDesc(s: seq<Entry>): (r: seq<Entry>)
    ensures multiset(r) == multiset(s)
  {
    if s == [] then []
    else assert s == [s[0]] + s[1..]; Insert(s[0], SortDesc(s[1..]))
  }

  function Coords(es: seq<Entry>): (r: seq<Coord>)
    ensures |r| == |es| && forall i :: 0 <= i < |es| ==> r[i] == (es[i].x, es[i].y)
  {
    seq(|es|, i requires 0 <= i < |es| => (es[i].x, es[i].y))
  }

  function Abs(n: int): nat { if n < 0 then -n else n }

  /** The priority order_moves gives (x, y) on grid g: the centre bonus, closeness to the last
      move, and evaluate() with an AI stone at (x, y), floor-divided by 100 (Dafny's / agrees
      with Python's // for a positive divisor). */
  function Priority(g: Grid, last: Option<Coord>, x: int, y: int): int
    requires WellFormed(g) && InRange(x, y)
  {
    (if Central(x, y) then 10 else 0) +
    (match last
     case Some(l) => 10 - (Abs(x - l.0) + Abs(y - l.1))
     case None => 0) +
    Evaluate(Place(g, x, y, 2)) / 100
  }

  /** The list built by the loop of order_moves, and the grid it leaves: each move is scored on
      the grid as it stands, with a 2 written at the move, and the cell is then set to 0. */
  function Entries(g: Grid, last: Option<Coord>, moves: seq<Coord>): (r: (seq<Entry>, Grid))
    requires WellFormed(g) && AllInRange(moves)
    ensures WellFormed(r.1) && |r.0| == |moves|
    ensures forall i :: 0 <= i < |moves| ==> (r.0[i].x, r.0[i].y) == moves[i]
  {
    if moves == [] then ([], g)
    else
      var init := moves[..|moves| - 1];
      assert AllInRange(init) by {
        assert forall i :: 0 <= i < |init| ==> init[i] == moves[i];
      }
      var prev := Entries(g, last, init);
      var m := moves[|moves| - 1];
      var e := Entry(Priority(prev.1, last, m.0, m.1), m.0, m.1);
      assert forall i :: 0 <= i < |init| ==> (prev.0 + [e])[i] == prev.0[i] && init[i] == moves[i];
      (prev.0 + [e], Place(prev.1, m.0, m.1, 0))
  }

  /** order_moves(moves): the moves in descending (priority, x, y) order, and the grid left. */
  function Order(g: Grid, last: Option<Coord>, moves: seq<Coord>): (r: (seq<Coord>, Grid))
    requires WellFormed(g) && AllInRange(moves)
    ensures WellFormed(r.1) && |r.0| == |moves| && AllInRange(r.0)
  {
    var e := Entries(g, last, moves);
    var sorted := SortDesc(e.0);
    SortedInRange(e.0, sorted, moves);
    (Coords(sorted), e.1)
  }

  /** A rearrangement of entries whose coordinates are on the board keeps them on the board. */
  lemma SortedInRange(es: seq<Entry>, sorted: seq<Entry>, moves: seq<Coord>)
    requires AllInRange(moves) && |es| == |moves|
    requires forall i :: 0 <= i < |moves| ==> (es[i].x, es[i].y) == moves[i]
    requires multiset(sorted) == multiset(es)
    ensures |sorted| == |es| && AllInRange(Coords(sorted))
  {
    assert |sorted| == |multiset(sorted)| == |multiset(es)| == |es|;
    forall i | 0 <= i < |sorted|
      ensures InRange(sorted[i].x, sorted[i].y)
    {
      assert sorted[i] in multiset(es);
      var j :| 0 <= j < |es| && es[j] == sorted[i];
      assert (es[j].x, es[j].y) == moves[j];
    }
  }

  // ---------------------------------------------------------------------
  // Properties of order_moves

  /** Sorted in descending order: no entry is above an earlier one. */
  predicate SortedDesc(s: seq<Entry>)
  {
    forall i, j :: 0 <= i < j < |s| ==> !Above(s[j], s[i])
  }

  /** Inserting into a descending sequence keeps it descending. */
  lemma {:induction false} InsertSorted(e: Entry, s: seq<Entry>)
    requires SortedDesc(s)
    ensures SortedDesc(Insert(e, s))
    decreases |s|
  {
    if s != [] && Above(s[0], e) {
      var t := s[1..];
      assert SortedDesc(t) by {
        forall i, j | 0 <= i < j < |t|
          ensures !Above(t[j], t[i])
        {
          assert t[i] == s[i + 1] && t[j] == s[j + 1];
        }
      }
      InsertSorted(e, t);
      var r := [s[0]] + Insert(e, t);
      forall j | 1 <= j < |r|
        ensures !Above(r[j], r[0])
      {
        assert r[j] in multiset(Insert(e, t));
        if r[j] != e {
          assert r[j] in multiset(t);
          var k :| 0 <= k < |t| && t[k] == r[j];
          assert t[k] == s[k + 1];
        }
      }
    }
  }

  /** The insertion sort sorts. */
  lemma {:induction false} SortDescSorted(s: seq<Entry>)
    ensures SortedDesc(SortDesc(s))
    decreases |s|
  {
    if s != [] {
      SortDescSorted(s[1..]);
      InsertSorted(s[0], SortDesc(s[1..]));
    }
  }

  lemma CoordsConcat(a: seq<Entry>, b: seq<Entry>)
    ensures Coords(a + b) == Coords(a) + Coords(b)
  {
  }

  /** The cells of e :: t are e's cell and the cells of t. */
  lemma CoordsCons(e: Entry, t: seq<Entry>)
    ensures multiset(Coords([e] + t)) == multiset{(e.x, e.y)} + multiset(Coords(t))
  {
    CoordsConcat([e], t);
    assert Coords([e]) == [(e.x, e.y)];
  }

  /** Inserting an entry adds its cell to the listed cells. */
  lemma {:induction false} InsertCoords(e: Entry, s: seq<Entry>)
    ensures multiset(Coords(Insert(e, s))) == multiset(Coords(s)) + multiset{(e.x, e.y)}
    decreases |s|
  {
    if s == [] {
      assert Coords([e]) == [(e.x, e.y)];
    } else if !Above(s[0], e) {
      CoordsCons(e, s);
    } else {
      var t := s[1..];
      InsertCoords(e, t);
      assert Insert(e, s) == [s[0]] + Insert(e, t);
      CoordsCons(s[0], Insert(e, t));
      CoordsCons(s[0], t);
      assert [s[0]] + t == s;
    }
  }

  /** Sorting rearranges the listed cells. */
  lemma {:induction false} SortCoords(s: seq<Entry>)
    ensures multiset(Coords(SortDesc(s))) == multiset(Coords(s))
    decreases |s|
  {
    if s != [] {
      var t := s[1..];
      var st := SortDesc(t);
      SortCoords(t);
      InsertCoords(s[0], st);
      assert SortDesc(s) == Insert(s[0], st);
      CoordsCons(s[0], t);
      assert [s[0]] + t == s;
    }
  }

  /** Every move names an empty cell of g. */
  predicate AllEmpty(g: Grid, moves: seq<Coord>)
    requires WellFormed(g) && AllInRange(moves)
  {
    forall i :: 0 <= i < |moves| ==> At(g, moves[i].0, moves[i].1) == 0
  }

  /** No move is listed twice. */
  predicate Distinct(moves: seq<Coord>)
  {
    forall i, j :: 0 <= i < j < |moves| ==> moves[i] != moves[j]
  }

  /** The tuple order_moves sorts for cell c, scored on grid g. */
  function Key(g: Grid, last: Option<Coord>, c: Coord): (e: Entry)
    requires WellFormed(g) && InRange(c.0, c.1)
    ensures (e.x, e.y) == c
  {
    Entry(Priority(g, last, c.0, c.1), c.0, c.1)
  }

  /** On empty cells the scoring loop scores every move on the grid as given, and leaves that
      grid behind: each trial 2 is undone by writing 0 over an empty cell. */
  lemma {:induction false} EntriesOnEmpty(g: Grid, last: Option<Coord>, moves: seq<Coord>)
    requires WellFormed(g) && AllInRange(moves) && AllEmpty(g, moves)
    ensures Entries(g, last, moves).1 == g
    ensures forall i :: 0 <= i < |moves| ==> Entries(g, last, moves).0[i] == Key(g, last, moves[i])
    decreases |moves|
  {
    if moves != [] {
      var init := moves[..|moves| - 1];
      assert AllInRange(init) && AllEmpty(g, init) by {
        assert forall i :: 0 <= i < |init| ==> init[i] == moves[i];
      }
      EntriesOnEmpty(g, last, init);
      var m := moves[|moves| - 1];
      assert At(g, m.0, m.1) == 0;
      assert Place(g, m.0, m.1, 0) == g;
      forall i | 0 <= i < |moves|
        ensures Entries(g, last, moves).0[i] == Key(g, last, moves[i])
      {
        if i < |init| {
          assert Entries(g, last, moves).0[i] == Entries(g, last, init).0[i];
          assert init[i] == moves[i];
        }
      }
    }
  }

  /** A distinct sequence holds each value at most once. */
  lemma {:induction false} DistinctOnce(s: seq<Coord>, c: Coord)
    requires Distinct(s)
    ensures multiset(s)[c] <= 1
    decreases |s|
  {
    if s != [] {
      var t := s[1..];
      assert s == [s[0]] + t;
      assert Distinct(t) by {
        forall i, j | 0 <= i < j < |t|
          ensures t[i] != t[j]
        {
          assert t[i] == s[i + 1] && t[j] == s[j + 1];
        }
      }
      DistinctOnce(t, c);
    }
  }

  /** A value at two positions of a sequence occurs at least twice in it. */
  lemma Twice(s: seq<Coord>, i: int, j: int)
    requires 0 <= i < j < |s|
    ensures s[i] == s[j] ==> multiset(s)[s[i]] >= 2
  {
    assert s == s[..j] + s[j..];
    assert s[i] in multiset(s[..j]) && s[j] in multiset(s[j..]);
  }

  /** A sequence holding each value at most once is distinct. */
  lemma OnceDistinct(s: seq<Coord>)
    requires forall c :: multiset(s)[c] <= 1
    ensures Distinct(s)
  {
    forall i, j | 0 <= i < j < |s|
      ensures s[i] != s[j]
    {
      Twice(s, i, j);
    }
  }

  /** order_moves on empty cells: the grid is left as it was, the result is a permutation of the
      moves, and it runs descending by (priority, x, y) with priorities scored on that grid;
      strictly descending when no move is listed twice. */
  lemma OrderSorts(g: Grid, last: Option<Coord>, moves: seq<Coord>)
    requires WellFormed(g) && AllInRange(moves) && AllEmpty(g, moves)
    ensures Order(g, last, moves).1 == g
    ensures multiset(Order(g, last, moves).0) == multiset(moves)
    ensures var r := Order(g, last, moves).0;
      forall i, j :: 0 <= i < j < |r| ==> !Above(Key(g, last, r[j]), Key(g, last, r[i]))
    ensures var r := Order(g, last, moves).0;
      Distinct(moves) ==> forall i, j :: 0 <= i < j < |r| ==> Above(Key(g, last, r[i]), Key(g, last, r[j]))
  {
    var e := Entries(g, last, moves);
    EntriesOnEmpty(g, last, moves);
    var sorted := SortDesc(e.0);
    SortDescSorted(e.0);
    SortCoords(e.0);
    assert Coords(e.0) == moves;
    var r := Order(g, last, moves).0;
    assert r == Coords(sorted);
    forall i | 0 <= i < |r|
      ensures sorted[i] == Key(g, last, r[i])
    {
      assert sorted[i] in multiset(e.0);
      var k :| 0 <= k < |e.0| && e.0[k] == sorted[i];
      assert e.0[k] == Key(g, last, moves[k]);
    }
    if Distinct(moves) {
      forall c
        ensures multiset(r)[c] <= 1
      {
        DistinctOnce(moves, c);
      }
      OnceDistinct(r);
      forall i, j | 0 <= i < j < |r|
        ensures Above(Key(g, last, r[i]), Key(g, last, r[j]))
      {
        assert r[i] != r[j];
        assert !Above(sorted[j], sorted[i]);
      }
    }
  }

  // ---------------------------------------------------------------------
  // minimax

  /** The depth the children of a search node of depth `depth` search to: one level less. */
  function ChildDepth(depth: nat): nat
    requires depth >= 1
  {
    depth - 1
  }

  /** minimax(depth, alpha, beta, maximizing) on grid g: its score and the grid it leaves. */
  function Minimax(g: Grid, last: Option<Coord>, depth: nat, alpha: ExtInt, beta: ExtInt, maximizing: bool): (r: (ExtInt, Grid))
    requires WellFormed(g)
    ensures WellFormed(r.1)
    decreases depth, 1, 0
  {
    match FirstWinner(g)
    case Some(w) => (Fin(if w == 2 then 100000 else -100000), g)
    case None =>
      if depth == 0 then (Fin(Evaluate(g)), g)
      else
        var o := Order(g, last, NearbyList(g, last));
        Explore(o.1, last, o.0, ChildDepth(depth), alpha, beta, maximizing, Worst(maximizing))
  }

  /** minimax is a leaf, which leaves the grid as it is, when some stone has already won or the
      depth is 0; otherwise it is the candidate loop over the ordered candidates. */
  lemma {:induction false} MinimaxUnfold(g: Grid, last: Option<Coord>, depth: nat, alpha: ExtInt, beta: ExtInt, maximizing: bool)
    requires WellFormed(g)
    ensures FirstWinner(g).Some? || depth == 0 ==> Minimax(g, last, depth, alpha, beta, maximizing).1 == g
    ensures FirstWinner(g).None? && depth > 0 ==>
      var o := Order(g, last, NearbyList(g, last));
      Minimax(g, last, depth, alpha, beta, maximizing) ==
        Explore(o.1, last, o.0, ChildDepth(depth), alpha, beta, maximizing, Worst(maximizing))
  {
  }

  /** The extremum minimax starts its candidate loop from: -inf when maximizing, +inf otherwise. */
  function Worst(maximizing: bool): ExtInt { if maximizing then NegInf else PosInf }

  /** The stone minimax writes for the side to move: the AI's (2) when maximizing, else the human's (1). */
  function Stone(maximizing: bool): int { if maximizing then 2 else 1 }

  /** The recursive call minimax makes for candidate (x, y): a stone of the side to move is
      written at (x, y) and the other side searches to depth d, one level below the caller. */
  function Child(g: Grid, last: Option<Coord>, x: int, y: int, d: nat,
                 alpha: ExtInt, beta: ExtInt, maximizing: bool): (r: (ExtInt, Grid))
    requires WellFormed(g) && InRange(x, y)
    ensures WellFormed(r.1)
    decreases d, 2, 0
  {
    Minimax(Place(g, x, y, Stone(maximizing)), last, d, alpha, beta, !maximizing)
  }

  /** The candidate loop of minimax from the current candidate on, whose children search to
      depth d, with the running bounds and the running extremum `best`; stops right after the
      first candidate with beta <= alpha. */
  function Explore(g: Grid, last: Option<Coord>, moves: seq<Coord>, d: nat,
                   alpha: ExtInt, beta: ExtInt, maximizing: bool, best: ExtInt): (r: (ExtInt, Grid))
    requires WellFormed(g) && AllInRange(moves)
    ensures WellFormed(r.1)
    decreases d, 3, |moves|
  {
    if moves == [] then (best, g)
    else
      var x, y := moves[0].0, moves[0].1;
      var child := Child(g, last, x, y, d, alpha, beta, maximizing);
      var g' := Place(child.1, x, y, 0);
      var s := child.0;
      if maximizing then
        var best', alpha' := Max(best, s), Max(alpha, s);
        if Le(beta, alpha') then (best', g')
        else Explore(g', last, moves[1..], d, alpha', beta, maximizing, best')
      else
        var best', beta' := Min(best, s), Min(beta, s);
        if Le(beta', alpha) then (best', g')
        else Explore(g', last, moves[1..], d, alpha, beta', maximizing, best')
  }

  /** One step of the candidate loop: the child searched at the first candidate decides between
      a cutoff and the loop over the remaining candidates. */
  lemma {:induction false} ExploreStep(g: Grid, last: Option<Coord>, moves: seq<Coord>, d: nat,
                    alpha: ExtInt, beta: ExtInt, maximizing: bool, best: ExtInt)
    requires WellFormed(g) && AllInRange(moves) && moves != []
    ensures AllInRange(moves[1..])
    ensures var child := Child(g, last, moves[0].0, moves[0].1, d, alpha, beta, maximizing);
      var s, g' := child.0, Place(child.1, moves[0].0, moves[0].1, 0);
      Explore(g, last, moves, d, alpha, beta, maximizing, best) ==
        if maximizing then
          (if Le(beta, Max(alpha, s)) then (Max(best, s), g')
           else Explore(g', last, moves[1..], d, Max(alpha, s), beta, maximizing, Max(best, s)))
        else
          (if Le(Min(beta, s), alpha) then (Min(best, s), g')
           else Explore(g', last, moves[1..], d, alpha, Min(beta, s), maximizing, Min(best, s)))
  {
  }

  /** The largest of a and the scores s, folded from the front as max_eval and alpha are. */
  function Top(a: ExtInt, s: seq<ExtInt>): ExtInt
    decreases |s|
  {
    if s == [] then a else Top(Max(a, s[0]), s[1..])
  }

  /** The smallest of a and the scores s, folded from the front as min_eval and beta are. */
  function Bottom(a: ExtInt, s: seq<ExtInt>): ExtInt
    decreases |s|
  {
    if s == [] then a else Bottom(Min(a, s[0]), s[1..])
  }

  /** The child scores the candidate loop of minimax sees, in order: one per candidate it
      searches, ending with the first score after which beta <= alpha. */
  function ExploreScores(g: Grid, last: Option<Coord>, moves: seq<Coord>, d: nat,
                         alpha: ExtInt, beta: ExtInt, maximizing: bool): (s: seq<ExtInt>)
    requires WellFormed(g) && AllInRange(moves)
    ensures |s| <= |moves| && (moves != [] ==> |s| >= 1)
    decreases |moves|
  {
    if moves == [] then []
    else
      var x, y := moves[0].0, moves[0].1;
      var child := Child(g, last, x, y, d, alpha, beta, maximizing);
      var g' := Place(child.1, x, y, 0);
      var s := child.0;
      if maximizing then
        var alpha' := Max(alpha, s);
        [s] + (if Le(beta, alpha') then [] else ExploreScores(g', last, moves[1..], d, alpha', beta, maximizing))
      else
        var beta' := Min(beta, s);
        [s] + (if Le(beta', alpha) then [] else ExploreScores(g', last, moves[1..], d, alpha, beta', maximizing))
  }

  // ---------------------------------------------------------------------
  // get_best_move

  /** The root loop of get_best_move from the current candidate on, whose children search to
      depth d: never cuts off, keeps the first candidate with a strictly greater score, and
      feeds the running alpha to minimax. */
  function RootSearch(g: Grid, last: Option<Coord>, moves: seq<Coord>, d: nat,
                      alpha: ExtInt, bestScore: ExtInt, bestMove: Option<Coord>): (r: (Option<Coord>, Grid))
    requires WellFormed(g) && AllInRange(moves)
    ensures WellFormed(r.1)
    decreases |moves|
  {
    if moves == [] then (bestMove, g)
    else
      var x, y := moves[0].0, moves[0].1;
      var child := Child(g, last, x, y, d, alpha, PosInf, true);
      var g' := Place(child.1, x, y, 0);
      var s := child.0;
      if Lt(bestScore, s) then RootSearch(g', last, moves[1..], d, Max(alpha, s), s, Some((x, y)))
      else RootSearch(g', last, moves[1..], d, Max(alpha, s), bestScore, bestMove)
  }

  /** The child scores the root loop of get_best_move sees, one per candidate, in order. */
  function RootScores(g: Grid, last: Option<Coord>, moves: seq<Coord>, d: nat, alpha: ExtInt): (s: seq<ExtInt>)
    requires WellFormed(g) && AllInRange(moves)
    ensures |s| == |moves|
    decreases |moves|
  {
    if moves == [] then []
    else
      var x, y := moves[0].0, moves[0].1;
      var child := Child(g, last, x, y, d, alpha, PosInf, true);
      [child.0] + RootScores(Place(child.1, x, y, 0), last, moves[1..], d, Max(alpha, child.0))
  }

  /** s[k] is the first strictly greatest score: every earlier score is below it and no later
      score is above it. */
  predicate FirstGreatest(s: seq<ExtInt>, k: int)
    requires 0 <= k < |s|
  {
    (forall j :: 0 <= j < k ==> Lt(s[j], s[k])) && (forall j :: k < j < |s| ==> Le(s[j], s[k]))
  }

  /** get_best_move() with search depth `depth`: its answer and the grid it leaves. */
  function BestMove(g: Grid, last: Option<Coord>, depth: nat): (r: (Option<Coord>, Grid))
    requires WellFormed(g) && depth >= 1
    ensures WellFormed(r.1)
  {
    if Stones(g) < 2 && At(g, Centre, Centre) == 0 then (Some((Centre, Centre)), g)
    else if Stones(g) < 2 && At(g, Centre - 1, Centre) == 0 then (Some((Centre, Centre - 1)), g)
    else
      match FirstCompletion(g, 2)
      case Some(c) => (Some(c), g)
      case None =>
        match FirstCompletion(g, 1)
        case Some(c) => (Some(c), g)
        case None =>
          var o := Order(g, last, NearbyList(g, last));
          RootSearch(o.1, last, o.0, ChildDepth(depth), NegInf, NegInf, None)
  }
}
