/** The module-level state of index.js (the people array, each person's position, closeProx list,
    tweenDone flag and colour tween) and the code that changes it: addItems, checkProximity,
    the tween's onStart and onComplete callbacks, and the click handler. */
module Spread {
  import opened Lattice
  import opened Proximity
  import opened Cascade

  /** What the raycast of a click hit first: nothing, a person, or another scene child
      (one without a colorTween). */
  datatype Pick = Miss | HitPerson(index: nat) | HitOther

  /** A started (non-idle) tween of entity k belongs to an entity reachable from a seed along g. */
  ghost predicate Traced(g: seq<seq<nat>>, p: Phase, seeds: set<nat>, k: nat)
  {
    p != Idle ==> exists s :: s in seeds && Reachable(g, s, k)
  }

  /** Every entity of tweens is traced, stated entity by entity from the front of the list. */
  ghost predicate TracedBy(g: seq<seq<nat>>, tweens: seq<Phase>, seeds: set<nat>)
    decreases |tweens|
  {
    tweens == [] ||
    (TracedBy(g, tweens[..|tweens| - 1], seeds) && Traced(g, tweens[|tweens| - 1], seeds, |tweens| - 1))
  }

  lemma {:induction false} TracedEvery(g: seq<seq<nat>>, tweens: seq<Phase>, seeds: set<nat>)
    ensures TracedBy(g, tweens, seeds) <==> forall k :: 0 <= k < |tweens| ==> Traced(g, tweens[k], seeds, k)
  {
    if tweens != [] {
      var front := tweens[..|tweens| - 1];
      TracedEvery(g, front, seeds);
      assert forall k :: 0 <= k < |front| ==> front[k] == tweens[k];
    }
  }

  /** Adding edges and seeds, and entities whose tween is idle, keeps every started entity traced. */
  lemma TracedGrows(g: seq<seq<nat>>, h: seq<seq<nat>>, t: seq<Phase>, u: seq<Phase>, seeds: set<nat>, more: set<nat>)
    requires TracedBy(g, t, seeds) && Extends(g, h) && seeds <= more
    requires forall k :: 0 <= k < |u| && u[k] != Idle ==> k < |t| && t[k] != Idle
    ensures TracedBy(h, u, more)
  {
    TracedEvery(g, t, seeds);
    TracedEvery(h, u, more);
    forall k | 0 <= k < |u|
      ensures Traced(h, u[k], more, k)
    {
      if u[k] != Idle {
        assert Traced(g, t[k], seeds, k);
        var s :| s in seeds && Reachable(g, s, k);
        ReachableGrows(g, h, s, k);
      }
    }
  }

  /** Starting the tween of an entity reachable from a seed keeps every started entity traced. */
  lemma TracedStart(g: seq<seq<nat>>, t: seq<Phase>, seeds: set<nat>, i: nat, p: Phase)
    requires TracedBy(g, t, seeds) && i < |t|
    requires exists s :: s in seeds && Reachable(g, s, i)
    ensures TracedBy(g, t[i := p], seeds)
  {
    TracedEvery(g, t, seeds);
    TracedEvery(g, t[i := p], seeds);
    assert forall k :: 0 <= k < |t| && k != i ==> Traced(g, t[k], seeds, k);
  }

  class World {
    /** The lattice cell each person was created for (not stored by the source). */
    ghost var cells: seq<Cell>
    var positions: seq<Vec>
    var closeProx: seq<seq<nat>>
    var tweenDone: seq<bool>
    /** The state of each person's colorTween inside the tween library. */
    var tweens: seq<Phase>
    /** Every colorTween.start() call, in order: the animation starts the core asks for. */
    var starts: seq<nat>
    /** The people whose tween a click started. */
    ghost var clicked: set<nat>

    ghost predicate WellFormed()
      reads this
    {
      && |positions| == |cells|
      && |closeProx| == |cells|
      && |tweenDone| == |cells|
      && |tweens| == |cells|
      && (forall k, m :: 0 <= k < |closeProx| && 0 <= m < |closeProx[k]| ==> closeProx[k][m] < |cells|)
      && (forall k :: 0 <= k < |tweens| ==> (tweenDone[k] <==> Done(tweens[k])))
    }

    /** The object invariant: the lists line up, closeProx names people, tweenDone is set exactly
        once onStart has run, every logged start() call was made on a person whose tween has left
        Idle, and every started person is reachable from a clicked one. */
    ghost predicate Valid()
      reads this
    {
      && WellFormed()
      && Logged(starts, tweens)
      && TracedBy(closeProx, tweens, clicked)
    }

    /** Every colorTween.start() call ever made, by a click or by onComplete, was made on a person
        reachable along closeProx edges from a clicked person. */
    lemma StartReachable(m: nat)
      requires Valid() && m < |starts|
      ensures exists s :: s in clicked && Reachable(closeProx, s, starts[m])
    {
      LoggedEvery(starts, tweens);
      TracedEvery(closeProx, tweens, clicked);
      assert Traced(closeProx, tweens[starts[m]], clicked, starts[m]);
    }

    /** const people = []. */
    constructor ()
      ensures Valid()
      ensures cells == [] && positions == [] && closeProx == [] && tweenDone == [] && tweens == []
      ensures starts == [] && clicked == {}
    {
      cells, positions, closeProx, tweenDone, tweens := [], [], [], [], [];
      starts, clicked := [], {};
    }

    /** After the first k passes of addItems' triple loop. */
    ghost predicate Grown(n: nat, jitter: seq<Vec>, k: nat)
      reads this
    {
      && k <= |Grid(n)| && k <= |jitter|
      && cells == Grid(n)[..k]
      && positions == Placed(Grid(n)[..k], jitter)
      && closeProx == seq(k, _ => [])
      && tweenDone == seq(k, _ => false)
      && tweens == seq(k, _ => Idle)
    }

    /** One pass of the triple loop: create the person of cell c and push it onto people. */
    method Push(ghost n: nat, jitter: seq<Vec>, c: Cell, drawn: nat)
      requires n % 2 == 0 && InGrid(n, c) && |jitter| == n * n * n
      requires drawn == CellIndex(n, c) && Grown(n, jitter, drawn)
      modifies this`cells, this`positions, this`closeProx, this`tweenDone, this`tweens
      ensures Grown(n, jitter, drawn + 1)
    {
      GridIndexOf(n, c);
      var person := Position(c, jitter[drawn]);
      cells := cells + [c];
      positions := positions + [person];
      closeProx := closeProx + [[]];
      tweenDone := tweenDone + [false];
      tweens := tweens + [Idle];
      assert Grid(n)[..drawn + 1] == Grid(n)[..drawn] + [c];
      assert Placed(Grid(n)[..drawn + 1], jitter) == Placed(Grid(n)[..drawn], jitter) + [person];
      ghost var none: seq<nat> := [];
      assert seq(drawn + 1, _ => none) == seq(drawn, _ => none) + [none];
      assert seq(drawn + 1, _ => false) == seq(drawn, _ => false) + [false];
      assert seq(drawn + 1, _ => Idle) == seq(drawn, _ => Idle) + [Idle];
    }

    /** The z loop of addItems, for one x and one y. */
    method PushLine(n: nat, jitter: seq<Vec>, x: int, y: int, drawn: nat) returns (drawn': nat)
      requires n % 2 == 0 && |jitter| == n * n * n
      requires -(n / 2) <= x < n / 2 && -(n / 2) <= y < n / 2
      requires drawn == CellIndex(n, Cell(x, y, -(n / 2))) && Grown(n, jitter, drawn)
      modifies this`cells, this`positions, this`closeProx, this`tweenDone, this`tweens
      ensures drawn' == CellIndex(n, Cell(x, y, n / 2)) && Grown(n, jitter, drawn')
    {
      drawn' := drawn;
      var z := -(n / 2);
      while z < n / 2
        invariant -(n / 2) <= z <= n / 2
        invariant drawn' == CellIndex(n, Cell(x, y, z)) && Grown(n, jitter, drawn')
      {
        Push(n, jitter, Cell(x, y, z), drawn');
        drawn' := drawn' + 1;
        z := z + 1;
      }
    }

    /** The y loop of addItems, for one x. */
    method PushSlab(n: nat, jitter: seq<Vec>, x: int, drawn: nat) returns (drawn': nat)
      requires n % 2 == 0 && |jitter| == n * n * n
      requires -(n / 2) <= x < n / 2
      requires drawn == CellIndex(n, Cell(x, -(n / 2), -(n / 2))) && Grown(n, jitter, drawn)
      modifies this`cells, this`positions, this`closeProx, this`tweenDone, this`tweens
      ensures drawn' == CellIndex(n, Cell(x, n / 2, -(n / 2))) && Grown(n, jitter, drawn')
    {
      drawn' := drawn;
      var y := -(n / 2);
      while y < n / 2
        invariant -(n / 2) <= y <= n / 2
        invariant drawn' == CellIndex(n, Cell(x, y, -(n / 2))) && Grown(n, jitter, drawn')
      {
        drawn' := PushLine(n, jitter, x, y, drawn');
        NextLine(n, x, y);
        y := y + 1;
      }
    }

    /** The triple loop of addItems, x-major, then y, then z. */
    method PushLattice(n: nat, jitter: seq<Vec>)
      requires n % 2 == 0 && |jitter| == n * n * n && Grown(n, jitter, 0)
      modifies this`cells, this`positions, this`closeProx, this`tweenDone, this`tweens
      ensures Grown(n, jitter, n * n * n)
    {
      var drawn: nat := 0;
      var x := -(n / 2);
      while x < n / 2
        invariant -(n / 2) <= x <= n / 2
        invariant drawn == CellIndex(n, Cell(x, -(n / 2), -(n / 2))) && Grown(n, jitter, drawn)
      {
        drawn := PushSlab(n, jitter, x, drawn);
        NextSlab(n, x);
        x := x + 1;
      }
      LastPass(n);
    }

    /** addItems, run by init on the still empty people array: push one person per cell of the
        n x n x n lattice, x-major, then y, then z, each with an empty closeProx, tweenDone unset
        and an idle tween; then checkProximity. jitter[k] stands for the three Math.random()
        draws of the k-th person. */
    method AddItems(n: nat, jitter: seq<Vec>)
      requires Valid() && cells == [] && n % 2 == 0 && |jitter| == n * n * n
      modifies this`cells, this`positions, this`closeProx, this`tweenDone, this`tweens
      ensures Valid()
      ensures cells == Grid(n) && positions == Placed(Grid(n), jitter)
      ensures tweenDone == seq(n * n * n, _ => false) && tweens == seq(n * n * n, _ => Idle)
      ensures |closeProx| == n * n * n
      ensures forall i :: 0 <= i < n * n * n ==> closeProx[i] == Neighbourhood(positions, i)
    {
      assert Grown(n, jitter, 0);
      ghost var idle := tweens;
      PushLattice(n, jitter);
      LoggedGrows(starts, idle, tweens);
      assert Grid(n)[..n * n * n] == Grid(n);
      assert WellFormed();
      TracedEvery(closeProx, tweens, clicked);
      CheckProximity();
    }

    /** checkProximity: for each person i, compare with every other person and append those
        closer than the threshold to closeProx of i. */
    method CheckProximity()
      requires Valid()
      modifies this`closeProx
      ensures Valid() && |closeProx| == |old(closeProx)|
      ensures forall i :: 0 <= i < |closeProx| ==> closeProx[i] == old(closeProx[i]) + Neighbourhood(positions, i)
    {
      var i := 0;
      while i < |positions|
        invariant 0 <= i <= |positions|
        invariant WellFormed() && |closeProx| == |old(closeProx)|
        invariant forall k :: 0 <= k < i ==> closeProx[k] == old(closeProx[k]) + Neighbourhood(positions, k)
        invariant forall k :: i <= k < |closeProx| ==> closeProx[k] == old(closeProx[k])
      {
        ghost var before := closeProx;
        CollectNeighbours(i);
        AppendBounded(before, i, Neighbourhood(positions, i), |cells|, closeProx);
        i := i + 1;
      }
      TracedGrows(old(closeProx), closeProx, tweens, tweens, clicked, clicked);
    }

    /** The j loop of checkProximity for one person i: people.slice() with position i spliced
        out, and every one of them closer than the threshold appended to closeProx of i. */
    method CollectNeighbours(i: nat)
      requires i < |positions| == |closeProx|
      modifies this`closeProx
      ensures closeProx == old(closeProx)[i := old(closeProx)[i] + Neighbourhood(positions, i)]
    {
      var allButMe := Ids(|positions|);
      allButMe := allButMe[..i] + allButMe[i + 1..];
      SplicedIds(|positions|, i, allButMe);
      var j := 0;
      assert NearBelow(positions, i, if 0 < i then 0 else 1) == [];
      assert closeProx[i] + [] == closeProx[i];
      assert closeProx[i := closeProx[i]] == closeProx;
      while j < |allButMe|
        invariant 0 <= j <= |allButMe| == |positions| - 1
        invariant |closeProx| == |old(closeProx)|
        invariant closeProx[i] == old(closeProx)[i] + NearBelow(positions, i, if j < i then j else j + 1)
        invariant closeProx == old(closeProx)[i := closeProx[i]]
      {
        var other := allButMe[j];
        NearBelowNext(old(closeProx)[i], positions, i, j);
        AppendIfClose(i, other);
        j := j + 1;
      }
    }

    /** One pass of the j loop of checkProximity: closeProx of i gains other when the two are
        closer than the threshold. */
    method AppendIfClose(i: nat, other: nat)
      requires i < |positions| == |closeProx| && other < |positions|
      modifies this`closeProx
      ensures closeProx == old(closeProx)[i := old(closeProx)[i] + if Close(positions[i], positions[other]) then [other] else []]
    {
      if Close(positions[i], positions[other]) {
        closeProx := closeProx[i := closeProx[i] + [other]];
      } else {
        assert closeProx[i] + [] == closeProx[i];
      }
    }

    /** colorTween.start() on person i. Both callers only reach it while tweenDone is unset. */
    method RequestStart(i: nat)
      requires Valid() && i < |tweens| && !tweenDone[i]
      requires exists s :: s in clicked && Reachable(closeProx, s, i)
      modifies this`tweens, this`starts
      ensures Valid()
      ensures tweens == old(tweens)[i := Requested] && starts == old(starts) + [i]
      ensures Pending(tweens) == Pending(old(tweens))
    {
      PendingUpdate(tweens, i, Requested);
      TracedStart(closeProx, tweens, clicked, i, Requested);
      LoggedGrows(starts, tweens, tweens[i := Requested]);
      LoggedAppend(starts, tweens[i := Requested], i);
      tweens := tweens[i := Requested];
      starts := starts + [i];
    }

    /** onMouseClick: a miss, an object without a colorTween, or a person whose tweenDone is set
        leaves everything as it was; otherwise the person's tween is started. */
    method Click(hit: Pick)
      requires Valid()
      requires hit.HitPerson? ==> hit.index < |tweens|
      modifies this`tweens, this`starts, this`clicked
      ensures Valid()
      ensures if hit.HitPerson? && !tweenDone[hit.index]
              then tweens == old(tweens)[hit.index := Requested] && starts == old(starts) + [hit.index]
                   && clicked == old(clicked) + {hit.index}
              else tweens == old(tweens) && starts == old(starts) && clicked == old(clicked)
      ensures Pending(tweens) == Pending(old(tweens))
    {
      match hit
      case HitPerson(i) =>
        if !tweenDone[i] {
          TracedGrows(closeProx, closeProx, tweens, tweens, clicked, clicked + {i});
          clicked := clicked + {i};
          ReachableSelf(closeProx, i);
          RequestStart(i);
        }
      case _ =>
    }

    /** The tween's onStart callback, run by the tween library on the first update after start():
        tweenDone goes from unset to set. */
    method OnStart(i: nat)
      requires Valid() && i < |tweens| && tweens[i] == Requested
      modifies this`tweenDone, this`tweens
      ensures Valid()
      ensures !old(tweenDone)[i] && tweenDone == old(tweenDone)[i := true]
      ensures tweens == old(tweens)[i := Running]
      ensures Pending(tweens) == Pending(old(tweens)) - 1
    {
      PendingUpdate(tweens, i, Running);
      TracedGrows(closeProx, closeProx, tweens, tweens[i := Running], clicked, clicked);
      LoggedGrows(starts, tweens, tweens[i := Running]);
      tweenDone := tweenDone[i := true];
      tweens := tweens[i := Running];
    }

    /** The tween's onComplete callback: start the tween of every person in closeProx whose
        tweenDone is still unset, in list order. */
    method OnComplete(i: nat)
      requires Valid() && i < |tweens| && tweens[i] == Running
      modifies this`tweens, this`starts
      ensures Valid()
      ensures starts == old(starts) + Untriggered(closeProx[i], tweenDone)
      ensures |tweens| == |old(tweens)| && tweens[i] == Completed
      ensures forall k :: 0 <= k < |tweens| && k != i ==>
                tweens[k] == if k in closeProx[i] && !tweenDone[k] then Requested else old(tweens)[k]
      ensures Pending(tweens) == Pending(old(tweens)) - 1
    {
      PendingUpdate(tweens, i, Completed);
      TracedGrows(closeProx, closeProx, tweens, tweens[i := Completed], clicked, clicked);
      LoggedGrows(starts, tweens, tweens[i := Completed]);
      tweens := tweens[i := Completed];
      ghost var finished := tweens;
      StartNeighbours(i);
      PendingMarked(finished, closeProx[i], tweenDone);
      forall k | 0 <= k < |tweens|
        ensures tweens[k] == if k in closeProx[i] && !tweenDone[k] then Requested else finished[k]
      {
        MarkedAt(finished, closeProx[i], tweenDone, k);
      }
    }

    /** The loop of onComplete over closeProx of i. */
    method StartNeighbours(i: nat)
      requires Valid() && i < |tweens| && tweens[i] == Completed
      modifies this`tweens, this`starts
      ensures Valid()
      ensures starts == old(starts) + Untriggered(closeProx[i], tweenDone)
      ensures tweens == Marked(old(tweens), closeProx[i], tweenDone)
    {
      var prox := closeProx[i];
      ghost var n := |tweens|;
      assert forall k :: 0 <= k < |prox| ==> prox[k] < n && prox[k] < |tweenDone|;
      for m := 0 to |prox|
        invariant |tweens| == n
        invariant Valid()
        invariant tweens[i] == Completed
        invariant starts == old(starts) + Untriggered(prox[..m], tweenDone)
        invariant tweens == Marked(old(tweens), prox[..m], tweenDone)
      {
        UntriggeredStep(old(starts), prox, tweenDone, m);
        MarkedStep(old(tweens), prox, tweenDone, m);
        StartIfUntriggered(i, m);
      }
      assert prox[..|prox|] == prox;
    }

    /** One pass of onComplete's loop: start the tween of the m-th entry of closeProx of i
        unless its tweenDone is set. */
    method StartIfUntriggered(i: nat, m: nat)
      requires Valid() && i < |tweens| && tweens[i] == Completed && m < |closeProx[i]|
      modifies this`tweens, this`starts
      ensures Valid() && tweens[i] == Completed
      ensures var other := closeProx[i][m];
              if tweenDone[other] then tweens == old(tweens) && starts == old(starts)
              else tweens == old(tweens)[other := Requested] && starts == old(starts) + [other]
    {
      var other := closeProx[i][m];
      if !tweenDone[other] {
        TracedEvery(closeProx, tweens, clicked);
        assert Traced(closeProx, tweens[i], clicked, i);
        ghost var s :| s in clicked && Reachable(closeProx, s, i);
        ReachableStep(closeProx, s, i, other);
        RequestStart(other);
      }
    }
  }

  /** Appending entity indices below b to one closeProx list keeps every entry below b. */
  lemma AppendBounded(g: seq<seq<nat>>, i: nat, s: seq<nat>, b: nat, h: seq<seq<nat>>)
    requires i < |g| && h == g[i := g[i] + s]
    requires forall k, m :: 0 <= k < |g| && 0 <= m < |g[k]| ==> g[k][m] < b
    requires forall m :: 0 <= m < |s| ==> s[m] < b
    ensures forall k, m :: 0 <= k < |h| && 0 <= m < |h[k]| ==> h[k][m] < b
  {
    forall k, m | 0 <= k < |g| && 0 <= m < |h[k]|
      ensures h[k][m] < b
    {
      if k == i && m >= |g[i]| {
        assert h[k][m] == s[m - |g[i]|];
      }
    }
  }
}
