/** The proximity graph that checkProximity stores in each closeProx list, and paths along it. */
module Proximity {
  import opened Lattice

  /** The entities of people, as indices: what people.slice() copies. */
  function Ids(m: nat): seq<nat>
  {
    seq(m, k requires 0 <= k => k)
  }

  /** people.slice() with entry i spliced out: every entity but i, in index order. */
  lemma SplicedIds(m: nat, i: nat, others: seq<nat>)
    requires i < m && others == Ids(m)[..i] + Ids(m)[i + 1..]
    ensures |others| == m - 1
    ensures forall j :: 0 <= j < |others| ==> others[j] == if j < i then j else j + 1
  {
  }

  /** The neighbours of entity i among the entities with index below hi, in index order. */
  function NearBelow(pos: seq<Vec>, i: nat, hi: nat): (r: seq<nat>)
    requires i < |pos| && hi <= |pos|
    ensures forall k :: 0 <= k < |r| ==> r[k] < hi
  {
    if hi == 0 then []
    else NearBelow(pos, i, hi - 1) + (if hi - 1 != i && Close(pos[i], pos[hi - 1]) then [hi - 1] else [])
  }

  /** The j-th pass of the loop over the others of i (those below i keep their index, those above
      it are shifted down by one) extends the neighbours found so far by at most that entity. */
  lemma NearBelowNext(found: seq<nat>, pos: seq<Vec>, i: nat, j: nat)
    requires i < |pos| && j < |pos| - 1
    ensures var other := if j < i then j else j + 1;
            found + NearBelow(pos, i, if j + 1 < i then j + 1 else j + 2)
            == found + NearBelow(pos, i, other) + (if Close(pos[i], pos[other]) then [other] else [])
  {
    if j + 1 == i {
      assert NearBelow(pos, i, i + 1) == NearBelow(pos, i, i);
    }
  }

  /** The closeProx list of entity i once the proximity graph is built. */
  function Neighbourhood(pos: seq<Vec>, i: nat): seq<nat>
    requires i < |pos|
  {
    NearBelow(pos, i, |pos|)
  }

  predicate StrictlyIncreasing(s: seq<nat>)
  {
    forall a, b :: 0 <= a < b < |s| ==> s[a] < s[b]
  }

  lemma {:induction false} NearBelowMembers(pos: seq<Vec>, i: nat, hi: nat, x: nat)
    requires i < |pos| && hi <= |pos|
    ensures x in NearBelow(pos, i, hi) <==> x < hi && x != i && Close(pos[i], pos[x])
  {
    if hi > 0 {
      NearBelowMembers(pos, i, hi - 1, x);
    }
  }

  lemma {:induction false} NearBelowIncreasing(pos: seq<Vec>, i: nat, hi: nat)
    requires i < |pos| && hi <= |pos|
    ensures StrictlyIncreasing(NearBelow(pos, i, hi))
  {
    if hi > 0 {
      NearBelowIncreasing(pos, i, hi - 1);
    }
  }

  /** closeProx of entity i holds exactly the other entities closer than the threshold,
      in increasing index order, hence each once. */
  lemma NeighbourhoodExact(pos: seq<Vec>, i: nat)
    requires i < |pos|
    ensures StrictlyIncreasing(Neighbourhood(pos, i))
    ensures forall x: nat :: x in Neighbourhood(pos, i) <==> x < |pos| && x != i && Close(pos[i], pos[x])
  {
    NearBelowIncreasing(pos, i, |pos|);
    forall x: nat ensures x in Neighbourhood(pos, i) <==> x < |pos| && x != i && Close(pos[i], pos[x]) {
      NearBelowMembers(pos, i, |pos|, x);
    }
  }

  /** Two strictly increasing lists with the same members are equal: the membership and order
      stated by NeighbourhoodExact determine closeProx completely. */
  lemma {:induction false} IncreasingUnique(s: seq<nat>, t: seq<nat>)
    requires StrictlyIncreasing(s) && StrictlyIncreasing(t)
    requires forall x :: x in s <==> x in t
    ensures s == t
  {
    if s != [] && t != [] {
      var m, n := s[|s| - 1], t[|t| - 1];
      LastIsLargest(s);
      LastIsLargest(t);
      assert m in t && n in s;
      var s', t' := s[..|s| - 1], t[..|t| - 1];
      forall x ensures x in s' <==> x in t' {
        if x in s' {
          var k :| 0 <= k < |s'| && s'[k] == x;
          assert x in t && x != n;
        }
        if x in t' {
          var k :| 0 <= k < |t'| && t'[k] == x;
          assert x in s && x != m;
        }
      }
      IncreasingUnique(s', t');
      assert s == s' + [m] && t == t' + [n];
    } else if s != [] {
      FirstIsMember(s);
    } else if t != [] {
      FirstIsMember(t);
    }
  }

  lemma LastIsLargest(s: seq<nat>)
    requires StrictlyIncreasing(s) && s != []
    ensures forall x :: x in s ==> x <= s[|s| - 1]
  {
  }

  /** Gives the solver the term s[0] in s: a list that is not empty has a member. */
  lemma FirstIsMember(s: seq<nat>)
    requires s != []
    ensures s[0] in s
  {
  }

  /** No entity is its own neighbour. */
  lemma NeighbourhoodIrreflexive(pos: seq<Vec>, i: nat)
    requires i < |pos|
    ensures i !in Neighbourhood(pos, i)
  {
    NearBelowMembers(pos, i, |pos|, i);
  }

  /** Distance is symmetric, so j is a neighbour of i exactly when i is a neighbour of j. */
  lemma NeighbourhoodSymmetric(pos: seq<Vec>, i: nat, j: nat)
    requires i < |pos| && j < |pos|
    ensures j in Neighbourhood(pos, i) <==> i in Neighbourhood(pos, j)
  {
    NearBelowMembers(pos, i, |pos|, j);
    NearBelowMembers(pos, j, |pos|, i);
    CloseSymmetric(pos[i], pos[j]);
  }

  /** On the lattice built by addItems (jitter below half a cube on every axis), the neighbours of
      an entity sit in the 26 cells around its own. */
  lemma NeighboursAdjacent(n: nat, jitter: seq<Vec>, i: nat, j: nat)
    requires n % 2 == 0 && |jitter| == |Grid(n)| && i < |Grid(n)|
    requires forall k :: 0 <= k < |jitter| ==> JitterInRange(jitter[k])
    requires j in Neighbourhood(Placed(Grid(n), jitter), i)
    ensures j < |Grid(n)| && j != i && Grid(n)[j] != Grid(n)[i]
    ensures -1 <= Grid(n)[i].x - Grid(n)[j].x <= 1
    ensures -1 <= Grid(n)[i].y - Grid(n)[j].y <= 1
    ensures -1 <= Grid(n)[i].z - Grid(n)[j].z <= 1
  {
    var pos := Placed(Grid(n), jitter);
    NearBelowMembers(pos, i, |pos|, j);
    GridDistinct(n, i, j);
    CloseCellsAdjacent(Grid(n)[i], Grid(n)[j], jitter[i], jitter[j]);
  }

  /** p is a walk along closeProx edges: each step goes from an entity to one of its neighbours. */
  ghost predicate IsPath(g: seq<seq<nat>>, p: seq<nat>)
  {
    |p| > 0 && forall k :: 0 <= k < |p| - 1 ==> p[k] < |g| && p[k + 1] in g[p[k]]
  }

  ghost predicate Reachable(g: seq<seq<nat>>, s: nat, t: nat)
  {
    exists p :: IsPath(g, p) && p[0] == s && p[|p| - 1] == t
  }

  /** Every edge of g is still an edge of h: h only appended to the lists of g. */
  ghost predicate Extends(g: seq<seq<nat>>, h: seq<seq<nat>>)
  {
    |g| <= |h| && forall k, x :: 0 <= k < |g| && x in g[k] ==> x in h[k]
  }

  lemma ReachableSelf(g: seq<seq<nat>>, s: nat)
    ensures Reachable(g, s, s)
  {
    assert IsPath(g, [s]);
  }

  /** Following one more closeProx edge from a reachable entity reaches its neighbour. */
  lemma ReachableStep(g: seq<seq<nat>>, s: nat, t: nat, u: nat)
    requires Reachable(g, s, t) && t < |g| && u in g[t]
    ensures Reachable(g, s, u)
  {
    var p :| IsPath(g, p) && p[0] == s && p[|p| - 1] == t;
    var p' := p + [u];
    assert IsPath(g, p');
  }

  /** Adding edges keeps every reachable entity reachable. */
  lemma ReachableGrows(g: seq<seq<nat>>, h: seq<seq<nat>>, s: nat, t: nat)
    requires Reachable(g, s, t) && Extends(g, h)
    ensures Reachable(h, s, t)
  {
    var p :| IsPath(g, p) && p[0] == s && p[|p| - 1] == t;
    assert IsPath(h, p);
  }
}
