/** The colour tween of one entity, as the onStart / onComplete callbacks observe it, and the
    neighbour selection done by onComplete. */
module Cascade {

  /** Idle: start() never called. Requested: start() called, onStart not yet run (tween.js runs
      onStart on the next update, not inside start()). Running: onStart has run. Completed:
      onComplete has run. */
  datatype Phase = Idle | Requested | Running | Completed

  /** The tweenDone flag that onStart sets belongs to exactly these phases. */
  predicate Done(p: Phase)
  {
    p == Running || p == Completed
  }

  /** How many of the two callbacks of a tween may still run. */
  function Weight(p: Phase): nat
  {
    match p
    case Idle => 2
    case Requested => 2
    case Running => 1
    case Completed => 0
  }

  /** Callbacks that may still run, over all entities: the cascade's termination measure. */
  function Pending(tweens: seq<Phase>): nat
  {
    if tweens == [] then 0 else Pending(tweens[..|tweens| - 1]) + Weight(tweens[|tweens| - 1])
  }

  /** At most two callbacks per entity can ever run, so every cascade stops. */
  lemma {:induction false} PendingBound(tweens: seq<Phase>)
    ensures Pending(tweens) <= 2 * |tweens|
  {
    if tweens != [] {
      PendingBound(tweens[..|tweens| - 1]);
    }
  }

  /** Changing the phase of one entity changes the measure by the difference of the weights. */
  lemma {:induction false} PendingUpdate(tweens: seq<Phase>, k: nat, p: Phase)
    requires k < |tweens|
    ensures Pending(tweens[k := p]) == Pending(tweens) - Weight(tweens[k]) + Weight(p)
  {
    var n := |tweens|;
    var u := tweens[k := p];
    if k < n - 1 {
      assert u[..n - 1] == tweens[..n - 1][k := p];
      PendingUpdate(tweens[..n - 1], k, p);
    } else {
      assert u[..n - 1] == tweens[..n - 1];
    }
  }

  /** The members of prox whose tweenDone flag is still false, in list order: the neighbours
      whose tween onComplete starts. (closeProx only names people, so every entry has a flag;
      an entry without one would be skipped.) */
  function Untriggered(prox: seq<nat>, done: seq<bool>): seq<nat>
  {
    if prox == [] then []
    else
      var last := prox[|prox| - 1];
      Untriggered(prox[..|prox| - 1], done) + (if last < |done| && !done[last] then [last] else [])
  }

  /** An entity is started by onComplete exactly when it is listed in closeProx and not yet done. */
  lemma {:induction false} UntriggeredMembers(prox: seq<nat>, done: seq<bool>, x: nat)
    requires forall k :: 0 <= k < |prox| ==> prox[k] < |done|
    ensures x in Untriggered(prox, done) <==> x in prox && !done[x]
  {
    if prox != [] {
      var front := prox[..|prox| - 1];
      assert prox == front + [prox[|prox| - 1]];
      UntriggeredMembers(front, done, x);
    }
  }

  /** The phases after onComplete has called start() on every member of prox whose tweenDone flag
      is unset, in list order (entries outside the lists, which closeProx never holds, are skipped). */
  function Marked(t: seq<Phase>, prox: seq<nat>, done: seq<bool>): (r: seq<Phase>)
    ensures |r| == |t|
  {
    if prox == [] then t
    else
      var last := prox[|prox| - 1];
      var r := Marked(t, prox[..|prox| - 1], done);
      if last < |t| && last < |done| && !done[last] then r[last := Requested] else r
  }

  /** Exactly the listed entities whose tweenDone is unset are requested; nothing else changes. */
  lemma {:induction false} MarkedAt(t: seq<Phase>, prox: seq<nat>, done: seq<bool>, k: nat)
    requires forall k :: 0 <= k < |prox| ==> prox[k] < |t| && prox[k] < |done|
    requires k < |t|
    ensures Marked(t, prox, done)[k] == if k in prox && !done[k] then Requested else t[k]
  {
    if prox != [] {
      var front := prox[..|prox| - 1];
      assert prox == front + [prox[|prox| - 1]];
      MarkedAt(t, front, done, k);
    }
  }

  /** Requesting tweens that were idle or already requested leaves the measure unchanged. */
  lemma {:induction false} PendingMarked(t: seq<Phase>, prox: seq<nat>, done: seq<bool>)
    requires forall k :: 0 <= k < |prox| ==> prox[k] < |t| && prox[k] < |done|
    requires forall k :: 0 <= k < |prox| && !done[prox[k]] ==> Weight(t[prox[k]]) == 2
    ensures Pending(Marked(t, prox, done)) == Pending(t)
  {
    if prox != [] {
      var front := prox[..|prox| - 1];
      var last := prox[|prox| - 1];
      PendingMarked(t, front, done);
      if !done[last] {
        var r := Marked(t, front, done);
        MarkedAt(t, front, done, last);
        PendingUpdate(r, last, Requested);
      }
    }
  }

  /** One more pass of onComplete's loop extends the start log by at most the next entry. */
  lemma UntriggeredStep(log: seq<nat>, prox: seq<nat>, done: seq<bool>, m: nat)
    requires forall k :: 0 <= k < |prox| ==> prox[k] < |done|
    requires m < |prox|
    ensures log + Untriggered(prox[..m + 1], done)
         == log + Untriggered(prox[..m], done) + (if done[prox[m]] then [] else [prox[m]])
  {
    assert (prox[..m + 1])[..m] == prox[..m];
  }

  /** One more pass of onComplete's loop requests at most the next entry. */
  lemma MarkedStep(t: seq<Phase>, prox: seq<nat>, done: seq<bool>, m: nat)
    requires forall k :: 0 <= k < |prox| ==> prox[k] < |t| && prox[k] < |done|
    requires m < |prox|
    ensures Marked(t, prox[..m + 1], done)
         == if done[prox[m]] then Marked(t, prox[..m], done) else Marked(t, prox[..m], done)[prox[m] := Requested]
  {
    assert (prox[..m + 1])[..m] == prox[..m];
  }

  /** Every entry of the start log names an entity whose tween has left Idle, stated entry by
      entry from the front of the log. */
  predicate Logged(starts: seq<nat>, tweens: seq<Phase>)
    decreases |starts|
  {
    starts == [] ||
    (Logged(starts[..|starts| - 1], tweens)
     && starts[|starts| - 1] < |tweens| && tweens[starts[|starts| - 1]] != Idle)
  }

  /** The entry-by-entry form says the same as the plain quantifier over the log. */
  lemma {:induction false} LoggedEvery(starts: seq<nat>, tweens: seq<Phase>)
    ensures Logged(starts, tweens) <==>
            forall m :: 0 <= m < |starts| ==> starts[m] < |tweens| && tweens[starts[m]] != Idle
  {
    if starts != [] {
      var front := starts[..|starts| - 1];
      LoggedEvery(front, tweens);
      assert forall m :: 0 <= m < |front| ==> front[m] == starts[m];
    }
  }

  /** Logging a start() call on an entity whose tween has left Idle keeps the log well formed. */
  lemma LoggedAppend(starts: seq<nat>, tweens: seq<Phase>, i: nat)
    requires Logged(starts, tweens) && i < |tweens| && tweens[i] != Idle
    ensures Logged(starts + [i], tweens)
  {
    assert (starts + [i])[..|starts|] == starts;
  }

  /** A tween that has left Idle never returns to it, so the log stays well formed. */
  lemma LoggedGrows(starts: seq<nat>, t: seq<Phase>, u: seq<Phase>)
    requires Logged(starts, t)
    requires forall k :: 0 <= k < |t| && t[k] != Idle ==> k < |u| && u[k] != Idle
    ensures Logged(starts, u)
  {
    LoggedEvery(starts, t);
    LoggedEvery(starts, u);
  }
}
