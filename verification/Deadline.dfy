/** Sharing a connect deadline among addresses: splitDeadline and the loop of connectQUIC
    (internal/curlu/http3.go). Times are whole nanoseconds. */
module Deadline {
  /** splitDeadline: an equal share of what remains, for the first of the addresses left. */
  function Share(remaining: nat, addressesLeft: nat): nat
    requires addressesLeft > 0
  {
    remaining / addressesLeft
  }

  lemma Times(a: nat, b: nat, k: nat)
    requires a <= b
    ensures a * k <= b * k
  {
  }

  lemma QuotientBound(r: nat, k: nat, q: nat)
    requires k > 0
    ensures r / k >= q <==> r >= q * k
  {
    var d := r / k;
    assert r == d * k + r % k;
    if d >= q {
      Times(q, d, k);
    } else {
      Times(d + 1, q, k);
    }
  }

  /** The next share is no smaller than this one exactly when the attempt takes at most its share and the
      nanoseconds that the division left over. */
  lemma NextShareExactly(remaining: nat, left: nat, took: nat)
    requires left > 1 && took <= remaining
    ensures Share(remaining - took, left - 1) >= Share(remaining, left)
            <==> took <= Share(remaining, left) + remaining % left
  {
    var q := Share(remaining, left);
    QuotientBound(remaining - took, left - 1, q);
    assert remaining == q * left + remaining % left;
    assert q * left == q * (left - 1) + q;
  }

  /** How an attempt ends: with a connection, with a refusal by the peer itself, or with neither. */
  datatype Outcome = Connected | Answered | NoAnswer

  datatype Attempt = Attempt(budget: nat, took: nat, outcome: Outcome)

  ghost function Spent(attempts: seq<Attempt>): nat {
    if attempts == [] then 0 else Spent(attempts[..|attempts| - 1]) + attempts[|attempts| - 1].took
  }

  lemma SpentSnoc(attempts: seq<Attempt>, a: Attempt)
    ensures Spent(attempts + [a]) == Spent(attempts) + a.took
  {
    assert (attempts + [a])[..|attempts|] == attempts;
  }

  ghost predicate WithinBudget(attempts: seq<Attempt>) {
    forall i :: 0 <= i < |attempts| ==> attempts[i].took <= attempts[i].budget
  }

  ghost predicate AtLeast(attempts: seq<Attempt>, share: nat) {
    forall i :: 0 <= i < |attempts| ==> attempts[i].budget >= share
  }

  ghost predicate NeverLess(attempts: seq<Attempt>) {
    forall i, j :: 0 <= i < j < |attempts| ==> attempts[i].budget <= attempts[j].budget
  }

  /** Fair shares of `total` among `n` addresses: every attempt made gets at least an n-th, no attempt
      gets less than the one before it, the time spent never exceeds the total, and the last address
      gets all that is left. */
  ghost predicate Fair(total: nat, n: nat, attempts: seq<Attempt>) {
    && |attempts| <= n && Spent(attempts) <= total
    && WithinBudget(attempts) && NeverLess(attempts)
    && (n > 0 ==> AtLeast(attempts, total / n))
    && (attempts != [] && |attempts| == n ==>
          attempts[n - 1].budget == total - (Spent(attempts) - attempts[n - 1].took))
  }

  /** Where the loop stands after some attempts: what remains is what has not been spent, and the next
      share is fair. */
  ghost predicate Standing(total: nat, n: nat, attempts: seq<Attempt>, remaining: nat) {
    && Fair(total, n, attempts) && remaining == total - Spent(attempts)
    && (|attempts| < n ==>
          && Share(remaining, n - |attempts|) >= Share(total, n)
          && (attempts != [] ==> Share(remaining, n - |attempts|) >= attempts[|attempts| - 1].budget))
  }

  lemma NeverLessSnoc(attempts: seq<Attempt>, a: Attempt)
    requires NeverLess(attempts) && (attempts != [] ==> a.budget >= attempts[|attempts| - 1].budget)
    ensures NeverLess(attempts + [a])
  {
    var all, n := attempts + [a], |attempts|;
    forall i, j | 0 <= i < j < |all| ensures all[i].budget <= all[j].budget {
      if j == n && i < n - 1 {
        assert attempts[i].budget <= attempts[n - 1].budget;
      }
    }
  }

  lemma BoundsSnoc(attempts: seq<Attempt>, a: Attempt, share: nat)
    requires WithinBudget(attempts) && AtLeast(attempts, share) && a.took <= a.budget && a.budget >= share
    ensures WithinBudget(attempts + [a]) && AtLeast(attempts + [a], share)
  {
  }

  lemma FairSnoc(total: nat, n: nat, attempts: seq<Attempt>, a: Attempt)
    requires |attempts| < n && Fair(total, n, attempts) && Spent(attempts) + a.took <= total
    requires a.took <= a.budget && a.budget >= Share(total, n)
    requires attempts != [] ==> a.budget >= attempts[|attempts| - 1].budget
    requires |attempts| == n - 1 ==> a.budget == total - Spent(attempts)
    ensures Fair(total, n, attempts + [a])
  {
    hide Spent, NeverLess, WithinBudget, AtLeast;
    SpentSnoc(attempts, a);
    NeverLessSnoc(attempts, a);
    BoundsSnoc(attempts, a, Share(total, n));
    var all := attempts + [a];
    assert all[|attempts|] == a && |all| == |attempts| + 1;
  }

  lemma OneMoreAttempt(total: nat, n: nat, attempts: seq<Attempt>, remaining: nat, took: nat, outcome: Outcome)
    requires Standing(total, n, attempts, remaining) && |attempts| < n
    requires took <= Share(remaining, n - |attempts|)
    ensures took <= remaining
    ensures Standing(total, n, attempts + [Attempt(Share(remaining, n - |attempts|), took, outcome)], remaining - took)
  {
    hide Spent, NeverLess, WithinBudget, AtLeast;
    var left := n - |attempts|;
    var a := Attempt(Share(remaining, left), took, outcome);
    QuotientBound(remaining, left, a.budget);
    Times(1, left, a.budget);
    SpentSnoc(attempts, a);
    if left > 1 {
      NextShareExactly(remaining, left, took);
    }
    FairSnoc(total, n, attempts, a);
    hide Fair;
  }

  /** `budget` is an equal share, for attempt number `i` of `n`, of the time that the attempts before it left. */
  ghost predicate EqualShare(total: nat, n: nat, before: seq<Attempt>, i: nat, budget: nat)
    requires i < n
  {
    Spent(before) <= total && budget == (total - Spent(before)) / (n - i)
  }

  /** No answer, and some time left: the next address is tried. */
  ghost predicate GoesOn(total: nat, attempts: seq<Attempt>)
    requires attempts != []
  {
    attempts[|attempts| - 1].outcome == NoAnswer && Spent(attempts) < total
  }

  /** Every attempt had its equal share of the time left, and another followed only when it brought no
      answer and left some time. */
  ghost predicate InTurn(total: nat, n: nat, attempts: seq<Attempt>) {
    && |attempts| <= n
    && (forall i :: 0 <= i < |attempts| ==> EqualShare(total, n, attempts[..i], i, attempts[i].budget))
    && forall i :: 0 < i < |attempts| ==> GoesOn(total, attempts[..i])
  }

  lemma InTurnSnoc(total: nat, n: nat, attempts: seq<Attempt>, a: Attempt)
    requires InTurn(total, n, attempts) && |attempts| < n
    requires EqualShare(total, n, attempts, |attempts|, a.budget)
    requires attempts != [] ==> GoesOn(total, attempts)
    ensures InTurn(total, n, attempts + [a])
  {
    hide EqualShare, GoesOn;
    var all := attempts + [a];
    assert all[..|attempts|] == attempts && all[|attempts|] == a;
    assert forall i :: 0 <= i < |attempts| ==> all[..i] == attempts[..i] && all[i] == attempts[i];
  }

  lemma NoAttemptYet(total: nat, n: nat)
    ensures Standing(total, n, [], total) && InTurn(total, n, []) && Spent([]) == 0
  {
  }

  lemma ShareIsEqual(total: nat, n: nat, attempts: seq<Attempt>, remaining: nat)
    requires Standing(total, n, attempts, remaining) && |attempts| < n
    ensures EqualShare(total, n, attempts, |attempts|, Share(remaining, n - |attempts|))
  {
    hide Spent;
  }

  lemma WhatRemains(total: nat, n: nat, attempts: seq<Attempt>, remaining: nat)
    requires Standing(total, n, attempts, remaining)
    ensures Fair(total, n, attempts) && Spent(attempts) == total - remaining
  {
    hide Spent;
  }

  /** dialQUIC within its budget; how long it takes and how it ends is up to the network. */
  method Dial(budget: nat) returns (outcome: Outcome, took: nat)
    ensures took <= budget
  {
    outcome := *;
    var t: int := *;
    took := if 0 <= t <= budget then t else budget;
  }

  /** The attempt loop with a deadline `total` from now: it ends with a connection, an answer from the
      peer, the deadline, or the last address. */
  method ConnectAll(total: nat, n: nat) returns (connected: bool, attempts: seq<Attempt>)
    ensures Fair(total, n, attempts) && InTurn(total, n, attempts)
    ensures connected <==> attempts != [] && attempts[|attempts| - 1].outcome == Connected
    ensures |attempts| == n || Spent(attempts) == total
            || (attempts != [] && attempts[|attempts| - 1].outcome != NoAnswer)
  {
    hide Fair, InTurn, Spent, Share, EqualShare, Standing;
    connected, attempts := false, [];
    var remaining := total;
    NoAttemptYet(total, n);
    WhatRemains(total, n, attempts, remaining);
    var i := 0;
    while i < n
      invariant 0 <= i <= n && |attempts| == i && !connected
      invariant Standing(total, n, attempts, remaining) && InTurn(total, n, attempts)
      invariant attempts != [] ==> GoesOn(total, attempts)
      invariant Fair(total, n, attempts) && Spent(attempts) == total - remaining
    {
      ShareIsEqual(total, n, attempts, remaining);
      var budget := Share(remaining, n - i);
      var outcome, took := Dial(budget);
      OneMoreAttempt(total, n, attempts, remaining, took, outcome);
      InTurnSnoc(total, n, attempts, Attempt(budget, took, outcome));
      attempts := attempts + [Attempt(budget, took, outcome)];
      remaining := remaining - took;
      WhatRemains(total, n, attempts, remaining);
      i := i + 1;
      if outcome == Connected {
        return true, attempts;
      }
      if remaining == 0 || outcome == Answered {
        return;
      }
    }
  }
}
