/** What happens to the accounts of a pool, and when that leaves them in order. */
module PoolLogs {
  import opened PoolAccounts

  datatype Event =
    /** A new account was logged in and its connection put into the pool. */
    | Fetched(a: AccountProxy)
    /** A waiting account was logged in again, or its login failed and it was dropped. */
    | Relogged(a: AccountProxy)
    | Dropped(a: AccountProxy)
    /** A connection was taken from the pool and lent, or set aside since its account was exhausted. */
    | Lent(a: AccountProxy)
    | SetAside(a: AccountProxy)
    /** The wait for another connection was interrupted, and the client got the one set aside. */
    | Interrupted(a: AccountProxy)
    /** A client gave a connection back: to the pool, for a new login, or for good. */
    | Returned(a: AccountProxy)
    | Expired(a: AccountProxy)
    | GivenUp(a: AccountProxy)
    /** The same for a connection that the client did not hold. */
    | ReturnedStray(a: AccountProxy)
    | ExpiredStray(a: AccountProxy)
    | GivenUpStray(a: AccountProxy)
    /** The hourly task: the account may be borrowed again. */
    | Reset(a: AccountProxy)

  /** Where accounts are: in the pool, with clients, set aside, waiting for a login. */
  datatype Places = Places(ready: multiset<AccountProxy>, lent: multiset<AccountProxy>, aside: multiset<AccountProxy>,
                           waiting: multiset<AccountProxy>)

  ghost function After(p: Places, e: Event): Places {
    var one := multiset{e.a};
    match e
    case Fetched(_) => p.(ready := p.ready + one)
    case Relogged(_) => p.(waiting := p.waiting - one, ready := p.ready + one)
    case Dropped(_) => p.(waiting := p.waiting - one)
    case Lent(_) => p.(ready := p.ready - one, lent := p.lent + one)
    case SetAside(_) => p.(ready := p.ready - one, aside := p.aside + one)
    case Interrupted(_) => p.(lent := p.lent + one)
    case Returned(_) => p.(lent := p.lent - one, ready := p.ready + one)
    case Expired(_) => p.(lent := p.lent - one, waiting := p.waiting + one)
    case GivenUp(_) => p.(lent := p.lent - one)
    case ReturnedStray(_) => p.(ready := p.ready + one)
    case ExpiredStray(_) => p.(waiting := p.waiting + one)
    case GivenUpStray(_) => p
    case Reset(_) => p
  }

  ghost function PlacesOf(log: seq<Event>): Places {
    if log == [] then Places(multiset{}, multiset{}, multiset{}, multiset{})
    else After(PlacesOf(log[..|log| - 1]), log[|log| - 1])
  }

  /** All places together. */
  ghost function All(p: Places): multiset<AccountProxy> {
    p.ready + p.lent + p.aside + p.waiting
  }

  /** The borrows that the account has counted since its last reset. */
  ghost function Counted(log: seq<Event>, a: AccountProxy): nat {
    if log == [] then 0
    else
      var before, last := Counted(log[..|log| - 1], a), log[|log| - 1];
      if last.a != a then before else if last.Reset? then 0 else if last.Lent? then before + 1 else before
  }

  /** How often it was given to a client since then, counted or not. */
  ghost function Given(log: seq<Event>, a: AccountProxy): nat {
    if log == [] then 0
    else
      var before, last := Given(log[..|log| - 1], a), log[|log| - 1];
      if last.a != a then before else if last.Reset? then 0
      else if last.Lent? || last.Interrupted? then before + 1 else before
  }

  ghost predicate Mentions(log: seq<Event>, a: AccountProxy) {
    exists k :: 0 <= k < |log| && log[k].a == a
  }

  /** What can happen next when clients return only what they hold.  An interrupted client gets a connection that
      was set aside. */
  ghost predicate Enabled(log: seq<Event>, e: Event) {
    var p := PlacesOf(log);
    match e
    case Fetched(a) => !Mentions(log, a)
    case Relogged(a) => a in p.waiting
    case Dropped(a) => a in p.waiting
    case Lent(a) => a in p.ready && Counted(log, a) < a.Limit()
    case SetAside(a) => a in p.ready && Counted(log, a) >= a.Limit()
    case Interrupted(a) => a in p.aside
    case Returned(a) => a in p.lent
    case Expired(a) => a in p.lent
    case GivenUp(a) => a in p.lent
    case Reset(_) => true
    case _ => false
  }

  ghost predicate Legal(log: seq<Event>) {
    log == [] || (Legal(log[..|log| - 1]) && Enabled(log[..|log| - 1], log[|log| - 1]))
  }

  ghost predicate Once(m: multiset<AccountProxy>) {
    forall a :: a in m ==> m[a] == 1
  }

  /** Every account is in at most one place, and was not given out more often since its last reset than its hourly
      maximum. */
  ghost predicate InOrder(log: seq<Event>) {
    && Once(All(PlacesOf(log)))
    && forall k :: 0 <= k < |log| ==> Given(log, log[k].a) <= log[k].a.Limit()
  }

  // ----- one event

  lemma Snoc(log: seq<Event>, e: Event)
    ensures PlacesOf(log + [e]) == After(PlacesOf(log), e)
    ensures Legal(log + [e]) <==> Legal(log) && Enabled(log, e)
  {
    hide After, Enabled;
    assert (log + [e])[..|log|] == log;
  }

  lemma CountSnoc(log: seq<Event>, e: Event, a: AccountProxy)
    ensures Counted(log + [e], a) ==
            if e.a != a then Counted(log, a) else if e.Reset? then 0
            else if e.Lent? then Counted(log, a) + 1 else Counted(log, a)
    ensures Given(log + [e], a) ==
            if e.a != a then Given(log, a) else if e.Reset? then 0
            else if e.Lent? || e.Interrupted? then Given(log, a) + 1 else Given(log, a)
  {
    assert (log + [e])[..|log|] == log;
  }

  lemma NothingYet(a: AccountProxy)
    ensures Counted([], a) == 0 && Given([], a) == 0 && a !in All(PlacesOf([])) && Legal([])
  {
  }

  lemma AfterMembers(p: Places, e: Event, a: AccountProxy)
    requires a in All(After(p, e)) && a != e.a
    ensures a in All(p)
  {
  }

  lemma {:induction false} PlacedIsMentioned(log: seq<Event>, a: AccountProxy)
    requires a in All(PlacesOf(log))
    ensures Mentions(log, a)
  {
    hide After, All;
    if log == [] {
      NothingYet(a);
    } else {
      var before, last := log[..|log| - 1], log[|log| - 1];
      if last.a != a {
        AfterMembers(PlacesOf(before), last, a);
        PlacedIsMentioned(before, a);
        var k :| 0 <= k < |before| && before[k].a == a;
        assert log[k].a == a;
      }
    }
  }

  lemma {:induction false} UnmentionedIsNotCounted(log: seq<Event>, a: AccountProxy)
    requires !Mentions(log, a)
    ensures Counted(log, a) == 0 && Given(log, a) == 0
  {
    if log != [] {
      var before := log[..|log| - 1];
      assert log[|log| - 1].a != a;
      assert forall k :: 0 <= k < |before| ==> before[k] == log[k];
      UnmentionedIsNotCounted(before, a);
    }
  }

  // ----- order, as long as nobody is interrupted

  ghost predicate Uninterrupted(log: seq<Event>) {
    forall k :: 0 <= k < |log| ==> !log[k].Interrupted?
  }

  lemma MovedOnce(p: Places, e: Event)
    requires Once(All(p)) && !e.Interrupted? && !e.ReturnedStray? && !e.ExpiredStray?
    requires e.Fetched? ==> e.a !in All(p)
    requires e.Relogged? || e.Dropped? ==> e.a in p.waiting
    requires e.Lent? || e.SetAside? ==> e.a in p.ready
    requires e.Returned? || e.Expired? || e.GivenUp? ==> e.a in p.lent
    ensures Once(All(After(p, e)))
  {
    var q := After(p, e);
    forall a | a in All(q) ensures All(q)[a] == 1 {
      assert a != e.a ==> All(q)[a] == All(p)[a];
    }
  }

  lemma {:induction false} PlacesKept(log: seq<Event>)
    requires Legal(log) && Uninterrupted(log)
    ensures Once(All(PlacesOf(log)))
  {
    hide After, All, Once;
    if log == [] {
      NothingOnce();
    } else {
      var before, last := log[..|log| - 1], log[|log| - 1];
      PlacesKept(before);
      if last.Fetched? && last.a in All(PlacesOf(before)) {
        PlacedIsMentioned(before, last.a);
      }
      MovedOnce(PlacesOf(before), last);
    }
  }

  lemma NothingOnce()
    ensures Once(All(PlacesOf([])))
  {
  }

  lemma {:induction false} CountsKept(log: seq<Event>, a: AccountProxy)
    requires Legal(log) && Uninterrupted(log)
    ensures Given(log, a) == Counted(log, a) <= a.Limit()
  {
    hide PlacesOf;
    if log != [] {
      CountsKept(log[..|log| - 1], a);
    }
  }

  // ----- and only then

  /** Whoever is interrupted gets a connection that is set aside as well. */
  lemma InterruptedIsTwice(log: seq<Event>, a: AccountProxy)
    requires Enabled(log, Interrupted(a))
    ensures All(PlacesOf(log + [Interrupted(a)]))[a] >= 2 && !InOrder(log + [Interrupted(a)])
  {
    Snoc(log, Interrupted(a));
  }

  /** A run is always in order if and only if no client that waits for a connection is interrupted after one was
      set aside. */
  lemma AlwaysInOrderIffUninterrupted(log: seq<Event>)
    requires Legal(log)
    ensures (forall k :: 0 <= k <= |log| ==> InOrder(log[..k])) <==> Uninterrupted(log)
  {
    hide InOrder, Enabled;
    if Uninterrupted(log) {
      forall k | 0 <= k <= |log| ensures InOrder(log[..k]) {
        LegalPart(log, k);
        UninterruptedIsInOrder(log[..k]);
      }
    } else {
      var k :| 0 <= k < |log| && log[k].Interrupted?;
      LegalPart(log, k + 1);
      assert log[..k + 1] == log[..k] + [log[k]];
      Snoc(log[..k], log[k]);
      InterruptedIsTwice(log[..k], log[k].a);
    }
  }

  lemma UninterruptedIsInOrder(log: seq<Event>)
    requires Legal(log) && Uninterrupted(log)
    ensures InOrder(log)
  {
    hide PlacesOf, All, Once, Given, Counted, Legal;
    PlacesKept(log);
    forall k | 0 <= k < |log| ensures Given(log, log[k].a) <= log[k].a.Limit() {
      CountsKept(log, log[k].a);
    }
  }

  lemma {:induction false} LegalPart(log: seq<Event>, k: nat)
    requires Legal(log) && k <= |log|
    ensures Legal(log[..k])
  {
    hide Enabled;
    if k < |log| {
      LegalPart(log[..|log| - 1], k);
      assert log[..|log| - 1][..k] == log[..k];
    } else {
      assert log[..k] == log;
    }
  }

  /** What it takes: an exhausted account in the pool, and an interruption before the next one comes.  Then it is in
      two places, and with a client once more than its maximum. */
  lemma InterruptionFails(log: seq<Event>, a: AccountProxy)
    requires Legal(log) && Uninterrupted(log) && a in PlacesOf(log).ready && Counted(log, a) == a.Limit()
    ensures var log' := log + [SetAside(a)] + [Interrupted(a)];
            && Legal(log') && !InOrder(log')
            && All(PlacesOf(log'))[a] == 2 && Given(log', a) == a.Limit() + 1
  {
    hide PlacesOf, Legal, Counted, Given, InOrder;
    var one, two := log + [SetAside(a)], log + [SetAside(a)] + [Interrupted(a)];
    Snoc(log, SetAside(a));
    Snoc(one, Interrupted(a));
    CountSnoc(log, SetAside(a), a);
    CountSnoc(one, Interrupted(a), a);
    CountsKept(log, a);
    PlacesKept(log);
    InterruptedIsTwice(one, a);
    OnlyReady(PlacesOf(log), a);
  }

  lemma OnlyReady(p: Places, a: AccountProxy)
    requires Once(All(p)) && a in p.ready
    ensures p.ready[a] == 1 && a !in p.lent && a !in p.aside && a !in p.waiting
  {
    assert All(p)[a] == p.ready[a] + p.lent[a] + p.aside[a] + p.waiting[a];
    assert a in All(p);
  }

  /** Returning what is not held breaks the order exactly if the account is kept and is somewhere already. */
  lemma StrayReturn(log: seq<Event>, e: Event)
    requires InOrder(log) && (e.ReturnedStray? || e.ExpiredStray? || e.GivenUpStray?)
    ensures Once(All(PlacesOf(log + [e]))) <==> e.GivenUpStray? || e.a !in All(PlacesOf(log))
  {
    hide PlacesOf, Given;
    Snoc(log, e);
    var p := PlacesOf(log);
    assert forall a :: a != e.a ==> All(After(p, e))[a] == All(p)[a];
    assert All(After(p, e))[e.a] == All(p)[e.a] + if e.GivenUpStray? then 0 else 1;
  }
}
