/** The pool of logged-in connections of one website. */
module ConnectionPools {
  import opened Options
  import opened PoolAccounts
  import opened PoolLogs

  /** How a request that used a connection ended. */
  datatype StatCode =
    | SUCCESS
    | AUTH_EXPIRE
    | ACCOUNT_TOO_OFTEN
    | INVALID_ACCOUNT
    | PROXYIP_TOO_OFTEN
    | OTHER

  /** How a wait for a connection ends: with one, with an exception, or not at all. */
  datatype Wait = Got(conn: Connection) | NoSuchElement | Blocked

  /** An account that the account service offers, and whether a login with it succeeds. */
  datatype Offer = Offer(account: string, password: string, loginOk: bool)

  /** What can be asked of a pool: a connection, with the number of takes after which the wait is interrupted, if it
      is; taking back the k-th of those held; a load, with the outcomes of the logins of accounts that are due, and
      what the account service offers; and the hourly task. */
  datatype Call =
    | Get(interrupt: Option<nat>)
    | Return(k: nat, statCode: StatCode)
    | Fill(due: seq<bool>, supply: seq<Offer>)
    | NewHour

  /** No wait is interrupted, unless before its first take. */
  predicate Undisturbed(call: Call) {
    call.Get? ==> call.interrupt.None? || call.interrupt == Some(0)
  }

  /** How many logins succeed. */
  function Successes(logins: seq<bool>): (n: nat)
    ensures n <= |logins|
  {
    if logins == [] then 0 else Successes(logins[..|logins| - 1]) + if logins[|logins| - 1] then 1 else 0
  }

  lemma SuccessesSnoc(logins: seq<bool>, ok: bool)
    ensures Successes(logins + [ok]) == Successes(logins) + (if ok then 1 else 0) && Successes([]) == 0
  {
    assert (logins + [ok])[..|logins|] == logins;
  }

  /** The offers with which a login succeeds. */
  function LoggedIn(supply: seq<Offer>): (s: seq<Offer>)
    ensures |s| <= |supply|
  {
    if supply == [] then []
    else
      var last := supply[|supply| - 1];
      LoggedIn(supply[..|supply| - 1]) + if last.loginOk then [last] else []
  }

  lemma LoggedInSnoc(supply: seq<Offer>, o: Offer)
    ensures LoggedIn(supply + [o]) == LoggedIn(supply) + (if o.loginOk then [o] else []) && LoggedIn([]) == []
  {
    assert (supply + [o])[..|supply|] == supply;
  }

  /** As many accounts were polled as were due, and so many of their logins succeeded. */
  ghost predicate Polled(due: seq<bool>, before: nat, after: nat, again: nat) {
    var polls := if |due| < before then |due| else before;
    after == before - polls && again == Successes(due[..polls])
  }

  lemma AllPolled(due: seq<bool>, before: nat, polls: nat)
    requires polls <= |due| && polls <= before && (polls == |due| || polls == before)
    ensures Polled(due, before, before - polls, Successes(due[..polls]))
  {
  }

  /** After n offers there are as many accounts as needed, and not before; or the offers were too few. */
  ghost predicate Suffices(supply: seq<Offer>, n: nat, need: int) {
    && n <= |supply|
    && (|LoggedIn(supply[..n])| >= need || n == |supply|)
    && (n > 0 ==> |LoggedIn(supply[..n - 1])| < need)
  }

  lemma EnoughLoaded(supply: seq<Offer>, n: nat, need: int, missing: int)
    requires n <= |supply| && missing == need - |LoggedIn(supply[..n])| && (missing <= 0 || n == |supply|)
    requires n > 0 ==> |LoggedIn(supply[..n - 1])| < need
    ensures Suffices(supply, n, need)
  {
  }

  /** The account was made from the offer. */
  predicate MadeFrom(a: AccountProxy, o: Offer) {
    a.account == o.account && a.password == o.password
  }

  /** The accounts of the connections from the index on are made from the offers, and entered as in use. */
  ghost predicate Made(conns: seq<Connection>, from: nat, offers: seq<Offer>, inUse: map<string, AccountProxy>) {
    && |conns| == from + |offers|
    && forall k :: 0 <= k < |offers| ==>
         MadeFrom(conns[from + k].account, offers[k]) && offers[k].account in inUse
  }

  lemma NoneMade(conns: seq<Connection>, inUse: map<string, AccountProxy>)
    ensures Made(conns, |conns|, [], inUse)
  {
  }

  lemma MoreMade(conns: seq<Connection>, from: nat, offers: seq<Offer>, inUse: map<string, AccountProxy>, c: Connection,
                 o: Offer)
    requires Made(conns, from, offers, inUse) && MadeFrom(c.account, o)
    ensures Made(conns + [c], from, offers + [o], inUse[o.account := c.account])
  {
  }

  // ----- sequences of connections

  ghost function Accounts(conns: seq<Connection>): multiset<AccountProxy> {
    if conns == [] then multiset{} else Accounts(conns[..|conns| - 1]) + multiset{conns[|conns| - 1].account}
  }

  lemma AccountsSnoc(conns: seq<Connection>, c: Connection)
    ensures Accounts([]) == multiset{}
    ensures Accounts(conns + [c]) == Accounts(conns) + multiset{c.account}
  {
    assert (conns + [c])[..|conns|] == conns;
  }

  function Without<T>(s: seq<T>, k: nat): seq<T>
    requires k < |s|
  {
    s[..k] + s[k + 1..]
  }

  lemma WithoutOne<T>(s: seq<T>, k: nat)
    requires k < |s|
    ensures multiset(s) == multiset(Without(s, k)) + multiset{s[k]}
  {
    assert s == s[..k] + [s[k]] + s[k + 1..];
  }

  lemma {:induction false} AccountsWithout(conns: seq<Connection>, k: nat)
    requires k < |conns|
    ensures Accounts(conns) == Accounts(Without(conns, k)) + multiset{conns[k].account}
  {
    hide Accounts;
    var n := |conns| - 1;
    var before, last := conns[..n], conns[n];
    assert conns == before + [last];
    AccountsSnoc(before, last);
    if k == n {
      assert Without(conns, k) == before;
    } else {
      AccountsWithout(before, k);
      assert Without(conns, k) == Without(before, k) + [last];
      AccountsSnoc(Without(before, k), last);
    }
  }

  lemma {:induction false} AccountsMember(conns: seq<Connection>, k: nat)
    requires k < |conns|
    ensures conns[k].account in Accounts(conns)
  {
    AccountsWithout(conns, k);
  }

  lemma OneReturned(lent: seq<Connection>, lent': seq<Connection>, held: seq<Connection>, k: nat)
    requires multiset(lent) == multiset(held) && k < |held|
    requires exists j :: 0 <= j < |lent| && lent[j] == held[k] && lent' == Without(lent, j)
    ensures multiset(lent') == multiset(Without(held, k))
  {
    var j :| 0 <= j < |lent| && lent[j] == held[k] && lent' == Without(lent, j);
    WithoutOne(lent, j);
    WithoutOne(held, k);
    assert multiset(lent') == multiset(lent) - multiset{held[k]};
  }

  // ----- what the log says of the fields

  /** The queues and lists hold the accounts that the log has there. */
  ghost predicate Located(log: seq<Event>, ready: seq<Connection>, lent: seq<Connection>, aside: seq<Connection>,
                          waiting: seq<AccountProxy>)
  {
    PlacesOf(log) == Places(Accounts(ready), Accounts(lent), Accounts(aside), multiset(waiting))
  }

  ghost predicate Within(log: seq<Event>, known: set<AccountProxy>) {
    forall k :: 0 <= k < |log| ==> log[k].a in known
  }

  lemma LocatedAtFirst()
    ensures Located([], [], [], [], []) && Within([], {}) && Legal([])
  {
  }

  lemma WithinSnoc(log: seq<Event>, e: Event, known: set<AccountProxy>)
    requires Within(log, known) && e.a in known
    ensures Within(log + [e], known)
  {
  }

  lemma WithinMore(log: seq<Event>, known: set<AccountProxy>, known': set<AccountProxy>)
    requires Within(log, known) && known <= known'
    ensures Within(log, known')
  {
  }

  lemma UnknownIsUnmentioned(log: seq<Event>, known: set<AccountProxy>, a: AccountProxy)
    requires Within(log, known) && a !in known
    ensures !Mentions(log, a)
  {
  }

  lemma PlacedIsKnown(log: seq<Event>, known: set<AccountProxy>, a: AccountProxy)
    requires Within(log, known) && a in All(PlacesOf(log))
    ensures a in known
  {
    PlacedIsMentioned(log, a);
  }

  lemma OneGone(m: multiset<AccountProxy>, m': multiset<AccountProxy>, a: AccountProxy)
    requires m == m' + multiset{a}
    ensures m - multiset{a} == m' && a in m
  {
  }

  /** A waiting account goes into the pool or is dropped. */
  lemma LoginPlaces(log: seq<Event>, ready: seq<Connection>, ready': seq<Connection>, lent: seq<Connection>,
                    aside: seq<Connection>, waiting: seq<AccountProxy>, k: nat, ok: bool)
    requires Located(log, ready, lent, aside, waiting) && k < |waiting|
    requires Accounts(ready') == Accounts(ready) + if ok then multiset{waiting[k]} else multiset{}
    ensures var e := if ok then Relogged(waiting[k]) else Dropped(waiting[k]);
            Located(log + [e], ready', lent, aside, Without(waiting, k)) && (Legal(log) ==> Legal(log + [e]))
  {
    hide Accounts, PlacesOf, Legal, Without;
    WithoutOne(waiting, k);
    OneGone(multiset(waiting), multiset(Without(waiting, k)), waiting[k]);
    Snoc(log, if ok then Relogged(waiting[k]) else Dropped(waiting[k]));
  }

  /** A connection leaves the pool. */
  lemma TakePlaces(log: seq<Event>, ready: seq<Connection>, lent: seq<Connection>, lent': seq<Connection>,
                   aside: seq<Connection>, aside': seq<Connection>, waiting: seq<AccountProxy>, k: nat, valid: bool)
    requires Located(log, ready, lent, aside, waiting) && k < |ready|
    requires var c := ready[k];
             && lent' == lent + (if valid then [c] else []) && aside' == aside + (if valid then [] else [c])
             && (valid <==> Counted(log, c.account) < c.account.Limit())
    ensures var a := ready[k].account;
            var e := if valid then Lent(a) else SetAside(a);
            Located(log + [e], Without(ready, k), lent', aside', waiting) && (Legal(log) ==> Legal(log + [e]))
  {
    hide Accounts, PlacesOf, Legal, Without, Counted;
    var c := ready[k];
    AccountsWithout(ready, k);
    OneGone(Accounts(ready), Accounts(Without(ready, k)), c.account);
    AccountsSnoc(lent, c);
    AccountsSnoc(aside, c);
    assert lent + [] == lent && aside + [] == aside;
    Snoc(log, if valid then Lent(c.account) else SetAside(c.account));
  }

  // ----- what a call adds to the log

  /** Setting aside and nothing else. */
  ghost predicate AsidesOnly(log: seq<Event>, log': seq<Event>) {
    log <= log' && forall k :: |log| <= k < |log'| ==> log'[k].SetAside?
  }

  /** After setting others aside, an account was lent and counted; or the wait was interrupted, and it is the one last
      set aside. */
  ghost predicate Ended(log: seq<Event>, log': seq<Event>, a: AccountProxy, counted: bool) {
    && |log| < |log'| && AsidesOnly(log, log'[..|log'| - 1])
    && if counted then log'[|log'| - 1] == Lent(a)
       else log'[|log'| - 1] == Interrupted(a) && |log'| - 2 >= |log| && log'[|log'| - 2] == SetAside(a)
  }

  ghost predicate LoadsOnly(log: seq<Event>, log': seq<Event>) {
    log <= log' && forall k :: |log| <= k < |log'| ==> log'[k].Relogged? || log'[k].Dropped? || log'[k].Fetched?
  }

  /** Logins may follow logins. */
  lemma LoadsMore(log: seq<Event>, log': seq<Event>, log'': seq<Event>)
    requires LoadsOnly(log, log')
    requires log'' == log' || exists e: Event :: (e.Relogged? || e.Dropped? || e.Fetched?) && log'' == log' + [e]
    ensures LoadsOnly(log, log'')
  {
  }

  lemma NoLoads(log: seq<Event>)
    ensures LoadsOnly(log, log)
  {
  }

  lemma FewerWaiting(waiting: seq<AccountProxy>, k: nat)
    requires k < |waiting|
    ensures multiset(Without(waiting, k)) <= multiset(waiting) && |Without(waiting, k)| == |waiting| - 1
  {
    WithoutOne(waiting, k);
  }

  ghost predicate ResetsOnly(log: seq<Event>, log': seq<Event>) {
    log <= log' && forall k :: |log| <= k < |log'| ==> log'[k].Reset?
  }

  function ReturnEvent(a: AccountProxy, statCode: StatCode, held: bool): Event {
    match statCode
    case AUTH_EXPIRE => if held then Expired(a) else ExpiredStray(a)
    case INVALID_ACCOUNT => if held then GivenUp(a) else GivenUpStray(a)
    case OTHER => if held then GivenUp(a) else GivenUpStray(a)
    case _ => if held then Returned(a) else ReturnedStray(a)
  }

  lemma ReturnAfter(p: Places, q: Places, a: AccountProxy, statCode: StatCode, held: bool)
    requires q.aside == p.aside
    requires q.ready == if KeepsConnection(statCode) then p.ready + multiset{a} else p.ready
    requires q.waiting == if statCode == AUTH_EXPIRE then p.waiting + multiset{a} else p.waiting
    requires if held then p.lent == q.lent + multiset{a} else q.lent == p.lent
    ensures After(p, ReturnEvent(a, statCode, held)) == q && (held ==> a in p.lent)
  {
    hide After;
    if held {
      OneGone(p.lent, q.lent, a);
    }
    match statCode
    case AUTH_EXPIRE => AfterExpired(p, q, a, held);
    case INVALID_ACCOUNT => AfterGivenUp(p, q, a, held);
    case OTHER => AfterGivenUp(p, q, a, held);
    case _ => AfterReturned(p, q, a, held);
  }

  lemma AfterReturned(p: Places, q: Places, a: AccountProxy, held: bool)
    requires q.aside == p.aside && q.waiting == p.waiting && q.ready == p.ready + multiset{a}
    requires q.lent == if held then p.lent - multiset{a} else p.lent
    ensures After(p, if held then Returned(a) else ReturnedStray(a)) == q
  {
  }

  lemma AfterExpired(p: Places, q: Places, a: AccountProxy, held: bool)
    requires q.aside == p.aside && q.waiting == p.waiting + multiset{a} && q.ready == p.ready
    requires q.lent == if held then p.lent - multiset{a} else p.lent
    ensures After(p, if held then Expired(a) else ExpiredStray(a)) == q
  {
  }

  lemma AfterGivenUp(p: Places, q: Places, a: AccountProxy, held: bool)
    requires q.aside == p.aside && q.waiting == p.waiting && q.ready == p.ready
    requires q.lent == if held then p.lent - multiset{a} else p.lent
    ensures After(p, if held then GivenUp(a) else GivenUpStray(a)) == q
  {
  }

  lemma ReturnEnabled(log: seq<Event>, a: AccountProxy, statCode: StatCode)
    requires a in PlacesOf(log).lent
    ensures Enabled(log, ReturnEvent(a, statCode, true))
  {
    hide PlacesOf;
  }

  /** A connection comes back. */
  lemma ReturnPlaces(log: seq<Event>, ready: seq<Connection>, ready': seq<Connection>, lent: seq<Connection>,
                     lent': seq<Connection>, aside: seq<Connection>, waiting: seq<AccountProxy>,
                     waiting': seq<AccountProxy>, a: AccountProxy, statCode: StatCode, held: bool)
    requires Located(log, ready, lent, aside, waiting)
    requires if KeepsConnection(statCode) then Accounts(ready') == Accounts(ready) + multiset{a} else ready' == ready
    requires if held then Accounts(lent) == Accounts(lent') + multiset{a} else lent' == lent
    requires waiting' == if statCode == AUTH_EXPIRE then waiting + [a] else waiting
    ensures var e := ReturnEvent(a, statCode, held);
            && Located(log + [e], ready', lent', aside, waiting')
            && (held && Legal(log) ==> Legal(log + [e]))
  {
    hide Accounts, PlacesOf, Legal, After, Enabled, ReturnEvent;
    Snoc(log, ReturnEvent(a, statCode, held));
    assert multiset(waiting + [a]) == multiset(waiting) + multiset{a};
    var q := Places(Accounts(ready'), Accounts(lent'), Accounts(aside), multiset(waiting'));
    ReturnAfter(PlacesOf(log), q, a, statCode, held);
    if held {
      ReturnEnabled(log, a, statCode);
    }
  }

  predicate KeepsConnection(statCode: StatCode) {
    statCode == SUCCESS || statCode == ACCOUNT_TOO_OFTEN || statCode == PROXYIP_TOO_OFTEN
  }

  /** What was set aside last is aside. */
  lemma LastAside(log: seq<Event>)
    requires log != [] && log[|log| - 1].SetAside?
    ensures log[|log| - 1].a in PlacesOf(log).aside
  {
  }

  /** The accounts given to clients, in order. */
  ghost function GivenOf(log: seq<Event>): seq<AccountProxy> {
    if log == [] then []
    else
      var last := log[|log| - 1];
      GivenOf(log[..|log| - 1]) + if last.Lent? || last.Interrupted? then [last.a] else []
  }

  ghost function AccountsOf(conns: seq<Connection>): seq<AccountProxy> {
    seq(|conns|, (i: int) requires 0 <= i < |conns| => conns[i].account)
  }

  lemma MoreGiven(given: seq<Connection>, given': seq<Connection>)
    requires given <= given'
    ensures AccountsOf(given') == AccountsOf(given) + AccountsOf(given'[|given|..])
  {
  }

  lemma NothingGiven()
    ensures AccountsOf([]) == []
  {
  }

  lemma {:induction false} NoneGiven(log: seq<Event>, log': seq<Event>)
    requires log <= log' && forall k :: |log| <= k < |log'| ==> !log'[k].Lent? && !log'[k].Interrupted?
    ensures GivenOf(log') == GivenOf(log) && (Uninterrupted(log) ==> Uninterrupted(log'))
    decreases |log'|
  {
    if |log'| > |log| {
      NoneGiven(log, log'[..|log'| - 1]);
    } else {
      assert log == log';
    }
  }

  lemma OneGiven(log: seq<Event>, log': seq<Event>, c: Connection, counted: bool)
    requires Ended(log, log', c.account, counted)
    ensures log <= log' && GivenOf(log') == GivenOf(log) + AccountsOf([c])
    ensures counted ==> log' != [] && log'[|log'| - 1] == Lent(c.account)
    ensures counted && Uninterrupted(log) ==> Uninterrupted(log')
  {
    NoneGiven(log, log'[..|log'| - 1]);
    assert log'[..|log'| - 1][..|log|] == log'[..|log|];
  }

  lemma NoLoadGiven(log: seq<Event>, log': seq<Event>)
    requires LoadsOnly(log, log')
    ensures log <= log' && GivenOf(log') == GivenOf(log) && (Uninterrupted(log) ==> Uninterrupted(log'))
  {
    NoneGiven(log, log');
  }

  // ----- a wait for a connection

  predicate IsCounted(wait: Wait, usable: set<Connection>) {
    wait.Got? && wait.conn in usable
  }

  /** Before the wait the pool held the connections before, of which some were usable; after it pool is left, aside were
      set aside.  The wait ends with a usable connection unless there is none, or it is interrupted first. */
  ghost predicate Waited(before: seq<Connection>, usable: set<Connection>, interrupt: Option<nat>,
                         pool: seq<Connection>, aside: seq<Connection>, wait: Wait)
  {
    && multiset(before) == multiset(pool) + multiset(aside)
                           + (if IsCounted(wait, usable) then multiset{wait.conn} else multiset{})
    && (forall c :: c in aside ==> c !in usable)
    && (wait.NoSuchElement? <==> interrupt == Some(0))
    && (wait.NoSuchElement? ==> aside == [])
    && (wait.Blocked? <==> usable == {} && (interrupt.None? || interrupt.value > |before|))
    && (wait.Blocked? ==> pool == [])
    && (IsCounted(wait, usable) && interrupt.Some? ==> |aside| < interrupt.value)
    && (wait.Got? && !IsCounted(wait, usable) ==>
          aside != [] && wait.conn == aside[|aside| - 1] && interrupt == Some(|aside|))
  }

  /** Without an interruption the wait ends with a usable connection exactly if there is one, and otherwise all are set
      aside; interrupted at once it ends with nothing. */
  lemma WaitEnds(before: seq<Connection>, usable: set<Connection>, interrupt: Option<nat>, pool: seq<Connection>,
                 aside: seq<Connection>, wait: Wait)
    requires Waited(before, usable, interrupt, pool, aside, wait)
    ensures interrupt == None ==> (wait.Got? <==> usable != {}) && (wait.Got? ==> IsCounted(wait, usable))
    ensures interrupt == None && !wait.Got? ==> pool == [] && multiset(aside) == multiset(before)
    ensures interrupt == Some(0) ==> wait.NoSuchElement?
  {
    if wait.Blocked? {
      assert multiset(before) == multiset([]) + multiset(aside);
    }
  }

  /** Whatever the client gets was in the pool. */
  lemma GotWasPooled(before: seq<Connection>, usable: set<Connection>, interrupt: Option<nat>, pool: seq<Connection>,
                     aside: seq<Connection>, wait: Wait)
    requires Waited(before, usable, interrupt, pool, aside, wait) && wait.Got?
    ensures wait.conn in before
  {
    assert wait.conn in multiset(before);
  }

  ghost predicate Passed(before: seq<Connection>, usable: set<Connection>, pool: seq<Connection>,
                         aside: seq<Connection>)
  {
    && multiset(before) == multiset(pool) + multiset(aside)
    && (forall c :: c in aside ==> c !in usable)
    && (forall c :: c in usable ==> c in before)
  }

  lemma NonePassed(log: seq<Event>, before: seq<Connection>, usable: set<Connection>)
    requires forall c :: c in usable ==> c in before
    ensures Passed(before, usable, before, []) && AsidesOnly(log, log)
  {
  }

  lemma StillPooled(conns: seq<Connection>, k: nat)
    requires k < |conns|
    ensures |Without(conns, k)| == |conns| - 1 && forall c :: c in Without(conns, k) ==> c in conns
  {
  }

  lemma OnePassed(before: seq<Connection>, usable: set<Connection>, pool: seq<Connection>, aside: seq<Connection>,
                  k: nat)
    requires Passed(before, usable, pool, aside) && k < |pool| && pool[k] !in usable
    ensures Passed(before, usable, Without(pool, k), aside + [pool[k]])
  {
    hide Without;
    WithoutOne(pool, k);
  }

  lemma SizeOfPassed(before: seq<Connection>, usable: set<Connection>, pool: seq<Connection>, aside: seq<Connection>)
    requires Passed(before, usable, pool, aside)
    ensures |before| == |pool| + |aside|
  {
    assert |multiset(before)| == |multiset(pool)| + |multiset(aside)|;
  }

  /** All were taken: none was usable. */
  lemma AllPassed(before: seq<Connection>, usable: set<Connection>, aside: seq<Connection>, interrupt: Option<nat>)
    requires Passed(before, usable, [], aside) && (interrupt.Some? ==> |aside| <= interrupt.value)
    requires interrupt != Some(|aside|)
    ensures Waited(before, usable, interrupt, [], aside, Blocked)
  {
    SizeOfPassed(before, usable, [], aside);
    assert forall c :: c in before ==> c in multiset(before);
    assert forall c :: c in multiset(aside) ==> c in aside;
  }

  /** A usable connection was taken. */
  lemma GotOne(before: seq<Connection>, usable: set<Connection>, pool: seq<Connection>, aside: seq<Connection>, k: nat,
               interrupt: Option<nat>)
    requires Passed(before, usable, pool, aside) && k < |pool| && pool[k] in usable
    requires interrupt.Some? ==> |aside| < interrupt.value
    ensures Waited(before, usable, interrupt, Without(pool, k), aside, Got(pool[k]))
  {
    hide Without;
    WithoutOne(pool, k);
  }

  /** Interrupted before anything was taken. */
  lemma WaitedInVain(before: seq<Connection>, usable: set<Connection>, pool: seq<Connection>, interrupt: Option<nat>)
    requires Passed(before, usable, pool, []) && interrupt == Some(0)
    ensures Waited(before, usable, interrupt, pool, [], NoSuchElement)
  {
  }

  /** Interrupted after unusable ones were taken. */
  lemma GotStale(before: seq<Connection>, usable: set<Connection>, pool: seq<Connection>, aside: seq<Connection>,
                 interrupt: Option<nat>)
    requires Passed(before, usable, pool, aside) && aside != [] && interrupt == Some(|aside|)
    ensures Waited(before, usable, interrupt, pool, aside, Got(aside[|aside| - 1]))
  {
    SizeOfPassed(before, usable, pool, aside);
  }

  lemma OneAside(log: seq<Event>, log0: seq<Event>, log': seq<Event>, c: Connection)
    requires AsidesOnly(log, log0) && log' == log0 + [SetAside(c.account)]
    ensures AsidesOnly(log, log')
  {
  }

  lemma LentLast(log: seq<Event>, log0: seq<Event>, log': seq<Event>, c: Connection)
    requires AsidesOnly(log, log0) && log' == log0 + [Lent(c.account)]
    ensures Ended(log, log', c.account, true)
  {
    assert log'[..|log'| - 1] == log0;
  }

  lemma StaleLast(log: seq<Event>, log0: seq<Event>, c: Connection)
    requires AsidesOnly(log, log0) && |log0| > |log| && log0[|log0| - 1] == SetAside(c.account)
    ensures Ended(log, log0 + [Interrupted(c.account)], c.account, false)
  {
    assert (log0 + [Interrupted(c.account)])[..|log0|] == log0;
  }

  class ConnectionPool {
    var accountInUse: map<string, AccountProxy>
    var wait4LoginAccount: seq<AccountProxy>
    var connPool: seq<Connection>
    var invalidConnsThisHour: seq<Connection>
    const accountCount: int
    const accountReuseInterval: int
    const maxVisitPerAccount: int
    const base_accountReuseInterval: int := 1000
    /** Connections that clients hold. */
    ghost var lent: seq<Connection>
    /** All accounts the pool ever worked with. */
    ghost var known: set<AccountProxy>
    ghost var log: seq<Event>
    /** The accounts that the account service was told to remove. */
    ghost var removed: seq<AccountProxy>

    /** The counters of the accounts are those of the log. */
    ghost predicate Counting()
      reads this`log, this`known, known`borrowNum, known`failedNum
    {
      forall a :: a in known ==> a.borrowNum == Counted(log, a) && a.failedNum == 0
    }

    ghost predicate Placing()
      reads this`log, this`known, this`connPool, this`lent, this`invalidConnsThisHour, this`wait4LoginAccount
    {
      Located(log, connPool, lent, invalidConnsThisHour, wait4LoginAccount) && Within(log, known)
    }

    /** Every account has the hourly maximum that the website is configured with. */
    ghost predicate Configured()
      reads this`known
    {
      forall a :: a in known ==> a.maxVisitTimesPerHour == maxVisitPerAccount
    }

    /** The log tells what happened, whether in order or not. */
    ghost predicate Valid()
      reads this, known
    {
      Placing() && Counting() && Configured()
    }

    constructor (accountCount: int, accountReuseInterval: int, maxVisitPerAccount: int, supply: seq<Offer>)
      ensures this.accountCount == accountCount && this.maxVisitPerAccount == maxVisitPerAccount
      ensures Valid() && fresh(known) && lent == [] && Legal(log) && Uninterrupted(log)
      ensures wait4LoginAccount == [] && invalidConnsThisHour == []
      ensures exists n: nat :: Suffices(supply, n, accountCount) && |connPool| == |LoggedIn(supply[..n])|
      ensures forall k :: 0 <= k < |connPool| ==> connPool[k].account.reuseTimeInterval == accountReuseInterval
    {
      hide Located, Within, Legal, Counted, Suffices, MadeFrom, LoggedIn, Successes;
      this.accountCount := accountCount;
      this.accountReuseInterval := accountReuseInterval;
      this.maxVisitPerAccount := maxVisitPerAccount;
      accountInUse, wait4LoginAccount, connPool, invalidConnsThisHour := map[], [], [], [];
      lent, known, log, removed := [], {}, [], [];
      new;
      LocatedAtFirst();
      SuccessesSnoc([], true);
      var rest, again, n := Load([], supply);
    }

    /** A login with the account and its password succeeds or fails; success gives a new connection for the account. */
    method Login(account: AccountProxy, loginOk: bool) returns (connection: Option<Connection>)
      ensures connection.Some? <==> loginOk
      ensures connection.Some? ==> fresh(connection.value) && connection.value.account == account
    {
      if loginOk {
        var c := new Connection(account);
        connection := Some(c);
      } else {
        connection := None;
      }
    }

    /** Something happens that counts for nobody. */
    ghost method Note(e: Event)
      requires Counting() && Within(log, known) && e.a in known && !e.Lent? && !e.Reset?
      modifies this`log
      ensures Counting() && Within(log, known) && log == old(log) + [e]
    {
      hide Within, Counted;
      WithinSnoc(log, e, known);
      forall a | a in known ensures Counted(log + [e], a) == Counted(log, a) {
        CountSnoc(log, e, a);
      }
      log := log + [e];
    }

    /** Puts a connection into the pool. */
    method PoolAdd(conn: Connection)
      modifies this`connPool
      ensures connPool == old(connPool) + [conn]
      ensures Accounts(connPool) == old(Accounts(connPool)) + multiset{conn.account}
    {
      hide Accounts;
      AccountsSnoc(connPool, conn);
      connPool := connPool + [conn];
    }

    method AddAsWaitLoginAccount(waitLogin: AccountProxy)
      modifies this`wait4LoginAccount
      ensures wait4LoginAccount == old(wait4LoginAccount) + [waitLogin]
    {
      wait4LoginAccount := wait4LoginAccount + [waitLogin];
    }

    /** Takes the k-th waiting account and logs it in; when that fails the account is dropped. */
    method LoginWaiting(k: nat, loginOk: bool) returns (ok: bool)
      requires Valid() && k < |wait4LoginAccount|
      modifies this`wait4LoginAccount, this`connPool, this`accountInUse, this`log
      ensures ok == loginOk && Valid() && wait4LoginAccount == Without(old(wait4LoginAccount), k)
      ensures var a := old(wait4LoginAccount)[k];
              && log == old(log) + [if ok then Relogged(a) else Dropped(a)] && (old(Legal(log)) ==> Legal(log))
              && (if ok then Added(old(connPool), a) else connPool == old(connPool))
              && accountInUse == if ok then old(accountInUse)[a.account := a] else old(accountInUse)
    {
      hide Accounts, Within, Counting, Located, Legal;
      var wait4Login := wait4LoginAccount[k];
      ghost var ready := connPool;
      WaitingIsKnown(k);
      wait4LoginAccount := Without(wait4LoginAccount, k);
      var connection := Login(wait4Login, loginOk);
      ok := connection.Some?;
      if ok {
        PoolAdd(connection.value);
        accountInUse := accountInUse[wait4Login.account := wait4Login];
      }
      LoginPlaces(log, ready, connPool, lent, invalidConnsThisHour, old(wait4LoginAccount), k, ok);
      Note(if ok then Relogged(wait4Login) else Dropped(wait4Login));
    }

    lemma WaitingIsKnown(k: nat)
      requires Valid() && k < |wait4LoginAccount|
      ensures wait4LoginAccount[k] in known
    {
      hide Accounts, Within, Counting, PlacesOf;
      PlacedIsKnown(log, known, wait4LoginAccount[k]);
    }

    lemma ReadyIsKnown(k: nat)
      requires Valid() && k < |connPool|
      ensures connPool[k].account in known
    {
      hide Accounts, Within, Counting, PlacesOf;
      AccountsMember(connPool, k);
      PlacedIsKnown(log, known, connPool[k].account);
    }

    /** The pool is as before with one more connection, of the given account. */
    ghost predicate Added(before: seq<Connection>, account: AccountProxy)
      reads this`connPool
    {
      |connPool| == |before| + 1 && connPool[..|before|] == before && connPool[|before|].account == account
    }

    /** The pool gets to know a new account. */
    ghost method Meet(a: AccountProxy)
      requires Valid() && a !in known && a.borrowNum == 0 && a.failedNum == 0
      requires a.maxVisitTimesPerHour == maxVisitPerAccount
      modifies this`known
      ensures Valid() && known == old(known) + {a} && !Mentions(log, a)
    {
      hide Located, Within, Counted;
      UnknownIsUnmentioned(log, known, a);
      UnmentionedIsNotCounted(log, a);
      WithinMore(log, known, known + {a});
      known := known + {a};
    }

    /** Logs in an account fetched from the account service; when that fails it is dropped. */
    method LoginFetched(offer: Offer) returns (ok: bool, wait4Login: AccountProxy)
      requires Valid()
      modifies this`connPool, this`accountInUse, this`known, this`log
      ensures ok == offer.loginOk && Valid() && (old(Legal(log)) ==> Legal(log))
      ensures fresh(wait4Login) && known == old(known) + {wait4Login}
      ensures MadeFrom(wait4Login, offer)
      ensures wait4Login.maxVisitTimesPerHour == maxVisitPerAccount
      ensures wait4Login.reuseTimeInterval == accountReuseInterval
      ensures if ok then Added(old(connPool), wait4Login) && log == old(log) + [Fetched(wait4Login)]
              else connPool == old(connPool) && log == old(log)
      ensures accountInUse == if ok then old(accountInUse)[offer.account := wait4Login] else old(accountInUse)
    {
      hide Accounts, Within, Counting, PlacesOf, Legal, Mentions;
      wait4Login := new AccountProxy(offer.account, offer.password, accountReuseInterval, maxVisitPerAccount);
      Meet(wait4Login);
      var connection := Login(wait4Login, offer.loginOk);
      ok := connection.Some?;
      if ok {
        Snoc(log, Fetched(wait4Login));
        Note(Fetched(wait4Login));
        PoolAdd(connection.value);
        accountInUse := accountInUse[wait4Login.account := wait4Login];
      }
    }

    /** The accounts of the connections from the index on wait as long between two uses as configured. */
    ghost predicate Waiting(from: nat)
      reads this`connPool, (set c <- connPool :: c.account)`reuseTimeInterval
    {
      forall k :: from <= k < |connPool| ==> connPool[k].account.reuseTimeInterval == accountReuseInterval
    }

    /** The first loop of a load: waiting accounts are logged in again, as many as are due. */
    method LoadWaiting(due: seq<bool>) returns (again: nat)
      requires Valid()
      modifies this`wait4LoginAccount, this`connPool, this`accountInUse, this`log
      ensures |connPool| == |old(connPool)| + again && old(connPool) <= connPool
      ensures Polled(due, |old(wait4LoginAccount)|, |wait4LoginAccount|, again)
      ensures multiset(wait4LoginAccount) <= multiset(old(wait4LoginAccount))
      ensures LoadsOnly(old(log), log) && (old(Legal(log)) ==> Legal(log)) && Valid()
    {
      hide Placing, Counting, Configured, Legal, LoadsOnly, Without, Successes, Polled;
      NoLoads(log);
      SuccessesSnoc([], true);
      var polls := 0;
      again := 0;
      while true
        invariant Valid() && old(connPool) <= connPool && LoadsOnly(old(log), log) && (old(Legal(log)) ==> Legal(log))
        invariant multiset(wait4LoginAccount) <= multiset(old(wait4LoginAccount))
        invariant polls <= |due| && |wait4LoginAccount| == |old(wait4LoginAccount)| - polls
        invariant |connPool| == |old(connPool)| + again && again == Successes(due[..polls])
        decreases |wait4LoginAccount|
      {
        if polls == |due| || wait4LoginAccount == [] {
          break; // poll gives nothing while no account is due
        }
        var k :| 0 <= k < |wait4LoginAccount|; // and any that is due otherwise
        FewerWaiting(wait4LoginAccount, k);
        ghost var before := log;
        var ok := LoginWaiting(k, due[polls]);
        LoadsMore(old(log), before, log);
        assert due[..polls + 1] == due[..polls] + [ok];
        SuccessesSnoc(due[..polls], ok);
        polls := polls + 1;
        if ok {
          again := again + 1;
        }
      }
      AllPolled(due, |old(wait4LoginAccount)|, polls);
    }

    /** The second loop of a load: new accounts are fetched until there are enough or the account service has none. */
    method LoadFetched(needLoadCount: int, supply: seq<Offer>) returns (rest: seq<Offer>, ghost n: nat)
      requires Valid()
      modifies this`connPool, this`accountInUse, this`known, this`log
      ensures Suffices(supply, n, needLoadCount) && rest == supply[n..]
      ensures Made(connPool, |old(connPool)|, LoggedIn(supply[..n]), accountInUse) && Waiting(|old(connPool)|)
      ensures old(connPool) <= connPool && LoadsOnly(old(log), log) && (old(Legal(log)) ==> Legal(log))
      ensures old(known) <= known && fresh(known - old(known)) && Valid()
    {
      hide Placing, Counting, Configured, Legal, LoadsOnly, Made, Suffices, LoggedIn, MadeFrom, Waiting;
      var missing := needLoadCount;
      rest, n := supply, 0;
      assert supply[..0] == [];
      NoLoads(log);
      NoneWaits();
      NoneMade(connPool, accountInUse);
      LoggedInSnoc([], Offer("", "", true));
      while missing > 0
        invariant Valid() && old(connPool) <= connPool && LoadsOnly(old(log), log) && (old(Legal(log)) ==> Legal(log))
        invariant old(known) <= known && fresh(known - old(known))
        invariant 0 <= n <= |supply| && rest == supply[n..]
        invariant missing == needLoadCount - |LoggedIn(supply[..n])|
        invariant Made(connPool, |old(connPool)|, LoggedIn(supply[..n]), accountInUse) && Waiting(|old(connPool)|)
        invariant n > 0 ==> |LoggedIn(supply[..n - 1])| < needLoadCount
        decreases |rest|
      {
        if rest == [] {
          break; // getAccount gives nothing
        }
        var account := rest[0];
        ghost var before, pooled, inUse, made := log, connPool, accountInUse, LoggedIn(supply[..n]);
        label fetching:
        var ok, wait4Login := LoginFetched(account);
        OneMoreWaits@fetching(|old(connPool)|, wait4Login);
        if ok {
          assert connPool == pooled + [connPool[|pooled|]];
          MoreMade(pooled, |old(connPool)|, made, inUse, connPool[|pooled|], account);
          missing := missing - 1;
        }
        LoadsMore(old(log), before, log);
        assert supply[..n + 1] == supply[..n] + [account];
        LoggedInSnoc(supply[..n], account);
        assert made + [] == made;
        rest := rest[1..];
        n := n + 1;
      }
      EnoughLoaded(supply, n, needLoadCount, missing);
    }

    /** Logs in waiting accounts again, as many as are due, then fetches new ones from the account service until there
        are enough or it has none left. */
    method Load(due: seq<bool>, supply: seq<Offer>) returns (rest: seq<Offer>, ghost again: nat, ghost n: nat)
      requires Valid()
      modifies this`wait4LoginAccount, this`connPool, this`accountInUse, this`known, this`log
      ensures old(connPool) <= connPool && multiset(wait4LoginAccount) <= multiset(old(wait4LoginAccount))
      ensures Polled(due, |old(wait4LoginAccount)|, |wait4LoginAccount|, again)
      ensures Suffices(supply, n, accountCount - again) && rest == supply[n..]
      ensures Made(connPool, |old(connPool)| + again, LoggedIn(supply[..n]), accountInUse)
      ensures Waiting(|old(connPool)| + again)
      ensures LoadsOnly(old(log), log) && (old(Legal(log)) ==> Legal(log))
      ensures old(known) <= known && fresh(known - old(known)) && Valid()
    {
      hide Placing, Counting, Configured, Legal, Made, Suffices, LoggedIn, Waiting, Polled;
      var needLoadCount := accountCount;
      var loggedIn := LoadWaiting(due);
      needLoadCount := needLoadCount - loggedIn;
      again := loggedIn;
      rest, n := LoadFetched(needLoadCount, supply);
    }

    lemma NoneWaits()
      ensures Waiting(|connPool|)
    {
    }

    twostate lemma OneMoreWaits(from: nat, new a: AccountProxy)
      requires old(Waiting(from)) && a.reuseTimeInterval == accountReuseInterval
      requires forall c :: c in old(connPool) ==> old(c.account.reuseTimeInterval) == c.account.reuseTimeInterval
      requires connPool == old(connPool) || Added(old(connPool), a)
      ensures Waiting(from)
    {
    }

    /** The pooled connections whose accounts may still be used this hour. */
    ghost function Usable(): (s: set<Connection>)
      reads this`connPool, (set c <- connPool :: c.account)`borrowNum
      ensures forall c :: c in connPool ==> (c in s <==> c.account.borrowNum < c.account.maxVisitTimesPerHour)
      ensures forall c :: c in s ==> c in connPool
    {
      set c | c in connPool && c.account.borrowNum < c.account.maxVisitTimesPerHour
    }

    /** Lends a connection whose account may still be used this hour; exhausted ones met on the way are set aside.
        The wait is interrupted after so many takes, if at all: then the client gets the connection last set aside,
        uncounted, or an exception when there was none. */
    method GetConn(interrupt: Option<nat>) returns (wait: Wait, ghost aside: seq<Connection>)
      requires Valid()
      modifies this`connPool, this`invalidConnsThisHour, this`lent, this`log, known`borrowNum
      ensures Waited(old(connPool), old(Usable()), interrupt, connPool, aside, wait)
      ensures invalidConnsThisHour == old(invalidConnsThisHour) + aside
      ensures lent == old(lent) + if wait.Got? then [wait.conn] else []
      ensures wait.NoSuchElement? ==> log == old(log)
      ensures if wait.Got? then Ended(old(log), log, wait.conn.account, IsCounted(wait, old(Usable())))
              else AsidesOnly(old(log), log)
      ensures forall a :: a in known ==>
                a.borrowNum == old(a.borrowNum)
                               + if IsCounted(wait, old(Usable())) && a == wait.conn.account then 1 else 0
      ensures Valid() && (old(Legal(log)) ==> Legal(log))
    {
      hide Placing, Counting, Configured, Legal, AsidesOnly, Waited, Ended, Without, Passed, Usable;
      var conn: Option<Connection> := None;
      var takes := 0;
      ghost var before, usable := connPool, Usable();
      aside := [];
      NonePassed(log, before, usable);
      while true
        invariant Valid() && lent == old(lent) && known == old(known) && (old(Legal(log)) ==> Legal(log))
        invariant AsidesOnly(old(log), log) && (aside == [] ==> log == old(log))
        invariant aside != [] ==> |log| > |old(log)| && log[|log| - 1] == SetAside(aside[|aside| - 1].account)
        invariant conn == if aside == [] then None else Some(aside[|aside| - 1])
        invariant takes == |aside| && (interrupt.Some? ==> takes <= interrupt.value)
        invariant invalidConnsThisHour == old(invalidConnsThisHour) + aside
        invariant Passed(before, usable, connPool, aside)
        invariant forall c :: c in connPool ==> (c in usable <==> c.account.borrowNum < c.account.maxVisitTimesPerHour)
        invariant forall a :: a in known ==> a.borrowNum == old(a.borrowNum)
        decreases |connPool|
      {
        if interrupt == Some(takes) {
          break; // take throws an InterruptedException
        }
        if connPool == [] {
          AllPassed(before, usable, aside, interrupt);
          return Blocked, aside;
        }
        var k :| 0 <= k < |connPool|; // take gives any connection that is due
        ghost var rest, log0 := connPool, log;
        conn := Some(connPool[k]);
        ReadyIsKnown(k);
        takes := takes + 1;
        var valid := Take(k);
        StillPooled(rest, k);
        if valid {
          GotOne(before, usable, rest, aside, k, interrupt);
          LentLast(old(log), log0, log, conn.value);
          return Got(conn.value), aside;
        }
        OnePassed(before, usable, rest, aside, k);
        OneAside(old(log), log0, log, conn.value);
        aside := aside + [conn.value];
      }
      if conn.None? {
        WaitedInVain(before, usable, connPool, interrupt);
        return NoSuchElement, aside;
      }
      GotStale(before, usable, connPool, aside, interrupt);
      StaleLast(old(log), log, conn.value);
      LendUncounted(conn.value);
      wait := Got(conn.value);
    }

    /** The client gets the connection although its account is exhausted, and nobody counts it. */
    ghost method LendUncounted(c: Connection)
      requires Valid() && log != [] && log[|log| - 1] == SetAside(c.account)
      modifies this`lent, this`log
      ensures Valid() && lent == old(lent) + [c] && log == old(log) + [Interrupted(c.account)]
      ensures old(Legal(log)) ==> Legal(log)
    {
      hide Accounts, Counting, PlacesOf, Legal;
      assert c.account in known by {
        hide *;
        LastIsKnown();
      }
      LastAside(log);
      Snoc(log, Interrupted(c.account));
      AccountsSnoc(lent, c);
      Note(Interrupted(c.account));
      lent := lent + [c];
    }

    lemma LastIsKnown()
      requires Valid() && log != []
      ensures log[|log| - 1].a in known
    {
    }

    /** One round of the loop: the k-th connection is lent and counted when its account is not exhausted, and set
        aside otherwise. */
    method Take(k: nat) returns (valid: bool)
      requires Valid() && k < |connPool|
      modifies this`connPool, this`invalidConnsThisHour, this`lent, this`log, connPool[k].account`borrowNum
      ensures Valid() && connPool == Without(old(connPool), k) && (old(Legal(log)) ==> Legal(log))
      ensures var c := old(connPool)[k];
              && (valid <==> old(c.account.borrowNum) < c.account.maxVisitTimesPerHour)
              && c.account in known && log == old(log) + [if valid then Lent(c.account) else SetAside(c.account)]
              && lent == old(lent) + (if valid then [c] else [])
              && invalidConnsThisHour == old(invalidConnsThisHour) + (if valid then [] else [c])
              && c.account.borrowNum == old(c.account.borrowNum) + if valid then 1 else 0
    {
      hide Accounts, Within, Counting, Located, Legal, Counted;
      var c := connPool[k];
      ReadyIsKnown(k);
      CountIs(c.account);
      connPool := Without(connPool, k);
      valid := c.IsValid();
      ghost var log0, lent0, aside0 := log, lent, invalidConnsThisHour;
      if valid {
        Lend(c);
      } else {
        invalidConnsThisHour := invalidConnsThisHour + [c];
        Note(SetAside(c.account));
      }
      TakePlaces(log0, old(connPool), lent0, lent, aside0, invalidConnsThisHour, wait4LoginAccount, k, valid);
    }

    lemma CountIs(a: AccountProxy)
      requires Counting() && a in known
      ensures a.borrowNum == Counted(log, a) && a.failedNum == 0
    {
    }

    /** The account is borrowed once more. */
    method Lend(c: Connection)
      requires Counting() && Within(log, known) && c.account in known
      modifies this`lent, this`log, c.account`borrowNum
      ensures Counting() && Within(log, known)
      ensures lent == old(lent) + [c] && log == old(log) + [Lent(c.account)]
      ensures c.account.borrowNum == old(c.account.borrowNum) + 1
    {
      hide Within, Counted;
      WithinSnoc(log, Lent(c.account), known);
      forall a | a in known
        ensures Counted(log + [Lent(c.account)], a) == Counted(log, a) + if a == c.account then 1 else 0
      {
        CountSnoc(log, Lent(c.account), a);
      }
      c.account.Borrow();
      lent := lent + [c];
      log := log + [Lent(c.account)];
    }

    /** The account may be borrowed from the beginning. */
    method Revive(account: AccountProxy)
      requires Counting() && Within(log, known) && account in known
      modifies this`log, account`borrowNum
      ensures Counting() && Within(log, known)
      ensures log == old(log) + [Reset(account)] && account.borrowNum == 0
    {
      hide Within, Counted;
      WithinSnoc(log, Reset(account), known);
      forall a | a in known ensures Counted(log + [Reset(account)], a) == if a == account then 0 else Counted(log, a) {
        CountSnoc(log, Reset(account), a);
      }
      account.ResetBorrowNum();
      log := log + [Reset(account)];
    }

    method ClearFailures(account: AccountProxy)
      requires Counting()
      modifies account`failedNum
      ensures Counting() && account.failedNum == 0
    {
      hide Counted;
      account.ResetFailedNum();
    }

    /** The client no longer holds the connection, if it did. */
    ghost method TakeBack(conn: Connection)
      modifies this`lent
      ensures if conn in old(lent)
              then exists k :: 0 <= k < |old(lent)| && old(lent)[k] == conn && lent == Without(old(lent), k)
              else lent == old(lent)
      ensures conn in old(lent) ==> Accounts(old(lent)) == Accounts(lent) + multiset{conn.account}
    {
      hide Accounts;
      if conn in lent {
        var k :| 0 <= k < |lent| && lent[k] == conn;
        AccountsWithout(lent, k);
        lent := Without(lent, k);
      }
    }

    /** A client returns a connection, held or not. */
    method ReturnConn(conn: Connection, statCode: StatCode)
      requires Valid() && conn.account in known
      modifies this`connPool, this`wait4LoginAccount, this`lent, this`log, this`removed
      modifies conn.account`reuseTimeInterval, conn.account`failedNum
      ensures Valid() && log == old(log) + [ReturnEvent(conn.account, statCode, conn in old(lent))]
      ensures connPool == if statCode == SUCCESS || statCode == ACCOUNT_TOO_OFTEN || statCode == PROXYIP_TOO_OFTEN
                          then old(connPool) + [conn] else old(connPool)
      ensures wait4LoginAccount == old(wait4LoginAccount) + if statCode == AUTH_EXPIRE then [conn.account] else []
      ensures removed == old(removed) + if statCode == INVALID_ACCOUNT then [conn.account] else []
      ensures if conn in old(lent)
              then exists k :: 0 <= k < |old(lent)| && old(lent)[k] == conn && lent == Without(old(lent), k)
              else lent == old(lent)
      ensures conn in old(lent) && old(Legal(log)) ==> Legal(log)
      ensures conn.account.reuseTimeInterval ==
                match statCode
                case SUCCESS => 1000
                case AUTH_EXPIRE => accountReuseInterval
                case ACCOUNT_TOO_OFTEN => 0 // failedNum is never raised, so the interval drops to zero
                case _ => old(conn.account.reuseTimeInterval)
    {
      hide Accounts, Within, Counting, Located, Legal;
      var accountProxy := conn.account;
      ghost var held, log0, ready0, lent0 := conn in lent, log, connPool, lent;
      CountIs(accountProxy);
      Note(ReturnEvent(accountProxy, statCode, held));
      TakeBack(conn);
      match statCode {
        case SUCCESS =>
          accountProxy.SetReuseTimeInterval(base_accountReuseInterval);
          ClearFailures(accountProxy);
          PoolAdd(conn);
        case AUTH_EXPIRE =>
          accountProxy.SetReuseTimeInterval(accountReuseInterval);
          AddAsWaitLoginAccount(accountProxy);
        case ACCOUNT_TOO_OFTEN =>
          accountProxy.SetReuseTimeInterval(base_accountReuseInterval * accountProxy.failedNum);
          PoolAdd(conn);
        case INVALID_ACCOUNT =>
          removed := removed + [accountProxy]; // the account service is told
        case PROXYIP_TOO_OFTEN =>
          PoolAdd(conn);
        case OTHER =>
      }
      ReturnPlaces(log0, ready0, connPool, lent0, lent, invalidConnsThisHour, old(wait4LoginAccount), wait4LoginAccount,
                   accountProxy, statCode, held);
    }

    /** The hourly task: the accounts of the exhausted connections may be borrowed again. */
    method ReviveConnsInvalidThisHour()
      requires Valid()
      modifies this`log, known`borrowNum
      ensures Valid() && ResetsOnly(old(log), log) && (old(Legal(log)) ==> Legal(log))
      ensures forall k :: 0 <= k < |invalidConnsThisHour| ==> invalidConnsThisHour[k].account.borrowNum == 0
      ensures forall a :: a in known && a !in Accounts(invalidConnsThisHour) ==> a.borrowNum == old(a.borrowNum)
    {
      hide Within, Counting, Accounts, PlacesOf, Legal;
      var n := 0;
      while n < |invalidConnsThisHour|
        invariant 0 <= n <= |invalidConnsThisHour| && Valid()
        invariant ResetsOnly(old(log), log) && (old(Legal(log)) ==> Legal(log))
        invariant forall k :: 0 <= k < n ==> invalidConnsThisHour[k].account.borrowNum == 0
        invariant forall a :: a in known && a !in Accounts(invalidConnsThisHour) ==> a.borrowNum == old(a.borrowNum)
      {
        var account := invalidConnsThisHour[n].account;
        AccountsMember(invalidConnsThisHour, n);
        PlacedIsKnown(log, known, account);
        Snoc(log, Reset(account));
        Revive(account);
        n := n + 1;
      }
    }

    /** In how many places an account is. */
    ghost function Places(a: AccountProxy): nat
      reads this`connPool, this`lent, this`invalidConnsThisHour, this`wait4LoginAccount
    {
      Accounts(connPool)[a] + Accounts(lent)[a] + Accounts(invalidConnsThisHour)[a] + multiset(wait4LoginAccount)[a]
    }

    lemma PlacesAre(a: AccountProxy)
      requires Valid()
      ensures Places(a) == All(PlacesOf(log))[a]
    {
      hide Accounts, Within, Counting, PlacesOf;
    }

    lemma LentIsKnown(held: seq<Connection>, k: nat)
      requires Valid() && multiset(lent) == multiset(held) && k < |held|
      ensures held[k] in lent && held[k].account in known
    {
      hide Accounts, Within, Counting, PlacesOf;
      assert held[k] in multiset(lent);
      var j :| 0 <= j < |lent| && lent[j] == held[k];
      AccountsMember(lent, j);
      PlacedIsKnown(log, known, held[k].account);
    }

    /** A client asks for a connection. */
    method ServeGet(interrupt: Option<nat>, held: seq<Connection>, given: seq<Connection>)
      returns (held': seq<Connection>, given': seq<Connection>)
      requires Valid() && Legal(log) && multiset(lent) == multiset(held)
      modifies this, known
      ensures multiset(lent) == multiset(held') && known == old(known) && removed == old(removed)
      ensures old(log) <= log && given <= given' && GivenOf(log) == GivenOf(old(log)) + AccountsOf(given'[|given|..])
      ensures held' == held || (|held'| == |held| + 1 && held'[..|held|] == held && held'[|held|] in old(connPool))
      ensures interrupt.None? ==> (held' != held <==> old(Usable()) != {})
      ensures interrupt.None? && held' == held ==> connPool == []
      ensures interrupt.None? && held' != held ==>
                held'[|held|] in old(Usable()) && log != [] && log[|log| - 1] == Lent(held'[|held|].account)
      ensures interrupt == Some(0) ==> held' == held && log == old(log)
      ensures Undisturbed(Get(interrupt)) && Uninterrupted(old(log)) ==> Uninterrupted(log)
      ensures Valid() && Legal(log)
    {
      hide Placing, Counting, Configured, Legal, GivenOf, AccountsOf, Ended, Waited, Usable, Uninterrupted;
      held', given' := held, given;
      assert given[|given|..] == [];
      NothingGiven();
      var wait, aside := GetConn(interrupt);
      if wait.Got? {
        held', given' := held + [wait.conn], given + [wait.conn];
        assert given'[|given|..] == [wait.conn];
        OneGiven(old(log), log, wait.conn, IsCounted(wait, old(Usable())));
        GotWasPooled(old(connPool), old(Usable()), interrupt, connPool, aside, wait);
      } else {
        NoneGiven(old(log), log);
      }
      WaitEnds(old(connPool), old(Usable()), interrupt, connPool, aside, wait);
    }

    /** One call. */
    method ServeOne(call: Call, held: seq<Connection>, given: seq<Connection>)
      returns (held': seq<Connection>, given': seq<Connection>)
      requires Valid() && Legal(log) && multiset(lent) == multiset(held)
      modifies this, known
      ensures Valid() && Legal(log) && multiset(lent) == multiset(held')
      ensures old(log) <= log && old(known) <= known && fresh(known - old(known))
      ensures given <= given' && GivenOf(log) == GivenOf(old(log)) + AccountsOf(given'[|given|..])
      ensures Undisturbed(call) && Uninterrupted(old(log)) ==> Uninterrupted(log)
      ensures match call
              case Get(interrupt) =>
                && (held' == held
                    || (|held'| == |held| + 1 && held'[..|held|] == held && held'[|held|] in old(connPool)))
                && (interrupt.None? ==> (held' != held <==> old(Usable()) != {}))
                && (interrupt.None? && held' == held ==> connPool == [])
                && (interrupt.None? && held' != held ==>
                      held'[|held|] in old(Usable()) && log != [] && log[|log| - 1] == Lent(held'[|held|].account))
                && (interrupt == Some(0) ==> held' == held && log == old(log))
              case Return(k, statCode) =>
                && held' == (if k < |held| then Without(held, k) else held)
                && log == old(log) + if k < |held| then [ReturnEvent(held[k].account, statCode, true)] else []
              case Fill(due, supply) =>
                && held' == held && LoadsOnly(old(log), log)
                && exists again: nat, n: nat ::
                     && Polled(due, |old(wait4LoginAccount)|, |wait4LoginAccount|, again)
                     && Suffices(supply, n, accountCount - again)
                     && Made(connPool, |old(connPool)| + again, LoggedIn(supply[..n]), accountInUse)
              case NewHour =>
                && held' == held && ResetsOnly(old(log), log)
                && forall c :: c in invalidConnsThisHour ==> c.account.borrowNum == 0
    {
      hide Placing, Counting, Configured, Legal, GivenOf, AccountsOf, Without, LoadsOnly, Usable, Uninterrupted, Polled;
      hide Suffices, Made, LoggedIn;
      held', given' := held, given;
      assert given[|given|..] == [];
      NothingGiven();
      match call {
        case Get(interrupt) =>
          held', given' := ServeGet(interrupt, held, given);
        case Return(k, statCode) =>
          if k < |held| {
            LentIsKnown(held, k);
            ReturnConn(held[k], statCode);
            NoneGiven(old(log), log);
            OneReturned(old(lent), lent, held, k);
            held' := Without(held, k);
          }
        case Fill(due, supply) =>
          var rest, again, n := Load(due, supply);
          NoLoadGiven(old(log), log);
        case NewHour =>
          ReviveConnsInvalidThisHour();
          NoneGiven(old(log), log);
      }
    }

    /** The hourly maximum, where a negative one allows none. */
    function Maximum(): nat {
      if maxVisitPerAccount < 0 then 0 else maxVisitPerAccount
    }

    /** Any sequence of calls, with clients that return nothing they do not hold; held are the connections they got
        and did not return, given all that they got.  Each account is always in one place at most, and never with
        clients more often since its last reset than the maximum configured, if and only if no client was interrupted
        after a connection was set aside. */
    method Serve(calls: seq<Call>) returns (held: seq<Connection>, given: seq<Connection>)
      requires Valid() && Legal(log) && lent == []
      modifies this, known
      ensures Valid() && Legal(log) && multiset(lent) == multiset(held)
      ensures old(log) <= log && old(known) <= known && fresh(known - old(known))
      ensures GivenOf(log) == GivenOf(old(log)) + AccountsOf(given)
      ensures (forall k :: 0 <= k <= |log| ==> InOrder(log[..k])) <==> Uninterrupted(log)
      ensures forall a :: a in known ==> a.Limit() == Maximum()
      ensures Uninterrupted(log) ==> forall a :: a in known ==> Places(a) <= 1 && Given(log, a) <= Maximum()
      ensures Uninterrupted(old(log)) && (forall k :: 0 <= k < |calls| ==> Undisturbed(calls[k])) ==> Uninterrupted(log)
    {
      hide Placing, Counting, Legal, GivenOf, AccountsOf, InOrder, Uninterrupted, Given, Accounts;
      held, given := [], [];
      NothingGiven();
      for n := 0 to |calls|
        invariant Valid() && Legal(log) && multiset(lent) == multiset(held)
        invariant old(log) <= log && old(known) <= known && fresh(known - old(known))
        invariant GivenOf(log) == GivenOf(old(log)) + AccountsOf(given)
        invariant Uninterrupted(old(log)) && (forall k :: 0 <= k < n ==> Undisturbed(calls[k])) ==> Uninterrupted(log)
      {
        ghost var before := given;
        held, given := ServeOne(calls[n], held, given);
        MoreGiven(before, given);
      }
      AlwaysInOrderIffUninterrupted(log);
      if Uninterrupted(log) {
        forall a | a in known ensures Places(a) <= 1 && Given(log, a) <= Maximum() {
          InPlace(a);
        }
      }
    }

    lemma InPlace(a: AccountProxy)
      requires Valid() && Legal(log) && Uninterrupted(log)
      ensures Places(a) <= 1 && Given(log, a) <= a.Limit()
    {
      hide Placing, Counting, Legal, Given, Counted, PlacesOf, All, Places;
      PlacesAre(a);
      PlacesKept(log);
      CountsKept(log, a);
    }
  }
}
