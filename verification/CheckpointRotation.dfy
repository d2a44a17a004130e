/** The rotation of checkpoint directories, as what one checkpoint after the other does to the disk. */
module CheckpointRotation {

  const MAX_CHECKPOINT := 10

  /** How the master's own checkpoint ends: an Exception is caught, an Error is not. */
  datatype End = Done | Exception | Error

  /** What happens during one run: the crawl cannot be asked to pause, it does not pause, an Error ends the wait,
      or the checkpoint is made.  `written` says whether a stamp can be written. */
  datatype Outcome =
    | RequestFails(error: bool, written: bool)
    | NotPaused
    | WaitFails(error: bool, written: bool)
    | Checkpointed(end: End, written: bool)

  /** The indices of the directories on disk, with whether they hold a validity stamp; all checkpoints that were
      begun, in the order of their last beginning; and those whose last beginning was completed. */
  datatype State = State(dirs: map<nat, bool>, history: seq<nat>, completed: set<nat>)

  // ----- one run

  ghost predicate IsSmallest(m: nat, s: set<nat>) {
    m in s && forall i :: i in s ==> m <= i
  }

  lemma {:induction false} SmallestExists(s: set<nat>)
    requires s != {}
    ensures exists m :: IsSmallest(m, s)
  {
    hide IsSmallest;
    var k :| k in s;
    var rest := s - {k};
    if rest == {} {
      assert s == {k};
      SmallestOfOne(k);
    } else {
      SmallestExists(rest);
      var m :| IsSmallest(m, rest);
      assert s == rest + {k};
      SmallestOfMore(rest, m, k);
    }
  }

  lemma SmallestOfOne(k: nat)
    ensures IsSmallest(k, {k})
  {
  }

  lemma SmallestOfMore(s: set<nat>, m: nat, k: nat)
    requires IsSmallest(m, s)
    ensures IsSmallest(if k < m then k else m, s + {k})
  {
  }

  ghost function Smallest(s: set<nat>): (m: nat)
    requires s != {}
    ensures m in s && forall i :: i in s ==> m <= i
  {
    SmallestExists(s);
    var m :| IsSmallest(m, s);
    m
  }

  /** With ten directories or more the one with the smallest index is removed. */
  ghost function Evicted(dirs: map<nat, bool>): map<nat, bool> {
    if |dirs| >= MAX_CHECKPOINT then dirs - {Smallest(dirs.Keys)} else dirs
  }

  /** Making a directory that exists changes nothing. */
  ghost function WithDirectory(dirs: map<nat, bool>, next: nat): map<nat, bool> {
    if next in Evicted(dirs) then Evicted(dirs) else Evicted(dirs)[next := false]
  }

  function Without(h: seq<nat>, i: nat): seq<nat> {
    if h == [] then []
    else Without(h[..|h| - 1], i) + if h[|h| - 1] == i then [] else [h[|h| - 1]]
  }

  /** The newest checkpoint is the one begun last. */
  function Begun(h: seq<nat>, i: nat): seq<nat> {
    Without(h, i) + [i]
  }

  /** What one run leaves: a stamp is written unless an Exception was caught. */
  ghost function AfterRun(s: State, next: nat, o: Outcome): State {
    if !o.Checkpointed? then s
    else
      var made := WithDirectory(s.dirs, next);
      State(if o.end == Exception then made else made[next := o.written],
            Begun(s.history, next),
            if o.end == Done then s.completed + {next} else s.completed - {next})
  }

  /** Any number of runs; the index goes up by one with each. */
  ghost function After(s: State, next: nat, outcomes: seq<Outcome>): State
    decreases |outcomes|
  {
    if outcomes == [] then s else After(AfterRun(s, next, outcomes[0]), next + 1, outcomes[1..])
  }

  // ----- what is wanted

  ghost function Set(h: seq<nat>): set<nat> {
    set i | i in h
  }

  /** The at most ten newest. */
  function Kept(h: seq<nat>): seq<nat> {
    if |h| <= MAX_CHECKPOINT then h else h[|h| - MAX_CHECKPOINT..]
  }

  ghost predicate Distinct(h: seq<nat>) {
    forall i, j :: 0 <= i < j < |h| ==> h[i] != h[j]
  }

  ghost predicate Ascending(h: seq<nat>) {
    forall i, j :: 0 <= i < j < |h| ==> h[i] < h[j]
  }

  ghost predicate Below(h: seq<nat>, n: nat) {
    forall k :: 0 <= k < |h| ==> h[k] < n
  }

  ghost predicate StampsTrue(s: State) {
    forall i :: i in s.dirs && s.dirs[i] ==> i in s.completed
  }

  /** The directories on disk are the newest ones, and each stamp stands for a completed checkpoint. */
  ghost predicate Sound(s: State) {
    s.dirs.Keys == Set(Kept(s.history)) && StampsTrue(s)
  }

  ghost predicate NoError(outcomes: seq<Outcome>) {
    forall k :: 0 <= k < |outcomes| ==> outcomes[k].Checkpointed? ==> outcomes[k].end != Error
  }

  /** Over every number of runs without an Error. */
  ghost predicate AlwaysSound(s: State, next: nat) {
    forall outcomes :: NoError(outcomes) ==> Sound(After(s, next, outcomes))
  }

  /** What can be found on disk before the first run. */
  ghost predicate IsStart(s: State) {
    Distinct(s.history) && s.dirs.Keys == Set(s.history) && StampsTrue(s)
  }

  /** What has to be checked before the first run: at most ten directories, older ones with smaller indices, all of
      them below the next index; or the last of fewer than ten is the next and has no stamp. */
  ghost predicate Orderly(s: State, next: nat) {
    && |s.history| <= MAX_CHECKPOINT && Ascending(s.history)
    && forall i :: i in s.history ==> i < next || (i == next && |s.history| < MAX_CHECKPOINT && i in s.dirs && !s.dirs[i])
  }

  // ----- histories

  lemma {:induction false} WithoutMembers(h: seq<nat>, i: nat)
    ensures forall j :: j in Without(h, i) <==> j in h && j != i
  {
    if h != [] {
      WithoutMembers(h[..|h| - 1], i);
      assert h == h[..|h| - 1] + [h[|h| - 1]];
    }
  }

  lemma {:induction false} WithoutAbsent(h: seq<nat>, i: nat)
    requires i !in h
    ensures Without(h, i) == h
  {
    if h != [] {
      WithoutAbsent(h[..|h| - 1], i);
      assert h == h[..|h| - 1] + [h[|h| - 1]];
    }
  }

  lemma {:induction false} WithoutDistinct(h: seq<nat>, i: nat)
    requires Distinct(h)
    ensures Distinct(Without(h, i))
  {
    if h != [] {
      WithoutDistinct(h[..|h| - 1], i);
      WithoutMembers(h[..|h| - 1], i);
      assert h[|h| - 1] !in h[..|h| - 1];
    }
  }

  lemma WithoutLast(h: seq<nat>, i: nat)
    requires h != [] && h[|h| - 1] != i
    ensures Without(h, i) != [] && Without(h, i)[|Without(h, i)| - 1] == h[|h| - 1]
  {
  }

  lemma BegunLast(h: seq<nat>, i: nat)
    requires Distinct(h) && h != [] && h[|h| - 1] == i
    ensures Begun(h, i) == h
  {
    assert i !in h[..|h| - 1];
    WithoutAbsent(h[..|h| - 1], i);
  }

  lemma BegunIs(h: seq<nat>, i: nat)
    requires Distinct(h)
    ensures Distinct(Begun(h, i)) && Set(Begun(h, i)) == Set(h) + {i}
    ensures i !in h ==> Begun(h, i) == h + [i]
  {
    WithoutMembers(h, i);
    WithoutDistinct(h, i);
    if i !in h {
      WithoutAbsent(h, i);
    }
  }

  lemma {:induction false} SetSize(h: seq<nat>)
    requires Distinct(h)
    ensures |Set(h)| == |h|
  {
    if h != [] {
      var n := |h| - 1;
      SetSize(h[..n]);
      assert h == h[..n] + [h[n]];
      assert Set(h) == Set(h[..n]) + {h[n]};
      assert h[n] !in h[..n];
    }
  }

  lemma KeptDistinct(h: seq<nat>)
    requires Distinct(h)
    ensures Distinct(Kept(h))
    ensures |Kept(h)| == if |h| < 10 then |h| else 10
    ensures |Set(Kept(h))| == |Kept(h)|
  {
    SetSize(Kept(h));
  }

  lemma KeptSnoc(h: seq<nat>, i: nat)
    ensures Kept(h + [i]) == (if |h| >= MAX_CHECKPOINT then Kept(h)[1..] else Kept(h)) + [i]
  {
  }

  lemma SetTail(h: seq<nat>)
    requires Distinct(h) && h != []
    ensures Set(h) - {h[0]} == Set(h[1..])
  {
    assert h == [h[0]] + h[1..];
  }

  lemma SetSnoc(h: seq<nat>, i: nat)
    ensures Set(h + [i]) == Set(h) + {i}
  {
  }

  lemma SameLeft(k: set<nat>, a: nat, b: nat, n: nat)
    requires a in k && b in k && n !in k
    ensures k - {a} + {n} == k - {b} + {n} <==> a == b
  {
  }

  lemma EvictedKeys(dirs: map<nat, bool>, n: nat)
    ensures |dirs| < MAX_CHECKPOINT ==> WithDirectory(dirs, n).Keys == dirs.Keys + {n}
    ensures |dirs| >= MAX_CHECKPOINT ==>
              dirs.Keys != {} && WithDirectory(dirs, n).Keys == dirs.Keys - {Smallest(dirs.Keys)} + {n}
  {
    hide Smallest;
    assert |dirs| == |dirs.Keys|;
  }

  lemma KeptMembers(h: seq<nat>)
    ensures forall i :: i in Set(Kept(h)) ==> i in h
  {
  }

  /** When what is on disk are the newest, a new directory keeps them so exactly if the one removed is the
      oldest. */
  lemma NextKeys(dirs: map<nat, bool>, h: seq<nat>, n: nat)
    requires Distinct(h) && dirs.Keys == Set(Kept(h)) && n !in h
    ensures |dirs| == |Kept(h)|
    ensures |h| < MAX_CHECKPOINT ==> WithDirectory(dirs, n).Keys == Set(Kept(h + [n]))
    ensures |h| >= MAX_CHECKPOINT ==>
              |Kept(h)| == MAX_CHECKPOINT && dirs.Keys != {}
              && (WithDirectory(dirs, n).Keys == Set(Kept(h + [n])) <==> Smallest(dirs.Keys) == Kept(h)[0])
  {
    hide Smallest, Kept, WithDirectory, Set, Distinct;
    KeptDistinct(h);
    KeptSnoc(h, n);
    KeptMembers(h);
    EvictedKeys(dirs, n);
    assert |dirs| == |dirs.Keys|;
    if |h| >= MAX_CHECKPOINT {
      SetTail(Kept(h));
      SetSnoc(Kept(h)[1..], n);
      InSet(Kept(h), 0);
      SameLeft(dirs.Keys, Smallest(dirs.Keys), Kept(h)[0], n);
    } else {
      SetSnoc(Kept(h), n);
    }
  }

  lemma InSet(h: seq<nat>, k: nat)
    requires k < |h|
    ensures h[k] in Set(h)
  {
  }

  lemma RecentIsKept(h: seq<nat>, p: nat)
    requires |h| - MAX_CHECKPOINT <= p < |h|
    ensures h[p] in Kept(h)
  {
    if |h| > MAX_CHECKPOINT {
      assert Kept(h)[p - (|h| - MAX_CHECKPOINT)] == h[p];
    }
  }

  /** In ascending order what is gone is older than all that is kept. */
  lemma KeptAreNewest(h: seq<nat>, p: nat, q: nat)
    requires Ascending(h) && p < |h| && h[p] !in Kept(h) && q < |Kept(h)|
    ensures h[p] < Kept(h)[q] && |Kept(h)| == MAX_CHECKPOINT
  {
    if p >= |h| - MAX_CHECKPOINT {
      RecentIsKept(h, p);
    }
  }

  /** A checkpoint that is begun again leaves its old place in the order. */
  lemma {:induction false} HistoryDistinct(s: State, next: nat, outcomes: seq<Outcome>)
    requires Distinct(s.history)
    ensures Distinct(After(s, next, outcomes).history)
    decreases |outcomes|
  {
    hide WithDirectory, Distinct, Begun;
    if outcomes != [] {
      BegunIs(s.history, next);
      HistoryDistinct(AfterRun(s, next, outcomes[0]), next + 1, outcomes[1..]);
    }
  }
}
