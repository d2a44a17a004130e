/** When the rotation keeps the newest checkpoints, and what a stamp stands for. */
module CheckpointLaws {
  import opened CheckpointRotation

  // ----- as long as indices ascend

  /** The checkpoints were begun in the order of their indices, which are below the next one, and all is well. */
  ghost predicate Steady(s: State, next: nat) {
    Ascending(s.history) && Below(s.history, next) && Sound(s)
  }

  lemma AscendingSnoc(h: seq<nat>, n: nat)
    requires Ascending(h) && Below(h, n)
    ensures Distinct(h) && n !in h && Ascending(h + [n]) && Below(h + [n], n + 1)
    ensures Below(h, n + 1)
  {
  }

  lemma OldestIsSmallest(h: seq<nat>, keys: set<nat>)
    requires Ascending(h) && |h| >= MAX_CHECKPOINT && keys == Set(Kept(h)) && keys != {}
    ensures Kept(h)[0] == Smallest(keys)
  {
    var k := Kept(h);
    assert Ascending(k);
    InSet(k, 0);
    assert Smallest(keys) in k;
  }

  /** What a run does to a directory other than its own, and to its own. */
  lemma StampsAfter(s: State, n: nat, end: End, written: bool)
    ensures var t := AfterRun(s, n, Checkpointed(end, written));
            && t.dirs.Keys == WithDirectory(s.dirs, n).Keys
            && n in t.dirs
            && (forall i :: i in t.dirs && i != n ==> i in s.dirs && t.dirs[i] == s.dirs[i])
            && (forall i :: i != n ==> (i in t.completed <==> i in s.completed))
            && (n in t.completed <==> end == Done)
            && (end != Exception ==> t.dirs[n] == written)
            && (end == Exception ==> t.dirs[n] == (n in Evicted(s.dirs) && Evicted(s.dirs)[n]))
  {
    hide Begun;
    EvictedIsPart(s.dirs);
    hide Evicted;
  }

  lemma EvictedIsPart(dirs: map<nat, bool>)
    ensures forall i :: i in Evicted(dirs) ==> i in dirs && Evicted(dirs)[i] == dirs[i]
    ensures |dirs| < MAX_CHECKPOINT ==> Evicted(dirs) == dirs
  {
    hide Smallest;
  }

  /** One run keeps everything in order, unless an Error leaves a stamp. */
  lemma SteadyStep(s: State, n: nat, o: Outcome)
    requires Steady(s, n)
    ensures Steady(AfterRun(s, n, o), n + 1) <==> !(o.Checkpointed? && o.end == Error && o.written)
  {
    hide Evicted, WithDirectory, Smallest, Kept, Ascending, Below, Distinct, Set, Begun;
    AscendingSnoc(s.history, n);
    match o
    case Checkpointed(end, written) =>
      var t := AfterRun(s, n, o);
      BegunIs(s.history, n);
      NewestStay(s, n);
      StampsAfter(s, n, end, written);
      NotKept(s, n);
      EvictedIsPart(s.dirs);
      assert t.history == s.history + [n];
    case _ =>
  }

  lemma NotKept(s: State, n: nat)
    requires Steady(s, n)
    ensures n !in s.dirs
  {
    KeptMembers(s.history);
  }

  lemma NewestStay(s: State, n: nat)
    requires Steady(s, n)
    ensures WithDirectory(s.dirs, n).Keys == Set(Kept(s.history + [n]))
  {
    hide WithDirectory, Smallest, Kept, Set;
    AscendingSnoc(s.history, n);
    NextKeys(s.dirs, s.history, n);
    if |s.history| >= MAX_CHECKPOINT {
      OldestIsSmallest(s.history, s.dirs.Keys);
    }
  }

  lemma {:induction false} SteadyRuns(s: State, n: nat, outcomes: seq<Outcome>)
    requires Steady(s, n) && NoError(outcomes)
    ensures Sound(After(s, n, outcomes))
    decreases |outcomes|
  {
    hide AfterRun, Ascending, Below;
    if outcomes != [] {
      SteadyStep(s, n, outcomes[0]);
      SteadyRuns(AfterRun(s, n, outcomes[0]), n + 1, outcomes[1..]);
    }
  }

  lemma NextIsLast(s: State, n: nat)
    requires IsStart(s) && Orderly(s, n) && n in s.history
    ensures s.history[|s.history| - 1] == n && Below(s.history, n + 1)
    ensures |s.history| < MAX_CHECKPOINT && n in s.dirs && !s.dirs[n]
  {
    var h := s.history;
    forall i | 0 <= i < |h| ensures h[i] < n + 1 {
      assert h[i] in h;
    }
    var k :| 0 <= k < |h| && h[k] == n;
  }

  lemma StartSize(s: State)
    requires IsStart(s)
    ensures |s.dirs| == |s.history|
    ensures |s.history| <= MAX_CHECKPOINT ==> s.dirs.Keys == Set(Kept(s.history)) && Kept(s.history) == s.history
  {
    SetSize(s.history);
    assert |s.dirs| == |s.dirs.Keys|;
  }

  /** The last directory, without a stamp, may be begun again. */
  lemma BegunAgain(s: State, n: nat, o: Outcome)
    requires IsStart(s) && Orderly(s, n) && n in s.history && NoError([o])
    ensures Steady(AfterRun(s, n, o), n + 1)
  {
    hide Evicted, WithDirectory, Smallest, Begun, Set, Kept;
    NextIsLast(s, n);
    StartSize(s);
    assert [o][0] == o;
    match o
    case Checkpointed(end, written) =>
      StampsAfter(s, n, end, written);
      EvictedKeys(s.dirs, n);
      EvictedIsPart(s.dirs);
      BegunLast(s.history, n);
    case _ =>
  }

  /** From an orderly start all is well after every number of runs. */
  lemma OrderlyIsSound(s: State, n: nat)
    requires IsStart(s) && Orderly(s, n)
    ensures AlwaysSound(s, n)
  {
    forall outcomes | NoError(outcomes) ensures Sound(After(s, n, outcomes)) {
      if n !in s.history {
        assert Below(s.history, n) by {
          forall i | 0 <= i < |s.history| ensures s.history[i] < n {
            assert s.history[i] in s.history;
          }
        }
        SteadyRuns(s, n, outcomes);
      } else if outcomes != [] {
        assert NoError([outcomes[0]]);
        BegunAgain(s, n, outcomes[0]);
        hide AfterRun;
        SteadyRuns(AfterRun(s, n, outcomes[0]), n + 1, outcomes[1..]);
      }
    }
  }

  // ----- and only then

  lemma SoundNow(s: State, n: nat)
    requires AlwaysSound(s, n)
    ensures Sound(s)
  {
    assert NoError([]) && After(s, n, []) == s;
  }

  lemma SoundNext(s: State, n: nat, o: Outcome)
    requires AlwaysSound(s, n) && NoError([o])
    ensures AlwaysSound(AfterRun(s, n, o), n + 1)
  {
    hide AfterRun, Sound;
    forall outcomes | NoError(outcomes) ensures Sound(After(AfterRun(s, n, o), n + 1, outcomes)) {
      var all := [o] + outcomes;
      assert all[1..] == outcomes;
      assert NoError(all) by {
        assert [o][0] == o;
        forall k | 0 <= k < |all| && all[k].Checkpointed? ensures all[k].end != Error {
          assert k > 0 ==> all[k] == outcomes[k - 1];
        }
      }
      assert After(s, n, all) == After(AfterRun(s, n, o), n + 1, outcomes);
    }
  }

  /** Runs that make no directory can be added. */
  lemma {:induction false} SoundLater(s: State, n: nat, m: nat)
    requires AlwaysSound(s, n) && n <= m
    ensures AlwaysSound(s, m)
    decreases m - n
  {
    hide AlwaysSound;
    if n < m {
      SoundNext(s, n, NotPaused);
      SoundLater(s, n + 1, m);
    }
  }

  const MAKE: Outcome := Checkpointed(Done, true)

  /** A directory above all others that is always kept in order: the oldest is the smallest. */
  lemma OldestGoes(s: State, n: nat)
    requires AlwaysSound(s, n) && Distinct(s.history) && Below(s.history, n) && |s.history| >= MAX_CHECKPOINT
    ensures forall i :: i in Kept(s.history) ==> Kept(s.history)[0] <= i
  {
    hide Evicted, WithDirectory, Smallest, Kept, Begun, AlwaysSound, Distinct, Below;
    SoundNow(s, n);
    SoundNext(s, n, MAKE);
    var t := AfterRun(s, n, MAKE);
    SoundNow(t, n + 1);
    NotIn(s.history, n);
    BegunIs(s.history, n);
    StampsAfter(s, n, Done, true);
    NextKeys(s.dirs, s.history, n);
    assert t.history == s.history + [n] && t.dirs.Keys == Set(Kept(s.history + [n]));
    assert Kept(s.history)[0] == Smallest(s.dirs.Keys);
    forall i | i in Kept(s.history) ensures Kept(s.history)[0] <= i {
      assert i in s.dirs.Keys;
    }
  }

  lemma NotIn(h: seq<nat>, n: nat)
    requires Below(h, n)
    ensures n !in h
  {
  }

  /** So each is smaller than all that came after it. */
  lemma {:induction false} InOrder(s: State, n: nat, p: nat, q: nat)
    requires AlwaysSound(s, n) && Distinct(s.history) && Below(s.history, n)
    requires |s.history| <= p + MAX_CHECKPOINT && p < q < |s.history|
    ensures s.history[p] < s.history[q]
    decreases p + MAX_CHECKPOINT - |s.history|
  {
    hide AlwaysSound, Evicted, WithDirectory, Smallest, Begun;
    var h := s.history;
    if |h| == p + MAX_CHECKPOINT {
      OldestGoes(s, n);
      assert Kept(h)[0] == h[p] && Kept(h)[q - p] == h[q];
      assert Kept(h)[q - p] in Kept(h);
    } else {
      NotIn(h, n);
      BegunIs(h, n);
      SoundNext(s, n, MAKE);
      InOrder(AfterRun(s, n, MAKE), n + 1, p, q);
    }
  }

  function Above(h: seq<nat>, n: nat): (m: nat)
    ensures m >= n && Below(h, m)
  {
    if h == [] then n
    else
      var m := Above(h[..|h| - 1], n);
      if h[|h| - 1] < m then m else h[|h| - 1] + 1
  }

  lemma KeptAscends(s: State, n: nat, p: nat, q: nat)
    requires AlwaysSound(s, n) && Distinct(s.history)
    requires |s.history| <= p + MAX_CHECKPOINT && p < q < |s.history|
    ensures s.history[p] < s.history[q]
  {
    hide AlwaysSound, Above, Distinct;
    SoundLater(s, n, Above(s.history, n));
    InOrder(s, Above(s.history, n), p, q);
  }

  /** At most ten directories, older ones with smaller indices. */
  lemma StartAscends(s: State, n: nat)
    requires IsStart(s) && AlwaysSound(s, n)
    ensures |s.history| <= MAX_CHECKPOINT && Ascending(s.history)
  {
    hide AlwaysSound;
    SoundNow(s, n);
    SetSize(s.history);
    KeptDistinct(s.history);
    forall p: nat, q: nat | p < q < |s.history| ensures s.history[p] < s.history[q] {
      KeptAscends(s, n, p, q);
    }
  }

  /** No index above the next. */
  lemma NothingAbove(s: State, n: nat)
    requires IsStart(s) && AlwaysSound(s, n) && s.history != []
    ensures s.history[|s.history| - 1] <= n
  {
    hide AlwaysSound, Evicted, WithDirectory, Smallest, Without;
    var h := s.history;
    var last := h[|h| - 1];
    if last != n {
      var t := AfterRun(s, n, MAKE);
      SoundNext(s, n, MAKE);
      BegunIs(h, n);
      WithoutLast(h, n);
      var w := Without(h, n);
      assert t.history == w + [n];
      KeptAscends(t, n + 1, |w| - 1, |w|);
    }
  }

  /** Of ten directories the first is removed, and none is made if the last is the next. */
  lemma NineLeft(s: State, n: nat, o: Outcome)
    requires IsStart(s) && |s.history| == MAX_CHECKPOINT && Ascending(s.history)
    requires s.history[|s.history| - 1] == n && o == Checkpointed(Exception, true)
    ensures !Sound(AfterRun(s, n, o))
  {
    hide Evicted, WithDirectory, Smallest, Begun;
    var h := s.history;
    StampsAfter(s, n, Exception, true);
    BegunLast(h, n);
    StartSize(s);
    EvictedKeys(s.dirs, n);
    OldestIsSmallest(h, s.dirs.Keys);
    InSet(h, 0);
  }

  /** If the last is the next itself, it is one of fewer than ten and has no stamp. */
  lemma NextIsFresh(s: State, n: nat)
    requires IsStart(s) && AlwaysSound(s, n) && |s.history| <= MAX_CHECKPOINT && Ascending(s.history)
    requires s.history != [] && s.history[|s.history| - 1] == n
    ensures |s.history| < MAX_CHECKPOINT && n in s.dirs && !s.dirs[n]
  {
    hide AlwaysSound, Evicted, WithDirectory, Smallest, Begun, Without, Kept, Ascending;
    var h := s.history;
    var o := Checkpointed(Exception, true);
    assert NoError([o]);
    SoundNext(s, n, o);
    SoundNow(AfterRun(s, n, o), n + 1);
    if |h| == MAX_CHECKPOINT {
      NineLeft(s, n, o);
    }
    StampsAfter(s, n, Exception, true);
    StartSize(s);
    InSet(h, |h| - 1);
    EvictedIsPart(s.dirs);
  }

  /** Over every number of runs the directories are the newest and the stamps true, if and only if the start was
      orderly. */
  lemma AlwaysSoundIffOrderly(s: State, n: nat)
    requires IsStart(s)
    ensures AlwaysSound(s, n) <==> Orderly(s, n)
  {
    hide AlwaysSound;
    if Orderly(s, n) {
      OrderlyIsSound(s, n);
    }
    if AlwaysSound(s, n) {
      StartAscends(s, n);
      if s.history != [] {
        NothingAbove(s, n);
        if s.history[|s.history| - 1] == n {
          NextIsFresh(s, n);
        }
      }
      forall i | i in s.history
        ensures i < n || (i == n && |s.history| < MAX_CHECKPOINT && i in s.dirs && !s.dirs[i])
      {
        var k :| 0 <= k < |s.history| && s.history[k] == i;
      }
    }
  }

  // ----- restarts

  /** Every start of the program counts from 1, and no index is 0: all is well only over an empty disk, or over the
      single directory 1 without a stamp. */
  lemma RestartIsSound(s: State)
    requires IsStart(s) && 0 !in s.history
    ensures AlwaysSound(s, 1) <==> s.history == [] || (s.history == [1] && s.dirs == map[1 := false])
  {
    hide AlwaysSound;
    AlwaysSoundIffOrderly(s, 1);
    var h := s.history;
    if Orderly(s, 1) && h != [] {
      assert h[0] in h && h[|h| - 1] in h;
      assert h == [1];
      assert s.dirs.Keys == {1};
    }
  }

  /** Ten directories 11 to 20, all stamped. */
  const ELEVEN_TO_TWENTY: seq<nat> := [11, 12, 13, 14, 15, 16, 17, 18, 19, 20]

  /** After a restart over ten directories with larger indices the second run removes the first one's checkpoint. */
  lemma RestartDropsNewest(s: State)
    requires IsStart(s) && |s.history| == MAX_CHECKPOINT && forall i :: i in s.history ==> i > 2
    ensures var t := After(s, 1, [MAKE, MAKE]);
            && 1 in Kept(t.history) && 1 !in t.dirs
            && s.dirs.Keys != {} && t.dirs.Keys == Set(s.history) - {Smallest(s.dirs.Keys)} + {2}
  {
    hide Smallest, Kept, After, IsStart, WithDirectory, Evicted, Distinct;
    var t1 := AfterRun(s, 1, MAKE);
    FirstMake(s);
    KeysAfterMake(t1, 2);
    BegunIs(t1.history, 2);
    TwoMakes(s);
    LastTwo(s.history);
    var kept := Set(s.history) - {Smallest(s.dirs.Keys)};
    assert 1 !in kept && kept + {1} - {1} + {2} == kept + {2};
  }

  /** The first run evicts one of the old directories and makes the smallest of all. */
  lemma FirstMake(s: State)
    requires IsStart(s) && |s.history| == MAX_CHECKPOINT && forall i :: i in s.history ==> i > 2
    ensures var t1 := AfterRun(s, 1, MAKE);
            && s.dirs.Keys != {} && t1.dirs.Keys == Set(s.history) - {Smallest(s.dirs.Keys)} + {1}
            && |t1.dirs| == MAX_CHECKPOINT && Smallest(t1.dirs.Keys) == 1
            && t1.history == s.history + [1] && Distinct(t1.history) && 2 !in t1.history
  {
    hide *;
    var t1 := AfterRun(s, 1, MAKE);
    StartSize(s);
    StartKeys(s);
    KeysAfterMake(s, 1);
    HistoryAfterMake(s, 1);
    SizeAfterMake(s.dirs.Keys, 1, t1.dirs.Keys);
    SmallestIs(t1.dirs.Keys, 1);
    assert |t1.dirs| == |t1.dirs.Keys| && |s.dirs| == |s.dirs.Keys|;
  }

  lemma StartKeys(s: State)
    requires IsStart(s)
    ensures s.dirs.Keys == Set(s.history) && Distinct(s.history)
    ensures forall i :: i in s.dirs.Keys <==> i in s.history
  {
    hide Distinct;
  }

  lemma HistoryAfterMake(s: State, n: nat)
    requires Distinct(s.history) && n !in s.history
    ensures AfterRun(s, n, MAKE).history == s.history + [n] && Distinct(s.history + [n])
  {
    hide Distinct, WithDirectory, Begun;
    BegunIs(s.history, n);
  }

  lemma KeysAfterMake(s: State, n: nat)
    requires |s.dirs| >= MAX_CHECKPOINT
    ensures s.dirs.Keys != {} && AfterRun(s, n, MAKE).dirs.Keys == s.dirs.Keys - {Smallest(s.dirs.Keys)} + {n}
  {
    hide Smallest, AfterRun, WithDirectory;
    EvictedKeys(s.dirs, n);
    StampsAfter(s, n, Done, true);
  }

  lemma SizeAfterMake(keys: set<nat>, n: nat, keys': set<nat>)
    requires keys != {} && n !in keys && keys' == keys - {Smallest(keys)} + {n}
    ensures |keys'| == |keys|
  {
    hide Smallest;
    assert |keys - {Smallest(keys)}| == |keys| - 1;
  }

  lemma SmallestIs(keys: set<nat>, m: nat)
    requires m in keys && forall i :: i in keys ==> m <= i
    ensures Smallest(keys) == m
  {
    hide Smallest;
  }

  lemma TwoMakes(s: State)
    ensures After(s, 1, [MAKE, MAKE]) == AfterRun(AfterRun(s, 1, MAKE), 2, MAKE)
  {
    hide AfterRun;
    var t1 := AfterRun(s, 1, MAKE);
    assert [MAKE, MAKE][1..] == [MAKE] && [MAKE][1..] == [];
    assert After(t1, 2, [MAKE]) == After(AfterRun(t1, 2, MAKE), 3, []);
  }

  lemma LastTwo(h: seq<nat>)
    requires |h| == MAX_CHECKPOINT
    ensures 1 in Kept(h + [1] + [2])
  {
    assert Kept(h + [1] + [2])[8] == 1;
  }

  lemma ElevenToTwenty()
    ensures Distinct(ELEVEN_TO_TWENTY) && |ELEVEN_TO_TWENTY| == MAX_CHECKPOINT
    ensures forall i :: i in ELEVEN_TO_TWENTY ==> i > 2
  {
  }

  lemma RestartOverElevenToTwenty(s: State)
    requires s.history == ELEVEN_TO_TWENTY && s.dirs.Keys == Set(ELEVEN_TO_TWENTY) && s.completed == s.dirs.Keys
    ensures !AlwaysSound(s, 1) && 1 !in After(s, 1, [MAKE, MAKE]).dirs
    ensures 1 in Kept(After(s, 1, [MAKE, MAKE]).history)
  {
    hide AlwaysSound, After, Kept, Distinct, ELEVEN_TO_TWENTY, Set;
    ElevenToTwenty();
    RestartIsSound(s);
    RestartDropsNewest(s);
  }

  // ----- what a stamp stands for

  /** The stamp of a run's own directory is false exactly if an Error left it, or if the checkpoint failed in a
      directory that was stamped before. */
  lemma StampOfRun(s: State, n: nat, end: End, written: bool)
    ensures var t := AfterRun(s, n, Checkpointed(end, written));
            && n in t.dirs
            && (t.dirs[n] && n !in t.completed <==>
                (end == Error && written) || (end == Exception && n in Evicted(s.dirs) && Evicted(s.dirs)[n]))
  {
    hide Evicted, WithDirectory, Begun;
    StampsAfter(s, n, end, written);
  }

  /** An Error, such as running out of memory while the node is serialised, is stamped like a completed checkpoint. */
  lemma ErrorIsStamped(s: State, n: nat)
    ensures var t := AfterRun(s, n, Checkpointed(Error, true));
            n in t.dirs && t.dirs[n] && n !in t.completed
  {
    hide AfterRun, Evicted;
    StampOfRun(s, n, Error, true);
  }
}
