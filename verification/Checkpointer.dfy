/** Making, naming, evicting and stamping checkpoint directories. */
module Checkpointers {
  import opened CheckpointRotation
  import opened Decimals
  import opened Options
  import ArchiveTexts

  /** The name of a checkpoint: the prefix and the index, with at least five digits. */
  function CheckpointName(prefix: string, index: nat): string {
    prefix + Padded(index)
  }

  function Padded(index: nat): (s: string)
    ensures s != [] && AllDigits(s)
  {
    var s := ToString(index);
    if |s| < 5 then Zeros(5 - |s|) + s else s
  }

  predicate IsSign(c: char) {
    c == '-' || c == '+'
  }

  const MAX_INT := 0x7fff_ffff

  /** An int, if it is one. */
  function InInt(n: int): Option<int> {
    if -MAX_INT - 1 <= n <= MAX_INT then Some(n) else None
  }

  /** Integer.parseInt on a name; None is the exception. */
  function ParseInt(name: string): Option<int> {
    if name != [] && AllDigits(name) then InInt(ValueOf(name))
    else if |name| > 1 && IsSign(name[0]) && AllDigits(name[1..]) then
      var v: int := ValueOf(name[1..]);
      InInt(if name[0] == '-' then -v else v)
    else None
  }

  lemma PaddedValue(index: nat)
    ensures ValueOf(Padded(index)) == index
  {
    hide ValueOf, ToString, Zeros;
    var s := ToString(index);
    ValueOfToString(index);
    ValueOfZeros(if |s| < 5 then 5 - |s| else 0, s);
  }

  /** Names without a prefix parse back to their index, if that is an int. */
  lemma NameParses(index: nat)
    ensures ParseInt(CheckpointName("", index)) == InInt(index)
  {
    hide ValueOf, Padded;
    PaddedValue(index);
    assert "" + Padded(index) == Padded(index);
  }

  /** The digits of a prefix, after a sign. */
  function Unsigned(prefix: string): string {
    if prefix != [] && IsSign(prefix[0]) then prefix[1..] else prefix
  }

  /** Names with a prefix parse exactly if the prefix consists of digits, but for a sign at its head, and if the number
      that its digits and those of the index make is an int. */
  lemma PrefixedNameParses(prefix: string, index: nat)
    ensures ParseInt(CheckpointName(prefix, index)).Some? <==>
            AllDigits(Unsigned(prefix)) &&
            var v: int := ValueOf(Unsigned(prefix)) * Pow10(|Padded(index)|) + index;
            v <= if prefix != [] && prefix[0] == '-' then MAX_INT + 1 else MAX_INT
  {
    hide Padded, ValueOf, Pow10;
    var p, name, u := Padded(index), CheckpointName(prefix, index), Unsigned(prefix);
    PaddedValue(index);
    assert forall i :: 0 <= i < |prefix| ==> name[i] == prefix[i];
    assert name[|prefix|..] == p;
    assert AllDigits(name) <==> AllDigits(prefix);
    if AllDigits(u) {
      ValueConcat(u, p);
    }
    if prefix != [] {
      assert name[1..] == prefix[1..] + p;
      assert forall i :: 0 <= i < |prefix| - 1 ==> name[1..][i] == prefix[1..][i];
      assert AllDigits(name[1..]) <==> AllDigits(prefix[1..]);
    }
  }

  function Name(i: nat): string {
    CheckpointName("", i)
  }

  lemma NameInjective(i: nat, j: nat)
    requires Name(i) == Name(j)
    ensures i == j
  {
    hide Padded;
    PaddedValue(i);
    PaddedValue(j);
    assert "" + Padded(i) == Padded(i) && "" + Padded(j) == Padded(j);
  }

  /** Names have five digits exactly below 100000. */
  lemma NameWidth(i: nat)
    ensures AllDigits(Name(i)) && |Name(i)| >= 5 && (|Name(i)| == 5 <==> i < 100000)
  {
    hide ToString;
    LengthOfToString(i, 5);
    assert Pow10(1) == 10 && Pow10(2) == 100 && Pow10(3) == 1000 && Pow10(4) == 10000;
    assert Pow10(5) == 100000;
  }

  /** As long as they have five digits names are ordered as text like the checkpoints. */
  lemma NamesInOrder(i: nat, j: nat)
    requires i < 100000 && j < 100000
    ensures ArchiveTexts.Before(Name(i), Name(j)) <==> i < j
  {
    hide *;
    NameWidth(i);
    NameWidth(j);
    NameValue(i);
    NameValue(j);
    ArchiveTexts.DigitOrder(Name(i), Name(j));
  }

  lemma NameValue(i: nat)
    ensures AllDigits(Name(i)) && ValueOf(Name(i)) == i
  {
    hide ValueOf, Padded;
    PaddedValue(i);
    assert "" + Padded(i) == Padded(i);
  }

  // ----- directories on disk

  /** The names on disk are those of the directories, and the stamps theirs. */
  ghost predicate Represents(disk: map<string, bool>, dirs: map<nat, bool>) {
    && (forall i: nat :: i in dirs <==> Name(i) in disk)
    && (forall i: nat :: i in dirs ==> dirs[i] == disk[Name(i)])
    && (forall n :: n in disk ==> ParseInt(n).Some? && ParseInt(n).value >= 0 && Name(ParseInt(n).value) == n)
    && |disk| == |dirs|
  }

  lemma RepresentsAdded(disk: map<string, bool>, dirs: map<nat, bool>, i: nat, b: bool)
    requires Represents(disk, dirs) && i <= MAX_INT
    ensures Represents(disk[Name(i) := b], dirs[i := b])
  {
    hide Name, ParseInt;
    NameParsesBack(i);
    forall j: nat | Name(j) == Name(i) ensures j == i {
      NameInjective(i, j);
    }
    Sizes(disk, Name(i), b);
    Sizes(dirs, i, b);
  }

  lemma RepresentsRemoved(disk: map<string, bool>, dirs: map<nat, bool>, i: nat)
    requires Represents(disk, dirs) && i in dirs
    ensures Represents(disk - {Name(i)}, dirs - {i})
  {
    hide Name, ParseInt;
    forall j: nat | Name(j) == Name(i) ensures j == i {
      NameInjective(i, j);
    }
    SizeWithout(disk, Name(i));
    SizeWithout(dirs, i);
  }

  lemma NameParsesBack(i: nat)
    requires i <= MAX_INT || ParseInt(Name(i)).Some?
    ensures ParseInt(Name(i)) == Some(i)
  {
    hide CheckpointName, ParseInt;
    NameParses(i);
  }

  lemma Sizes<K>(m: map<K, bool>, k: K, b: bool)
    ensures |m[k := b]| == if k in m then |m| else |m| + 1
  {
    assert m[k := b].Keys == m.Keys + {k};
    assert |m| == |m.Keys| && |m[k := b]| == |m[k := b].Keys|;
  }

  lemma SizeWithout<K>(m: map<K, bool>, k: K)
    requires k in m
    ensures |m - {k}| == |m| - 1
  {
    assert (m - {k}).Keys == m.Keys - {k};
    assert |m| == |m.Keys| && |m - {k}| == |(m - {k}).Keys|;
  }

  /** The directory with the smallest index, found by its name. */
  lemma SmallestName(disk: map<string, bool>, dirs: map<nat, bool>, name: string)
    requires Represents(disk, dirs) && name in disk
    requires forall n :: n in disk ==> ParseInt(n).Some? && ParseInt(name).value <= ParseInt(n).value
    ensures dirs.Keys != {} && name == Name(Smallest(dirs.Keys))
  {
    hide Name, ParseInt, Smallest;
    var i: nat := ParseInt(name).value;
    assert i in dirs.Keys;
    var m := Smallest(dirs.Keys);
    assert Name(m) in disk;
    NameParsesBack(m);
  }

  lemma RepresentedNames(disk: map<string, bool>, dirs: map<nat, bool>)
    requires Represents(disk, dirs)
    ensures |disk| == |dirs| && forall n :: n in disk ==> ParseInt(n).Some?
  {
  }

  lemma NameOnDisk(disk: map<string, bool>, dirs: map<nat, bool>, i: nat)
    requires Represents(disk, dirs)
    ensures i in dirs <==> Name(i) in disk
  {
  }

  /** In a sound state the names on disk are those of the newest checkpoints, as many as there were but at most
      ten, and a stamp stands for a completed one. */
  lemma NewestOnDisk(disk: map<string, bool>, s: State)
    requires Represents(disk, s.dirs) && Sound(s) && Distinct(s.history)
    ensures |disk| == if |s.history| < 10 then |s.history| else 10
    ensures forall i: nat :: Name(i) in disk <==> i in Kept(s.history)
    ensures forall i: nat :: Name(i) in disk && disk[Name(i)] ==> i in s.completed
    ensures forall n :: n in disk ==> exists i: nat :: i in Kept(s.history) && n == Name(i)
  {
    hide Name, ParseInt, Kept;
    KeptDistinct(s.history);
    assert |s.dirs| == |s.dirs.Keys|;
    forall i: nat ensures Name(i) in disk <==> i in Kept(s.history) {
      assert i in Set(Kept(s.history)) <==> i in Kept(s.history);
      assert i in s.dirs <==> i in s.dirs.Keys;
    }
    forall n | n in disk ensures exists i: nat :: i in Kept(s.history) && n == Name(i) {
      var i: nat := ParseInt(n).value;
      assert n == Name(i);
    }
  }

  // ----- the code

  class Checkpointer {
    const prefix: string := ""
    /** The directories on disk, with whether they hold a validity stamp. */
    var disk: map<string, bool>
    var nextCheckpoint: nat
    var checkpointErrors: bool
    var checkpointInProgressDir: Option<string>
    /** A stamp outside any directory. */
    var strayStamp: bool
    /** The directories by index, the checkpoints in the order of their beginning, and the completed ones. */
    ghost var state: State

    ghost predicate Valid()
      reads this
    {
      checkpointInProgressDir == None && Represents(disk, state.dirs)
    }

    /** Starts over whatever directories there are, and always at 1. */
    constructor (disk: map<string, bool>, ghost existing: State)
      requires Represents(disk, existing.dirs)
      ensures Valid() && state == existing && this.disk == disk && nextCheckpoint == 1 && !checkpointErrors
    {
      this.disk := disk;
      nextCheckpoint := 1;
      checkpointErrors := false;
      checkpointInProgressDir := None;
      strayStamp := false;
      state := existing;
    }

    /** The names of the directories, in any order. */
    method ListFiles() returns (dirs: seq<string>)
      ensures |dirs| == |disk| && (forall n :: n in dirs <==> n in disk)
    {
      dirs := [];
      var rest := disk.Keys;
      while rest != {}
        invariant |dirs| + |rest| == |disk.Keys|
        invariant forall n :: n in dirs || n in rest <==> n in disk
        decreases rest
      {
        var n :| n in rest;
        rest := rest - {n};
        dirs := dirs + [n];
      }
    }

    /** The directory with the smallest index, or an exception when two names are to be compared
        and one does not parse. */
    method SmallestIndex(dirs: seq<string>) returns (smallest: Option<string>)
      requires |dirs| >= 2
      ensures smallest.Some? ==> smallest.value in dirs && ParseInt(smallest.value).Some?
      ensures smallest.Some? ==>
                forall n :: n in dirs ==> ParseInt(n).Some? && ParseInt(smallest.value).value <= ParseInt(n).value
      ensures smallest.None? <==> exists n :: n in dirs && ParseInt(n).None?
    {
      hide ParseInt;
      var smallIndexFile := dirs[0];
      for k := 1 to |dirs|
        invariant smallIndexFile in dirs && (k > 1 ==> ParseInt(smallIndexFile).Some?)
        invariant k > 1 ==>
            forall n :: n in dirs[..k] ==> ParseInt(n).Some? && ParseInt(smallIndexFile).value <= ParseInt(n).value
        invariant k == 1 ==> smallIndexFile == dirs[0]
      {
        var a, b := ParseInt(dirs[k]), ParseInt(smallIndexFile);
        if a.None? || b.None? {
          assert dirs[k] in dirs;
          return None;
        }
        assert dirs[..k + 1] == dirs[..k] + [dirs[k]];
        if a.value < b.value {
          smallIndexFile := dirs[k];
        }
      }
      assert dirs[..|dirs|] == dirs;
      smallest := Some(smallIndexFile);
    }

    /** Removes the directory with the smallest index when there are ten or more. */
    method Evict() returns (ok: bool)
      requires Represents(disk, state.dirs)
      modifies this`disk
      ensures ok && Represents(disk, Evicted(state.dirs))
    {
      hide Name, ParseInt, Smallest, Represents;
      var dirs := ListFiles();
      RepresentedNames(disk, state.dirs);
      ok := true;
      if |dirs| >= MAX_CHECKPOINT {
        var smallest := SmallestIndex(dirs);
        ok := smallest.Some?;
        SmallestName(disk, state.dirs, smallest.value);
        RepresentsRemoved(disk, state.dirs, Smallest(state.dirs.Keys));
        disk := disk - {smallest.value};
      }
    }

    /** Makes room, and then the next directory; one that exists is left as it is. */
    method CreateCheckpointInProgressDirectory() returns (ok: bool)
      requires Represents(disk, state.dirs) && nextCheckpoint <= MAX_INT
      modifies this`disk, this`checkpointInProgressDir
      ensures ok && Represents(disk, WithDirectory(state.dirs, nextCheckpoint))
      ensures checkpointInProgressDir == Some(Name(nextCheckpoint)) && Name(nextCheckpoint) in disk
    {
      hide Evicted, CheckpointName, Represents;
      ok := Evict();
      var name := CheckpointName(prefix, nextCheckpoint);
      checkpointInProgressDir := Some(name);
      NameOnDisk(disk, Evicted(state.dirs), nextCheckpoint);
      if name !in disk {
        RepresentsAdded(disk, Evicted(state.dirs), nextCheckpoint, false);
        disk := disk[name := false];
      }
    }

    /** Writes the stamp, or removes what there is of it when that fails; without a directory in progress it is
        a file outside. */
    method WriteValidity(written: bool)
      modifies this`disk, this`strayStamp
      ensures if checkpointInProgressDir.None? then disk == old(disk) && strayStamp == written
              else disk == old(disk)[checkpointInProgressDir.value := written] && strayStamp == old(strayStamp)
    {
      if checkpointInProgressDir.None? {
        strayStamp := written;
      } else {
        disk := disk[checkpointInProgressDir.value := written];
      }
    }

    /** One checkpoint.  The finally block writes the stamp unless an error was noted; when not even the request
        succeeds, what was noted is from the run before. */
    method Run(o: Outcome)
      requires Valid() && nextCheckpoint < MAX_INT
      modifies this
      ensures Valid() && nextCheckpoint == old(nextCheckpoint) + 1
      ensures state == AfterRun(old(state), old(nextCheckpoint), o)
      ensures checkpointErrors <==>
              match o
              case RequestFails(error, _) => !error || old(checkpointErrors)
              case NotPaused => true
              case WaitFails(error, _) => !error
              case Checkpointed(end, _) => end == Exception
      ensures strayStamp == if !o.Checkpointed? && !checkpointErrors then o.written else old(strayStamp)
    {
      hide Represents, Name, WithDirectory, Begun;
      ghost var next := nextCheckpoint;
      match o {
        case RequestFails(error, _) =>
          if !error {
            checkpointErrors := true;
          }
        case NotPaused =>
          checkpointErrors := true;
        case WaitFails(error, _) =>
          checkpointErrors := !error;
        case Checkpointed(end, _) =>
          checkpointErrors := false;
          var ok := CreateCheckpointInProgressDirectory();
          if !ok || end == Exception {
            checkpointErrors := true;
          }
      }
      if !checkpointErrors {
        if o.Checkpointed? {
          RepresentsAdded(disk, WithDirectory(state.dirs, next), next, o.written);
        }
        WriteValidity(o.written);
      }
      nextCheckpoint := nextCheckpoint + 1;
      checkpointInProgressDir := None;
      state := AfterRun(state, next, o);
    }

    /** Any number of checkpoints, one after the other. */
    method RunAll(outcomes: seq<Outcome>)
      requires Valid() && nextCheckpoint + |outcomes| <= MAX_INT
      modifies this
      ensures Valid() && nextCheckpoint == old(nextCheckpoint) + |outcomes|
      ensures state == After(old(state), old(nextCheckpoint), outcomes)
    {
      hide Represents, AfterRun;
      for k := 0 to |outcomes|
        invariant Valid() && nextCheckpoint == old(nextCheckpoint) + k
        invariant After(old(state), old(nextCheckpoint), outcomes) == After(state, nextCheckpoint, outcomes[k..])
      {
        assert outcomes[k..][1..] == outcomes[k + 1..];
        Run(outcomes[k]);
      }
    }
  }
}
