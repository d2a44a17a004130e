/** The already-seen filter: which URIs it lets through, over whole runs. */
module UriFilters {
  import opened FPGenerators
  import opened UriKeys

  // ----- one operation

  /** An operation on the filter; `fails` says that the store throws an exception during it. */
  datatype Op =
    | Add(uri: Chars, fails: bool)
    | AddNow(uri: Chars, fails: bool)
    | AddForce(uri: Chars, fails: bool)
    | Note(uri: Chars, fails: bool)
    | Forget(uri: Chars, fails: bool)

  datatype State = State(seen: set<bv64>, count: int, duplicates: int)

  /** The answers of the store; Failed stands for an exception. */
  datatype Status = Success | KeyExist | NotFound | Failed

  ghost function AfterSetAdd(s: State, uri: Chars, fails: bool): State {
    if fails || Key(uri) in s.seen then s else s.(seen := s.seen + {Key(uri)}, count := s.count + 1)
  }

  ghost function AfterSetRemove(s: State, uri: Chars, fails: bool): State {
    if fails || Key(uri) !in s.seen then s else s.(seen := s.seen - {Key(uri)}, count := s.count - 1)
  }

  /** Whether an addition finds the key present. */
  ghost predicate Refuses(s: State, uri: Chars, fails: bool) {
    !fails && Key(uri) in s.seen
  }

  ghost function After(s: State, op: Op): State {
    match op
    case Add(uri, fails) => AfterAdd(s, uri, fails)
    case AddNow(uri, fails) => AfterAdd(s, uri, fails)
    case AddForce(uri, fails) => AfterSetAdd(s, uri, fails)
    case Note(uri, fails) => AfterSetAdd(s, uri, fails)
    case Forget(uri, fails) => AfterSetRemove(s, uri, fails)
  }

  ghost function AfterAdd(s: State, uri: Chars, fails: bool): State {
    var t := AfterSetAdd(s, uri, fails);
    if Refuses(s, uri, fails) then t.(duplicates := t.duplicates + 1) else t
  }

  class BdbUriUniqFilter {
    const std24: FPGenerator
    const std40: FPGenerator
    var alreadySeen: set<bv64>
    var count: int
    var duplicateCount: int

    ghost predicate Valid()
      reads this, std24.byteModTable, std40.byteModTable
    {
      Standard(std24, std40)
    }

    ghost function Value(): State
      reads this
    {
      State(alreadySeen, count, duplicateCount)
    }

    /** Opens a store that may hold keys already. */
    constructor (std24: FPGenerator, std40: FPGenerator, stored: set<bv64>)
      requires Standard(std24, std40)
      ensures Valid() && Value() == State(stored, 0, 0)
    {
      hide Standard;
      this.std24 := std24;
      this.std40 := std40;
      alreadySeen := stored;
      count := 0;
      duplicateCount := 0;
    }

    method PutNoOverwrite(key: bv64, fails: bool) returns (status: Status)
      modifies this`alreadySeen
      ensures status == if fails then Failed else if key in old(alreadySeen) then KeyExist else Success
      ensures alreadySeen == if status == Success then old(alreadySeen) + {key} else old(alreadySeen)
    {
      if fails {
        status := Failed;
      } else if key in alreadySeen {
        status := KeyExist;
      } else {
        alreadySeen := alreadySeen + {key};
        status := Success;
      }
    }

    method Delete(key: bv64, fails: bool) returns (status: Status)
      modifies this`alreadySeen
      ensures status == if fails then Failed else if key in old(alreadySeen) then Success else NotFound
      ensures alreadySeen == if status == Success then old(alreadySeen) - {key} else old(alreadySeen)
    {
      if fails {
        status := Failed;
      } else if key in alreadySeen {
        alreadySeen := alreadySeen - {key};
        status := Success;
      } else {
        status := NotFound;
      }
    }

    /** Answers false only when the key was found present. */
    method SetAdd(uri: Chars, fails: bool) returns (added: bool)
      requires Valid()
      modifies this
      ensures Valid() && Value() == AfterSetAdd(old(Value()), uri, fails)
      ensures added <==> !Refuses(old(Value()), uri, fails)
    {
      hide Standard, Key;
      var key := CreateKey(std24, std40, uri);
      var status := PutNoOverwrite(key, fails);
      if status == Success {
        count := count + 1;
      }
      added := status != KeyExist;
    }

    method SetRemove(uri: Chars, fails: bool) returns (removed: bool)
      requires Valid()
      modifies this
      ensures Valid() && Value() == AfterSetRemove(old(Value()), uri, fails)
      ensures removed <==> !fails && Key(uri) in old(alreadySeen)
    {
      hide Standard, Key;
      var key := CreateKey(std24, std40, uri);
      var status := Delete(key, fails);
      if status == Success {
        count := count - 1;
        removed := true;
      } else {
        removed := false;
      }
    }

    method Add(uri: Chars, fails: bool) returns (passed: bool)
      requires Valid()
      modifies this
      ensures Valid() && Value() == After(old(Value()), Op.Add(uri, fails))
      ensures passed <==> !Refuses(old(Value()), uri, fails)
    {
      hide Standard, Key;
      passed := SetAdd(uri, fails);
      if !passed {
        duplicateCount := duplicateCount + 1;
      }
    }

    method AddNow(uri: Chars, fails: bool)
      requires Valid()
      modifies this
      ensures Valid() && Value() == After(old(Value()), Op.AddNow(uri, fails))
    {
      hide Standard, Key;
      var passed := Add(uri, fails);
    }

    method AddForce(uri: Chars, fails: bool)
      requires Valid()
      modifies this
      ensures Valid() && Value() == After(old(Value()), Op.AddForce(uri, fails))
    {
      hide Standard, Key;
      var added := SetAdd(uri, fails);
    }

    method Note(uri: Chars, fails: bool)
      requires Valid()
      modifies this
      ensures Valid() && Value() == After(old(Value()), Op.Note(uri, fails))
    {
      hide Standard, Key;
      var added := SetAdd(uri, fails);
    }

    method Forget(uri: Chars, fails: bool)
      requires Valid()
      modifies this
      ensures Valid() && Value() == After(old(Value()), Op.Forget(uri, fails))
    {
      hide Standard, Key;
      var removed := SetRemove(uri, fails);
    }
  }

  // ----- whole runs

  /** The state after a history of operations. */
  ghost function Run(s: State, history: seq<Op>): State {
    if history == [] then s else After(Run(s, history[..|history| - 1]), history[|history| - 1])
  }

  /** Whether a key is remembered, from the history alone: the last operation on that key that
      the store carried out decides, and before any the keys stored at the start. */
  ghost predicate Remembered(stored: set<bv64>, history: seq<Op>, key: bv64) {
    if history == [] then key in stored
    else
      var last := history[|history| - 1];
      if last.fails || Key(last.uri) != key then Remembered(stored, history[..|history| - 1], key)
      else !last.Forget?
  }

  /** An add or addNow that is refused. */
  ghost predicate RefusedAt(stored: set<bv64>, history: seq<Op>, i: nat)
    requires i < |history|
  {
    var op := history[i];
    (op.Add? || op.AddNow?) && !op.fails && Remembered(stored, history[..i], Key(op.uri))
  }

  ghost function Refusals(stored: set<bv64>, history: seq<Op>): nat {
    if history == [] then 0
    else Refusals(stored, history[..|history| - 1]) + if RefusedAt(stored, history, |history| - 1) then 1 else 0
  }

  lemma {:induction false} SeenIsRemembered(s: State, history: seq<Op>, key: bv64)
    ensures key in Run(s, history).seen <==> Remembered(s.seen, history, key)
  {
    hide Key;
    if history != [] {
      SeenIsRemembered(s, history[..|history| - 1], key);
    }
  }

  /** After any history, an add is let through exactly when the store fails or the key is not
      remembered. */
  lemma AddAnswersExactly(s: State, history: seq<Op>, uri: Chars, fails: bool)
    ensures Refuses(Run(s, history), uri, fails) <==> !fails && Remembered(s.seen, history, Key(uri))
  {
    hide Key;
    SeenIsRemembered(s, history, Key(uri));
  }

  lemma SetAddCounts(s: State, uri: Chars, fails: bool)
    ensures AfterSetAdd(s, uri, fails).count - s.count == |AfterSetAdd(s, uri, fails).seen| - |s.seen|
  {
    hide Key;
  }

  lemma SetRemoveCounts(s: State, uri: Chars, fails: bool)
    ensures AfterSetRemove(s, uri, fails).count - s.count == |AfterSetRemove(s, uri, fails).seen| - |s.seen|
  {
    hide Key;
  }

  lemma CountsOne(s: State, op: Op)
    ensures After(s, op).count - s.count == |After(s, op).seen| - |s.seen|
  {
    hide Key, AfterSetAdd, AfterSetRemove;
    SetAddCounts(s, op.uri, op.fails);
    SetRemoveCounts(s, op.uri, op.fails);
  }

  /** The counter is the number of keys stored minus the number stored at the start. */
  lemma {:induction false} CountIsStored(s: State, history: seq<Op>)
    ensures Run(s, history).count - s.count == |Run(s, history).seen| - |s.seen|
  {
    hide Key, After;
    if history != [] {
      CountIsStored(s, history[..|history| - 1]);
      CountsOne(Run(s, history[..|history| - 1]), history[|history| - 1]);
    }
  }

  /** duplicateCount is the number of refused additions. */
  lemma {:induction false} DuplicatesAreRefusals(s: State, history: seq<Op>)
    ensures Run(s, history).duplicates - s.duplicates == Refusals(s.seen, history)
  {
    hide Key;
    if history != [] {
      var before, op := history[..|history| - 1], history[|history| - 1];
      DuplicatesAreRefusals(s, before);
      SeenIsRemembered(s, before, Key(op.uri));
    }
  }

  /** A failing store never refuses a URI and changes nothing. */
  lemma FailureRefusesNothing(s: State, op: Op)
    requires op.fails
    ensures After(s, op) == s && !Refuses(s, op.uri, true)
  {
  }

  // ----- an exact set of URIs

  ghost function ExactAfter(known: set<Chars>, op: Op): set<Chars> {
    if op.fails then known else if op.Forget? then known - {op.uri} else known + {op.uri}
  }

  ghost function Exact(known: set<Chars>, history: seq<Op>): set<Chars> {
    if history == [] then known else ExactAfter(Exact(known, history[..|history| - 1]), history[|history| - 1])
  }

  ghost predicate NoCollisions(uris: set<Chars>) {
    forall u, v :: u in uris && v in uris && Key(u) == Key(v) ==> u == v
  }

  /** The keys are those of the known URIs. */
  ghost predicate Represents(s: State, known: set<Chars>, uris: set<Chars>) {
    known <= uris && forall u :: u in uris ==> (u in known <==> Key(u) in s.seen)
  }

  lemma {:induction false} ExactRuns(s: State, known: set<Chars>, uris: set<Chars>, history: seq<Op>)
    requires NoCollisions(uris) && Represents(s, known, uris)
    requires forall i :: 0 <= i < |history| ==> history[i].uri in uris
    ensures Represents(Run(s, history), Exact(known, history), uris)
  {
    hide Key;
    if history != [] {
      ExactRuns(s, known, uris, history[..|history| - 1]);
    }
  }

  /** As long as the URIs used have different keys, the filter is exact: over every run an add is
      refused exactly when that very URI is in the set. */
  lemma FilterIsExact(s: State, known: set<Chars>, uris: set<Chars>, history: seq<Op>, uri: Chars)
    requires NoCollisions(uris) && Represents(s, known, uris)
    requires uri in uris && forall i :: 0 <= i < |history| ==> history[i].uri in uris
    ensures Refuses(Run(s, history), uri, false) <==> uri in Exact(known, history)
  {
    hide Key;
    ExactRuns(s, known, uris, history);
  }

  /** And only then: when two of the URIs share a key, the filter refuses one it never saw. */
  lemma CollisionRefuses(s: State, known: set<Chars>, uris: set<Chars>, u: Chars, v: Chars)
    requires Represents(s, known, uris) && u in uris && v in uris
    requires Key(u) == Key(v) && u != v && v !in known
    ensures Refuses(Run(s, [Note(u, false)]), v, false) && v !in Exact(known, [Note(u, false)])
  {
    hide Key;
    var history := [Note(u, false)];
    assert history[..0] == [];
    assert Run(s, []) == s && Exact(known, []) == known;
  }
}
