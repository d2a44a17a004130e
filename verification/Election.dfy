/** Master election over ZooKeeper: any number of processes boot, contest the master znode, crash
    and lose sessions in any order. */
module Elections {
  import opened Options

  datatype Level = Master | Follower | Worker

  /** Progress of the main thread through the boot. */
  datatype Main = Booting | Creating | Constructing | Joining | Booted

  /** Progress of the watcher thread: through an election, or back to ZooKeeper after its session expired. */
  datatype Watch = Idle | Contesting | Promoting | Returning

  datatype Node = NoNode | MasterNode | FollowerNode

  /** A process: the level it was configured with, the level its context now holds, the two
      threads, the node it runs, and its ZooKeeper session. */
  datatype Process = Process(role: Level, level: Level, main: Main, watch: Watch, node: Node, session: nat, alive: bool)

  /** One atomic step of a process: a ZooKeeper call with its outcome, or the building of a node.
      Lost is a create that took effect although the caller only saw an exception. */
  datatype Event =
    | CheckMaster
    | Create
    | CreateFails
    | CreateLost
    | Construct
    | ConstructFails
    | Join
    | JoinFails
    | NoticeDeleted
    | ContestCreate
    | ContestFails
    | ContestLost
    | Promote
    | PromoteFails
    | Recreate
    | RecreateFails
    | Crash

  function Exited(p: Process): Process {
    p.(alive := false)
  }

  /** What a step does to the process and to the master znode, which holds the session of its
      owner.  An event that is not due changes nothing. */
  function Act(p: Process, znode: Option<nat>, e: Event): (Process, Option<nat>) {
    if !p.alive then (p, znode)
    else match e
      case CheckMaster =>
        if p.main != Booting then (p, znode)
        else if znode.None? then
          match p.level
          case Master => (p.(main := Creating), znode)
          case Follower => (p.(main := Creating, level := Master), znode)
          case Worker => (p.(main := Booted), znode)
        else if p.level == Master then (Exited(p), znode)
        else (p.(main := Joining), znode)
      case Create =>
        if p.main != Creating then (p, znode)
        else if znode.None? then (p.(main := Constructing), Some(p.session))
        else (Exited(p), znode)
      case CreateFails =>
        if p.main != Creating then (p, znode) else (Exited(p), znode)
      case CreateLost =>
        if p.main != Creating then (p, znode)
        else (Exited(p), if znode.None? then Some(p.session) else znode)
      case Construct =>
        if p.main != Constructing then (p, znode) else (p.(main := Booted, node := MasterNode), znode)
      case ConstructFails =>
        if p.main != Constructing then (p, znode) else (Exited(p), znode)
      case Join =>
        if p.main != Joining then (p, znode) else (p.(main := Booted, node := FollowerNode), znode)
      case JoinFails =>
        if p.main != Joining then (p, znode) else (Exited(p), znode)
      case NoticeDeleted =>
        if p.watch == Idle && p.level == Follower then (p.(watch := Contesting), znode) else (p, znode)
      case ContestCreate =>
        if p.watch != Contesting then (p, znode)
        else if znode.None? then (p.(watch := Promoting), Some(p.session))
        else (p.(watch := Idle), znode)
      case ContestFails =>
        if p.watch != Contesting then (p, znode) else (p.(watch := Idle), znode)
      case ContestLost =>
        if p.watch != Contesting then (p, znode)
        else (p.(watch := Idle), if znode.None? then Some(p.session) else znode)
      case Promote =>
        if p.watch != Promoting then (p, znode)
        else (p.(watch := Idle, node := if p.node == NoNode then NoNode else MasterNode), znode)
      case PromoteFails =>
        if p.watch != Promoting then (p, znode) else (p.(watch := Idle), znode)
      case Recreate =>
        if p.watch != Returning then (p, znode)
        else (p.(watch := Idle), if znode.None? then Some(p.session) else znode)
      case RecreateFails =>
        if p.watch != Returning then (p, znode) else (p.(watch := Idle), znode)
      case Crash => (Exited(p), znode)
  }

  /** A process with a new session; at level master its watcher sees to the znode. */
  function Expired(p: Process, session: nat): Process {
    p.(session := session, watch := if p.level == Master && p.watch == Idle then Returning else p.watch)
  }

  // ----- the code of one process

  class ZooKeeper {
    /** The session that owns the master znode, if there is one. */
    var master: Option<nat>

    constructor ()
      ensures master == None
    {
      master := None;
    }

    method Exists() returns (exists': bool)
      ensures exists' <==> master.Some?
    {
      exists' := master.Some?;
    }

    /** Creates the ephemeral master znode; fails when it exists. */
    method Create(session: nat) returns (created: bool)
      modifies this
      ensures created <==> old(master).None?
      ensures master == if created then Some(session) else old(master)
    {
      created := master.None?;
      if created {
        master := Some(session);
      }
    }
  }

  class SpiderProcess {
    const zk: ZooKeeper
    const role: Level
    var level: Level
    var main: Main
    var watch: Watch
    var node: Node
    var session: nat
    var alive: bool

    constructor (zk: ZooKeeper, role: Level, session: nat)
      ensures this.zk == zk && Value() == Process(role, role, Booting, Idle, NoNode, session, true)
    {
      this.zk := zk;
      this.role := role;
      level, main, watch, node, alive := role, Booting, Idle, NoNode, true;
      this.session := session;
    }

    function Value(): Process
      reads this
    {
      Process(role, level, main, watch, node, session, alive)
    }

    /** The boot looks for the master znode and branches on its level. */
    method BootCheck()
      requires alive && main == Booting
      modifies this
      ensures (Value(), zk.master) == Act(old(Value()), old(zk.master), CheckMaster)
    {
      var found := zk.Exists();
      if level == Master {
        if !found {
          main := Creating;
        } else {
          alive := false; // System.exit
        }
      } else if level == Follower {
        if !found {
          level := Master;
          main := Creating;
        } else {
          main := Joining;
        }
      } else {
        main := if !found then Booted else Joining;
      }
    }

    /** The boot creates the master znode; when that fails the process exits. */
    method BootCreate()
      requires alive && main == Creating
      modifies this, zk
      ensures (Value(), zk.master) == Act(old(Value()), old(zk.master), Event.Create)
    {
      var created := zk.Create(session);
      if created {
        main := Constructing;
      } else {
        alive := false; // System.exit
      }
    }

    method BootNode()
      requires alive && main == Constructing
      modifies this
      ensures (Value(), zk.master) == Act(old(Value()), old(zk.master), Construct)
    {
      node := MasterNode;
      main := Booted;
    }

    method BootJoin()
      requires alive && main == Joining
      modifies this
      ensures (Value(), zk.master) == Act(old(Value()), old(zk.master), Join)
    {
      node := FollowerNode;
      main := Booted;
    }

    /** The watcher hears that the master znode was deleted. */
    method MasterDeleted()
      requires alive && watch == Idle
      modifies this
      ensures (Value(), zk.master) == Act(old(Value()), old(zk.master), NoticeDeleted)
    {
      if level == Follower {
        watch := Contesting;
      }
    }

    /** The election contest: the znode is created or somebody else was first. */
    method ElectionCreate()
      requires alive && watch == Contesting
      modifies this, zk
      ensures (Value(), zk.master) == Act(old(Value()), old(zk.master), ContestCreate)
    {
      var created := zk.Create(session);
      watch := if created then Promoting else Idle;
    }

    /** The session expired: there is a new one, and a process of level master sees to the znode. */
    method SessionExpired(session: nat)
      requires alive
      modifies this
      ensures Value() == Expired(old(Value()), session)
    {
      this.session := session;
      if level == Master && watch == Idle {
        watch := Returning;
      }
    }

    /** It creates the znode if there is none, and overwrites its data, but not its owner, if there is one. */
    method MasterReturns()
      requires alive && watch == Returning
      modifies this, zk
      ensures (Value(), zk.master) == Act(old(Value()), old(zk.master), Recreate)
    {
      var found := zk.Exists();
      if !found {
        var created := zk.Create(session);
      }
      watch := Idle;
    }

    /** The winner closes its node and builds a master node. Without a node to close there is an exception, and
        none is built. */
    method ElectionPromote()
      requires alive && watch == Promoting
      modifies this
      ensures (Value(), zk.master) == Act(old(Value()), old(zk.master), Promote)
    {
      if node != NoNode {
        node := MasterNode;
      }
      watch := Idle;
    }
  }

  // ----- all processes together

  datatype System = System(procs: seq<Process>, znode: Option<nat>, nextSession: nat)

  datatype Step =
    /** A new process starts, at any level. */
    | Boot(role: Level)
    /** Process i makes a step. */
    | Step(i: nat, e: Event)
    /** The znode of a dead process disappears when its session times out. */
    | EphemeralGone
    /** A live process loses its session, and the znode with it if it owns that, and gets another session. */
    | Expires(i: nat)

  function Initial(): System {
    System([], None, 0)
  }

  predicate Owns(s: System, i: nat) {
    i < |s.procs| && s.znode == Some(s.procs[i].session)
  }

  function Apply(s: System, step: Step): System {
    match step
    case Boot(role) =>
      var p := Process(role, role, Booting, Idle, NoNode, s.nextSession, true);
      s.(procs := s.procs + [p], nextSession := s.nextSession + 1)
    case Step(i, e) =>
      if i >= |s.procs| then s
      else
        var (p, z) := Act(s.procs[i], s.znode, e);
        s.(procs := s.procs[i := p], znode := z)
    case EphemeralGone =>
      if exists i :: 0 <= i < |s.procs| && Owns(s, i) && !s.procs[i].alive then s.(znode := None) else s
    case Expires(i) =>
      if i < |s.procs| && s.procs[i].alive then Renewed(s, i).(znode := if Owns(s, i) then None else s.znode) else s
  }

  function Renewed(s: System, i: nat): System
    requires i < |s.procs|
  {
    s.(procs := s.procs[i := Expired(s.procs[i], s.nextSession)], nextSession := s.nextSession + 1)
  }

  function Run(s: System, steps: seq<Step>): System {
    if steps == [] then s else Apply(Run(s, steps[..|steps| - 1]), steps[|steps| - 1])
  }

  /** A live process that runs a master node. */
  predicate IsMaster(s: System, i: nat) {
    i < |s.procs| && s.procs[i].alive && s.procs[i].node == MasterNode
  }

  /** At most one live process has a master node, that process owns the master znode, and no
      worker ever has one. */
  ghost predicate Safe(s: System) {
    && (forall i: nat, j: nat :: IsMaster(s, i) && IsMaster(s, j) ==> i == j)
    && (forall i: nat :: IsMaster(s, i) ==> Owns(s, i))
    && (forall i :: 0 <= i < |s.procs| && s.procs[i].role == Worker ==> s.procs[i].node != MasterNode)
  }

  // ----- the invariant

  ghost predicate SessionsDistinct(s: System) {
    && (forall i :: 0 <= i < |s.procs| ==> s.procs[i].session < s.nextSession)
    && (forall i, j :: 0 <= i < j < |s.procs| ==> s.procs[i].session != s.procs[j].session)
  }

  /** It has a node to close, or its main thread may still build one. */
  predicate Promotable(p: Process) {
    p.node != NoNode || p.main == Joining || (p.main == Booting && p.level != Master)
  }

  /** A process that runs a master node, or may come to run one without creating the znode again. */
  predicate Claims(p: Process) {
    p.alive && (p.node == MasterNode || p.main == Constructing || (p.watch == Promoting && Promotable(p)))
  }

  predicate WorkerStays(p: Process) {
    p.role == Worker ==>
      p.level == Worker && p.node != MasterNode && p.main != Creating && p.main != Constructing && p.watch == Idle
  }

  ghost predicate Invariant(s: System) {
    && SessionsDistinct(s)
    && (s.znode.Some? ==> s.znode.value < s.nextSession)
    && (forall i :: 0 <= i < |s.procs| ==> (Claims(s.procs[i]) ==> Owns(s, i)))
    && (forall i :: 0 <= i < |s.procs| ==> WorkerStays(s.procs[i]))
  }

  lemma InvariantIsSafe(s: System)
    requires Invariant(s)
    ensures Safe(s)
  {
    forall i: nat, j: nat | IsMaster(s, i) && IsMaster(s, j)
      ensures i == j
    {
      assert Claims(s.procs[i]) && Claims(s.procs[j]);
    }
    forall i: nat | IsMaster(s, i)
      ensures Owns(s, i)
    {
      assert Claims(s.procs[i]);
    }
    forall i | 0 <= i < |s.procs| && s.procs[i].role == Worker
      ensures s.procs[i].node != MasterNode
    {
      assert WorkerStays(s.procs[i]);
    }
  }

  /** A process keeps its session and, when it comes to claim the znode, has just created it or
      claimed it before; it never takes the znode from another. */
  lemma ActKeeps(p: Process, znode: Option<nat>, e: Event)
    requires Claims(p) ==> znode == Some(p.session)
    requires WorkerStays(p)
    ensures var (p', z) := Act(p, znode, e);
            && p'.session == p.session && p'.role == p.role
            && (Claims(p') ==> z == Some(p.session))
            && (z != znode ==> znode.None? && z == Some(p.session))
            && WorkerStays(p')
  {
  }

  /** A process that claims the znode loses its session. */
  predicate Hurts(s: System, step: Step) {
    step.Expires? && step.i < |s.procs| && Claims(s.procs[step.i])
  }

  lemma BootKeeps(s: System, role: Level)
    requires Invariant(s)
    ensures Invariant(Apply(s, Boot(role)))
  {
    var t := Apply(s, Boot(role));
    assert forall i :: 0 <= i < |s.procs| ==> t.procs[i] == s.procs[i];
  }

  lemma ProcessKeeps(s: System, i: nat, e: Event)
    requires Invariant(s)
    ensures Invariant(Apply(s, Step(i, e)))
  {
    hide Act;
    if i < |s.procs| {
      var t := Apply(s, Step(i, e));
      ActKeeps(s.procs[i], s.znode, e);
      assert forall j :: 0 <= j < |s.procs| && j != i ==> t.procs[j] == s.procs[j];
    }
  }

  lemma RemovalKeeps(s: System)
    requires Invariant(s)
    ensures Invariant(Apply(s, EphemeralGone))
  {
    if Apply(s, EphemeralGone) != s {
      var i :| 0 <= i < |s.procs| && Owns(s, i) && !s.procs[i].alive;
      assert forall j :: 0 <= j < |s.procs| && Claims(s.procs[j]) ==> j == i;
    }
  }

  lemma ExpiryKeeps(s: System, i: nat)
    requires Invariant(s)
    ensures Invariant(Apply(s, Expires(i))) <==> !Hurts(s, Expires(i))
  {
    if i < |s.procs| && s.procs[i].alive {
      var t := Apply(s, Expires(i));
      assert forall j :: 0 <= j < |s.procs| && j != i ==> t.procs[j] == s.procs[j];
      assert t.procs[i] == Expired(s.procs[i], s.nextSession);
      assert Claims(t.procs[i]) <==> Claims(s.procs[i]);
      assert !Owns(t, i);
      if Owns(s, i) {
        assert forall j :: 0 <= j < |s.procs| && j != i ==> !Owns(s, j);
      }
    }
  }

  /** A step keeps the invariant if and only if it is not the expiry of a process that claims the znode. */
  lemma StepKeepsInvariant(s: System, step: Step)
    requires Invariant(s)
    ensures Invariant(Apply(s, step)) <==> !Hurts(s, step)
  {
    hide Invariant, Apply;
    match step
    case Boot(role) => BootKeeps(s, role);
    case Step(i, e) => ProcessKeeps(s, i, e);
    case EphemeralGone => RemovalKeeps(s);
    case Expires(i) => ExpiryKeeps(s, i);
  }

  /** No step of the run is the expiry of a process that claims the znode. */
  predicate Harmless(steps: seq<Step>) {
    steps == [] || (Harmless(steps[..|steps| - 1]) && !Hurts(Run(Initial(), steps[..|steps| - 1]), steps[|steps| - 1]))
  }

  /** In every interleaving in which no process that claims the znode loses its session, there is never more
      than one master. */
  lemma {:induction false} ElectionIsSafe(steps: seq<Step>)
    requires Harmless(steps)
    ensures Invariant(Run(Initial(), steps)) && Safe(Run(Initial(), steps))
  {
    hide Apply, Hurts, Invariant, Safe;
    if steps == [] {
      InitialInvariant();
    } else {
      var before, last := steps[..|steps| - 1], steps[|steps| - 1];
      ElectionIsSafe(before);
      StepKeepsInvariant(Run(Initial(), before), last);
    }
    InvariantIsSafe(Run(Initial(), steps));
  }

  lemma InitialInvariant()
    ensures Invariant(Initial())
  {
  }

  /** Safe after every part of the run, and after whatever happens next but for another expiry. */
  ghost predicate AlwaysSafe(steps: seq<Step>) {
    forall k, more :: 0 <= k <= |steps| && NoExpiry(more) ==> Safe(Run(Initial(), steps[..k] + more))
  }

  predicate NoExpiry(steps: seq<Step>) {
    forall j :: 0 <= j < |steps| ==> !steps[j].Expires?
  }

  lemma {:induction false} HarmlessPart(steps: seq<Step>, k: nat)
    requires Harmless(steps) && k <= |steps|
    ensures Harmless(steps[..k])
  {
    hide Hurts, Run;
    if k < |steps| {
      HarmlessPart(steps[..|steps| - 1], k);
      assert steps[..|steps| - 1][..k] == steps[..k];
    } else {
      assert steps[..k] == steps;
    }
  }

  lemma RunSnoc(s: System, steps: seq<Step>, step: Step)
    ensures Run(s, steps + [step]) == Apply(Run(s, steps), step)
  {
    hide Apply;
    assert (steps + [step])[..|steps|] == steps;
  }

  /** The first expiry that hurts. */
  lemma {:induction false} FirstHurt(steps: seq<Step>) returns (k: nat)
    requires !Harmless(steps)
    ensures k < |steps| && Harmless(steps[..k]) && Hurts(Run(Initial(), steps[..k]), steps[k])
  {
    hide Hurts, Run;
    var before := steps[..|steps| - 1];
    if Harmless(before) {
      k := |before|;
    } else {
      k := FirstHurt(before);
      assert before[..k] == steps[..k];
    }
  }

  lemma {:induction false} RunConcat(s: System, steps: seq<Step>, more: seq<Step>)
    ensures Run(s, steps + more) == Run(Run(s, steps), more)
  {
    hide Apply;
    if more == [] {
      assert steps + more == steps;
    } else {
      var before, last := more[..|more| - 1], more[|more| - 1];
      RunConcat(s, steps, before);
      assert steps + more == (steps + before) + [last];
      RunSnoc(s, steps + before, last);
    }
  }

  lemma {:induction false} HarmlessMore(steps: seq<Step>, more: seq<Step>)
    requires Harmless(steps) && NoExpiry(more)
    ensures Harmless(steps + more)
  {
    hide Run;
    if more == [] {
      assert steps + more == steps;
    } else {
      var before := more[..|more| - 1];
      HarmlessMore(steps, before);
      assert (steps + more)[..|steps + more| - 1] == steps + before;
    }
  }

  // ----- the expiry of a process that claims the znode

  /** A process boots as master while there is no master znode. */
  function Takeover(n: nat): seq<Step> {
    [Boot(Master), Step(n, CheckMaster), Step(n, Event.Create), Step(n, Construct)]
  }

  /** What process i still has to do to run a master node. */
  function Due(p: Process, i: nat): seq<Step> {
    if p.node == MasterNode then []
    else if p.main == Constructing then [Step(i, Construct)]
    else if p.node != NoNode then [Step(i, Promote)]
    else if p.main == Joining then [Step(i, Join), Step(i, Promote)]
    else [Step(i, CheckMaster), Step(i, Join), Step(i, Promote)]
  }

  lemma RunSteps(s: System, a: Step, b: Step, c: Step, d: Step)
    ensures Run(s, [a]) == Apply(s, a)
    ensures Run(s, [a, b]) == Apply(Apply(s, a), b)
    ensures Run(s, [a, b, c]) == Apply(Apply(Apply(s, a), b), c)
    ensures Run(s, [a, b, c, d]) == Apply(Apply(Apply(Apply(s, a), b), c), d)
  {
    hide Run, Apply;
    assert [] + [a] == [a] && [a] + [b] == [a, b] && [a, b] + [c] == [a, b, c] && [a, b, c] + [d] == [a, b, c, d];
    RunNothing(s);
    RunSnoc(s, [], a);
    RunSnoc(s, [a], b);
    RunSnoc(s, [a, b], c);
    RunSnoc(s, [a, b, c], d);
  }

  lemma TakenOver(s: System, i: nat)
    requires s.znode == None && i < |s.procs|
    ensures var t := Run(s, Takeover(|s.procs|));
            t.znode.Some? && IsMaster(t, |s.procs|) && t.procs[i] == s.procs[i]
  {
    hide Run;
    var n := |s.procs|;
    RunSteps(s, Boot(Master), Step(n, CheckMaster), Step(n, Event.Create), Step(n, Construct));
    var s1 := Apply(s, Boot(Master));
    assert s1.procs[n] == Process(Master, Master, Booting, Idle, NoNode, s.nextSession, true);
    assert s1.procs[i] == s.procs[i];
    var s2 := Apply(s1, Step(n, CheckMaster));
    assert s2.procs[n].main == Creating && s2.procs[i] == s.procs[i];
    var s3 := Apply(s2, Step(n, Event.Create));
    assert s3.procs[n].main == Constructing && s3.procs[i] == s.procs[i];
  }

  /** A step of another process leaves a master alone. */
  lemma StepOf(s: System, i: nat, e: Event, n: nat)
    requires i < |s.procs| && IsMaster(s, n) && i != n
    ensures var t := Apply(s, Step(i, e));
            && i < |t.procs| && (t.procs[i], t.znode) == Act(s.procs[i], s.znode, e) && IsMaster(t, n)
  {
    hide Act;
  }

  /** A follower that won the contest closes its node and becomes master. */
  lemma PromotedLast(s: System, i: nat, n: nat)
    requires i < |s.procs| && IsMaster(s, n) && i != n
    requires s.procs[i].alive && s.procs[i].watch == Promoting && s.procs[i].node != NoNode
    ensures var t := Apply(s, Step(i, Promote));
            IsMaster(t, i) && IsMaster(t, n)
  {
    hide Apply;
    StepOf(s, i, Promote, n);
  }

  lemma JoinedBefore(s: System, i: nat, n: nat)
    requires i < |s.procs| && IsMaster(s, n) && i != n
    requires s.procs[i].alive && s.procs[i].watch == Promoting && s.procs[i].main == Joining
    ensures var t := Apply(Apply(s, Step(i, Join)), Step(i, Promote));
            IsMaster(t, i) && IsMaster(t, n)
  {
    hide Apply;
    StepOf(s, i, Join, n);
    PromotedLast(Apply(s, Step(i, Join)), i, n);
  }

  /** Over a znode of another process it goes all the way. */
  lemma DueMakesMaster(s: System, i: nat, n: nat)
    requires i < |s.procs| && Claims(s.procs[i]) && s.znode.Some? && IsMaster(s, n) && i != n
    ensures var t := Run(s, Due(s.procs[i], i));
            IsMaster(t, i) && IsMaster(t, n)
  {
    hide Run, Apply;
    var p := s.procs[i];
    if p.node == MasterNode {
      RunNothing(s);
    } else if p.main == Constructing {
      RunSteps(s, Step(i, Construct), Step(i, Construct), Step(i, Construct), Step(i, Construct));
      StepOf(s, i, Construct, n);
    } else if p.node != NoNode {
      RunSteps(s, Step(i, Promote), Step(i, Promote), Step(i, Promote), Step(i, Promote));
      PromotedLast(s, i, n);
    } else if p.main == Joining {
      RunSteps(s, Step(i, Join), Step(i, Promote), Step(i, Promote), Step(i, Promote));
      JoinedBefore(s, i, n);
    } else {
      RunSteps(s, Step(i, CheckMaster), Step(i, Join), Step(i, Promote), Step(i, Promote));
      StepOf(s, i, CheckMaster, n);
      JoinedBefore(Apply(s, Step(i, CheckMaster)), i, n);
    }
  }

  lemma RunNothing(s: System)
    ensures Run(s, []) == s
  {
  }

  /** When a process that claims the znode loses its session, a process that boots afterwards becomes master, and
      the first one does as well with the steps it has left. */
  lemma ExpiryIsUnsafe(s: System, i: nat)
    requires Invariant(s) && Hurts(s, Expires(i))
    ensures var n := |s.procs|;
            var t := Run(Apply(s, Expires(i)), Takeover(n) + Due(s.procs[i], i));
            i != n && IsMaster(t, i) && IsMaster(t, n)
  {
    hide Run, Takeover;
    var n, t := |s.procs|, Apply(s, Expires(i));
    assert Owns(s, i) && t.znode == None && Claims(t.procs[i]) && Due(t.procs[i], i) == Due(s.procs[i], i);
    TakenOver(t, i);
    DueMakesMaster(Run(t, Takeover(n)), i, n);
    RunConcat(t, Takeover(n), Due(s.procs[i], i));
  }

  /** A run is always safe if and only if no process that claims the znode loses its session in it. */
  lemma AlwaysSafeIffHarmless(steps: seq<Step>)
    ensures AlwaysSafe(steps) <==> Harmless(steps)
  {
    hide Run, Apply, Safe, Invariant, Hurts, Harmless, NoExpiry;
    if Harmless(steps) {
      forall k, more | 0 <= k <= |steps| && NoExpiry(more) ensures Safe(Run(Initial(), steps[..k] + more)) {
        HarmlessPart(steps, k);
        HarmlessMore(steps[..k], more);
        ElectionIsSafe(steps[..k] + more);
      }
    } else {
      var k := FirstHurt(steps);
      HurtIsUnsafe(steps, k);
    }
  }

  lemma HurtIsUnsafe(steps: seq<Step>, k: nat)
    requires k < |steps| && Harmless(steps[..k]) && Hurts(Run(Initial(), steps[..k]), steps[k])
    ensures !AlwaysSafe(steps)
  {
    hide Run, Apply, Invariant, Harmless, Takeover, Due, IsMaster, Claims, NoExpiry;
    var i, before, after := steps[k].i, steps[..k], steps[..k + 1];
    var s := Run(Initial(), before);
    var more := Takeover(|s.procs|) + Due(s.procs[i], i);
    assert after == before + [Expires(i)];
    ElectionIsSafe(before);
    ExpiryIsUnsafe(s, i);
    RunSnoc(Initial(), before, Expires(i));
    RunConcat(Initial(), after, more);
    NoneExpires(s.procs[i], |s.procs|, i);
    assert !Safe(Run(Initial(), after + more));
  }

  lemma NoneExpires(p: Process, n: nat, i: nat)
    ensures NoExpiry(Takeover(n) + Due(p, i))
  {
  }

  /** Whenever a live master loses its session, a process that boots afterwards becomes a second one, and they
      remain two when the first one sees to the znode. */
  lemma ExpiryMakesTwoMasters(s: System, i: nat)
    requires Invariant(s) && IsMaster(s, i)
    ensures var n := |s.procs|;
            var t := Run(Apply(s, Expires(i)), Takeover(n));
            && i != n && IsMaster(t, i) && IsMaster(t, n)
            && IsMaster(Apply(t, Step(i, Recreate)), i) && IsMaster(Apply(t, Step(i, Recreate)), n)
  {
    hide Run, Apply, Invariant, Takeover;
    var n := |s.procs|;
    assert Takeover(n) + [] == Takeover(n);
    ExpiryIsUnsafe(s, i);
    var t := Run(Apply(s, Expires(i)), Takeover(n));
    StillMaster(t, i, i);
    StillMaster(t, i, n);
  }

  lemma StillMaster(s: System, i: nat, n: nat)
    requires IsMaster(s, n)
    ensures IsMaster(Apply(s, Step(i, Recreate)), n)
  {
  }

  // ----- every contest has a winner, and every boot an outcome

  /** Each of these processes tries to create the master znode, in this order. */
  function Contest(order: seq<nat>): seq<Step> {
    seq(|order|, k requires 0 <= k < |order| => Step(order[k], ContestCreate))
  }

  /** And each of them goes on as if it had won. */
  function Promotions(order: seq<nat>): seq<Step> {
    seq(|order|, k requires 0 <= k < |order| => Step(order[k], Promote))
  }

  ghost predicate Contestants(s: System, order: seq<nat>) {
    && (forall k :: 0 <= k < |order| ==> order[k] < |s.procs| && s.procs[order[k]].alive)
    && (forall k :: 0 <= k < |order| ==> s.procs[order[k]].watch == Contesting)
    && (forall k :: 0 <= k < |order| ==> s.procs[order[k]].node == FollowerNode)
    && (forall k, l :: 0 <= k < l < |order| ==> order[k] != order[l])
  }

  lemma ContestSnoc(order: seq<nat>, i: nat)
    ensures Contest(order + [i]) == Contest(order) + [Step(i, ContestCreate)]
    ensures Promotions(order + [i]) == Promotions(order) + [Step(i, Promote)]
    ensures Contest([]) == [] && Promotions([]) == []
  {
  }

  /** After a contest among the first ones. */
  ghost predicate Contested(s: System, t: System, order: seq<nat>) {
    && order != [] && order[0] < |s.procs| == |t.procs| && t.znode == Some(s.procs[order[0]].session)
    && (forall i :: 0 <= i < |s.procs| ==>
         t.procs[i] == if i == order[0] then s.procs[i].(watch := Promoting)
                       else if i in order then s.procs[i].(watch := Idle) else s.procs[i])
  }

  lemma OneMoreLoses(s: System, t: System, order: seq<nat>, i: nat)
    requires Contested(s, t, order) && i < |s.procs| && i !in order
    requires s.procs[i].alive && s.procs[i].watch == Contesting
    ensures Contested(s, Apply(t, Step(i, ContestCreate)), order + [i])
  {
    hide Act;
    var t' := Apply(t, Step(i, ContestCreate));
    Loses(t.procs[i], t.znode);
    assert t'.procs == t.procs[i := s.procs[i].(watch := Idle)] && t'.znode == t.znode;
  }

  lemma Loses(p: Process, znode: Option<nat>)
    requires p.alive && p.watch == Contesting && znode.Some?
    ensures Act(p, znode, ContestCreate) == (p.(watch := Idle), znode)
  {
  }

  lemma OneWins(s: System, i: nat)
    requires i < |s.procs| && s.procs[i].alive && s.procs[i].watch == Contesting && s.znode == None
    ensures Contested(s, Apply(s, Step(i, ContestCreate)), [i])
  {
  }

  /** Whoever comes first in a contest owns the znode, and the others are as they were before they heard of it. */
  lemma {:induction false} FirstWins(s: System, order: seq<nat>)
    requires Contestants(s, order) && order != [] && s.znode == None
    ensures Contested(s, Run(s, Contest(order)), order)
  {
    hide Run, Contest, Apply, Contested;
    var n := |order| - 1;
    var before, i := order[..n], order[n];
    assert order == before + [i];
    ContestSnoc(before, i);
    RunSnoc(s, Contest(before), Step(i, ContestCreate));
    if n == 0 {
      ContestSnoc([], i);
      RunNothing(s);
      OneWins(s, i);
    } else {
      FirstWins(s, before);
      assert i !in before && order[0] == before[0];
      OneMoreLoses(s, Run(s, Contest(before)), before, i);
    }
  }

  /** Over a znode with an owner going on makes a master of whoever won, and leaves the others alone. */
  lemma {:induction false} WinnerIsPromoted(s: System, order: seq<nat>, i: nat)
    requires i < |s.procs| && s.procs[i].alive && s.procs[i].watch == Promoting && s.procs[i].node != NoNode
    requires forall k :: 0 <= k < |order| ==> order[k] < |s.procs| && (order[k] == i || s.procs[order[k]].watch == Idle)
    ensures var t := Run(s, Promotions(order));
            t == if i in order then s.(procs := s.procs[i := s.procs[i].(watch := Idle, node := MasterNode)]) else s
  {
    hide Run, Promotions;
    if order == [] {
      ContestSnoc([], 0);
      RunNothing(s);
    } else {
      var n := |order| - 1;
      var before, j := order[..n], order[n];
      assert order == before + [j];
      ContestSnoc(before, j);
      RunSnoc(s, Promotions(before), Step(j, Promote));
      WinnerIsPromoted(s, before, i);
      var t := Run(s, Promotions(before));
      assert t.procs[j := t.procs[j]] == t.procs;
    }
  }

  /** Any number of followers contest a missing master in any order: the first becomes the master and owns the znode,
      and all others keep their follower nodes and go back to watching. */
  lemma EveryContestHasOneWinner(s: System, order: seq<nat>)
    requires Contestants(s, order) && order != [] && s.znode == None
    ensures var t := Run(s, Contest(order) + Promotions(order));
            && IsMaster(t, order[0]) && Owns(t, order[0])
            && |t.procs| == |s.procs|
            && (forall k :: 1 <= k < |order| ==>
                 t.procs[order[k]] == s.procs[order[k]].(watch := Idle) && t.procs[order[k]].node == FollowerNode)
  {
    hide Run, Contest, Promotions;
    FirstWins(s, order);
    RunConcat(s, Contest(order), Promotions(order));
    WinnerIsPromoted(Run(s, Contest(order)), order, order[0]);
  }

  /** A follower that hears of the missing master contests it, and alone it becomes the master. */
  lemma FollowerTakesOver(s: System, i: nat)
    requires i < |s.procs| && s.znode == None
    requires var p := s.procs[i]; p.alive && p.level == Follower && p.node == FollowerNode && p.watch == Idle
    ensures var t := Run(s, [Step(i, NoticeDeleted), Step(i, ContestCreate), Step(i, Promote)]);
            && IsMaster(t, i) && Owns(t, i) && |t.procs| == |s.procs|
            && forall j :: 0 <= j < |s.procs| && j != i ==> t.procs[j] == s.procs[j]
  {
    hide Run;
    var p := Promote;
    RunSteps(s, Step(i, NoticeDeleted), Step(i, ContestCreate), Step(i, p), Step(i, p));
    var s1 := Apply(s, Step(i, NoticeDeleted));
    assert s1.procs[i] == s.procs[i].(watch := Contesting) && s1.znode == None;
    var s2 := Apply(s1, Step(i, ContestCreate));
    assert s2.procs[i] == s.procs[i].(watch := Promoting) && s2.znode == Some(s.procs[i].session);
  }

  /** What a process that boots comes to, when nobody comes between: without a znode a follower, like a master, becomes
      the master, and a worker runs no node; with one a second master exits, and the others get follower nodes. */
  lemma BootOutcome(s: System, role: Level)
    ensures var n := |s.procs|;
            var t := if s.znode == None then
                       Run(s, [Boot(role), Step(n, CheckMaster), Step(n, Event.Create), Step(n, Construct)])
                     else Run(s, [Boot(role), Step(n, CheckMaster), Step(n, Join)]);
            && |t.procs| == n + 1 && (forall j :: 0 <= j < n ==> t.procs[j] == s.procs[j])
            && (if s.znode == None && role != Worker then IsMaster(t, n) && Owns(t, n) && t.procs[n].level == Master
                else t.znode == s.znode)
            && (if s.znode == None then role == Worker ==> t.procs[n].alive && t.procs[n].node == NoNode
                else if role == Master then !t.procs[n].alive
                else t.procs[n].alive && t.procs[n].node == FollowerNode && t.procs[n].level == role)
  {
    hide Run;
    var n := |s.procs|;
    var s1 := Apply(s, Boot(role));
    assert s1.procs[n] == Process(role, role, Booting, Idle, NoNode, s.nextSession, true);
    assert forall j :: 0 <= j < n ==> s1.procs[j] == s.procs[j];
    var s2 := Apply(s1, Step(n, CheckMaster));
    if s.znode == None {
      RunSteps(s, Boot(role), Step(n, CheckMaster), Step(n, Event.Create), Step(n, Construct));
      var s3 := Apply(s2, Step(n, Event.Create));
      assert role != Worker ==> s2.procs[n].main == Creating && s3.procs[n].main == Constructing;
    } else {
      RunSteps(s, Boot(role), Step(n, CheckMaster), Step(n, Join), Step(n, Join));
    }
  }

  /** A master whose session expires gets the znode back if it is the first to see to it. */
  lemma MasterComesBack(s: System, i: nat)
    requires Invariant(s) && IsMaster(s, i) && s.procs[i].level == Master && s.procs[i].watch == Idle
    ensures var t := Run(s, [Expires(i), Step(i, Recreate)]);
            IsMaster(t, i) && Owns(t, i) && Invariant(t)
  {
    hide Run, Invariant;
    RunSteps(s, Expires(i), Step(i, Recreate), Step(i, Recreate), Step(i, Recreate));
    assert Owns(s, i) by {
      OwnsIfMaster(s, i);
    }
    var s1 := Apply(s, Expires(i));
    assert s1.procs[i] == s.procs[i].(session := s.nextSession, watch := Returning) && s1.znode == None;
    var t := Apply(s1, Step(i, Recreate));
    assert t.procs == s.procs[i := s.procs[i].(session := s.nextSession)];
    NewSession(s, i, t);
  }

  lemma OwnsIfMaster(s: System, i: nat)
    requires Invariant(s) && IsMaster(s, i)
    ensures Owns(s, i)
  {
    assert Claims(s.procs[i]);
  }

  lemma NewSession(s: System, i: nat, t: System)
    requires Invariant(s) && i < |s.procs| && Owns(s, i) && t.nextSession == s.nextSession + 1
    requires t.procs == s.procs[i := s.procs[i].(session := s.nextSession)] && t.znode == Some(s.nextSession)
    ensures Invariant(t)
  {
    assert forall j :: 0 <= j < |s.procs| && j != i ==> !Owns(s, j);
  }

  /** A create whose reply is lost is a failure to the process and a success to the znode. */
  lemma LostReply(p: Process, znode: Option<nat>)
    requires p.alive
    ensures p.main == Creating ==>
              Act(p, znode, CreateLost) == (Act(p, znode, CreateFails).0, Act(p, znode, Event.Create).1)
              && Act(p, znode, CreateFails) == (Exited(p), znode)
    ensures p.watch == Contesting ==>
              Act(p, znode, ContestLost) == (Act(p, znode, ContestFails).0, Act(p, znode, ContestCreate).1)
              && Act(p, znode, ContestFails) == (p.(watch := Idle), znode)
  {
  }

  /** Who was started as a master never takes part in a contest. */
  lemma {:induction false} MastersNeverContest(steps: seq<Step>, i: nat)
    requires i < |Run(Initial(), steps).procs| && Run(Initial(), steps).procs[i].role == Master
    ensures var p := Run(Initial(), steps).procs[i];
            p.level == Master && (p.watch == Idle || p.watch == Returning)
  {
    hide Run;
    if steps == [] {
      RunNothing(Initial());
    } else {
      var before, last := steps[..|steps| - 1], steps[|steps| - 1];
      assert steps == before + [last];
      RunSnoc(Initial(), before, last);
      OneMoreStep(Run(Initial(), before), last, i);
      if i < |Run(Initial(), before).procs| {
        MastersNeverContest(before, i);
      }
    }
  }

  predicate MasterStays(p: Process) {
    p.role == Master ==> p.level == Master && (p.watch == Idle || p.watch == Returning)
  }

  lemma OneMoreStep(s: System, step: Step, i: nat)
    requires i < |Apply(s, step).procs|
    ensures i < |s.procs| ==> Apply(s, step).procs[i].role == s.procs[i].role
    ensures (i < |s.procs| ==> MasterStays(s.procs[i])) ==> MasterStays(Apply(s, step).procs[i])
  {
  }
}
