/** The master/worker protocol of dagster/Master.cpp and dagster/Worker.cpp. The master's loop is a class over a
    MasterOrganiser; the whole system is a transition relation over per-worker first-in first-out channels. */
module Protocol {
  import opened Logic
  import opened Organiser

  /** Tags from the master, a new assignment with its message, and tags from a worker. */
  datatype Reply = NewAssignment(m: nat) | PollReply | Kill
  datatype Report = Solution | RequestForAssignment | PollForReassignment

  /** What the master keeps of its workers, its termination flag, the subgraphs it has a solution of in the mode that wants one for each,
      and how many solutions it has kept. */
  datatype MasterState = MasterState(working: seq<Slot>, toBe: seq<Slot>, polled: seq<bool>, refresh: seq<bool>, buffer: seq<nat>,
                                     terminate: bool, finished: set<int>, solutions: nat)

  /** The node a message is for, and that node's subgraph. */
  datatype Graph = Graph(node: nat -> nat, subgraph: nat -> int)

  ghost predicate MasterOk(w: nat, s: MasterState) {
    && |s.working| == |s.toBe| == |s.polled| == |s.refresh| == w
    && InBuffer(s.working, s.buffer) && InBuffer(s.toBe, s.buffer) && NoDuplicates(s.buffer) && |s.buffer| <= w
  }

  // ------------------------------------------------------ one turn of the master

  /** What is sent to a worker at the top of the loop, alloc being its balanced reassignment, and what is noted of it. */
  ghost predicate Replied(terminate: bool, polled: bool, working: Slot, alloc: Slot, refresh: bool,
                          out: seq<Reply>, polled': bool, working': Slot, toBe': Slot, refresh': bool) {
    if terminate || !polled then out == [] && working' == working && toBe' == alloc && polled' == polled && refresh' == refresh
    else if alloc.Some? then out == [NewAssignment(alloc.m)] && working' == alloc && toBe' == None && !polled' && !refresh'
    else out == [PollReply] && working' == working && toBe' == None && !polled' && refresh' == refresh
  }

  ghost predicate RepliedTo(s: MasterState, t: MasterState, alloc: seq<Slot>, out: seq<seq<Reply>>, i: nat)
    requires i < |s.working| == |t.working| == |t.toBe| == |s.polled| == |t.polled| == |s.refresh| == |t.refresh| == |alloc| == |out|
  {
    Replied(t.terminate, s.polled[i], s.working[i], alloc[i], s.refresh[i], out[i], t.polled[i], t.working[i], t.toBe[i], t.refresh[i])
  }

  /** From the top of the loop to the blocking receive: messages are generated while there are fewer than workers, the
      workload is balanced, and every polled worker is answered; or, when terminating with all workers polled, they are killed. */
  ghost predicate TopStep(w: nat, s: MasterState, t: MasterState, alloc: seq<Slot>, out: seq<seq<Reply>>, done: bool) {
    && MasterOk(w, s) && MasterOk(w, t) && |out| == |alloc| == w
    && s.buffer <= t.buffer && (s.terminate ==> t.buffer == s.buffer) && t.finished == s.finished && t.solutions == s.solutions
    && t.terminate == (s.terminate || t.buffer == [])
    && done == (t.terminate && forall i :: 0 <= i < w ==> s.polled[i])
    && if done then
         t == s.(buffer := t.buffer, terminate := true) && forall i :: 0 <= i < w ==> out[i] == [Kill]
       else
         && Allocated(s.working, t.buffer, s.toBe, alloc) && InBuffer(alloc, t.buffer) && Balanced(Targets(s.working, alloc), t.buffer)
         && forall i :: 0 <= i < w ==> RepliedTo(s, t, alloc, out, i)
  }

  /** The messages that are not for finished subgraphs, in order. */
  function Unfinished(g: Graph, finished: set<int>, supply: seq<nat>): seq<nat> {
    if supply == [] then []
    else
      var front, m := Unfinished(g, finished, supply[..|supply| - 1]), supply[|supply| - 1];
      if g.subgraph(m) in finished then front else front + [m]
  }

  /** Messages are taken from the supply in order, those of finished subgraphs being dropped, until there are as many as workers. */
  ghost predicate Takes(w: nat, g: Graph, s: MasterState, supply: seq<nat>, rest: seq<nat>, buffer: seq<nat>) {
    && |rest| <= |supply| && var k := |supply| - |rest|;
    && rest == supply[k..] && buffer == s.buffer + Unfinished(g, s.finished, supply[..k])
    && (rest != [] ==> s.terminate || |buffer| >= w)
    && (k > 0 ==> !s.terminate && |s.buffer + Unfinished(g, s.finished, supply[..k - 1])| < w)
  }

  /** The same of sets: messages move from the supply, those the solutions interface can still generate, to the buffer; fewer messages
      than workers are left only if the supply has run dry. */
  ghost predicate Generates(w: nat, g: Graph, s: MasterState, supply: set<nat>, supply': set<nat>, dropped: set<nat>,
                            buffer: seq<nat>) {
    && s.buffer <= buffer && (forall m :: m in supply' ==> m !in buffer && m !in dropped)
    && (forall m :: m in supply <==> m in supply' || m in dropped || (m in buffer && m !in s.buffer))
    && (forall m :: m in dropped ==> g.subgraph(m) in s.finished)
    && (forall m :: m in buffer && m !in s.buffer ==> g.subgraph(m) !in s.finished)
    && (s.terminate ==> supply' == supply && buffer == s.buffer)
    && (!s.terminate && |buffer| < w ==> supply' == {})
  }

  /** Some messages leave the buffer, and with them every worker's reference to them. */
  ghost predicate Pruned(s: MasterState, t: MasterState) {
    && |t.working| == |s.working| && |t.toBe| == |s.toBe| && NoDuplicates(t.buffer) && |t.buffer| <= |s.buffer|
    && (forall m :: m in t.buffer ==> m in s.buffer)
    && (forall i :: 0 <= i < |s.working| ==> t.working[i] == if s.working[i].Some? && s.working[i].m in t.buffer then s.working[i] else None)
    && (forall i :: 0 <= i < |s.toBe| ==> t.toBe[i] == if s.toBe[i].Some? && s.toBe[i].m in t.buffer then s.toBe[i] else None)
  }

  /** The other workers on messages for the node of worker i's message are to be refreshed. */
  ghost function Refreshed(g: Graph, s: MasterState, i: nat): seq<bool>
    requires i < |s.working| == |s.refresh|
  {
    seq(|s.refresh|, j requires 0 <= j < |s.refresh| =>
      s.refresh[j] || (j != i && s.working[i].Some? && s.working[j].Some? && g.node(s.working[j].m) == g.node(s.working[i].m)))
  }

  /** Whether a solution ends the search: the modes that want one solution only. */
  predicate Ends(mode: int) {
    mode == 0 || mode == 3
  }

  /** A solution of a terminal node is kept unless the master is terminating already, when it does nothing but the refresh. In the mode
      that wants one solution for each subgraph the message of the worker and all messages of the solved subgraph are dropped. */
  ghost predicate TakesSolution(g: Graph, mode: int, s: MasterState, t: MasterState, i: nat, terminal: bool, solved: int)
    requires i < |s.working| == |s.refresh|
  {
    if s.terminate || !terminal then t == s.(refresh := Refreshed(g, s, i))
    else
      var r := s.(refresh := Refreshed(g, s, i), solutions := s.solutions + 1);
      if Ends(mode) then t == r.(terminate := true)
      else if mode == 2 && s.working[i].Some? then
        && t == r.(finished := s.finished + {solved}, working := t.working, toBe := t.toBe, buffer := t.buffer) && Pruned(s, t)
        && forall m :: m in t.buffer <==> m in s.buffer && g.subgraph(m) != solved && s.working[i] != Some(m)
      else t == r
  }

  /** The master handles a report of worker i. */
  ghost predicate ReceiveStep(w: nat, g: Graph, mode: int, s: MasterState, t: MasterState, i: nat, report: Report,
                              terminal: bool, solved: int) {
    && MasterOk(w, s) && MasterOk(w, t) && i < w
    && match report
       case Solution => TakesSolution(g, mode, s, t, i, terminal, solved)
       case RequestForAssignment =>
         && t == s.(polled := s.polled[i := true], working := t.working, toBe := t.toBe, buffer := t.buffer) && Pruned(s, t)
         && forall m :: m in t.buffer <==> m in s.buffer && s.working[i] != Some(m)
       case PollForReassignment =>
         t == s.(polled := s.polled[i := true], working := s.working[i := if s.refresh[i] then None else s.working[i]])
  }

  /** In every mode a solution that is not one of a terminal node, or that comes too late, changes no more than the marks for a refresh. */
  lemma OtherSolutions(w: nat, g: Graph, mode: int, s: MasterState, t: MasterState, i: nat, terminal: bool, solved: int)
    requires ReceiveStep(w, g, mode, s, t, i, Solution, terminal, solved) && (s.terminate || !terminal)
    ensures t == s.(refresh := t.refresh)
  {
  }

  lemma PrunedNothing(s: MasterState, t: MasterState)
    requires NoDuplicates(s.buffer) && InBuffer(s.working, s.buffer) && InBuffer(s.toBe, s.buffer)
    requires t.buffer == s.buffer && t.working == s.working && t.toBe == s.toBe
    ensures Pruned(s, t)
  {
  }

  /** A removal after others. */
  lemma PrunedMore(s0: MasterState, s: MasterState, t: MasterState, m: nat)
    requires Pruned(s0, s) && NoDuplicates(t.buffer) && |t.buffer| <= |s.buffer| && forall x :: x in t.buffer <==> x in s.buffer && x != m
    requires t.working == Cleared(s.working, m) && t.toBe == Cleared(s.toBe, m)
    ensures Pruned(s0, t)
  {
    hide NoDuplicates;
  }

  lemma SlotForgotten(slots: seq<Slot>, i: nat, buffer: seq<nat>)
    requires InBuffer(slots, buffer) && i < |slots|
    ensures InBuffer(slots[i := None], buffer)
  {
  }

  function Listed(s: seq<nat>): set<nat> {
    set m | m in s
  }

  lemma Ahead(supply: seq<nat>, k: nat)
    requires NoDuplicates(supply) && k < |supply|
    ensures supply[k] !in supply[..k]
  {
  }

  lemma Split(supply: seq<nat>, k: nat)
    requires NoDuplicates(supply) && k <= |supply|
    ensures forall m :: m in supply <==> m in supply[..k] || m in supply[k..]
    ensures forall m :: m in supply[k..] ==> m !in supply[..k]
  {
    assert supply == supply[..k] + supply[k..];
  }

  class Master {
    const organiser: MasterOrganiser
    var terminate: bool
    var finished: set<int>
    var solutions: nat

    constructor (workers: nat)
      ensures Valid() && fresh(organiser) && organiser.numWorkers == workers && !terminate && organiser.buffer == [] && finished == {}
      ensures solutions == 0
      ensures forall i :: 0 <= i < workers ==> organiser.polled[i] && organiser.working[i] == None
    {
      organiser := new MasterOrganiser(workers);
      terminate := false;
      finished := {};
      solutions := 0;
    }

    ghost predicate Valid()
      reads this, organiser
    {
      organiser.Valid() && |organiser.buffer| <= organiser.numWorkers
    }

    ghost function St(): MasterState
      reads this, organiser
    {
      MasterState(organiser.working, organiser.toBeAssigned, organiser.polled, organiser.needsRefresh, organiser.buffer,
                  terminate, finished, solutions)
    }

    /** The loop body up to the receive. supply holds the messages the solutions interface can still generate, in order, and rest those
        it can generate afterwards. */
    method Top(supply: seq<nat>, g: Graph)
      returns (out: seq<seq<Reply>>, rest: seq<nat>, done: bool, ghost alloc: seq<Slot>, ghost dropped: set<nat>)
      requires Valid() && NoDuplicates(supply) && forall m :: m in supply ==> m !in organiser.buffer
      modifies this`terminate, organiser
      ensures Valid() && TopStep(organiser.numWorkers, old(St()), St(), alloc, out, done)
      ensures Takes(organiser.numWorkers, g, old(St()), supply, rest, organiser.buffer)
      ensures Generates(organiser.numWorkers, g, old(St()), Listed(supply), Listed(rest), dropped, organiser.buffer)
    {
      hide Balanced;
      hide Allocated;
      hide Takes;
      hide Replied;
      hide InBuffer;
      hide NoDuplicates;
      hide Generates;
      rest, dropped := Generate(supply, g);
      if |organiser.buffer| == 0 {
        terminate := true;
      }
      alloc := organiser.toBeAssigned;
      done := terminate;
      if terminate {
        for i := 0 to organiser.numWorkers
          invariant done <==> forall j :: 0 <= j < i ==> organiser.polled[j]
        {
          done := done && organiser.polled[i];
        }
      }
      if done {
        out := seq(organiser.numWorkers, i => [Kill]);
        return;
      }
      organiser.AllocateAssignments();
      alloc := organiser.toBeAssigned;
      ghost var mid := St();
      out := ReplyAll();
      forall i | 0 <= i < organiser.numWorkers ensures RepliedTo(old(St()), St(), alloc, out, i) {
        assert RepliedTo(mid, St(), alloc, out, i);
      }
    }

    /** Generates messages while there are fewer than workers. */
    method Generate(supply: seq<nat>, g: Graph) returns (rest: seq<nat>, ghost dropped: set<nat>)
      requires Valid() && NoDuplicates(supply) && forall m :: m in supply ==> m !in organiser.buffer
      modifies organiser`buffer
      ensures Valid() && old(organiser.buffer) <= organiser.buffer && (terminate ==> organiser.buffer == old(organiser.buffer))
      ensures Takes(organiser.numWorkers, g, old(St()), supply, rest, organiser.buffer)
      ensures Generates(organiser.numWorkers, g, old(St()), Listed(supply), Listed(rest), dropped, organiser.buffer)
    {
      var k := 0;
      dropped := {};
      ghost var buffer0 := organiser.buffer;
      while !terminate && |organiser.buffer| < organiser.numWorkers && k < |supply|
        invariant Valid() && 0 <= k <= |supply| && buffer0 <= organiser.buffer && (terminate ==> k == 0)
        invariant organiser.buffer == buffer0 + Unfinished(g, finished, supply[..k])
        invariant k > 0 ==> |buffer0 + Unfinished(g, finished, supply[..k - 1])| < organiser.numWorkers
        invariant forall m :: m in supply[..k] <==> m in dropped || (m in organiser.buffer && m !in buffer0)
        invariant forall m :: m in dropped ==> g.subgraph(m) in finished && m !in organiser.buffer
        invariant forall m :: m in organiser.buffer && m !in buffer0 ==> g.subgraph(m) !in finished
        invariant k == 0 ==> organiser.buffer == buffer0
        decreases |supply| - k
      {
        Ahead(supply, k);
        assert supply[..k + 1] == supply[..k] + [supply[k]];
        assert supply[..k + 1][..k] == supply[..k];
        if g.subgraph(supply[k]) in finished {
          dropped := dropped + {supply[k]};
        } else {
          organiser.AddMessage(supply[k]);
        }
        k := k + 1;
      }
      rest := supply[k..];
      Split(supply, k);
    }

    /** Answers the polled workers, unless terminating. */
    method ReplyAll() returns (out: seq<seq<Reply>>)
      requires Valid()
      modifies organiser`working, organiser`toBeAssigned, organiser`polled, organiser`needsRefresh
      ensures Valid() && |out| == organiser.numWorkers
      ensures forall i :: 0 <= i < organiser.numWorkers ==> RepliedTo(old(St()), St(), old(organiser.toBeAssigned), out, i)
    {
      out := [];
      ghost var s := St();
      for i := 0 to organiser.numWorkers
        invariant Valid() && |out| == i
        invariant forall j :: i <= j < organiser.numWorkers ==>
          organiser.working[j] == s.working[j] && organiser.toBeAssigned[j] == s.toBe[j]
          && organiser.polled[j] == s.polled[j] && organiser.needsRefresh[j] == s.refresh[j]
        invariant forall j :: 0 <= j < i ==>
          Replied(terminate, s.polled[j], s.working[j], s.toBe[j], s.refresh[j], out[j],
                  organiser.polled[j], organiser.working[j], organiser.toBeAssigned[j], organiser.needsRefresh[j])
      {
        if !terminate && organiser.polled[i] {
          match organiser.toBeAssigned[i] {
            case Some(m) =>
              out := out + [[NewAssignment(m)]];
              organiser.working := organiser.working[i := organiser.toBeAssigned[i]];
              organiser.toBeAssigned := organiser.toBeAssigned[i := None];
              organiser.needsRefresh := organiser.needsRefresh[i := false];
            case None =>
              out := out + [[PollReply]];
          }
          organiser.polled := organiser.polled[i := false];
        } else {
          out := out + [[]];
        }
      }
    }

    /** The blocking receive and what follows it. terminal says whether a solution is one of a terminal node, solved is its subgraph,
        mode the enumeration mode. */
    method Receive(i: nat, report: Report, mode: int, terminal: bool, solved: int, g: Graph)
      requires Valid() && i < organiser.numWorkers
      modifies this`terminate, this`finished, this`solutions, organiser
      ensures Valid() && ReceiveStep(organiser.numWorkers, g, mode, old(St()), St(), i, report, terminal, solved)
    {
      hide NoDuplicates;
      hide InBuffer;
      ghost var s := St();
      PrunedNothing(s, s);
      match report {
        case RequestForAssignment =>
          if organiser.working[i].Some? {
            Remove(organiser.working[i].m, s);
          }
          organiser.polled := organiser.polled[i := true];
        case Solution =>
          if organiser.working[i].Some? {
            organiser.RefreshExcept(organiser.working[i].m, i, g.node);
          }
          assert organiser.needsRefresh == Refreshed(g, s, i);
          if !terminate && terminal {
            solutions := solutions + 1;
            if mode == 2 {
              if organiser.working[i].Some? {
                finished := finished + {solved};
                PrunedNothing(s, St());
                FinishSubgraph(organiser.working[i].m, solved, g, s);
              }
            } else if mode == 0 || mode == 3 {
              terminate := true;
            }
          }
        case PollForReassignment =>
          if organiser.working[i].Some? && organiser.needsRefresh[i] {
            SlotForgotten(organiser.working, i, organiser.buffer);
            organiser.working := organiser.working[i := None];
          }
          organiser.polled := organiser.polled[i := true];
      }
    }

    /** remove_message, seen from the state s0. */
    method Remove(m: nat, ghost s0: MasterState)
      requires Valid() && Pruned(s0, St())
      modifies organiser`working, organiser`toBeAssigned, organiser`buffer
      ensures Valid() && Pruned(s0, St()) && |organiser.buffer| <= |old(organiser.buffer)|
      ensures m in old(organiser.buffer) ==> |organiser.buffer| < |old(organiser.buffer)|
      ensures forall x :: x in organiser.buffer <==> x in old(organiser.buffer) && x != m
      ensures RemovedFrom(old(organiser.buffer), organiser.buffer, m)
    {
      ghost var s := St();
      organiser.RemoveMessage(m);
      RemovedMembers(s.buffer, organiser.buffer, m);
      PrunedMore(s0, s, St(), m);
    }

    /** In the mode that wants one solution for every subgraph: drops the finished message and all others of its subgraph. */
    method FinishSubgraph(m: nat, solved: int, g: Graph, ghost s: MasterState)
      requires Valid() && Pruned(s, St()) && s.buffer == organiser.buffer
      modifies organiser`working, organiser`toBeAssigned, organiser`buffer
      ensures Valid() && Pruned(s, St())
      ensures forall x :: x in organiser.buffer <==> x in old(organiser.buffer) && g.subgraph(x) != solved && x != m
    {
      hide NoDuplicates;
      hide InBuffer;
      hide Pruned;
      Remove(m, s);
      var j := 0;
      while j < |organiser.buffer|
        invariant Valid() && 0 <= j <= |organiser.buffer| && Pruned(s, St())
        invariant forall k :: 0 <= k < j ==> g.subgraph(organiser.buffer[k]) != solved
        invariant forall x :: x in organiser.buffer ==> x in s.buffer && x != m
        invariant forall x :: x in s.buffer && x != m && g.subgraph(x) != solved ==> x in organiser.buffer
        decreases |organiser.buffer| - j
      {
        if g.subgraph(organiser.buffer[j]) == solved {
          var x := organiser.buffer[j];
          SwapOutMembers(organiser.buffer, j);
          ghost var before := organiser.buffer;
          Remove(x, s);
          assert organiser.buffer[..j] == before[..j];
        } else {
          j := j + 1;
        }
      }
    }
  }

  // ------------------------------------------------------------- the system

  /** A worker: messages on their way to it and from it, whether it is solving, its loaded assignment, and whether it has
      asked for another one since. */
  datatype WorkerState = WorkerState(inbox: seq<Reply>, outbox: seq<Report>, busy: bool, dead: bool, loaded: Slot, finished: bool)

  datatype Pc = AtTop | AtReceive | Stopped

  /** supply: messages the solutions interface can still generate; generated: those the master has put in its buffer; exhausted: those
      for which a worker holding them has asked for a new assignment. */
  datatype Config = Config(master: MasterState, pc: Pc, workers: seq<WorkerState>, supply: set<nat>, generated: set<nat>, exhausted: set<nat>)

  ghost predicate Init(w: nat, c: Config) {
    && w >= 1 && c.pc == AtTop && |c.workers| == w && MasterOk(w, c.master) && c.master.buffer == [] && !c.master.terminate
    && c.master.finished == {} && c.master.solutions == 0
    && (forall i :: 0 <= i < w ==> c.workers[i] == WorkerState([], [], false, false, None, false) && c.master.polled[i])
    && c.generated == {} && c.exhausted == {}
  }

  ghost predicate MasterTops(w: nat, g: Graph, c: Config, d: Config, alloc: seq<Slot>, out: seq<seq<Reply>>,
                             dropped: set<nat>, done: bool) {
    && c.pc == AtTop && TopStep(w, c.master, d.master, alloc, out, done) && |c.workers| == |d.workers| == w
    && (forall i :: 0 <= i < w ==> d.workers[i] == c.workers[i].(inbox := c.workers[i].inbox + out[i]))
    && d.pc == (if done then Stopped else AtReceive) && d.exhausted == c.exhausted
    && Generates(w, g, c.master, c.supply, d.supply, dropped, d.master.buffer)
    && d.generated == c.generated + set m | m in d.master.buffer
  }

  /** The subgraph of the message a worker holds. */
  ghost function SolvedBy(g: Graph, x: WorkerState): int {
    if x.loaded.Some? then g.subgraph(x.loaded.m) else 0
  }

  /** The solutions interface takes in a solution, unless the master is terminating: new messages may become available. terminal is the
      interface's answer. */
  ghost predicate MasterReceives(w: nat, g: Graph, mode: int, c: Config, d: Config, i: nat, terminal: bool) {
    && c.pc == AtReceive && i < |c.workers| == w && c.workers[i].outbox != []
    && ReceiveStep(w, g, mode, c.master, d.master, i, c.workers[i].outbox[0], terminal, SolvedBy(g, c.workers[i]))
    && (if c.workers[i].outbox[0] == Solution && !c.master.terminate then c.supply <= d.supply && (d.supply - c.supply) !! c.generated
        else d.supply == c.supply)
    && d == c.(master := d.master, pc := AtTop, supply := d.supply, workers := c.workers[i := c.workers[i].(outbox := c.workers[i].outbox[1..])])
  }

  ghost predicate WorkerReceives(c: Config, d: Config, i: nat) {
    && i < |c.workers| && c.workers[i].inbox != [] && !c.workers[i].busy && !c.workers[i].dead
    && var rest := c.workers[i].(inbox := c.workers[i].inbox[1..]);
    d == c.(workers := c.workers[i :=
      match c.workers[i].inbox[0]
      case NewAssignment(m) => rest.(busy := true, loaded := Some(m), finished := false)
      case PollReply => rest.(busy := true)
      case Kill => rest.(dead := true)])
  }

  /** Sending a solution, or closing the round with a request or a poll. */
  ghost predicate WorkerSends(c: Config, d: Config, i: nat, report: Report) {
    && i < |c.workers| && c.workers[i].busy
    && var sent := c.workers[i].(outbox := c.workers[i].outbox + [report]);
    match report
    case Solution => d == c.(workers := c.workers[i := sent])
    case RequestForAssignment =>
      d == c.(workers := c.workers[i := sent.(busy := false, finished := true)],
              exhausted := c.exhausted + if c.workers[i].loaded.Some? then {c.workers[i].loaded.m} else {})
    case PollForReassignment => d == c.(workers := c.workers[i := sent.(busy := false)])
  }

  ghost predicate Step(w: nat, g: Graph, mode: int, c: Config, d: Config) {
    || (exists alloc, out, dropped, done :: MasterTops(w, g, c, d, alloc, out, dropped, done))
    || (exists i, terminal :: MasterReceives(w, g, mode, c, d, i, terminal))
    || (exists i :: WorkerReceives(c, d, i))
    || (exists i, report :: WorkerSends(c, d, i, report))
  }

  // ---------------------------------------------------------- the invariant

  predicate Waiting(w: WorkerState) {
    w.inbox == [] && w.outbox == [] && !w.busy && !w.dead
  }

  predicate ReplyInFlight(w: WorkerState) {
    |w.inbox| == 1 && !w.inbox[0].Kill? && w.outbox == [] && !w.busy && !w.dead
  }

  predicate Computing(w: WorkerState) {
    w.inbox == [] && w.busy && !w.dead && w.loaded.Some? && !w.finished && forall k :: 0 <= k < |w.outbox| ==> w.outbox[k] == Solution
  }

  /** A closing request or poll is on its way, behind the solutions of the round. */
  predicate Closing(w: WorkerState) {
    && w.inbox == [] && !w.busy && !w.dead && w.loaded.Some? && w.outbox != []
    && (forall k :: 0 <= k < |w.outbox| ==> (w.outbox[k] == Solution <==> k < |w.outbox| - 1))
    && (w.finished <==> w.outbox[|w.outbox| - 1] == RequestForAssignment)
  }

  /** The phase of a worker fits what the master has noted: it is polled exactly when it waits, and a message it is noted to
      work on is the one it holds or is being sent. */
  ghost predicate WorkerOk(working: Slot, polled: bool, w: WorkerState) {
    if polled then Waiting(w) && (working.Some? ==> w.loaded == working && !w.finished)
    else if w.inbox != [] && w.inbox[0].NewAssignment? then ReplyInFlight(w) && (working.Some? ==> working.m == w.inbox[0].m)
    else if w.inbox != [] then ReplyInFlight(w) && w.loaded.Some? && !w.finished && (working.Some? ==> w.loaded == working)
    else (Computing(w) || Closing(w)) && (working.Some? ==> w.loaded == working)
  }

  ghost predicate Killed(w: WorkerState) {
    w.outbox == [] && !w.busy && (if w.dead then w.inbox == [] else w.inbox == [Kill])
  }

  ghost predicate Inv(w: nat, g: Graph, mode: int, c: Config) {
    && w >= 1 && |c.workers| == w && MasterOk(w, c.master)
    && (forall i :: 0 <= i < w ==>
         if c.pc == Stopped then Killed(c.workers[i]) else WorkerOk(c.master.working[i], c.master.polled[i], c.workers[i]))
    && (c.pc == AtReceive ==> exists i :: 0 <= i < w && !c.master.polled[i])
    && (c.pc == Stopped ==> c.master.terminate)
    && (forall m :: m in c.master.buffer ==> m in c.generated) && c.supply !! c.generated
    && (forall i :: 0 <= i < w && c.workers[i].finished && c.workers[i].loaded.Some? ==> c.workers[i].loaded.m in c.exhausted)
    && (forall m :: m in c.generated ==> m in c.master.buffer || m in c.exhausted || g.subgraph(m) in c.master.finished)
    && (c.master.terminate ==> (c.master.solutions > 0 && Ends(mode)) || (c.supply == {} && c.master.buffer == []))
    && (c.master.solutions > 0 && Ends(mode) ==> c.master.terminate)
    && (c.master.finished != {} ==> mode == 2 && c.master.solutions > 0)
  }

  lemma InitInv(w: nat, g: Graph, mode: int, c: Config)
    requires Init(w, c)
    ensures Inv(w, g, mode, c)
  {
  }

  /** A polled worker is answered with its own message again only if it holds it unfinished. */
  lemma AnsweredOk(w: nat, s: MasterState, t: MasterState, alloc: seq<Slot>, out: seq<seq<Reply>>, i: nat, x: WorkerState)
    requires TopStep(w, s, t, alloc, out, false) && i < w && WorkerOk(s.working[i], s.polled[i], x)
    ensures WorkerOk(t.working[i], t.polled[i], x.(inbox := x.inbox + out[i]))
  {
    assert RepliedTo(s, t, alloc, out, i);
    if !t.terminate && s.polled[i] {
      assert Targets(s.working, alloc)[i].Some?;
      assert (x.inbox + out[i])[0] == out[i][0];
    } else {
      assert x.inbox + out[i] == x.inbox;
    }
  }

  lemma TopKeeps(w: nat, g: Graph, mode: int, c: Config, d: Config, alloc: seq<Slot>, out: seq<seq<Reply>>,
                 dropped: set<nat>, done: bool)
    requires Inv(w, g, mode, c) && MasterTops(w, g, c, d, alloc, out, dropped, done)
    ensures Inv(w, g, mode, d)
  {
    var s, t := c.master, d.master;
    forall i | 0 <= i < w
      ensures if d.pc == Stopped then Killed(d.workers[i]) else WorkerOk(t.working[i], t.polled[i], d.workers[i])
    {
      if !done {
        AnsweredOk(w, s, t, alloc, out, i, c.workers[i]);
      }
    }
    hide WorkerOk;
    if !done {
      SomeoneUnpolled(w, s, t, alloc, out);
    }
    hide Killed;
    hide Balanced;
    hide Replied;
    forall m | m in c.master.buffer ensures m in d.master.buffer {
    }
  }

  /** After the replies some worker is not polled. */
  lemma SomeoneUnpolled(w: nat, s: MasterState, t: MasterState, alloc: seq<Slot>, out: seq<seq<Reply>>)
    requires TopStep(w, s, t, alloc, out, false) && w >= 1
    ensures exists i :: 0 <= i < w && !t.polled[i]
  {
    if t.terminate {
      var i :| 0 <= i < w && !s.polled[i];
      assert RepliedTo(s, t, alloc, out, i);
    } else {
      assert RepliedTo(s, t, alloc, out, 0);
    }
  }

  /** The report at the head of a worker's channel moves it on, or leaves it where it was. */
  lemma ReportedOk(w: nat, g: Graph, mode: int, s: MasterState, t: MasterState, i: nat, x: WorkerState,
                   terminal: bool, solved: int)
    requires x.outbox != [] && ReceiveStep(w, g, mode, s, t, i, x.outbox[0], terminal, solved) && WorkerOk(s.working[i], s.polled[i], x)
    ensures WorkerOk(t.working[i], t.polled[i], x.(outbox := x.outbox[1..]))
  {
  }

  lemma OthersOk(w: nat, g: Graph, mode: int, s: MasterState, t: MasterState, i: nat, report: Report, terminal: bool, solved: int,
                 j: nat, x: WorkerState)
    requires ReceiveStep(w, g, mode, s, t, i, report, terminal, solved) && j < w && j != i && WorkerOk(s.working[j], s.polled[j], x)
    ensures WorkerOk(t.working[j], t.polled[j], x)
  {
  }

  /** Only a message that its worker has exhausted leaves the buffer, or one of a finished subgraph. */
  lemma LedgerKept(w: nat, g: Graph, mode: int, s: MasterState, t: MasterState, i: nat, x: WorkerState,
                   terminal: bool, exhausted: set<nat>)
    requires x.outbox != [] && ReceiveStep(w, g, mode, s, t, i, x.outbox[0], terminal, SolvedBy(g, x)) && WorkerOk(s.working[i], s.polled[i], x)
    requires x.finished && x.loaded.Some? ==> x.loaded.m in exhausted
    ensures forall m :: m in s.buffer ==> m in t.buffer || m in exhausted || g.subgraph(m) in t.finished
    ensures s.finished <= t.finished && (t.finished != s.finished ==> mode == 2 && t.solutions > 0)
  {
    hide Pruned;
    forall m | m in s.buffer ensures m in t.buffer || m in exhausted || g.subgraph(m) in t.finished {
      if s.working[i] == Some(m) {
        assert x.loaded == Some(m) && (x.outbox[0] == RequestForAssignment ==> x.finished);
      }
    }
  }

  lemma ReceiveKeeps(w: nat, g: Graph, mode: int, c: Config, d: Config, i: nat, terminal: bool)
    requires Inv(w, g, mode, c) && MasterReceives(w, g, mode, c, d, i, terminal)
    ensures Inv(w, g, mode, d)
  {
    var s, t, x := c.master, d.master, c.workers[i];
    forall j | 0 <= j < w ensures WorkerOk(t.working[j], t.polled[j], d.workers[j]) {
      if j == i {
        ReportedOk(w, g, mode, s, t, i, x, terminal, SolvedBy(g, x));
      } else {
        OthersOk(w, g, mode, s, t, i, x.outbox[0], terminal, SolvedBy(g, x), j, c.workers[j]);
      }
    }
    LedgerKept(w, g, mode, s, t, i, x, terminal, c.exhausted);
    hide WorkerOk;
  }

  lemma WorkerReceiveKeeps(w: nat, g: Graph, mode: int, c: Config, d: Config, i: nat)
    requires Inv(w, g, mode, c) && WorkerReceives(c, d, i)
    ensures Inv(w, g, mode, d)
  {
    var x, y := c.workers[i], d.workers[i];
    if c.pc == Stopped {
      assert Killed(x) && Killed(y);
    } else {
      assert WorkerOk(c.master.working[i], c.master.polled[i], x);
      assert WorkerOk(c.master.working[i], c.master.polled[i], y);
    }
    hide WorkerOk;
    hide Killed;
    hide MasterOk;
  }

  lemma SendKeeps(w: nat, g: Graph, mode: int, c: Config, d: Config, i: nat, report: Report)
    requires Inv(w, g, mode, c) && WorkerSends(c, d, i, report)
    ensures Inv(w, g, mode, d)
  {
    var x, y := c.workers[i], d.workers[i];
    assert c.pc != Stopped by {
      assert c.pc == Stopped ==> Killed(x);
    }
    SentOk(c.master.working[i], c.master.polled[i], x, y, report);
    hide WorkerOk;
    hide Killed;
    hide MasterOk;
  }

  lemma SentOk(working: Slot, polled: bool, x: WorkerState, y: WorkerState, report: Report)
    requires WorkerOk(working, polled, x) && x.busy
    requires y == x.(outbox := x.outbox + [report], busy := report == Solution, finished := x.finished || report == RequestForAssignment)
    ensures WorkerOk(working, polled, y)
  {
  }

  lemma StepKeeps(w: nat, g: Graph, mode: int, c: Config, d: Config)
    requires Inv(w, g, mode, c) && Step(w, g, mode, c, d)
    ensures Inv(w, g, mode, d)
  {
    hide Inv;
    hide MasterTops;
    hide MasterReceives;
    hide WorkerReceives;
    hide WorkerSends;
    if alloc, out, dropped, done :| MasterTops(w, g, c, d, alloc, out, dropped, done) {
      TopKeeps(w, g, mode, c, d, alloc, out, dropped, done);
    } else if i, terminal :| MasterReceives(w, g, mode, c, d, i, terminal) {
      ReceiveKeeps(w, g, mode, c, d, i, terminal);
    } else if i :| WorkerReceives(c, d, i) {
      WorkerReceiveKeeps(w, g, mode, c, d, i);
    } else {
      var i, report :| WorkerSends(c, d, i, report);
      SendKeeps(w, g, mode, c, d, i, report);
    }
  }

  /** The invariant holds in every state of every run. */
  lemma {:induction false} RunKeeps(w: nat, g: Graph, mode: int, run: seq<Config>, n: nat)
    requires n < |run| && Init(w, run[0]) && forall k :: 0 <= k < |run| - 1 ==> Step(w, g, mode, run[k], run[k + 1])
    ensures Inv(w, g, mode, run[n])
  {
    hide Inv;
    hide Step;
    if n == 0 {
      InitInv(w, g, mode, run[0]);
    } else {
      RunKeeps(w, g, mode, run, n - 1);
      StepKeeps(w, g, mode, run[n - 1], run[n]);
    }
  }

  // ------------------------------------------------------------ consequences

  /** Outside termination each worker is in exactly one phase, and in the waiting one exactly if it is polled. */
  lemma OnePhase(w: nat, g: Graph, mode: int, c: Config, i: nat)
    requires Inv(w, g, mode, c) && i < w && c.pc != Stopped
    ensures var x := c.workers[i];
      && (Waiting(x) || ReplyInFlight(x) || Computing(x) || Closing(x))
      && !(Waiting(x) && ReplyInFlight(x)) && !(Waiting(x) && Computing(x)) && !(Waiting(x) && Closing(x))
      && !(ReplyInFlight(x) && Computing(x)) && !(ReplyInFlight(x) && Closing(x)) && !(Computing(x) && Closing(x))
      && (Waiting(x) <==> c.master.polled[i])
  {
    assert WorkerOk(c.master.working[i], c.master.polled[i], c.workers[i]);
  }

  /** The master never blocks in its receive while no worker will move: one has a report or a reply in flight or is solving. */
  lemma NoDeadlock(w: nat, g: Graph, mode: int, c: Config)
    requires Inv(w, g, mode, c) && c.pc == AtReceive
    ensures exists i :: 0 <= i < w && !c.workers[i].dead && (c.workers[i].outbox != [] || c.workers[i].inbox != [] || c.workers[i].busy)
  {
    var i :| 0 <= i < w && !c.master.polled[i];
    assert WorkerOk(c.master.working[i], c.master.polled[i], c.workers[i]);
  }

  /** A worker told to go on holds an assignment it has not finished, the one the master has noted for it if there is one;
      and no worker is given anything while it is solving. */
  lemma PollsAreLoaded(w: nat, g: Graph, mode: int, c: Config, i: nat)
    requires Inv(w, g, mode, c) && i < w && c.workers[i].inbox != []
    ensures !c.workers[i].busy && |c.workers[i].inbox| == 1
    ensures c.workers[i].inbox[0] == PollReply ==> c.workers[i].loaded.Some? && !c.workers[i].finished
    ensures c.workers[i].inbox[0] == PollReply && c.pc != Stopped && c.master.working[i].Some? ==> c.master.working[i] == c.workers[i].loaded
  {
    assert if c.pc == Stopped then Killed(c.workers[i]) else WorkerOk(c.master.working[i], c.master.polled[i], c.workers[i]);
  }

  /** The master stops, and sends the kill signals, only when every worker waits. */
  lemma KillWhenAllWait(w: nat, g: Graph, mode: int, c: Config, d: Config)
    requires Inv(w, g, mode, c) && Step(w, g, mode, c, d) && c.pc != Stopped && d.pc == Stopped
    ensures forall i :: 0 <= i < w ==> Waiting(c.workers[i]) && d.workers[i].inbox == [Kill]
  {
    var alloc, out, dropped, done :| MasterTops(w, g, c, d, alloc, out, dropped, done);
    forall i | 0 <= i < w ensures Waiting(c.workers[i]) && d.workers[i].inbox == [Kill] {
      assert WorkerOk(c.master.working[i], c.master.polled[i], c.workers[i]);
      assert out[i] == [Kill];
    }
  }

  /** What happens to a message is never forgotten: it can be generated, has been, or is of a finished subgraph. */
  ghost predicate Known(g: Graph, c: Config, m: nat) {
    m in c.supply || m in c.generated || g.subgraph(m) in c.master.finished
  }

  lemma KnownKept(w: nat, g: Graph, mode: int, c: Config, d: Config, m: nat)
    requires Inv(w, g, mode, c) && Step(w, g, mode, c, d) && Known(g, c, m)
    ensures Known(g, d, m)
  {
    hide TopStep;
    hide WorkerOk;
    hide Pruned;
    hide MasterOk;
    hide Killed;
    if alloc, out, dropped, done :| MasterTops(w, g, c, d, alloc, out, dropped, done) {
      TopFinished(w, c.master, d.master, alloc, out, done);
    } else if i, terminal :| MasterReceives(w, g, mode, c, d, i, terminal) {
    } else if i :| WorkerReceives(c, d, i) {
    } else {
      var i, report :| WorkerSends(c, d, i, report);
    }
  }

  lemma TopFinished(w: nat, s: MasterState, t: MasterState, alloc: seq<Slot>, out: seq<seq<Reply>>, done: bool)
    requires TopStep(w, s, t, alloc, out, done)
    ensures t.finished == s.finished
  {
  }

  lemma {:induction false} AlwaysKnown(w: nat, g: Graph, mode: int, run: seq<Config>, k: nat, n: nat, m: nat)
    requires k <= n < |run| && Init(w, run[0]) && forall j :: 0 <= j < |run| - 1 ==> Step(w, g, mode, run[j], run[j + 1])
    requires Known(g, run[k], m)
    ensures Known(g, run[n], m)
    decreases n - k
  {
    hide Inv;
    hide Step;
    hide Init;
    hide Known;
    if k < n {
      RunKeeps(w, g, mode, run, k);
      KnownKept(w, g, mode, run[k], run[k + 1], m);
      AlwaysKnown(w, g, mode, run, k + 1, n, m);
    }
  }

  /** No work is lost: when the master stops it has a solution, in a mode that wants no more than one, or the supply is used up, and every
      message that ever was in the supply, be it at the start or after a solution, has been generated and exhausted by a worker, or is
      one of a subgraph with a solution. So a run that keeps no solution has exhausted everything. */
  lemma NothingLost(w: nat, g: Graph, mode: int, run: seq<Config>, n: nat, k: nat)
    requires k <= n < |run| && Init(w, run[0]) && run[n].pc == Stopped
    requires forall j :: 0 <= j < |run| - 1 ==> Step(w, g, mode, run[j], run[j + 1])
    requires !(run[n].master.solutions > 0 && Ends(mode))
    ensures run[n].supply == {}
    ensures forall m :: m in run[k].supply + run[k].generated ==>
      m in run[n].exhausted || (mode == 2 && run[n].master.solutions > 0 && g.subgraph(m) in run[n].master.finished)
  {
    RunKeeps(w, g, mode, run, n);
    forall m | m in run[k].supply + run[k].generated ensures Known(g, run[n], m) {
      AlwaysKnown(w, g, mode, run, k, n, m);
    }
    hide Step;
    hide Init;
    hide WorkerOk;
    hide MasterOk;
    hide Killed;
  }

  /** Solutions come from terminal nodes: a step that keeps one, or that ends the search while there is work, has taken one in. */
  lemma OnlyTerminal(w: nat, g: Graph, mode: int, c: Config, d: Config)
    requires Inv(w, g, mode, c) && Step(w, g, mode, c, d)
    requires d.master.solutions != c.master.solutions || (d.master.terminate && !c.master.terminate && d.master.buffer != [])
    ensures exists i: nat :: MasterReceives(w, g, mode, c, d, i, true) && c.workers[i].outbox[0] == Solution
    ensures d.master.solutions == c.master.solutions + 1
  {
    hide Inv;
    hide Pruned;
    hide WorkerOk;
    hide Killed;
    hide Allocated;
    hide Balanced;
    hide Replied;
  }

  /** After the replies of a turn every buffered message has a worker that is on it or is being moved to it. */
  lemma EveryMessageCovered(w: nat, s: MasterState, t: MasterState, alloc: seq<Slot>, out: seq<seq<Reply>>, m: nat)
    requires TopStep(w, s, t, alloc, out, false) && w >= 1 && m in t.buffer
    ensures exists i :: 0 <= i < w && (t.working[i] == Some(m) || t.toBe[i] == Some(m))
  {
    var targets := Targets(s.working, alloc);
    NoneUncovered(targets, t.buffer);
    var i :| 0 <= i < w && targets[i] == Some(m);
    assert RepliedTo(s, t, alloc, out, i);
  }
}
