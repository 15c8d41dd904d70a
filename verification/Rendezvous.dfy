/**
 * The provider rendezvous (crates/gitility-core/src/provider_odb.rs): requesters
 * that insert a reply sender, check liveness and wait; repliers that take a
 * sender once; provider death that clears the liveness flag and drains the table.
 */
module Rendezvous {
  import opened Basics

  /** Request IDs come from an atomic counter, so an ID also names its requester and its reply slot. */
  type Id = nat
  type Thread = nat

  datatype Message = Payload(content: nat) | Failure

  /** Where a requester stands in `send_and_wait`. */
  datatype Pc =
    | Drawn                            // has an ID and a slot
    | Inserted                         // its sender is registered, liveness not yet checked
    | Checked                          // saw the provider alive, request not yet handed over
    | Waiting                          // in the receive loop
    | Leaving                          // decided to fail, about to cancel
    | Returned(reply: Option<Message>)

  /** A thread that removes senders: a reply, or one execution of `fail_all`. */
  datatype Taker =
    | Flagged                                                  // `fail_all` has cleared the flag
    | Holding(ids: set<Id>, message: Message, drained: bool)   // senders taken and not yet used

  datatype State = State(
    alive: bool,
    table: set<Id>,
    requesters: seq<Pc>,
    slots: seq<seq<Message>>,
    takers: map<Thread, Taker>,
    cancelled: set<Id>)

  const INITIAL: State := State(true, {}, [], [], map[], {})

  datatype Action =
    | Begin
    | Insert(id: Id)
    | Check(id: Id)
    | Submit(id: Id, accepted: bool)
    | GiveUp(id: Id)
    | Cancel(id: Id)
    | Receive(id: Id)
    | Disconnect(id: Id)
    | Take(thread: Thread, id: Id, message: Message)
    | Send(thread: Thread, id: Id)
    | CancelElsewhere(id: Id)
    | Die(thread: Thread)
    | Drain(thread: Thread)

  ghost predicate Holds(s: State, t: Thread, id: Id) {
    t in s.takers && s.takers[t].Holding? && id in s.takers[t].ids
  }

  ghost predicate Held(s: State, id: Id) {
    exists t :: Holds(s, t, id)
  }

  predicate At(s: State, id: Id, pc: Pc) {
    id < |s.requesters| && s.requesters[id] == pc
  }

  /** No sender and no message is left: receiving reports a disconnected channel. */
  ghost predicate HungUp(s: State, id: Id)
    requires id < |s.slots|
  {
    id !in s.table && !Held(s, id) && s.slots[id] == []
  }

  ghost predicate Enabled(s: State, a: Action) {
    match a
    case Begin => true
    case Insert(id) => At(s, id, Drawn)
    case Check(id) => At(s, id, Inserted)
    case Submit(id, _) => At(s, id, Checked)
    case GiveUp(id) => At(s, id, Waiting)
    case Cancel(id) => At(s, id, Leaving)
    case Receive(id) => At(s, id, Waiting) && id < |s.slots| && s.slots[id] != []
    case Disconnect(id) => At(s, id, Waiting) && id < |s.slots| && HungUp(s, id)
    case Take(t, id, _) => t !in s.takers
    case Send(t, id) => Holds(s, t, id) && id < |s.slots|
    case CancelElsewhere(_) => true
    case Die(t) => t !in s.takers
    case Drain(t) => t in s.takers && s.takers[t].Flagged?
  }

  function Move(s: State, id: Id, pc: Pc): State
    requires id < |s.requesters|
  {
    s.(requesters := s.requesters[id := pc])
  }

  /** Removing a sender from the table without using it. */
  function Withdraw(s: State, id: Id): State {
    if id in s.table then s.(table := s.table - {id}, cancelled := s.cancelled + {id}) else s
  }

  ghost function Apply(s: State, a: Action): State
    requires Enabled(s, a)
  {
    match a
    case Begin => s.(requesters := s.requesters + [Drawn], slots := s.slots + [[]])
    case Insert(id) => Move(s, id, Inserted).(table := s.table + {id})
    case Check(id) => Move(s, id, if s.alive then Checked else Leaving)
    case Submit(id, accepted) => Move(s, id, if accepted then Waiting else Leaving)
    case GiveUp(id) => Move(s, id, Leaving)
    case Cancel(id) => Withdraw(Move(s, id, Returned(None)), id)
    case Receive(id) => Move(s, id, Returned(Some(s.slots[id][0])))
    case Disconnect(id) => Move(s, id, Leaving)
    case Take(t, id, m) =>
      if id in s.table then s.(table := s.table - {id}, takers := s.takers[t := Holding({id}, m, false)]) else s
    case Send(t, id) =>
      var h := s.takers[t];
      s.(takers := s.takers[t := h.(ids := h.ids - {id})], slots := s.slots[id := s.slots[id] + [h.message]])
    case CancelElsewhere(id) => Withdraw(s, id)
    case Die(t) => s.(alive := false, takers := s.takers[t := Flagged])
    case Drain(t) => s.(table := {}, takers := s.takers[t := Holding(s.table, Failure, true)])
  }

  // ----- runs

  ghost predicate IsRun(run: seq<State>, actions: seq<Action>) {
    && |run| == |actions| + 1
    && forall i :: 0 <= i < |actions| ==> Enabled(run[i], actions[i]) && run[i + 1] == Apply(run[i], actions[i])
  }

  ghost predicate Reaches(from: State, run: seq<State>, actions: seq<Action>, to: State) {
    IsRun(run, actions) && run[0] == from && run[|actions|] == to
  }

  ghost predicate Reachable(s: State) {
    exists run, actions :: Reaches(INITIAL, run, actions, s)
  }

  // ----- the invariant

  /** Some execution of `fail_all` has taken the table. */
  ghost predicate Drained(s: State) {
    exists t :: t in s.takers && s.takers[t].Holding? && s.takers[t].drained
  }

  ghost predicate Dying(s: State) {
    exists t :: t in s.takers && (s.takers[t].Flagged? || s.takers[t].drained)
  }

  /** Where one request's sender is: unregistered, in the table, taken, spent on a message, or withdrawn. */
  ghost predicate OnePlace(pc: Pc, inTable: bool, held: bool, slot: seq<Message>, lost: bool) {
    && |slot| <= 1
    && (pc.Drawn? ==> !inTable && !held && slot == [] && !lost)
    && (!pc.Drawn? ==> inTable || held || slot != [] || lost)
    && !(inTable && held) && !(inTable && slot != []) && !(inTable && lost)
    && !(held && slot != []) && !(held && lost) && !(slot != [] && lost)
    && (pc.Returned? ==> !inTable)
    && (pc.Returned? && pc.reply.Some? ==> slot == [pc.reply.value])
  }

  ghost predicate Placed(s: State, id: Id)
    requires id < |s.requesters| == |s.slots|
  {
    OnePlace(s.requesters[id], id in s.table, Held(s, id), s.slots[id], id in s.cancelled)
  }

  ghost predicate KnownIds(s: State) {
    && |s.slots| == |s.requesters|
    && (forall id :: id in s.table ==> id < |s.requesters|)
    && (forall t: Thread, id: Id :: Holds(s, t, id) ==> id < |s.requesters|)
    && (forall id :: id in s.cancelled ==> id < |s.requesters|)
  }

  ghost predicate AllPlaced(s: State)
    requires |s.slots| == |s.requesters|
  {
    forall id :: 0 <= id < |s.requesters| ==> Placed(s, id)
  }

  /** A taken sender is in one thread's hands. */
  ghost predicate UniqueHolders(s: State) {
    forall t: Thread, u: Thread, id: Id :: Holds(s, t, id) && Holds(s, u, id) ==> t == u
  }

  /** A requester that has passed the liveness check. */
  predicate Committed(s: State, id: Id) {
    id < |s.requesters| && (s.requesters[id].Checked? || s.requesters[id].Waiting?)
  }

  ghost predicate DeathSafe(s: State) {
    && (Dying(s) ==> !s.alive)
    && (Drained(s) ==> forall id :: id in s.table ==> !Committed(s, id))
  }

  ghost predicate Inv(s: State) {
    KnownIds(s) && AllPlaced(s) && UniqueHolders(s) && DeathSafe(s)
  }

  lemma InitialInv()
    ensures Inv(INITIAL)
  {
  }

  // ----- every step keeps the invariant

  predicate ByRequester(a: Action) {
    a.Begin? || a.Insert? || a.Check? || a.Submit? || a.GiveUp? || a.Cancel? || a.Receive? || a.Disconnect? || a.CancelElsewhere?
  }

  /** Holding is unchanged by steps that leave the takers alone. */
  lemma SameHeld(s: State, s': State)
    requires s.takers == s'.takers
    ensures forall t: Thread, id: Id :: Holds(s, t, id) <==> Holds(s', t, id)
    ensures forall id: Id :: Held(s, id) <==> Held(s', id)
    ensures Drained(s) <==> Drained(s')
    ensures Dying(s) <==> Dying(s')
  {
    forall id: Id ensures Held(s, id) <==> Held(s', id) {
      if t :| Holds(s, t, id) { assert Holds(s', t, id); }
      if t :| Holds(s', t, id) { assert Holds(s, t, id); }
    }
  }

  lemma RequesterKeepsInv(s: State, a: Action)
    requires Inv(s) && Enabled(s, a) && ByRequester(a)
    ensures Inv(Apply(s, a))
  {
    hide Holds, Held, Drained, Dying;
    var s' := Apply(s, a);
    SameHeld(s, s');
    if a.Begin? {
      NewIdIsUnused(s);
    }
    DrainedIsDying(s);
    forall id: Id | id < |s'.requesters| ensures Placed(s', id) {
      assert id < |s.requesters| ==> Placed(s, id);
    }
  }

  lemma DrainedIsDying(s: State)
    ensures Drained(s) ==> Dying(s)
  {
  }

  lemma NewIdIsUnused(s: State)
    requires KnownIds(s)
    ensures !Held(s, |s.requesters|) && |s.requesters| !in s.table && |s.requesters| !in s.cancelled
  {
  }

  /** What taking senders out of the table does to who holds what. */
  lemma TakerHolds(s: State, s': State, t: Thread, taker: Taker)
    requires s'.takers == s.takers[t := taker]
    ensures forall u: Thread, id: Id :: Holds(s', u, id) <==> if u == t then taker.Holding? && id in taker.ids else Holds(s, u, id)
  {
  }

  lemma TakeKeepsInv(s: State, t: Thread, id: Id, m: Message)
    requires Inv(s) && Enabled(s, Take(t, id, m))
    ensures Inv(Apply(s, Take(t, id, m)))
  {
    if id in s.table {
      var s' := Apply(s, Take(t, id, m));
      var taker := Holding({id}, m, false);
      TakerHolds(s, s', t, taker);
      forall i: Id ensures Held(s', i) <==> Held(s, i) || i == id {
        TakenHeld(s, s', t, taker, i);
      }
      assert Placed(s, id);
      hide Holds, Held;
      assert Drained(s') ==> Drained(s);
      assert Dying(s') ==> Dying(s);
      forall i: Id | i < |s'.requesters| ensures Placed(s', i) {
        assert Placed(s, i);
      }
    }
  }

  lemma TakenHeld(s: State, s': State, t: Thread, taker: Taker, id: Id)
    requires t !in s.takers || s.takers[t].Flagged?
    requires s'.takers == s.takers[t := taker]
    ensures Held(s', id) <==> Held(s, id) || (taker.Holding? && id in taker.ids)
  {
    TakerHolds(s, s', t, taker);
    if u :| Holds(s, u, id) { assert Holds(s', u, id); }
    if taker.Holding? && id in taker.ids { assert Holds(s', t, id); }
  }

  lemma DrainKeepsInv(s: State, t: Thread)
    requires Inv(s) && Enabled(s, Drain(t))
    ensures Inv(Apply(s, Drain(t)))
  {
    var s' := Apply(s, Drain(t));
    var taker := Holding(s.table, Failure, true);
    TakerHolds(s, s', t, taker);
    forall i: Id ensures Held(s', i) <==> Held(s, i) || i in s.table {
      TakenHeld(s, s', t, taker, i);
    }
    assert Dying(s);
    hide Holds, Held;
    forall i: Id | i < |s'.requesters| ensures Placed(s', i) {
      assert Placed(s, i);
    }
    forall u: Thread, v: Thread, i: Id | Holds(s', u, i) && Holds(s', v, i) ensures u == v {
      assert i < |s.requesters| && Placed(s, i);
    }
  }

  lemma DieKeepsInv(s: State, t: Thread)
    requires Inv(s) && Enabled(s, Die(t))
    ensures Inv(Apply(s, Die(t)))
  {
    var s' := Apply(s, Die(t));
    TakerHolds(s, s', t, Flagged);
    forall i: Id ensures Held(s', i) <==> Held(s, i) {
      TakenHeld(s, s', t, Flagged, i);
    }
    hide Holds, Held;
    assert Drained(s') ==> Drained(s);
    forall i: Id | i < |s'.requesters| ensures Placed(s', i) {
      assert Placed(s, i);
    }
  }

  lemma SendKeepsInv(s: State, t: Thread, id: Id)
    requires Inv(s) && Enabled(s, Send(t, id))
    ensures Inv(Apply(s, Send(t, id)))
  {
    var s' := Apply(s, Send(t, id));
    var taker := s.takers[t].(ids := s.takers[t].ids - {id});
    TakerHolds(s, s', t, taker);
    forall i: Id ensures Held(s', i) <==> Held(s, i) && i != id {
      if u :| Holds(s, u, i) && i != id { assert Holds(s', u, i); }
      if u :| Holds(s', u, i) { assert Holds(s, u, i); }
    }
    assert Held(s, id) && Placed(s, id);
    SameDeath(s, s', t, taker);
    SendDelivers(s, s', t, id);
  }

  lemma SendDelivers(s: State, s': State, t: Thread, id: Id)
    requires Inv(s) && Enabled(s, Send(t, id)) && s' == Apply(s, Send(t, id))
    requires forall i: Id :: Held(s', i) <==> Held(s, i) && i != id
    requires forall u: Thread, i: Id :: Holds(s', u, i) ==> Holds(s, u, i)
    requires (Drained(s') <==> Drained(s)) && (Dying(s') <==> Dying(s)) && Held(s, id)
    ensures Inv(s')
  {
    hide Held, Drained, Dying;
    forall i: Id | i < |s'.requesters| ensures Placed(s', i) {
      assert Placed(s, i);
    }
  }

  lemma SameDeath(s: State, s': State, t: Thread, taker: Taker)
    requires s'.takers == s.takers[t := taker] && t in s.takers
    requires taker.Holding? && s.takers[t].Holding? && taker.drained == s.takers[t].drained
    ensures Drained(s') <==> Drained(s)
    ensures Dying(s') <==> Dying(s)
  {
    if u :| u in s.takers && s.takers[u].Holding? && s.takers[u].drained { assert s'.takers[u].drained; }
    if u :| u in s'.takers && s'.takers[u].Holding? && s'.takers[u].drained { assert s.takers[u].drained; }
    if u :| u in s.takers && (s.takers[u].Flagged? || s.takers[u].drained) { assert s'.takers[u].Flagged? || s'.takers[u].drained; }
    if u :| u in s'.takers && (s'.takers[u].Flagged? || s'.takers[u].drained) { assert s.takers[u].Flagged? || s.takers[u].drained; }
  }

  lemma StepKeepsInv(s: State, a: Action)
    requires Inv(s) && Enabled(s, a)
    ensures Inv(Apply(s, a))
  {
    hide Inv;
    match a
    case Take(t, id, m) => TakeKeepsInv(s, t, id, m);
    case Send(t, id) => SendKeepsInv(s, t, id);
    case Die(t) => DieKeepsInv(s, t);
    case Drain(t) => DrainKeepsInv(s, t);
    case _ => RequesterKeepsInv(s, a);
  }

  lemma {:induction false} RunKeepsInv(run: seq<State>, actions: seq<Action>, n: nat)
    requires IsRun(run, actions) && n <= |actions| && Inv(run[0])
    ensures Inv(run[n])
  {
    hide Inv, Apply, Enabled;
    if n > 0 {
      RunKeepsInv(run, actions, n - 1);
      StepKeepsInv(run[n - 1], actions[n - 1]);
    }
  }

  lemma ReachableInv(s: State)
    requires Reachable(s)
    ensures Inv(s)
  {
    hide Inv, IsRun;
    var run, actions :| Reaches(INITIAL, run, actions, s);
    InitialInv();
    RunKeepsInv(run, actions, |actions|);
  }

  // ----- what holds in every interleaving

  /** A slot never receives a second message, and a requester returns the one it got. */
  lemma AtMostOneMessage(s: State, id: Id)
    requires Reachable(s) && id < |s.requesters|
    ensures |s.slots| == |s.requesters| && |s.slots[id]| <= 1
    ensures s.requesters[id].Returned? && s.requesters[id].reply.Some? ==> s.slots[id] == [s.requesters[id].reply.value]
  {
    ReachableInv(s);
    assert Placed(s, id);
  }

  /** After a drain, a sender left in the table belongs to a requester that has not passed the liveness check. */
  lemma LeftoversAreUnchecked(s: State, id: Id)
    requires Reachable(s) && Drained(s) && id in s.table
    ensures !s.alive && (At(s, id, Inserted) || At(s, id, Leaving))
  {
    ReachableInv(s);
    assert Placed(s, id);
  }

  /** After a drain no waiter depends on the provider: it can return, or a thread already holds its sender. */
  lemma NoWaiterDependsOnProvider(s: State, id: Id)
    requires Reachable(s) && Drained(s) && At(s, id, Waiting)
    ensures id !in s.table
    ensures Enabled(s, Receive(id)) || Enabled(s, Disconnect(id)) || exists t :: Enabled(s, Send(t, id))
  {
    ReachableInv(s);
    assert Placed(s, id) && Committed(s, id);
    if t :| Holds(s, t, id) {
      assert Enabled(s, Send(t, id));
    }
  }

  lemma StaysDrained(s: State, a: Action)
    requires Drained(s) && Enabled(s, a)
    ensures Drained(Apply(s, a))
  {
    var t :| t in s.takers && s.takers[t].Holding? && s.takers[t].drained;
    assert t in Apply(s, a).takers && Apply(s, a).takers[t].Holding? && Apply(s, a).takers[t].drained;
  }

  lemma CommitNeedsLife(s: State, a: Action, id: Id)
    requires Inv(s) && Drained(s) && Enabled(s, a) && !Committed(s, id)
    ensures !Committed(Apply(s, a), id)
  {
    DrainedIsDying(s);
  }

  /** A requester that had not passed the check when the table was drained never waits, whatever happens next. */
  lemma {:induction false} LateRequestersFail(run: seq<State>, actions: seq<Action>, id: Id, n: nat)
    requires IsRun(run, actions) && n <= |actions|
    requires Inv(run[0]) && Drained(run[0]) && !Committed(run[0], id)
    ensures Drained(run[n]) && !Committed(run[n], id)
  {
    hide Inv, Apply, Enabled, Drained;
    if n > 0 {
      LateRequestersFail(run, actions, id, n - 1);
      RunKeepsInv(run, actions, n - 1);
      StaysDrained(run[n - 1], actions[n - 1]);
      CommitNeedsLife(run[n - 1], actions[n - 1], id);
    }
  }

  /** Senders are withdrawn only by requesters that are done. */
  ghost predicate WithdrawnAreDone(s: State) {
    forall id :: id in s.cancelled ==> id < |s.requesters| && s.requesters[id].Returned?
  }

  lemma {:induction false} OwnCancelsOnly(run: seq<State>, actions: seq<Action>, n: nat)
    requires IsRun(run, actions) && n <= |actions| && run[0] == INITIAL
    requires forall i :: 0 <= i < |actions| ==> !actions[i].CancelElsewhere?
    ensures WithdrawnAreDone(run[n])
  {
    if n > 0 {
      OwnCancelsOnly(run, actions, n - 1);
      assert Enabled(run[n - 1], actions[n - 1]) && run[n] == Apply(run[n - 1], actions[n - 1]);
      WithdrawalStep(run[n - 1], actions[n - 1]);
    }
  }

  lemma WithdrawalStep(s: State, a: Action)
    requires WithdrawnAreDone(s) && Enabled(s, a) && !a.CancelElsewhere?
    ensures WithdrawnAreDone(Apply(s, a))
  {
  }

  /** When nobody else cancels and every taken sender has been used, each waiter has exactly one message. */
  lemma DeathWakesEveryWaiter(run: seq<State>, actions: seq<Action>, id: Id)
    requires IsRun(run, actions) && run[0] == INITIAL
    requires forall i :: 0 <= i < |actions| ==> !actions[i].CancelElsewhere?
    requires Drained(run[|actions|]) && At(run[|actions|], id, Waiting) && !Held(run[|actions|], id)
    ensures |run[|actions|].slots| > id && |run[|actions|].slots[id]| == 1
  {
    var s := run[|actions|];
    assert Reaches(INITIAL, run, actions, s);
    OwnCancelsOnly(run, actions, |actions|);
    ReachableInv(s);
    assert Placed(s, id) && Committed(s, id);
  }

  // ----- the table itself

  /** `actions`, one after the other, lead from one state to another. */
  ghost predicate Leads(from: State, actions: seq<Action>, to: State)
    decreases |actions|
  {
    if actions == [] then from == to
    else Enabled(from, actions[0]) && Leads(Apply(from, actions[0]), actions[1..], to)
  }

  lemma LeadsOne(from: State, a: Action)
    requires Enabled(from, a)
    ensures Leads(from, [a], Apply(from, a))
  {
    assert [a][1..] == [];
  }

  lemma {:induction false} LeadsSnoc(from: State, actions: seq<Action>, to: State, a: Action)
    requires Leads(from, actions, to) && Enabled(to, a)
    ensures Leads(from, actions + [a], Apply(to, a))
    decreases |actions|
  {
    hide Apply, Enabled;
    if actions == [] {
      assert actions + [a] == [a];
      LeadsOne(from, a);
    } else {
      LeadsSnoc(Apply(from, actions[0]), actions[1..], to, a);
      assert (actions + [a])[1..] == actions[1..] + [a];
    }
  }

  /**
   * `PendingTable` with the reply slots its senders write to. Its methods are
   * steps of the protocol, so everything proved of the protocol holds of it.
   */
  class PendingTable {
    var senders: set<Id>
    var slots: seq<seq<Message>>
    ghost var protocol: State

    ghost predicate Valid()
      reads this
    {
      senders == protocol.table && slots == protocol.slots && Inv(protocol)
    }

    constructor ()
      ensures Valid() && protocol == INITIAL
    {
      senders, slots, protocol := {}, [], INITIAL;
      InitialInv();
    }

    ghost method Step(a: Action)
      requires Inv(protocol) && Enabled(protocol, a)
      modifies this`protocol
      ensures Inv(protocol) && protocol == Apply(old(protocol), a)
    {
      hide Inv;
      StepKeepsInv(protocol, a);
      protocol := Apply(protocol, a);
    }

    /** The next request ID with its empty reply slot. */
    method Open() returns (id: Id)
      requires Valid()
      modifies this
      ensures Valid() && Leads(old(protocol), [Begin], protocol) && At(protocol, id, Drawn) && !At(old(protocol), id, Drawn)
    {
      hide Inv;
      LeadsOne(protocol, Begin);
      SlotPerRequester(protocol);
      id := |slots|;
      slots := slots + [[]];
      Step(Begin);
    }

    /** `insert`: the requester's insertion step. */
    method Insert(id: Id)
      requires Valid() && At(protocol, id, Drawn)
      modifies this
      ensures Valid() && Leads(old(protocol), [Action.Insert(id)], protocol) && At(protocol, id, Inserted)
    {
      hide Inv;
      LeadsOne(protocol, Action.Insert(id));
      senders := senders + {id};
      Step(Action.Insert(id));
    }

    /** `reply` and `reply_error`: a take and a send that make this the slot's only message, or nothing at all. */
    method Reply(id: Id, message: Message, ghost t: Thread) returns (delivered: bool)
      requires Valid() && t !in protocol.takers
      modifies this
      ensures Valid() && Leads(old(protocol), if delivered then [Take(t, id, message), Send(t, id)] else [], protocol)
      ensures delivered ==> id < |slots| && slots[id] == [message]
      ensures delivered <==> old(Registered(protocol, id))
    {
      hide Inv;
      RegisteredEmpty(protocol, id);
      if id !in senders { return false; }
      senders := senders - {id};
      slots := slots[id := slots[id] + [message]];
      LeadsOne(protocol, Take(t, id, message));
      Step(Take(t, id, message));
      LeadsSnoc(old(protocol), [Take(t, id, message)], protocol, Send(t, id));
      assert [Take(t, id, message)] + [Send(t, id)] == [Take(t, id, message), Send(t, id)];
      Step(Send(t, id));
      return true;
    }

    /** `cancel`: withdraws the sender, so that no later reply delivers. */
    method Cancel(id: Id) returns (removed: bool)
      requires Valid()
      modifies this
      ensures Valid() && Leads(old(protocol), [CancelElsewhere(id)], protocol) && slots == old(slots)
      ensures removed == old(Registered(protocol, id)) && !Registered(protocol, id)
    {
      hide Inv;
      LeadsOne(protocol, CancelElsewhere(id));
      removed := id in senders;
      senders := senders - {id};
      Step(CancelElsewhere(id));
    }

    /** The take of `fail_all`: every registered sender at once. */
    method TakeAll(ghost t: Thread) returns (taken: set<Id>)
      requires Valid() && t in protocol.takers && protocol.takers[t].Flagged?
      modifies this
      ensures Valid() && senders == {} && slots == old(slots) && taken == old(senders)
      ensures Enabled(old(protocol), Drain(t)) && protocol == Apply(old(protocol), Drain(t))
      ensures t in protocol.takers && protocol.takers[t] == Holding(taken, Failure, true)
    {
      hide Inv;
      taken := senders;
      senders := {};
      Step(Drain(t));
    }

    /** One send of `fail_all`. */
    method FailOne(id: Id, ghost t: Thread, ghost taken: set<Id>)
      requires Valid() && t in protocol.takers && protocol.takers[t] == Holding(taken, Failure, true) && id in taken && id < |slots|
      modifies this
      ensures Valid() && senders == old(senders) && slots == old(slots)[id := old(slots)[id] + [Failure]]
      ensures Enabled(old(protocol), Send(t, id)) && protocol == Apply(old(protocol), Send(t, id))
      ensures t in protocol.takers && protocol.takers[t] == Holding(taken - {id}, Failure, true)
    {
      hide Inv;
      slots := slots[id := slots[id] + [Failure]];
      Step(Send(t, id));
    }

    /** `fail_all` after the flag was cleared: one drain, then one send for every sender it took. */
    method FailAll(ghost t: Thread) returns (ghost sends: seq<Action>)
      requires Valid() && t in protocol.takers && protocol.takers[t].Flagged?
      modifies this
      ensures Valid() && Leads(old(protocol), [Drain(t)] + sends, protocol)
      ensures forall a :: a in sends ==> a.Send? && a.thread == t
      ensures senders == {} && t in protocol.takers && protocol.takers[t] == Holding({}, Failure, true) && |slots| == |old(slots)|
      ensures forall id :: 0 <= id < |slots| ==> slots[id] == if id in old(senders) then [Failure] else old(slots[id])
    {
      hide Inv, Apply, Enabled, Leads;
      forall id: Id ensures id in senders ==> id < |slots| && slots[id] == [] {
        RegisteredEmpty(protocol, id);
      }
      sends := [];
      var taken := TakeAll(t);
      LeadsOne(old(protocol), Drain(t));
      assert [Drain(t)] + sends == [Drain(t)];
      while taken != {}
        invariant taken <= old(senders) && senders == {} && |slots| == |old(slots)| && Valid()
        invariant Leads(old(protocol), [Drain(t)] + sends, protocol)
        invariant forall a :: a in sends ==> a.Send? && a.thread == t
        invariant t in protocol.takers && protocol.takers[t] == Holding(taken, Failure, true)
        invariant forall id :: 0 <= id < |slots| ==> slots[id] == if id in old(senders) && id !in taken then [Failure] else old(slots[id])
        decreases |taken|
      {
        var id :| id in taken;
        ghost var before := protocol;
        FailOne(id, t, taken);
        LeadsSnoc(old(protocol), [Drain(t)] + sends, before, Send(t, id));
        assert [Drain(t)] + sends + [Send(t, id)] == [Drain(t)] + (sends + [Send(t, id)]);
        sends := sends + [Send(t, id)];
        taken := taken - {id};
      }
    }
  }

  /** A request whose reply can still be delivered. */
  predicate Registered(s: State, id: Id) {
    id in s.table
  }

  lemma SlotPerRequester(s: State)
    requires Inv(s)
    ensures |s.slots| == |s.requesters|
  {
  }

  lemma RegisteredEmpty(s: State, id: Id)
    requires Inv(s)
    ensures id in s.table ==> id < |s.slots| && s.slots[id] == []
  {
    assert id in s.table ==> Placed(s, id);
  }
}
