/** Every interleaving of the monitor agent's lock sections, with any number of concurrent SendEvent
    and registration calls (pkg/monitoragent/monitoragent_linux.go). */
module MonitorRuns {
  import opened MonitorAgent

  /** How far a SendEvent call has come: the lock is free between these points. */
  datatype Phase = Started | AfterNotify | Encoding | Ready | Returned

  /** The whole system. `checked` holds the registrations of consumers that passed the check for a
      stopped agent and have not added their consumer yet, one entry per call; `audience` and
      `receivers` remember who was subscribed at the notify section and at the send section of each
      event. */
  datatype State = State(
    core: Core, calls: map<EventId, Phase>, checked: multiset<Consumer>,
    audience: map<EventId, set<Consumer>>, receivers: map<EventId, set<Listener>>)

  datatype Op =
    | Begin(e: EventId)
    | Notify(e: EventId)
    | CheckListeners(e: EventId)
    | Encode(e: EventId, encoded: bool)
    | Send(e: EventId)
    | RegisterListener(l: Listener)
    | RemoveListener(l: Listener)
    | CheckConsumer(c: Consumer)
    | AddConsumer(c: Consumer)
    | RemoveConsumer(c: Consumer)
    | Stop

  ghost predicate Init(s: State)
  {
    s == State(Core(false, {}, {}, false, []), map[], multiset{}, map[], map[])
  }

  ghost predicate InPhase(s: State, e: EventId, p: Phase) { e in s.calls && s.calls[e] == p }

  /** One atomic step: a lock section, or a step between lock sections. */
  ghost predicate Next(s: State, op: Op, t: State)
  {
    match op
    case Begin(e) => e !in s.calls && t == s.(calls := s.calls[e := Started])
    case Notify(e) =>
      InPhase(s, e, Started) && NotifySection(s.core, e, t.core) &&
      t == s.(core := t.core, calls := s.calls[e := AfterNotify], audience := s.audience[e := s.core.consumers])
    case CheckListeners(e) =>
      InPhase(s, e, AfterNotify) &&
      t == s.(calls := s.calls[e := if s.core.listeners == {} then Returned else Encoding])
    case Encode(e, encoded) =>
      InPhase(s, e, Encoding) && t == s.(calls := s.calls[e := if encoded then Ready else Returned])
    case Send(e) =>
      InPhase(s, e, Ready) && SendSection(s.core, e, t.core) &&
      t == s.(core := t.core, calls := s.calls[e := Returned], receivers := s.receivers[e := s.core.listeners])
    case RegisterListener(l) => t == s.(core := RegisterListenerSection(s.core, l))
    case RemoveListener(l) => t == s.(core := RemoveListenerSection(s.core, l))
    case CheckConsumer(c) => t == if s.core.stopped then s else s.(checked := s.checked + multiset{c})
    case AddConsumer(c) =>
      c in s.checked &&
      t == s.(core := AddConsumerSection(s.core, c), checked := s.checked - multiset{c})
    case RemoveConsumer(c) => t == s.(core := RemoveConsumerSection(s.core, c))
    case Stop => t == s.(core := s.core.(stopped := true))
  }

  /** A run of the system from its initial state. */
  ghost predicate Run(states: seq<State>, ops: seq<Op>)
  {
    && |states| == |ops| + 1 && Init(states[0])
    && forall i | 0 <= i < |ops| :: Next(states[i], ops[i], states[i + 1])
  }

  function Last(states: seq<State>): State
    requires states != []
  {
    states[|states| - 1]
  }

  // ----- delivery: exactly once, consumers first -----

  function Count(log: seq<Action>, a: Action): nat { multiset(log)[a] }

  /** The log agrees with the remembered audiences and receivers of every event. */
  ghost predicate Delivered(s: State)
  {
    && (forall e, c :: Count(s.core.log, Notified(e, c)) == if e in s.audience && c in s.audience[e] then 1 else 0)
    && (forall e, l :: Count(s.core.log, Enqueued(e, l)) == if e in s.receivers && l in s.receivers[e] then 1 else 0)
  }

  /** An event has an audience once its notify section ran, and receivers only after that. */
  ghost predicate PhasesAgree(s: State)
  {
    && (forall e :: e in s.audience <==> e in s.calls && !s.calls[e].Started?)
    && (forall e :: e in s.receivers ==> InPhase(s, e, Returned))
  }

  /** No consumer hears of an event after some listener got its payload. */
  ghost predicate ConsumersFirst(log: seq<Action>)
  {
    forall i, j | 0 <= i < j < |log| && log[i].Enqueued? && log[j].Notified? :: log[i].event != log[j].event
  }

  ghost predicate AllSupported(s: State) { forall l | l in s.core.listeners :: l.supported }

  ghost predicate Inv(s: State)
  {
    Delivered(s) && PhasesAgree(s) && ConsumersFirst(s.core.log) && AllSupported(s)
  }

  lemma CountConcat(a: seq<Action>, b: seq<Action>, x: Action)
    ensures Count(a + b, x) == Count(a, x) + Count(b, x)
  {
  }

  lemma CountNone(a: seq<Action>, x: Action)
    ensures Count(a, x) == 0 <==> x !in a
  {
  }

  /** Notifying of an event that no listener got yet keeps consumers first. */
  lemma NotifyingKeepsOrder(log: seq<Action>, acts: seq<Action>, e: EventId)
    requires ConsumersFirst(log)
    requires forall a | a in log && a.Enqueued? :: a.event != e
    requires forall a | a in acts :: a.Notified? && a.event == e
    ensures ConsumersFirst(log + acts)
  {
    var all := log + acts;
    forall k | |log| <= k < |all| ensures all[k].Notified? && all[k].event == e { assert all[k] in acts; }
    forall i, j | 0 <= i < j < |all| && all[i].Enqueued? && all[j].Notified? ensures all[i].event != all[j].event {
      assert all[i] in log;
    }
  }

  /** Enqueueing comes last, so it keeps consumers first. */
  lemma EnqueueingKeepsOrder(log: seq<Action>, acts: seq<Action>)
    requires ConsumersFirst(log)
    requires forall a | a in acts :: a.Enqueued?
    ensures ConsumersFirst(log + acts)
  {
    var all := log + acts;
    forall k | |log| <= k < |all| ensures all[k].Enqueued? { assert all[k] in acts; }
  }

  /** The notify section of `e` delivers `e` once to each consumer, and nothing else. */
  lemma NotifyDelivers(s: State, e: EventId, t: State)
    requires Inv(s) && Next(s, Notify(e), t)
    ensures Delivered(t) && ConsumersFirst(t.core.log)
  {
    hide ConsumersFirst, AllSupported;
    var acts :| NotifiesAll(acts, e, s.core.consumers) && t.core == s.core.(log := s.core.log + acts);
    assert e !in s.audience && e !in s.receivers;
    forall e', c ensures Count(t.core.log, Notified(e', c)) ==
                         if e' in t.audience && c in t.audience[e'] then 1 else 0 {
      CountConcat(s.core.log, acts, Notified(e', c));
      CountNone(acts, Notified(e', c));
    }
    forall e', l ensures Count(t.core.log, Enqueued(e', l)) ==
                         if e' in t.receivers && l in t.receivers[e'] then 1 else 0 {
      CountConcat(s.core.log, acts, Enqueued(e', l));
      CountNone(acts, Enqueued(e', l));
    }
    forall a | a in s.core.log && a.Enqueued? ensures a.event != e { CountNone(s.core.log, a); }
    NotifyingKeepsOrder(s.core.log, acts, e);
  }

  lemma SendDelivers(s: State, e: EventId, t: State)
    requires Inv(s) && Next(s, Send(e), t)
    ensures Delivered(t) && ConsumersFirst(t.core.log)
  {
    hide ConsumersFirst, AllSupported;
    var acts :| EnqueuesAll(acts, e, s.core.listeners) && t.core == s.core.(log := s.core.log + acts);
    assert e !in s.receivers;
    forall e', c ensures Count(t.core.log, Notified(e', c)) ==
                         if e' in t.audience && c in t.audience[e'] then 1 else 0 {
      CountConcat(s.core.log, acts, Notified(e', c));
      CountNone(acts, Notified(e', c));
    }
    forall e', l ensures Count(t.core.log, Enqueued(e', l)) ==
                         if e' in t.receivers && l in t.receivers[e'] then 1 else 0 {
      CountConcat(s.core.log, acts, Enqueued(e', l));
      CountNone(acts, Enqueued(e', l));
    }
    EnqueueingKeepsOrder(s.core.log, acts);
  }

  /** A step that only appends a Closed, or nothing, delivers nothing. */
  lemma ClosingDeliversNothing(log: seq<Action>, l: Listener)
    ensures forall e, c :: Count(log + [Closed(l)], Notified(e, c)) == Count(log, Notified(e, c))
    ensures forall e, m :: Count(log + [Closed(l)], Enqueued(e, m)) == Count(log, Enqueued(e, m))
    ensures ConsumersFirst(log) ==> ConsumersFirst(log + [Closed(l)])
  {
    forall e, c ensures Count(log + [Closed(l)], Notified(e, c)) == Count(log, Notified(e, c)) {
      CountConcat(log, [Closed(l)], Notified(e, c));
    }
    forall e, m ensures Count(log + [Closed(l)], Enqueued(e, m)) == Count(log, Enqueued(e, m)) {
      CountConcat(log, [Closed(l)], Enqueued(e, m));
    }
  }

  lemma StepDelivers(s: State, op: Op, t: State)
    requires Inv(s) && Next(s, op, t)
    ensures Delivered(t) && ConsumersFirst(t.core.log)
  {
    hide Count, NotifySection, SendSection, AllSupported;
    match op
    case Notify(e) => NotifyDelivers(s, e, t);
    case Send(e) => SendDelivers(s, e, t);
    case RegisterListener(l) =>
      hide PhasesAgree, ConsumersFirst;
      ClosingDeliversNothing(s.core.log, l);
    case RemoveListener(l) =>
      hide PhasesAgree, ConsumersFirst;
      ClosingDeliversNothing(s.core.log, l);
    case _ =>
  }

  lemma StepKeepsPhases(s: State, op: Op, t: State)
    requires PhasesAgree(s) && Next(s, op, t)
    ensures PhasesAgree(t)
  {
    hide NotifySection, SendSection, RegisterListenerSection, RemoveListenerSection, AddConsumerSection,
         RemoveConsumerSection;
    match op
    case Begin(_) =>
    case Notify(_) =>
    case CheckListeners(_) =>
    case Encode(_, _) =>
    case Send(_) =>
    case _ =>
  }

  lemma StepKeepsSupported(s: State, op: Op, t: State)
    requires AllSupported(s) && Next(s, op, t)
    ensures AllSupported(t)
  {
    hide NotifiesAll, EnqueuesAll;
  }

  lemma StepKeepsInv(s: State, op: Op, t: State)
    requires Inv(s) && Next(s, op, t)
    ensures Inv(t)
  {
    hide Next, Delivered, PhasesAgree, ConsumersFirst, AllSupported;
    StepDelivers(s, op, t);
    StepKeepsPhases(s, op, t);
    StepKeepsSupported(s, op, t);
  }

  /** In every run, at every point: each event was notified exactly once to exactly the consumers
      registered at its notify section, and enqueued exactly once to exactly the listeners stored at
      its send section, consumers first; and only listeners of the supported version are stored. */
  lemma {:induction false} RunKeepsInv(states: seq<State>, ops: seq<Op>, n: nat)
    requires Run(states, ops) && n <= |ops|
    ensures Inv(states[n])
  {
    if n == 0 {
      assert multiset(states[0].core.log) == multiset{};
    } else {
      RunKeepsInv(states, ops, n - 1);
      assert Next(states[n - 1], ops[n - 1], states[n - 1 + 1]);
      StepKeepsInv(states[n - 1], ops[n - 1], states[n]);
    }
  }

  // ----- no payload after closing -----

  ghost predicate WasClosed(log: seq<Action>, l: Listener) { Closed(l) in log }

  ghost predicate NoUseAfterClose(log: seq<Action>)
  {
    forall i, j | 0 <= i < j < |log| && log[i].Closed? && log[j].Enqueued? :: log[i].listener != log[j].listener
  }

  /** A listener that is still stored although the agent closed it. */
  ghost predicate Stale(c: Core, l: Listener) { l in c.listeners && WasClosed(c.log, l) }

  ghost predicate StoredAreOpen(c: Core) { forall l :: !Stale(c, l) }

  /** The calls that leave a closed listener in the store: registering a closed one again while the
      agent runs, or registering a stored one again after it stopped, which closes it in place. */
  ghost predicate Misregisters(c: Core, op: Op, l: Listener)
  {
    op == RegisterListener(l) && if c.stopped then l in c.listeners else l.supported && WasClosed(c.log, l)
  }

  lemma ClosedByOne(log: seq<Action>, l: Listener)
    ensures forall m :: WasClosed(log + [Closed(l)], m) <==> WasClosed(log, m) || m == l
  {
  }

  lemma NoneClosed(log: seq<Action>, acts: seq<Action>)
    requires forall a | a in acts :: !a.Closed?
    ensures forall l :: WasClosed(log + acts, l) <==> WasClosed(log, l)
  {
  }

  /** A listener becomes stale exactly by such a call and stops being so exactly by its removal. */
  lemma StaleStep(s: State, op: Op, t: State, l: Listener)
    requires AllSupported(s) && Next(s, op, t)
    ensures Stale(t.core, l) <==>
            Misregisters(s.core, op, l) || (Stale(s.core, l) && op != RemoveListener(l))
  {
    match op
    case Notify(e) =>
      var acts :| NotifiesAll(acts, e, s.core.consumers) && t.core == s.core.(log := s.core.log + acts);
      NoneClosed(s.core.log, acts);
    case Send(e) =>
      var acts :| EnqueuesAll(acts, e, s.core.listeners) && t.core == s.core.(log := s.core.log + acts);
      NoneClosed(s.core.log, acts);
    case RegisterListener(m) => ClosedByOne(s.core.log, m);
    case RemoveListener(m) => ClosedByOne(s.core.log, m);
    case _ =>
  }

  /** A step keeps closed listeners out of the store exactly when it is not such a call. */
  lemma StepKeepsOpen(s: State, op: Op, t: State)
    requires StoredAreOpen(s.core) && AllSupported(s) && Next(s, op, t)
    ensures StoredAreOpen(t.core) <==> forall l :: !Misregisters(s.core, op, l)
  {
    hide Next, AllSupported, Misregisters;
    forall l ensures Stale(t.core, l) <==> Misregisters(s.core, op, l) { StaleStep(s, op, t, l); }
  }

  /** The `j`-th call left `l` stale, and nobody removed `l` before point `n`. */
  ghost predicate LeftStale(states: seq<State>, ops: seq<Op>, l: Listener, j: int, n: nat)
    requires |states| == |ops| + 1 && n <= |ops|
  {
    && 0 <= j < n && Misregisters(states[j].core, ops[j], l)
    && forall m | j < m < n :: ops[m] != RemoveListener(l)
  }

  /** In every run a listener is stale exactly when some call left it so. */
  lemma {:induction false} StaleExactly(states: seq<State>, ops: seq<Op>, l: Listener, n: nat)
    requires Run(states, ops) && n <= |ops|
    ensures Stale(states[n].core, l) <==> exists j :: LeftStale(states, ops, l, j, n)
  {
    hide Misregisters, Next, AllSupported;
    if n == 0 {
      assert Init(states[0]);
    } else {
      var k := n - 1;
      StaleExactly(states, ops, l, k);
      RunKeepsInv(states, ops, k);
      assert Next(states[k], ops[k], states[k + 1]);
      StaleStep(states[k], ops[k], states[n], l);
      LeftStaleStep(states, ops, l, k, n);
    }
  }

  lemma LeftStaleStep(states: seq<State>, ops: seq<Op>, l: Listener, k: nat, n: nat)
    requires |states| == |ops| + 1 && n == k + 1 <= |ops|
    ensures (exists j :: LeftStale(states, ops, l, j, n)) <==>
            Misregisters(states[k].core, ops[k], l) ||
            ((exists j :: LeftStale(states, ops, l, j, k)) && ops[k] != RemoveListener(l))
  {
    hide Misregisters;
    if Misregisters(states[k].core, ops[k], l) {
      assert LeftStale(states, ops, l, k, n);
    } else {
      forall j ensures LeftStale(states, ops, l, j, n) <==>
                       LeftStale(states, ops, l, j, k) && ops[k] != RemoveListener(l) {}
    }
  }

  lemma AppendedNoPayload(log: seq<Action>, acts: seq<Action>)
    requires forall a | a in acts :: !a.Enqueued?
    ensures NoUseAfterClose(log + acts) <==> NoUseAfterClose(log)
  {
    var more := log + acts;
    forall k | |log| <= k < |more| ensures !more[k].Enqueued? { assert more[k] == acts[k - |log|]; }
    forall k | 0 <= k < |log| ensures more[k] == log[k] {}
    if NoUseAfterClose(log) {
      forall i, j | 0 <= i < j < |more| && more[i].Closed? && more[j].Enqueued?
        ensures more[i].listener != more[j].listener
      {
        assert more[i] == log[i] && more[j] == log[j];
      }
    }
    if NoUseAfterClose(more) {
      forall i, j | 0 <= i < j < |log| && log[i].Closed? && log[j].Enqueued?
        ensures log[i].listener != log[j].listener
      {
        assert more[i] == log[i] && more[j] == log[j];
      }
    }
  }

  /** Sending uses a closed listener exactly when a stale one is stored. */
  lemma SendUses(c: Core, e: EventId, acts: seq<Action>)
    requires EnqueuesAll(acts, e, c.listeners)
    ensures NoUseAfterClose(c.log + acts) <==> NoUseAfterClose(c.log) && StoredAreOpen(c)
  {
    if NoUseAfterClose(c.log + acts) {
      UsesShow(c, e, acts);
    }
    if NoUseAfterClose(c.log) && StoredAreOpen(c) {
      OpenUses(c, e, acts);
    }
  }

  lemma UsesShow(c: Core, e: EventId, acts: seq<Action>)
    requires EnqueuesAll(acts, e, c.listeners) && NoUseAfterClose(c.log + acts)
    ensures NoUseAfterClose(c.log) && StoredAreOpen(c)
  {
    var more := c.log + acts;
    forall k | 0 <= k < |c.log| ensures more[k] == c.log[k] {}
    forall i, j | 0 <= i < j < |c.log| && c.log[i].Closed? && c.log[j].Enqueued?
      ensures c.log[i].listener != c.log[j].listener
    {
      assert more[i] == c.log[i] && more[j] == c.log[j];
    }
    forall l | l in c.listeners ensures !WasClosed(c.log, l) {
      assert multiset(acts)[Enqueued(e, l)] == 1;
      assert Enqueued(e, l) in acts;
      var j :| 0 <= j < |acts| && acts[j] == Enqueued(e, l);
      assert more[|c.log| + j] == Enqueued(e, l);
    }
  }

  lemma OpenUses(c: Core, e: EventId, acts: seq<Action>)
    requires EnqueuesAll(acts, e, c.listeners) && NoUseAfterClose(c.log) && StoredAreOpen(c)
    ensures NoUseAfterClose(c.log + acts)
  {
    var more := c.log + acts;
    forall k | |c.log| <= k < |more| ensures more[k].Enqueued? && more[k].listener in c.listeners {
      assert more[k] == acts[k - |c.log|];
    }
    forall i, j | 0 <= i < j < |more| && more[i].Closed? && more[j].Enqueued?
      ensures more[i].listener != more[j].listener
    {
      assert more[i] == c.log[i];
      if j >= |c.log| { assert !Stale(c, more[j].listener); }
    }
  }

  lemma StepUses(s: State, op: Op, t: State)
    requires Next(s, op, t)
    ensures NoUseAfterClose(t.core.log) <==> NoUseAfterClose(s.core.log) && (op.Send? ==> StoredAreOpen(s.core))
  {
    hide NoUseAfterClose, StoredAreOpen;
    match op
    case Notify(e) =>
      var acts :| NotifiesAll(acts, e, s.core.consumers) && t.core == s.core.(log := s.core.log + acts);
      AppendedNoPayload(s.core.log, acts);
    case Send(e) =>
      var acts :| EnqueuesAll(acts, e, s.core.listeners) && t.core == s.core.(log := s.core.log + acts);
      SendUses(s.core, e, acts);
    case RegisterListener(l) => AppendedNoPayload(s.core.log, [Closed(l)]);
    case RemoveListener(l) => AppendedNoPayload(s.core.log, [Closed(l)]);
    case _ =>
  }

  /** In every run, no payload was enqueued on a listener after the agent closed it exactly when at
      every send section all stored listeners were open. */
  lemma {:induction false} RunUsesOpen(states: seq<State>, ops: seq<Op>, n: nat)
    requires Run(states, ops) && n <= |ops|
    ensures NoUseAfterClose(states[n].core.log) <==>
            forall i | 0 <= i < n && ops[i].Send? :: StoredAreOpen(states[i].core)
  {
    hide Next, StoredAreOpen;
    if n == 0 {
      assert states[0].core.log == [];
    } else {
      hide NoUseAfterClose;
      RunUsesOpen(states, ops, n - 1);
      assert Next(states[n - 1], ops[n - 1], states[n - 1 + 1]);
      StepUses(states[n - 1], ops[n - 1], states[n]);
    }
  }

  /** The same in terms of the calls made: a closed listener is used in a run exactly when an event
      is sent after a call that left a listener stale, with no removal of that listener between. */
  lemma RunNeverUsesClosed(states: seq<State>, ops: seq<Op>)
    requires Run(states, ops)
    ensures NoUseAfterClose(Last(states).core.log) <==>
            forall k, l, j | 0 <= k < |ops| && ops[k].Send? :: !LeftStale(states, ops, l, j, k)
  {
    hide Next, Misregisters, NoUseAfterClose, Stale, LeftStale;
    RunUsesOpen(states, ops, |ops|);
    forall k, l | 0 <= k < |ops|
      ensures Stale(states[k].core, l) <==> exists j :: LeftStale(states, ops, l, j, k)
    {
      StaleExactly(states, ops, l, k);
    }
    if k, l, j :| 0 <= k < |ops| && ops[k].Send? && LeftStale(states, ops, l, j, k) {
      assert Stale(states[k].core, l);
    }
  }

  // ----- who is subscribed, from the calls made -----

  /** The `j`-th step is `since`, and no step between it and point `n` is `until`. */
  ghost predicate SinceAt(ops: seq<Op>, since: Op, until: Op, j: int, n: nat)
    requires n <= |ops|
  {
    0 <= j < n && ops[j] == since && forall m | j < m < n :: ops[m] != until
  }

  ghost predicate Since(ops: seq<Op>, since: Op, until: Op, n: nat)
    requires n <= |ops|
  {
    exists j :: SinceAt(ops, since, until, j, n)
  }

  lemma SinceStep(ops: seq<Op>, since: Op, until: Op, k: nat, n: nat)
    requires n == k + 1 <= |ops| && since != until
    ensures Since(ops, since, until, n) <==> ops[k] == since || (Since(ops, since, until, k) && ops[k] != until)
  {
    if ops[k] == since {
      assert SinceAt(ops, since, until, k, n);
    } else {
      forall j ensures SinceAt(ops, since, until, j, n) <==> SinceAt(ops, since, until, j, k) && ops[k] != until {}
    }
  }

  lemma ConsumerStep(s: State, op: Op, t: State, c: Consumer)
    requires Next(s, op, t)
    ensures c in t.core.consumers <==> op == AddConsumer(c) || (c in s.core.consumers && op != RemoveConsumer(c))
  {
    hide NotifiesAll, EnqueuesAll;
  }

  /** In every run a consumer is registered exactly when it was added and not removed since. */
  lemma {:induction false} ConsumersExactly(states: seq<State>, ops: seq<Op>, c: Consumer, n: nat)
    requires Run(states, ops) && n <= |ops|
    ensures c in states[n].core.consumers <==> Since(ops, AddConsumer(c), RemoveConsumer(c), n)
  {
    hide Next, Since;
    if n == 0 {
      assert Init(states[0]);
      SinceNothing(ops, AddConsumer(c), RemoveConsumer(c));
    } else {
      ConsumersExactly(states, ops, c, n - 1);
      assert Next(states[n - 1], ops[n - 1], states[n - 1 + 1]);
      ConsumerStep(states[n - 1], ops[n - 1], states[n], c);
      SinceStep(ops, AddConsumer(c), RemoveConsumer(c), n - 1, n);
    }
  }

  lemma SinceNothing(ops: seq<Op>, since: Op, until: Op)
    ensures !Since(ops, since, until, 0)
  {
  }

  lemma StoppedByStop(s: State, op: Op, t: State)
    requires Next(s, op, t)
    ensures t.core.stopped <==> s.core.stopped || op.Stop?
  {
    hide NotifiesAll, EnqueuesAll;
  }

  /** In every run the agent is stopped exactly when it was told to stop. */
  lemma {:induction false} StoppedExactly(states: seq<State>, ops: seq<Op>, n: nat)
    requires Run(states, ops) && n <= |ops|
    ensures states[n].core.stopped <==> exists j | 0 <= j < n :: ops[j].Stop?
  {
    hide Next;
    if n == 0 {
      assert Init(states[0]);
    } else {
      StoppedExactly(states, ops, n - 1);
      assert Next(states[n - 1], ops[n - 1], states[n - 1 + 1]);
      StoppedByStop(states[n - 1], ops[n - 1], states[n]);
    }
  }

  /** The `j`-th call registered `l` successfully, and nobody removed `l` before point `n`. */
  ghost predicate Accepted(ops: seq<Op>, l: Listener, j: int, n: nat)
    requires n <= |ops|
  {
    && 0 <= j < n && ops[j] == RegisterListener(l) && l.supported
    && (forall m | 0 <= m < j :: !ops[m].Stop?)
    && (forall m | j < m < n :: ops[m] != RemoveListener(l))
  }

  lemma ListenerStep(s: State, op: Op, t: State, l: Listener)
    requires Next(s, op, t)
    ensures l in t.core.listeners <==>
            (op == RegisterListener(l) && l.supported && !s.core.stopped) ||
            (l in s.core.listeners && op != RemoveListener(l))
  {
    hide NotifiesAll, EnqueuesAll;
  }

  lemma AcceptedStep(ops: seq<Op>, l: Listener, k: nat, n: nat)
    requires n == k + 1 <= |ops|
    ensures (exists j :: Accepted(ops, l, j, n)) <==>
            (ops[k] == RegisterListener(l) && l.supported && forall m | 0 <= m < k :: !ops[m].Stop?) ||
            ((exists j :: Accepted(ops, l, j, k)) && ops[k] != RemoveListener(l))
  {
    if ops[k] == RegisterListener(l) && l.supported && forall m | 0 <= m < k :: !ops[m].Stop? {
      assert Accepted(ops, l, k, n);
    } else {
      forall j ensures Accepted(ops, l, j, n) <==> Accepted(ops, l, j, k) && ops[k] != RemoveListener(l) {}
    }
  }

  /** In every run a listener is stored exactly when it speaks the supported version, was registered
      before the stop, and was not removed since. */
  lemma {:induction false} ListenersExactly(states: seq<State>, ops: seq<Op>, l: Listener, n: nat)
    requires Run(states, ops) && n <= |ops|
    ensures l in states[n].core.listeners <==> exists j :: Accepted(ops, l, j, n)
  {
    hide Next, Accepted;
    if n == 0 {
      assert Init(states[0]);
      forall j ensures !Accepted(ops, l, j, 0) { AcceptedNothing(ops, l, j); }
    } else {
      var k := n - 1;
      ListenersExactly(states, ops, l, k);
      StoppedExactly(states, ops, k);
      assert Next(states[k], ops[k], states[k + 1]);
      ListenerStep(states[k], ops[k], states[n], l);
      AcceptedStep(ops, l, k, n);
    }
  }

  lemma AcceptedNothing(ops: seq<Op>, l: Listener, j: int)
    ensures !Accepted(ops, l, j, 0)
  {
  }

  /** The steps that close `l`: its removal, and every registration that is refused. */
  ghost predicate Closes(s: State, op: Op, l: Listener)
  {
    op == RemoveListener(l) || (op == RegisterListener(l) && (s.core.stopped || !l.supported))
  }

  ghost function Closings(states: seq<State>, ops: seq<Op>, l: Listener, n: nat): nat
    requires n <= |ops| && |states| == |ops| + 1
  {
    if n == 0 then 0
    else Closings(states, ops, l, n - 1) + if Closes(states[n - 1], ops[n - 1], l) then 1 else 0
  }

  lemma ClosedStep(s: State, op: Op, t: State, l: Listener)
    requires Next(s, op, t)
    ensures Count(t.core.log, Closed(l)) == Count(s.core.log, Closed(l)) + if Closes(s, op, l) then 1 else 0
  {
    hide Count;
    match op
    case Notify(e) =>
      var acts :| NotifiesAll(acts, e, s.core.consumers) && t.core == s.core.(log := s.core.log + acts);
      CountConcat(s.core.log, acts, Closed(l));
      CountNone(acts, Closed(l));
    case Send(e) =>
      var acts :| EnqueuesAll(acts, e, s.core.listeners) && t.core == s.core.(log := s.core.log + acts);
      CountConcat(s.core.log, acts, Closed(l));
      CountNone(acts, Closed(l));
    case RegisterListener(m) => CountClosed(s.core.log, m, l);
    case RemoveListener(m) => CountClosed(s.core.log, m, l);
    case _ =>
  }

  lemma CountClosed(log: seq<Action>, m: Listener, l: Listener)
    ensures Count(log + [Closed(m)], Closed(l)) == Count(log, Closed(l)) + if m == l then 1 else 0
  {
    CountConcat(log, [Closed(m)], Closed(l));
  }

  /** In every run a listener is closed once for each of its removals and refused registrations. */
  lemma {:induction false} ClosedExactly(states: seq<State>, ops: seq<Op>, l: Listener, n: nat)
    requires Run(states, ops) && n <= |ops|
    ensures Count(states[n].core.log, Closed(l)) == Closings(states, ops, l, n)
  {
    hide Next, Closes;
    if n == 0 {
      assert Init(states[0]);
    } else {
      hide Count;
      ClosedExactly(states, ops, l, n - 1);
      assert Next(states[n - 1], ops[n - 1], states[n - 1 + 1]);
      ClosedStep(states[n - 1], ops[n - 1], states[n], l);
    }
  }

  // ----- who hears of an event -----

  lemma SectionsKept(s: State, op: Op, t: State, e: EventId)
    requires PhasesAgree(s) && Next(s, op, t)
    ensures e in s.audience ==> e in t.audience && t.audience[e] == s.audience[e]
    ensures e in s.receivers ==> e in t.receivers && t.receivers[e] == s.receivers[e]
  {
    hide NotifySection, SendSection;
  }

  lemma {:induction false} SectionsRemembered(states: seq<State>, ops: seq<Op>, e: EventId, k: nat, n: nat)
    requires Run(states, ops) && k < n <= |ops|
    ensures ops[k] == Notify(e) ==> e in states[n].audience && states[n].audience[e] == states[k].core.consumers
    ensures ops[k] == Send(e) ==> e in states[n].receivers && states[n].receivers[e] == states[k].core.listeners
  {
    assert Next(states[n - 1], ops[n - 1], states[n - 1 + 1]);
    if k < n - 1 {
      hide Next;
      SectionsRemembered(states, ops, e, k, n - 1);
      RunKeepsInv(states, ops, n - 1);
      SectionsKept(states[n - 1], ops[n - 1], states[n], e);
    }
  }

  /** Once an event was announced it has been notified, for ever after, once to each consumer that had
      been added and not removed by then, and to no other. */
  lemma NotifiedExactly(states: seq<State>, ops: seq<Op>, e: EventId, c: Consumer, k: nat, n: nat)
    requires Run(states, ops) && k < n <= |ops| && ops[k] == Notify(e)
    ensures Count(states[n].core.log, Notified(e, c)) ==
            if Since(ops, AddConsumer(c), RemoveConsumer(c), k) then 1 else 0
  {
    hide Next, Count, Since, PhasesAgree, ConsumersFirst, AllSupported;
    RunKeepsInv(states, ops, n);
    SectionsRemembered(states, ops, e, k, n);
    ConsumersExactly(states, ops, c, k);
  }

  /** Once an event was sent it has been enqueued, for ever after, once on each listener that had been
      accepted and not removed by then, and on no other. */
  lemma EnqueuedExactly(states: seq<State>, ops: seq<Op>, e: EventId, l: Listener, k: nat, n: nat)
    requires Run(states, ops) && k < n <= |ops| && ops[k] == Send(e)
    ensures Count(states[n].core.log, Enqueued(e, l)) == if exists j :: Accepted(ops, l, j, k) then 1 else 0
  {
    hide Next, Count, Accepted, PhasesAgree, ConsumersFirst, AllSupported;
    RunKeepsInv(states, ops, n);
    SectionsRemembered(states, ops, e, k, n);
    ListenersExactly(states, ops, l, k);
  }

  /** How far an event has come tells what happened to it before. */
  ghost predicate Passed(states: seq<State>, ops: seq<Op>, e: EventId, n: nat)
    requires |states| == |ops| + 1 && n <= |ops|
  {
    && (InPhase(states[n], e, Encoding) || InPhase(states[n], e, Ready) || e in states[n].receivers ==>
          exists i | 0 <= i < n :: ops[i] == CheckListeners(e) && states[i].core.listeners != {})
    && (InPhase(states[n], e, Ready) || e in states[n].receivers ==>
          exists i | 0 <= i < n :: ops[i] == Encode(e, true))
  }

  lemma PassedStep(s: State, op: Op, t: State, e: EventId)
    requires Next(s, op, t)
    ensures InPhase(t, e, Encoding) ==>
              InPhase(s, e, Encoding) || (op == CheckListeners(e) && s.core.listeners != {})
    ensures InPhase(t, e, Ready) ==> InPhase(s, e, Ready) || (op == Encode(e, true) && InPhase(s, e, Encoding))
    ensures e in t.receivers ==> e in s.receivers || InPhase(s, e, Ready)
  {
    hide NotifySection, SendSection;
  }

  /** An event is sent only if there was a listener at its check and it could be encoded. */
  lemma {:induction false} SentOnlyIf(states: seq<State>, ops: seq<Op>, e: EventId, n: nat)
    requires Run(states, ops) && n <= |ops|
    ensures Passed(states, ops, e, n)
  {
    hide Next;
    if n == 0 {
      assert Init(states[0]);
    } else {
      SentOnlyIf(states, ops, e, n - 1);
      assert Next(states[n - 1], ops[n - 1], states[n - 1 + 1]);
      PassedStep(states[n - 1], ops[n - 1], states[n], e);
    }
  }

  // ----- both kinds of registration happen -----

  /** A listener that is registered again after the agent stopped, while an event is under way. */
  function RegisterAfterStop(l: Listener): seq<Op>
  {
    [RegisterListener(l), Begin(0), Notify(0), CheckListeners(0), Encode(0, true), Stop, RegisterListener(l), Send(0)]
  }

  /** A listener that is removed, which closes it, and registered again. */
  function RegisterAfterRemoval(l: Listener): seq<Op>
  {
    [RegisterListener(l), RemoveListener(l), RegisterListener(l),
     Begin(0), Notify(0), CheckListeners(0), Encode(0, true), Send(0)]
  }

  /** An agent with the given listeners and no consumer, while event 0 is under way. */
  function Sending(stopped: bool, listeners: set<Listener>, log: seq<Action>, phase: Phase): State
  {
    State(Core(stopped, listeners, {}, false, log), map[0 := phase], multiset{},
          if phase.Started? then map[] else map[0 := {}], if phase.Returned? then map[0 := listeners] else map[])
  }

  function Idle(listeners: set<Listener>, log: seq<Action>): State
  {
    State(Core(false, listeners, {}, false, log), map[], multiset{}, map[], map[])
  }

  /** The steps of event 0 up to its send section, with one listener stored and no consumer. */
  lemma Prepares(l: Listener, log: seq<Action>)
    ensures Next(Idle({l}, log), Begin(0), Sending(false, {l}, log, Started))
    ensures Next(Sending(false, {l}, log, Started), Notify(0), Sending(false, {l}, log, AfterNotify))
    ensures Next(Sending(false, {l}, log, AfterNotify), CheckListeners(0), Sending(false, {l}, log, Encoding))
    ensures Next(Sending(false, {l}, log, Encoding), Encode(0, true), Sending(false, {l}, log, Ready))
  {
    var core := Core(false, {l}, {}, false, log);
    assert NotifySection(core, 0, core) by {
      assert NotifiesAll([], 0, {}) && core == core.(log := log + []);
    }
    assert map[0 := Started][0 := AfterNotify] == map[0 := AfterNotify];
    assert map[0 := AfterNotify][0 := Encoding] == map[0 := Encoding];
    assert map[0 := Encoding][0 := Ready] == map[0 := Ready];
  }

  lemma SendsTo(l: Listener, stopped: bool, log: seq<Action>)
    ensures Next(Sending(stopped, {l}, log, Ready), Send(0), Sending(stopped, {l}, log + [Enqueued(0, l)], Returned))
  {
    assert EnqueuesAll([Enqueued(0, l)], 0, {l});
    assert map[0 := Ready][0 := Returned] == map[0 := Returned];
  }

  /** Some run of these steps ends in `s`. */
  ghost predicate Reaches(ops: seq<Op>, s: State)
  {
    exists states :: Run(states, ops) && Last(states) == s
  }

  lemma ReachesInit()
    ensures Reaches([], Idle({}, []))
  {
    assert Run([Idle({}, [])], []);
  }

  lemma ReachesNext(ops: seq<Op>, s: State, op: Op, t: State)
    requires Reaches(ops, s) && Next(s, op, t)
    ensures Reaches(ops + [op], t)
  {
    hide Next;
    var states :| Run(states, ops) && Last(states) == s;
    var more := states + [t];
    forall i | 0 <= i < |ops| + 1 ensures Next(more[i], (ops + [op])[i], more[i + 1]) {
      if i < |ops| { assert Next(states[i], ops[i], states[i + 1]); }
    }
    assert Run(more, ops + [op]);
  }

  lemma ReachesReady(ops: seq<Op>, l: Listener, log: seq<Action>)
    requires Reaches(ops, Idle({l}, log))
    ensures Reaches(ops + [Begin(0), Notify(0), CheckListeners(0), Encode(0, true)], Sending(false, {l}, log, Ready))
  {
    hide Next, Reaches, Idle, Sending;
    Prepares(l, log);
    ReachesNext(ops, Idle({l}, log), Begin(0), Sending(false, {l}, log, Started));
    var a := ops + [Begin(0)];
    ReachesNext(a, Sending(false, {l}, log, Started), Notify(0), Sending(false, {l}, log, AfterNotify));
    var b := a + [Notify(0)];
    ReachesNext(b, Sending(false, {l}, log, AfterNotify), CheckListeners(0), Sending(false, {l}, log, Encoding));
    var c := b + [CheckListeners(0)];
    ReachesNext(c, Sending(false, {l}, log, Encoding), Encode(0, true), Sending(false, {l}, log, Ready));
    assert c + [Encode(0, true)] == ops + [Begin(0), Notify(0), CheckListeners(0), Encode(0, true)];
  }

  lemma ReachesUse(ops: seq<Op>, l: Listener, stopped: bool)
    requires Reaches(ops, Sending(stopped, {l}, [Closed(l)], Ready))
    ensures exists s :: Reaches(ops + [Send(0)], s) && !NoUseAfterClose(s.core.log)
  {
    var log := [Closed(l)] + [Enqueued(0, l)];
    SendsTo(l, stopped, [Closed(l)]);
    ReachesNext(ops, Sending(stopped, {l}, [Closed(l)], Ready), Send(0), Sending(stopped, {l}, log, Returned));
    assert Sending(stopped, {l}, log, Returned).core.log == log;
    assert log[0] == Closed(l) && log[1] == Enqueued(0, l);
  }

  lemma Registers(l: Listener, log: seq<Action>)
    requires l.supported
    ensures Next(Idle({}, log), RegisterListener(l), Idle({l}, log))
  {
    assert {} + {l} == {l};
  }

  lemma StopsAndCloses(l: Listener)
    ensures Next(Sending(false, {l}, [], Ready), Stop, Sending(true, {l}, [], Ready))
    ensures Next(Sending(true, {l}, [], Ready), RegisterListener(l), Sending(true, {l}, [Closed(l)], Ready))
  {
    assert [] + [Closed(l)] == [Closed(l)];
  }

  lemma Removes(l: Listener)
    ensures Next(Idle({l}, []), RemoveListener(l), Idle({}, [Closed(l)]))
  {
    assert {l} - {l} == {};
    assert [] + [Closed(l)] == [Closed(l)];
  }

  /** A stored listener registered again after the agent stopped is closed and then used. */
  lemma StoppedRegistrationIsUsed(l: Listener)
    requires l.supported
    ensures exists s :: Reaches(RegisterAfterStop(l), s) && !NoUseAfterClose(s.core.log)
  {
    hide Next, Reaches, Idle, Sending, NoUseAfterClose;
    ReachesInit();
    Registers(l, []);
    ReachesNext([], Idle({}, []), RegisterListener(l), Idle({l}, []));
    var a := [] + [RegisterListener(l)];
    ReachesReady(a, l, []);
    var b := a + [Begin(0), Notify(0), CheckListeners(0), Encode(0, true)];
    StopsAndCloses(l);
    ReachesNext(b, Sending(false, {l}, [], Ready), Stop, Sending(true, {l}, [], Ready));
    var c := b + [Stop];
    ReachesNext(c, Sending(true, {l}, [], Ready), RegisterListener(l), Sending(true, {l}, [Closed(l)], Ready));
    ReachesUse(c + [RegisterListener(l)], l, true);
    assert c + [RegisterListener(l)] + [Send(0)] == RegisterAfterStop(l);
  }

  /** A removed listener registered again on a running agent is used although it was closed. */
  lemma RemovedRegistrationIsUsed(l: Listener)
    requires l.supported
    ensures exists s :: Reaches(RegisterAfterRemoval(l), s) && !NoUseAfterClose(s.core.log)
  {
    hide Next, Reaches, Idle, Sending, NoUseAfterClose;
    ReachesInit();
    Registers(l, []);
    ReachesNext([], Idle({}, []), RegisterListener(l), Idle({l}, []));
    var a := [] + [RegisterListener(l)];
    Removes(l);
    ReachesNext(a, Idle({l}, []), RemoveListener(l), Idle({}, [Closed(l)]));
    var b := a + [RemoveListener(l)];
    Registers(l, [Closed(l)]);
    ReachesNext(b, Idle({}, [Closed(l)]), RegisterListener(l), Idle({l}, [Closed(l)]));
    var c := b + [RegisterListener(l)];
    ReachesReady(c, l, [Closed(l)]);
    var d := c + [Begin(0), Notify(0), CheckListeners(0), Encode(0, true)];
    ReachesUse(d, l, false);
    assert d + [Send(0)] == RegisterAfterRemoval(l);
  }

  // ----- after stopping -----

  /** How many of the first `n` steps add consumer `c`. */
  function Adds(ops: seq<Op>, n: nat, c: Consumer): nat
    requires n <= |ops|
  {
    if n == 0 then 0 else Adds(ops, n - 1, c) + if ops[n - 1] == AddConsumer(c) then 1 else 0
  }

  lemma StoppedStep(s: State, op: Op, t: State, c: Consumer)
    requires s.core.stopped && Next(s, op, t)
    ensures t.core.stopped && t.core.listeners <= s.core.listeners
    ensures t.checked[c] + (if op == AddConsumer(c) then 1 else 0) == s.checked[c]
    ensures c in t.core.consumers ==> c in s.core.consumers || op == AddConsumer(c)
  {
    hide NotifiesAll, EnqueuesAll;
  }

  /** Once stopped, no listener is added, and a consumer at most once for each registration that made
      its check before. */
  lemma {:induction false} StoppedAddsNone(states: seq<State>, ops: seq<Op>, n: nat, c: Consumer)
    requires |states| == |ops| + 1 && states[0].core.stopped && n <= |ops|
    requires forall i | 0 <= i < |ops| :: Next(states[i], ops[i], states[i + 1])
    ensures states[n].core.stopped && states[n].core.listeners <= states[0].core.listeners
    ensures Adds(ops, n, c) + states[n].checked[c] == states[0].checked[c]
    ensures c in states[n].core.consumers ==> c in states[0].core.consumers || Adds(ops, n, c) > 0
  {
    if n > 0 {
      hide Next;
      StoppedAddsNone(states, ops, n - 1, c);
      assert Next(states[n - 1], ops[n - 1], states[n - 1 + 1]);
      StoppedStep(states[n - 1], ops[n - 1], states[n], c);
    }
  }

  /** The reader is cancelled by the removal of a consumer that leaves no subscriber, and by nothing
      else: removing the last listener does not cancel it. */
  lemma CancelledExactly(s: State, op: Op, t: State)
    requires Next(s, op, t)
    ensures t.core.readerCancelled <==>
            s.core.readerCancelled || (op.RemoveConsumer? && t.core.listeners == {} && t.core.consumers == {})
  {
    match op
    case Notify(e) =>
      var acts :| NotifiesAll(acts, e, s.core.consumers) && t.core == s.core.(log := s.core.log + acts);
    case Send(e) =>
      var acts :| EnqueuesAll(acts, e, s.core.listeners) && t.core == s.core.(log := s.core.log + acts);
    case _ =>
  }
}
