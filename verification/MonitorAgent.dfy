/** The monitor agent (pkg/monitoragent/monitoragent_linux.go): what each section under its lock does,
    and the methods that do it. */
module MonitorAgent {

  /** `supported` holds for a listener that speaks Version1_2. */
  datatype Listener = Listener(id: nat, supported: bool)

  type Consumer = nat
  type EventId = nat

  /** What the agent does to its subscribers. */
  datatype Action =
    | Notified(event: EventId, consumer: Consumer)
    | Enqueued(event: EventId, listener: Listener)
    | Closed(listener: Listener)

  /** The agent's fields, and the log of what it did. */
  datatype Core = Core(
    stopped: bool, listeners: set<Listener>, consumers: set<Consumer>, readerCancelled: bool, log: seq<Action>)

  // ----- the sections under the lock -----

  /** Each consumer is notified once, in some order, and nothing else happens. */
  ghost predicate NotifiesAll(acts: seq<Action>, e: EventId, consumers: set<Consumer>)
  {
    && (forall a | a in acts :: a.Notified? && a.event == e && a.consumer in consumers)
    && (forall c | c in consumers :: multiset(acts)[Notified(e, c)] == 1)
  }

  ghost predicate EnqueuesAll(acts: seq<Action>, e: EventId, listeners: set<Listener>)
  {
    && (forall a | a in acts :: a.Enqueued? && a.event == e && a.listener in listeners)
    && (forall l | l in listeners :: multiset(acts)[Enqueued(e, l)] == 1)
  }

  ghost predicate NotifySection(c: Core, e: EventId, c': Core)
  {
    exists acts :: NotifiesAll(acts, e, c.consumers) && c' == c.(log := c.log + acts)
  }

  ghost predicate SendSection(c: Core, e: EventId, c': Core)
  {
    exists acts :: EnqueuesAll(acts, e, c.listeners) && c' == c.(log := c.log + acts)
  }

  function RegisterListenerSection(c: Core, l: Listener): Core
  {
    if c.stopped then c.(log := c.log + [Closed(l)])
    else if l.supported then c.(listeners := c.listeners + {l})
    else c.(log := c.log + [Closed(l)])
  }

  function RemoveListenerSection(c: Core, l: Listener): Core
  {
    c.(listeners := c.listeners - {l}, log := c.log + [Closed(l)])
  }

  function AddConsumerSection(c: Core, x: Consumer): Core { c.(consumers := c.consumers + {x}) }

  function RemoveConsumerSection(c: Core, x: Consumer): Core
  {
    var consumers := c.consumers - {x};
    c.(consumers := consumers, readerCancelled := c.readerCancelled || (c.listeners == {} && consumers == {}))
  }

  class Agent {
    var stopped: bool
    var listeners: set<Listener>
    var consumers: set<Consumer>
    var readerCancelled: bool
    var log: seq<Action>  // the calls made on subscribers

    ghost function View(): Core
      reads this
    {
      Core(stopped, listeners, consumers, readerCancelled, log)
    }

    constructor ()
      ensures View() == Core(false, {}, {}, false, [])
    {
      stopped, listeners, consumers, readerCancelled, log := false, {}, {}, false, [];
    }

    method NotifyAgentEvent(e: EventId)
      modifies this
      ensures NotifySection(old(View()), e, View())
    {
      var todo := consumers;
      ghost var acts: seq<Action> := [];
      while todo != {}
        invariant todo <= consumers
        invariant View() == old(View()).(log := old(log) + acts)
        invariant NotifiesAll(acts, e, consumers - todo)
        decreases todo
      {
        var c :| c in todo;
        OneMoreNotified(acts, e, consumers - todo, c);
        assert consumers - (todo - {c}) == (consumers - todo) + {c};
        log := log + [Notified(e, c)];
        acts := acts + [Notified(e, c)];
        todo := todo - {c};
      }
      assert consumers - todo == consumers;
    }

    method SendToListeners(e: EventId)
      modifies this
      ensures SendSection(old(View()), e, View())
    {
      var todo := listeners;
      ghost var acts: seq<Action> := [];
      while todo != {}
        invariant todo <= listeners
        invariant View() == old(View()).(log := old(log) + acts)
        invariant EnqueuesAll(acts, e, listeners - todo)
        decreases todo
      {
        var l :| l in todo;
        OneMoreEnqueued(acts, e, listeners - todo, l);
        assert listeners - (todo - {l}) == (listeners - todo) + {l};
        log := log + [Enqueued(e, l)];
        acts := acts + [Enqueued(e, l)];
        todo := todo - {l};
      }
      assert listeners - todo == listeners;
    }

    method HasListeners() returns (r: bool)
      ensures r <==> listeners != {}
    {
      r := |listeners| != 0;
    }

    /** A SendEvent call that no other call interrupts; `encodes` says whether the event can be marshalled. */
    method SendEvent(e: EventId, encodes: bool) returns (ok: bool)
      modifies this
      ensures ok <==> encodes || old(listeners) == {}
      ensures exists mid :: NotifySection(old(View()), e, mid) &&
                if ok && mid.listeners != {} then SendSection(mid, e, View()) else View() == mid
    {
      NotifyAgentEvent(e);
      ghost var mid := View();
      var any := HasListeners();
      if !any {
        return true;
      }
      if !encodes {
        return false;
      }
      SendToListeners(e);
      assert NotifySection(old(View()), e, mid) && SendSection(mid, e, View());
      return true;
    }

    method RegisterNewListener(l: Listener)
      modifies this
      ensures View() == RegisterListenerSection(old(View()), l)
    {
      if stopped {
        log := log + [Closed(l)];
        return;
      }
      if l.supported {
        listeners := listeners + {l};
      } else {
        log := log + [Closed(l)];
      }
    }

    method RemoveListener(l: Listener)
      modifies this
      ensures View() == RemoveListenerSection(old(View()), l)
    {
      listeners := listeners - {l};
      log := log + [Closed(l)];
    }

    method AddConsumerLocked(c: Consumer)
      modifies this
      ensures View() == AddConsumerSection(old(View()), c)
    {
      consumers := consumers + {c};
    }

    method RemoveConsumer(c: Consumer)
      modifies this
      ensures View() == RemoveConsumerSection(old(View()), c)
    {
      consumers := consumers - {c};
      if |listeners| + |consumers| == 0 {
        readerCancelled := true;
      }
    }
  }

  lemma OneMoreNotified(acts: seq<Action>, e: EventId, done: set<Consumer>, c: Consumer)
    requires NotifiesAll(acts, e, done) && c !in done
    ensures NotifiesAll(acts + [Notified(e, c)], e, done + {c})
  {
    assert Notified(e, c) !in acts;
    assert multiset(acts)[Notified(e, c)] == 0;
  }

  lemma OneMoreEnqueued(acts: seq<Action>, e: EventId, done: set<Listener>, l: Listener)
    requires EnqueuesAll(acts, e, done) && l !in done
    ensures EnqueuesAll(acts + [Enqueued(e, l)], e, done + {l})
  {
    assert Enqueued(e, l) !in acts;
    assert multiset(acts)[Enqueued(e, l)] == 0;
  }
}
