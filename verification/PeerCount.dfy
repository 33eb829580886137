/** The count of active peers.  A peer found by the tracker is counted on connecting and uncounted
    when its handler returns; one found by the DHT is uncounted twice, by its handler and by the
    function that called it; the cleanup uncounts once more the table entries it removes. */
module PeerCount {
  import opened Bytes

  type Addr = seq<byte>

  datatype Event =
    | TrackerConnect
    | DhtConnect(addr: Addr)
    | TrackerHandlerExit
    | DhtHandlerExit
    | DhtWrapperExit(addr: Addr)
    | Cleanup(idle: set<Addr>)

  /** The counter and table of the program, and how many goroutines are at which point. */
  datatype State = State(
    active: int, table: set<Addr>,
    trackerRunning: nat, dhtRunning: nat, dhtReturned: nat, dhtEnded: nat, cleaned: nat)

  /** No peer has connected yet. */
  predicate Initial(s: State) {
    && s.active == 0 && s.table == {}
    && s.trackerRunning == s.dhtRunning == s.dhtReturned == s.dhtEnded == s.cleaned == 0
  }

  /** A handler can only return if one is running. */
  predicate Enabled(s: State, e: Event) {
    match e
    case TrackerHandlerExit => s.trackerRunning > 0
    case DhtHandlerExit => s.dhtRunning > 0
    case DhtWrapperExit(_) => s.dhtReturned > 0
    case _ => true
  }

  /** What an event does to the counter and the table. */
  function Effect(e: Event, active: int, table: set<Addr>): (int, set<Addr>) {
    match e
    case TrackerConnect => (active + 1, table)
    case DhtConnect(a) => (active + 1, table + {a})
    case TrackerHandlerExit => (active - 1, table)
    case DhtHandlerExit => (active - 1, table)
    case DhtWrapperExit(a) => (active - 1, table - {a})
    case Cleanup(idle) => (active - |table * idle|, table - idle)
  }

  function Step(s: State, e: Event): State
    requires Enabled(s, e)
  {
    var (active, table) := Effect(e, s.active, s.table);
    var t := s.(active := active, table := table);
    match e
    case TrackerConnect => t.(trackerRunning := s.trackerRunning + 1)
    case DhtConnect(a) => t.(dhtRunning := s.dhtRunning + 1)
    case TrackerHandlerExit => t.(trackerRunning := s.trackerRunning - 1)
    case DhtHandlerExit => t.(dhtRunning := s.dhtRunning - 1, dhtReturned := s.dhtReturned + 1)
    case DhtWrapperExit(a) => t.(dhtReturned := s.dhtReturned - 1, dhtEnded := s.dhtEnded + 1)
    case Cleanup(idle) => t.(cleaned := s.cleaned + |s.table * idle|)
  }

  predicate Possible(s: State, es: seq<Event>)
    decreases |es|
  {
    es == [] || (Enabled(s, es[0]) && Possible(Step(s, es[0]), es[1..]))
  }

  function Run(s: State, es: seq<Event>): State
    requires Possible(s, es)
    decreases |es|
  {
    if es == [] then s else Run(Step(s, es[0]), es[1..])
  }

  function Running(s: State): nat {
    s.trackerRunning + s.dhtRunning
  }

  lemma {:induction false} CountDrifts(s: State, es: seq<Event>)
    requires Possible(s, es)
    ensures var t := Run(s, es);
            t.active - Running(t) + t.dhtEnded + t.cleaned == s.active - Running(s) + s.dhtEnded + s.cleaned
    decreases |es|
  {
    if es != [] {
      CountDrifts(Step(s, es[0]), es[1..]);
    }
  }

  /** Some event of the run makes the counter wrong: a function that called the handler of a DHT
      peer returns, or a cleanup meets an entry of the table. */
  predicate Miscounts(s: State, es: seq<Event>)
    requires Possible(s, es)
    decreases |es|
  {
    es != [] &&
    (es[0].DhtWrapperExit?
     || (es[0].Cleanup? && s.table * es[0].idle != {})
     || Miscounts(Step(s, es[0]), es[1..]))
  }

  lemma {:induction false} MiscountsAreCounted(s: State, es: seq<Event>)
    requires Possible(s, es)
    ensures var t := Run(s, es);
            && t.dhtEnded >= s.dhtEnded && t.cleaned >= s.cleaned
            && (Miscounts(s, es) <==> t.dhtEnded + t.cleaned > s.dhtEnded + s.cleaned)
    decreases |es|
  {
    hide Effect;
    if es != [] {
      var e := es[0];
      if e.Cleanup? {
        var met := s.table * e.idle;
        assert |met| == 0 <==> met == {};
      }
      MiscountsAreCounted(Step(s, e), es[1..]);
    }
  }

  /** In every run the counter is the number of running handlers less one for every DHT connection
      that has ended and one for every table entry cleaned up; it is that number exactly if no
      function that called a DHT peer's handler has returned and no cleanup has met the table. */
  lemma CountIsRightExactlyWithoutDhtEndsAndCleanups(s: State, es: seq<Event>)
    requires Initial(s) && Possible(s, es)
    ensures var t := Run(s, es);
            && t.active == Running(t) - t.dhtEnded - t.cleaned
            && (t.active == Running(t) <==> !Miscounts(s, es))
  {
    assert s.active - Running(s) + s.dhtEnded + s.cleaned == 0 && s.dhtEnded == s.cleaned == 0;
    hide Initial, Possible, Run, Step, Miscounts;
    CountDrifts(s, es);
    MiscountsAreCounted(s, es);
  }

  predicate OnlyTracker(es: seq<Event>) {
    forall e <- es :: e.TrackerConnect? || e.TrackerHandlerExit?
  }

  lemma {:induction false} TrackerPeersAreCounted(s: State, es: seq<Event>)
    requires Possible(s, es) && OnlyTracker(es)
    requires s.active == s.trackerRunning && s.dhtRunning == 0
    ensures Run(s, es).active == Run(s, es).trackerRunning >= 0
    decreases |es|
  {
    if es != [] {
      assert es[0] in es;
      TrackerPeersAreCounted(Step(s, es[0]), es[1..]);
    }
  }

  /** One DHT peer that comes and goes leaves the counter at minus one. */
  lemma OneDhtPeerLeavesMinusOne(s: State, a: Addr)
    requires Initial(s)
    ensures var es := [DhtConnect(a), DhtHandlerExit, DhtWrapperExit(a)];
            Possible(s, es) && Run(s, es).active == -1
  {
    var es := [DhtConnect(a), DhtHandlerExit, DhtWrapperExit(a)];
    var s1 := Step(s, es[0]);
    var s2 := Step(s1, es[1]);
    assert es[1..] == [DhtHandlerExit, DhtWrapperExit(a)];
    assert es[1..][1..] == [DhtWrapperExit(a)];
    assert es[1..][1..][1..] == [];
    assert Possible(s2, [DhtWrapperExit(a)]);
    assert Possible(s1, es[1..]);
    assert Run(s1, es[1..]) == Run(s2, [DhtWrapperExit(a)]);
  }

  // ----- the code -----

  lemma RemoveOneMore(m: map<Addr, int>, gone: set<Addr>, a: Addr)
    ensures m - gone - {a} == m - (gone + {a})
    ensures a !in gone ==> |gone + {a}| == |gone| + 1
  {
  }

  class PeerTable {
    var activePeers: int
    var table: map<Addr, int>

    constructor ()
      ensures activePeers == 0 && table == map[]
    {
      activePeers, table := 0, map[];
    }

    method TrackerConnected()
      modifies `activePeers
      ensures (activePeers, table.Keys) == Effect(TrackerConnect, old(activePeers), old(table.Keys))
    {
      activePeers := activePeers + 1;
    }

    /** Every handler ends here, whoever started it. */
    method HandlerExit()
      modifies `activePeers
      ensures (activePeers, table.Keys) == Effect(TrackerHandlerExit, old(activePeers), old(table.Keys))
      ensures (activePeers, table.Keys) == Effect(DhtHandlerExit, old(activePeers), old(table.Keys))
    {
      activePeers := activePeers - 1;
    }

    method DhtConnected(a: Addr, lastActive: int)
      modifies this
      ensures (activePeers, table.Keys) == Effect(DhtConnect(a), old(activePeers), old(table.Keys))
      ensures table == old(table)[a := lastActive]
    {
      activePeers := activePeers + 1;
      table := table[a := lastActive];
      assert table.Keys == old(table.Keys) + {a};
    }

    method DhtWrapperEnds(a: Addr)
      modifies this
      ensures (activePeers, table.Keys) == Effect(DhtWrapperExit(a), old(activePeers), old(table.Keys))
      ensures table == old(table) - {a}
    {
      table := table - {a};
      activePeers := activePeers - 1;
    }

    /** The peers in the table that have been silent since before the deadline. */
    ghost function Idle(deadline: int): set<Addr>
      reads this
    {
      set a | a in table && table[a] < deadline
    }

    /** Removes the idle peers, in whatever order the table lists them. */
    method CleanupDisconnectedPeers(deadline: int)
      modifies this
      ensures (activePeers, table.Keys)
           == Effect(Cleanup(old(Idle(deadline))), old(activePeers), old(table.Keys))
      ensures table == old(table) - old(Idle(deadline))
      ensures forall a :: a in table <==> a in old(table) && old(table)[a] >= deadline
      ensures forall a <- table :: table[a] == old(table)[a]
    {
      ghost var was, idle, gone := table, Idle(deadline), {};
      assert forall a :: a in idle <==> a in was && was[a] < deadline;
      hide Idle;
      var rest := table.Keys;
      while rest != {}
        invariant rest <= was.Keys
        invariant forall a :: a in gone <==> a in idle && a !in rest
        invariant table == was - gone && activePeers == old(activePeers) - |gone|
        decreases rest
      {
        var a :| a in rest;
        assert a in table && table[a] == was[a] && a !in gone;
        rest := rest - {a};
        if table[a] < deadline {
          RemoveOneMore(was, gone, a);
          table := table - {a};
          activePeers := activePeers - 1;
          gone := gone + {a};
        }
      }
      assert gone == idle == was.Keys * idle;
    }
  }
}
