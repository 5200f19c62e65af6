/**
 Every interleaving of accepted connections and exits.  Each step is done under the socket
 lock; a thread exits once, and clears the slot it was started with.
 */
module ClientRuns {
  import opened ClientTable

  type ThreadId = t: nat | t != 0 witness 1

  /** `owns` says which slot each running thread was started with. */
  datatype State = State(clients: seq<Client>, numClients: int, owns: map<ThreadId, nat>)

  datatype Event =
    | Connect(now: int, socket: int, ip: string, thread: ThreadId, isCmd: bool)
    | Exit(thread: ThreadId)
    | Identify(thread: ThreadId, devid: nat)
    | Select(thread: ThreadId, client: Client)

  ghost predicate Start(s: State) {
    s.numClients == 0 && s.owns == map[] && forall i | 0 <= i < |s.clients| :: IsFree(s.clients[i])
  }

  predicate Enabled(s: State, e: Event) {
    match e
    case Connect(_, _, _, t, _) => t !in s.owns
    case Exit(t) => t in s.owns && s.owns[t] < |s.clients|
    case Identify(t, _) => t in s.owns && s.owns[t] < |s.clients|
    case Select(t, c) => t in s.owns && s.owns[t] < |s.clients| && c.thread == s.clients[s.owns[t]].thread
  }

  /** Connecting and leaving as `Table` does it; a thread may also change its own slot. */
  function Next(s: State, e: Event): State
    requires Enabled(s, e)
  {
    match e
    case Connect(now, socket, ip, t, isCmd) =>
      var i := FirstFree(s.clients);
      if i < |s.clients|
      then State(s.clients[i := Fresh(now, socket, ip, t, isCmd)], s.numClients + 1, s.owns[t := i])
      else s
    case Exit(t) => State(s.clients[s.owns[t] := CLEARED], s.numClients - 1, s.owns - {t})
    case Identify(t, devid) => s.(clients := s.clients[s.owns[t] := s.clients[s.owns[t]].(devid := devid)])
    case Select(t, c) => s.(clients := s.clients[s.owns[t] := c])
  }

  ghost predicate StepAt(ss: seq<State>, es: seq<Event>, i: nat)
    requires |ss| == |es| + 1 && i < |es|
  {
    Enabled(ss[i], es[i]) && ss[i + 1] == Next(ss[i], es[i])
  }

  ghost predicate IsRun(ss: seq<State>, es: seq<Event>) {
    |ss| == |es| + 1 && Start(ss[0]) && forall i | 0 <= i < |es| :: StepAt(ss, es, i)
  }

  /** A running thread's slot carries its id, and every taken slot is some running thread's. */
  ghost predicate Inv(s: State) {
    && s.numClients == Occupied(s.clients)
    && (forall t | t in s.owns :: s.owns[t] < |s.clients| && s.clients[s.owns[t]].thread == t)
    && (forall i | 0 <= i < |s.clients| && !IsFree(s.clients[i]) ::
          s.clients[i].thread in s.owns && s.owns[s.clients[i].thread] == i)
  }

  lemma StepKeeps(s: State, e: Event)
    requires Inv(s) && Enabled(s, e)
    ensures Inv(Next(s, e)) && |Next(s, e).clients| == |s.clients|
  {
    match e {
      case Connect(now, socket, ip, t, isCmd) =>
        var i := FirstFree(s.clients);
        if i < |s.clients| {
          OccupiedUpdate(s.clients, i, Fresh(now, socket, ip, t, isCmd));
        }
      case Exit(t) =>
        OccupiedUpdate(s.clients, s.owns[t], CLEARED);
      case Identify(t, devid) =>
        OccupiedUpdate(s.clients, s.owns[t], s.clients[s.owns[t]].(devid := devid));
      case Select(t, c) =>
        OccupiedUpdate(s.clients, s.owns[t], c);
    }
  }

  lemma {:induction false} RunKeeps(ss: seq<State>, es: seq<Event>, n: nat)
    requires IsRun(ss, es) && n <= |es|
    ensures Inv(ss[n]) && |ss[n].clients| == |ss[0].clients|
  {
    if n == 0 {
      AllFree(ss[0].clients);
    } else {
      RunKeeps(ss, es, n - 1);
      assert StepAt(ss, es, n - 1);
      StepKeeps(ss[n - 1], es[n - 1]);
    }
  }

  /**
   In every state of every run the client count is the number of taken slots, which is the
   number of running threads and never above the size of the table; and threads have
   different slots.
   */
  lemma CountIsExact(ss: seq<State>, es: seq<Event>, n: nat)
    requires IsRun(ss, es) && n <= |es|
    ensures ss[n].numClients == Occupied(ss[n].clients) == |ss[n].owns|
    ensures ss[n].numClients <= |ss[0].clients|
    ensures forall t, u | t in ss[n].owns && u in ss[n].owns && t != u :: ss[n].owns[t] != ss[n].owns[u]
  {
    RunKeeps(ss, es, n);
    var s := ss[n];
    OwnersCount(s.clients, s.owns.Keys);
  }

  ghost function Threads(cs: seq<Client>): set<nat> {
    set i | 0 <= i < |cs| && !IsFree(cs[i]) :: cs[i].thread
  }

  /** Counting taken slots counts the threads, when no two slots carry the same one. */
  lemma {:induction false} OwnersCount(cs: seq<Client>, ts: set<ThreadId>)
    requires forall i, j | 0 <= i < j < |cs| && !IsFree(cs[i]) :: cs[i].thread != cs[j].thread
    requires forall t :: t in ts <==> t in Threads(cs)
    ensures Occupied(cs) == |ts|
  {
    if cs != [] {
      var front, last := cs[..|cs| - 1], cs[|cs| - 1];
      assert forall i | 0 <= i < |front| :: front[i] == cs[i];
      if IsFree(last) {
        OwnersCount(front, ts);
      } else {
        var less := ts - {last.thread};
        assert last.thread in Threads(cs);
        assert ts == less + {last.thread};
        OwnersCount(front, less);
      }
    }
  }

  /** A connection is turned away exactly when the count has reached the table size. */
  lemma RefusedWhenFull(ss: seq<State>, es: seq<Event>, n: nat)
    requires IsRun(ss, es) && n < |es| && es[n].Connect?
    ensures ss[n + 1] == ss[n] <==> ss[n].numClients == |ss[0].clients|
    ensures ss[n + 1] != ss[n] ==> es[n].thread in ss[n + 1].owns
  {
    RunKeeps(ss, es, n);
    assert StepAt(ss, es, n);
    FullWhenNoneFree(ss[n].clients);
  }
}
