/** src/thread.c: the ring of threads and the round-robin switch. */
module Threads {
  import opened Lists
  import CircularList

  datatype State = Running | Dying | Dead

  class Thread {
    const ll: CircularList.ListHead
    var state: State

    constructor ()
      ensures state == Running && fresh(ll)
    {
      ll := new CircularList.ListHead();
      state := Running;
    }
  }

  /** The ring from threads_head around, and the states of all threads. */
  datatype View = View(ring: seq<Thread>, state: map<Thread, State>)

  /** thread_create, the marking in thread_kill, and switch_threads, as atomic steps. */
  datatype Event = Create(th: Thread) | Mark | Switch

  function Step(v: View, e: Event): View
    requires v.ring != [] && v.ring[0] in v.state
  {
    match e
    case Create(th) => View(v.ring + [th], v.state[th := Running])
    case Mark => v.(state := v.state[v.ring[0] := Dying])
    case Switch =>
      if |v.ring| == 1 then v
      else if v.state[v.ring[0]] == Dying then View(v.ring[1..], v.state[v.ring[0] := Dead])
      else v.(ring := v.ring[1..] + [v.ring[0]])
  }

  /** A created thread is new; the kernel thread does not end. */
  predicate Enabled(v: View, kernel: Thread, e: Event) {
    match e
    case Create(th) => th !in v.state
    case Mark => v.ring != [] && v.ring[0] != kernel
    case Switch => true
  }

  /** The ring holds exactly the threads that are not dead, each once, the kernel's among them. */
  predicate WellFormed(v: View, kernel: Thread) {
    && NoDuplicates(v.ring) && v.ring != []
    && kernel in v.state && v.state[kernel] == Running
    && (forall t | t in v.ring :: t in v.state && v.state[t] != Dead)
    && (forall t | t in v.state && v.state[t] != Dead :: t in v.ring)
  }

  /** Every step keeps the ring well formed: the DEAD checks of switch_threads cannot fire. */
  lemma {:induction false} StepKeeps(v: View, kernel: Thread, e: Event)
    requires WellFormed(v, kernel) && Enabled(v, kernel, e)
    ensures WellFormed(Step(v, e), kernel)
    ensures forall t | t in v.state && v.state[t] == Dead :: t in Step(v, e).state && Step(v, e).state[t] == Dead
  {
    var head := v.ring[0];
    if e == Switch && |v.ring| > 1 {
      assert forall t | t in v.ring :: t == head || t in v.ring[1..];
      assert head !in v.ring[1..];
    }
  }

  /** A dead thread is not in the ring, so thread_wait does not find it at threads_head. */
  lemma {:induction false} DeadIsOut(v: View, kernel: Thread, t: Thread)
    requires WellFormed(v, kernel) && t in v.state && v.state[t] == Dead
    ensures t !in v.ring && t != v.ring[0]
  {
    assert v.ring[0] in v.ring;
  }

  // ----- runs -----

  predicate Legal(v: View, kernel: Thread, es: seq<Event>)
    decreases |es|
  {
    es == [] || (v.ring != [] && v.ring[0] in v.state && Enabled(v, kernel, es[0])
      && Legal(Step(v, es[0]), kernel, es[1..]))
  }

  function Run(v: View, es: seq<Event>): View
    decreases |es|
  {
    if es == [] || v.ring == [] || v.ring[0] !in v.state then v else Run(Step(v, es[0]), es[1..])
  }

  /** The event gives the thread its turn. */
  predicate Turn(v: View, e: Event, t: Thread) {
    e == Switch && |v.ring| >= 2 && v.ring[1] == t
  }

  function Turns(v: View, es: seq<Event>, t: Thread): nat
    decreases |es|
  {
    if es == [] || v.ring == [] || v.ring[0] !in v.state then 0
    else (if Turn(v, es[0], t) then 1 else 0) + Turns(Step(v, es[0]), es[1..], t)
  }

  /** The run ends with the first turn of t. */
  predicate UntilTurn(v: View, es: seq<Event>, t: Thread)
    decreases |es|
  {
    && es != [] && v.ring != [] && v.ring[0] in v.state
    && if Turn(v, es[0], t) then |es| == 1 else UntilTurn(Step(v, es[0]), es[1..], t)
  }

  /** Every run keeps the ring well formed, and the dead stay dead. */
  lemma {:induction false} RunKeeps(v: View, kernel: Thread, es: seq<Event>)
    requires WellFormed(v, kernel) && Legal(v, kernel, es)
    ensures WellFormed(Run(v, es), kernel)
    ensures forall t | t in v.state && v.state[t] == Dead :: t in Run(v, es).state && Run(v, es).state[t] == Dead
    decreases |es|
  {
    hide WellFormed;
    hide Step;
    if es != [] {
      Sane(v, kernel);
      StepKeeps(v, kernel, es[0]);
      RunKeeps(Step(v, es[0]), kernel, es[1..]);
    }
  }

  lemma {:induction false} Sane(v: View, kernel: Thread)
    requires WellFormed(v, kernel)
    ensures v.ring != [] && v.ring[0] in v.state && NoDuplicates(v.ring)
  {
    assert v.ring[0] in v.ring;
  }

  // ----- the end of a thread -----

  /** What a switch leaves: the next thread is at the head; the old head is last, or dead and out if it was dying. */
  lemma {:induction false} SwitchIs(v: View, kernel: Thread)
    requires WellFormed(v, kernel) && |v.ring| >= 2
    ensures var w, t := Step(v, Switch), v.ring[0];
      && w.ring != [] && w.ring[0] == v.ring[1]
      && (v.state[t] == Running ==> w.ring[|w.ring| - 1] == t && |w.ring| == |v.ring| && w.state == v.state)
      && (v.state[t] == Dying ==> t !in w.ring && |w.ring| == |v.ring| - 1 && t in w.state && w.state[t] == Dead)
      && (forall u | u in v.state && u != t :: u in w.state && w.state[u] == v.state[u])
      && (forall i | 0 <= i < |v.ring| - 1 :: w.ring[i] == v.ring[i + 1])
  {
    Sane(v, kernel);
    assert v.ring[0] !in v.ring[1..];
  }

  /** thread_kill, and then the switch that it calls: the thread is dead and not in the ring. */
  lemma {:induction false} MarkThenSwitch(v: View, kernel: Thread)
    requires WellFormed(v, kernel) && v.ring[0] != kernel
    ensures |v.ring| >= 2 && Enabled(v, kernel, Mark) && WellFormed(Step(v, Mark), kernel)
    ensures var t, w := v.ring[0], Step(Step(v, Mark), Switch);
      && t !in w.ring && t in w.state && w.state[t] == Dead && w.ring[0] == v.ring[1]
      && forall u | u in v.state && u != t :: u in w.state && w.state[u] == v.state[u]
  {
    Sane(v, kernel);
    assert kernel in v.ring;
    StepKeeps(v, kernel, Mark);
    SwitchIs(Step(v, Mark), kernel);
  }

  /** A dying thread at the head is dead from the next switch on, whatever comes before and after that. */
  lemma {:induction false} DyingDies(v: View, kernel: Thread, es: seq<Event>, t: Thread)
    requires WellFormed(v, kernel) && Legal(v, kernel, es) && Switch in es
    requires v.ring[0] == t && t in v.state && v.state[t] == Dying
    ensures t in Run(v, es).state && Run(v, es).state[t] == Dead && t !in Run(v, es).ring
    decreases |es|
  {
    Unfold(v, kernel, es, t, t);
    var w := Step(v, es[0]);
    if es[0] == Switch {
      assert kernel in v.ring;
      SwitchIs(v, kernel);
      DeadStays(w, kernel, es[1..], t);
      RunKeeps(w, kernel, es[1..]);
    } else {
      assert Switch in es[1..];
      DyingDies(w, kernel, es[1..], t);
    }
  }

  /** In every run, a thread that calls thread_kill is dead once a switch has followed. */
  lemma {:induction false} KilledDies(v: View, kernel: Thread, es: seq<Event>)
    requires WellFormed(v, kernel) && Legal(v, kernel, [Mark] + es) && Switch in es
    ensures var t := v.ring[0];
      t != kernel && t in Run(v, [Mark] + es).state && Run(v, [Mark] + es).state[t] == Dead
        && t !in Run(v, [Mark] + es).ring
  {
    var t := v.ring[0];
    assert ([Mark] + es)[1..] == es;
    Unfold(v, kernel, [Mark] + es, t, t);
    DyingDies(Step(v, Mark), kernel, es, t);
  }

  /** No mark meets the thread at the head. */
  predicate Spared(v: View, es: seq<Event>, t: Thread)
    decreases |es|
  {
    es == [] || v.ring == [] || v.ring[0] !in v.state
    || ((es[0] == Mark ==> v.ring[0] != t) && Spared(Step(v, es[0]), es[1..], t))
  }

  /** A running thread that does not call thread_kill goes on running. */
  lemma {:induction false} SparedRuns(v: View, kernel: Thread, es: seq<Event>, t: Thread)
    requires WellFormed(v, kernel) && Legal(v, kernel, es) && Spared(v, es, t) && t in v.state && v.state[t] == Running
    ensures t in Run(v, es).state && Run(v, es).state[t] == Running && t in Run(v, es).ring
    decreases |es|
  {
    if es != [] {
      Unfold(v, kernel, es, t, t);
      SparedRuns(Step(v, es[0]), kernel, es[1..], t);
    }
  }

  // ----- turns -----

  /** What a switch does to a ring a + [t] + b that has another thread than t at its head. */
  lemma {:induction false} SwitchSplit(v: View, kernel: Thread, a: seq<Thread>, t: Thread, b: seq<Thread>)
    requires WellFormed(v, kernel) && v.ring == a + [t] + b && a != []
    ensures |v.ring| >= 2
    ensures var b' := if v.state[a[0]] == Dying then b else b + [a[0]];
      Step(v, Switch).ring == a[1..] + [t] + b'
    ensures v.state[a[0]] == Dying ==> a[0] in Step(v, Switch).state && Step(v, Switch).state[a[0]] == Dead
    ensures v.ring[1] == if |a| == 1 then t else a[1]
  {
    assert v.ring[0] == a[0] && a[0] in v.ring;
    assert v.ring[1..] == a[1..] + [t] + b;
  }

  /** Other events leave the ring as it is, but that a new thread joins at its end. */
  lemma {:induction false} OtherSplit(v: View, kernel: Thread, e: Event, a: seq<Thread>, b: seq<Thread>)
    requires WellFormed(v, kernel) && v.ring == a + b && e != Switch
    ensures v.ring[0] in v.state && Step(v, e).ring == a + (if e.Create? then b + [e.th] else b)
  {
    Sane(v, kernel);
  }

  lemma {:induction false} DeadStays(v: View, kernel: Thread, es: seq<Event>, t: Thread)
    requires WellFormed(v, kernel) && Legal(v, kernel, es) && t in v.state && v.state[t] == Dead
    ensures t !in Run(v, es).ring
  {
    RunKeeps(v, kernel, es);
    hide Run;
  }

  lemma {:induction false} EndsAtHead(v: View, es: seq<Event>, t: Thread)
    requires UntilTurn(v, es, t)
    ensures t in Run(v, es).ring
    decreases |es|
  {
    var w := Step(v, es[0]);
    if Turn(v, es[0], t) {
      assert w.ring[0] == t && es[1..] == [];
      assert Run(w, es[1..]) == w;
    } else {
      EndsAtHead(w, es[1..], t);
    }
  }

  /** One unfolding of a run. */
  lemma {:induction false} Unfold(v: View, kernel: Thread, es: seq<Event>, t: Thread, u: Thread)
    requires WellFormed(v, kernel) && Legal(v, kernel, es) && es != []
    ensures v.ring != [] && v.ring[0] in v.state && Enabled(v, kernel, es[0]) && WellFormed(Step(v, es[0]), kernel)
    ensures var w := Step(v, es[0]);
      && Legal(w, kernel, es[1..]) && Run(v, es) == Run(w, es[1..])
      && Turns(v, es, u) == (if Turn(v, es[0], u) then 1 else 0) + Turns(w, es[1..], u)
      && (UntilTurn(v, es, t) ==>
         if Turn(v, es[0], t) then es[1..] == [] && Turns(w, es[1..], u) == 0 else UntilTurn(w, es[1..], t))
  {
    Sane(v, kernel);
    StepKeeps(v, kernel, es[0]);
    hide WellFormed;
    hide Step;
  }

  lemma {:induction false} Members(a: seq<Thread>, t: Thread, b: seq<Thread>)
    requires NoDuplicates(a + [t] + b)
    ensures t !in a && t !in b && forall x | x in a :: x !in b
    ensures a != [] ==> a[0] !in a[1..] && a[0] !in b && forall x | x in a :: x == a[0] || x in a[1..]
    ensures a != [] ==> forall x | x in a[1..] :: x in a
  {
    var s := a + [t] + b;
    assert forall i | 0 <= i < |a| :: s[i] == a[i];
    assert s[|a|] == t;
    assert forall i | 0 <= i < |b| :: s[|a| + 1 + i] == b[i];
  }

  /** The ring is a + [t] + b: until t has its turn, those between the head and t have one turn each, those behind t
      none. */
  lemma {:induction false} Lap(v: View, kernel: Thread, es: seq<Event>, a: seq<Thread>, t: Thread, b: seq<Thread>,
      u: Thread)
    requires WellFormed(v, kernel) && Legal(v, kernel, es) && UntilTurn(v, es, t) && u in Run(v, es).ring
    requires v.ring == a + [t] + b && a != []
    ensures u in a[1..] ==> Turns(v, es, u) == 1
    ensures u in b || u == a[0] ==> Turns(v, es, u) == 0
    decreases |es|
  {
    Sane(v, kernel);
    Members(a, t, b);
    Unfold(v, kernel, es, t, u);
    hide WellFormed;
    hide Legal;
    hide Run;
    hide Step;
    hide Turns;
    hide UntilTurn;
    var e, w := es[0], Step(v, es[0]);
    if e == Switch {
      SwitchSplit(v, kernel, a, t, b);
      if |a| > 1 {
        var b' := if v.state[a[0]] == Dying then b else b + [a[0]];
        if v.state[a[0]] == Dying {
          DeadStays(w, kernel, es[1..], a[0]);
        }
        Members(a[1..], t, []) by { Shorter(a, t, b); }
        Lap(w, kernel, es[1..], a[1..], t, b', u);
      }
    } else {
      OtherSplit(v, kernel, e, a + [t], b);
      Lap(w, kernel, es[1..], a, t, if e.Create? then b + [e.th] else b, u);
    }
  }

  lemma {:induction false} Shorter(a: seq<Thread>, t: Thread, b: seq<Thread>)
    requires NoDuplicates(a + [t] + b) && a != []
    ensures NoDuplicates(a[1..] + [t] + [])
  {
    var s, r := a + [t] + b, a[1..] + [t] + [];
    assert forall i | 0 <= i < |r| :: r[i] == s[i + 1];
  }

  /** Round robin is fair: between two turns of a thread, every other thread that is in the ring all that time has
      exactly one turn. */
  lemma {:induction false} Fair(v: View, kernel: Thread, es: seq<Event>, t: Thread, u: Thread)
    requires WellFormed(v, kernel) && Legal(v, kernel, es) && v.ring[0] == t && UntilTurn(v, es, t)
    requires u != t && u in v.ring && u in Run(v, es).ring
    ensures Turns(v, es, u) == 1
    decreases |es|
  {
    Sane(v, kernel);
    Unfold(v, kernel, es, t, u);
    EndsAtHead(v, es, t);
    hide WellFormed;
    hide Legal;
    hide Run;
    hide Turns;
    hide UntilTurn;
    var e, w, r := es[0], Step(v, es[0]), v.ring[1..];
    assert v.ring == [t] + r && u in r;
    if e == Switch {
      if v.state[t] == Dying {
        DeadStays(w, kernel, es[1..], t);
      }
      assert v.state[t] != Dying;
      assert w.ring == r + [t] + [];
      Lap(w, kernel, es[1..], r, t, [], u);
    } else {
      hide Step;
      OtherSplit(v, kernel, e, [t], r);
      Fair(w, kernel, es[1..], t, u);
    }
  }

  // ----- the code -----

  /** What the running thread may call, or the timer for it. */
  datatype Call = ToCreate | ToMark | ToSwitch

  function CallOf(e: Event): Call {
    match e
    case Create(_) => ToCreate
    case Mark => ToMark
    case Switch => ToSwitch
  }

  /** The events are those of the calls, one for each; but the kernel's thread does not end itself. */
  predicate Traces(v: View, kernel: Thread, calls: seq<Call>, es: seq<Event>)
    decreases |calls|
  {
    if calls == [] then es == []
    else if calls[0] == ToMark && v.ring != [] && v.ring[0] == kernel then Traces(v, kernel, calls[1..], es)
    else
      && es != [] && v.ring != [] && v.ring[0] in v.state && CallOf(es[0]) == calls[0]
      && Traces(Step(v, es[0]), kernel, calls[1..], es[1..])
  }

  /** One more event in front of a run */
  lemma {:induction false} RunFrom(v: View, kernel: Thread, calls: seq<Call>, e: Event, es: seq<Event>)
    requires v.ring != [] && v.ring[0] in v.state && Enabled(v, kernel, e)
    requires Legal(Step(v, e), kernel, es) && calls != [] && CallOf(e) == calls[0]
    requires Traces(Step(v, e), kernel, calls[1..], es)
    ensures Legal(v, kernel, [e] + es) && Run(v, [e] + es) == Run(Step(v, e), es)
    ensures Traces(v, kernel, calls, [e] + es)
  {
    assert ([e] + es)[1..] == es;
  }

  function Nodes(s: seq<Thread>): seq<CircularList.ListHead> {
    seq(|s|, i requires 0 <= i < |s| => s[i].ll)
  }

  ghost predicate Within(s: seq<CircularList.ListHead>, nodes: set<CircularList.ListHead>) {
    forall x | x in s :: x in nodes
  }

  lemma {:induction false} OneTurn(s: seq<Thread>)
    requires s != []
    ensures CircularList.Turned(Nodes(s), if |s| == 1 then 0 else 1) == Nodes(s[1..] + [s[0]])
    ensures forall t | t in s[1..] + [s[0]] :: t in s
    ensures forall nodes | Within(Nodes(s), nodes) :: Within(Nodes(s[1..] + [s[0]]), nodes)
  {
    var r := s[1..] + [s[0]];
    assert forall i | 0 <= i < |r| :: r[i] in s;
    forall i | 0 <= i < |s|
      ensures s[i].ll in Nodes(s)
    {
      assert Nodes(s)[i] == s[i].ll;
    }
  }

  lemma {:induction false} WithoutNodes(s: seq<Thread>, i: nat)
    requires NoDuplicates(s) && i < |s|
    ensures Nodes(s)[..i] + Nodes(s)[i + 1..] == Nodes(Without(s, s[i])) && Nodes(s)[i] == s[i].ll
    ensures forall t | t in Without(s, s[i]) :: t in s
    ensures forall nodes | Within(Nodes(s), nodes) :: Within(Nodes(Without(s, s[i])), nodes)
  {
    WithoutAt(s, i);
    assert Nodes(s)[..i] + Nodes(s)[i + 1..] == Nodes(s[..i] + s[i + 1..]);
  }

  /** threads_head and all_proc_ended; all_started is set from the start.  `threads` are the threads in memory, and
      `ring` those that the links of threads_head lead through. */
  class Scheduler {
    var head: Thread?
    var allEnded: bool
    var threads: set<Thread>
    ghost var ring: seq<Thread>
    ghost var nodes: set<CircularList.ListHead>
    const kernel: Thread

    ghost function Now(): View
      reads this, threads
    {
      View(ring, States())
    }

    ghost function States(): map<Thread, State>
      reads this`threads, threads
    {
      map t | t in threads :: t.state
    }

    ghost predicate Valid()
      reads this, threads, nodes
    {
      Linked() && WellFormed(Now(), kernel)
    }

    /** Each thread has its own node, and from the head on the nodes are linked to a ring. */
    ghost predicate Linked()
      reads this`head, this`ring, this`threads, this`nodes, nodes
    {
      LinkedFrom(head, ring)
    }

    ghost predicate LinkedFrom(head: Thread?, ring: seq<Thread>)
      reads this`threads, this`nodes, nodes
    {
      && (forall t, u | t in threads && u in threads && t.ll == u.ll :: t == u)
      && (forall t | t in threads :: t.ll in nodes)
      && (forall t | t in ring :: t in threads)
      && if head == null then ring == []
         else ring != [] && ring[0] == head && Within(Nodes(ring), nodes) && CircularList.Ring(Nodes(ring))
    }

    /** (thread_t *) of a node: the thread that the node is in */
    function ThreadOf(node: CircularList.ListHead): (th: Thread)
      requires exists t :: t in threads && t.ll == node
      requires forall t, u | t in threads && u in threads && t.ll == u.ll :: t == u
      reads this`threads
      ensures th in threads && th.ll == node
    {
      var th :| th in threads && th.ll == node;
      th
    }

    /** thread_setup */
    constructor ()
      ensures Valid() && ring == [kernel] && threads == {kernel} && !allEnded
      ensures fresh(kernel) && fresh(nodes)
    {
      var th := new Thread();
      kernel := th;
      head := null;
      allEnded := false;
      threads := {th};
      nodes := {th.ll};
      ring := [];
      new;
      Add(th);
    }

    /** thread_add: the first thread is a ring of its own, another becomes the last of the ring. */
    method Add(th: Thread)
      requires Linked() && th in threads && th !in ring
      modifies this`head, this`ring, nodes
      ensures Linked() && ring == old(ring) + [th] && head == ring[0] && (old(head) != null ==> head == old(head))
    {
      OwnNode(th);
      if head == null {
        head := th;
        CircularList.Init(th.ll);
      } else {
        CircularList.AddTail(th.ll, head.ll, Nodes(ring));
      }
      ring := ring + [th];
      assert Nodes(ring) == Nodes(old(ring)) + [th.ll];
    }

    lemma OwnNode(th: Thread)
      requires Linked() && th in threads && th !in ring
      ensures th.ll !in Nodes(ring)
    {
    }

    /** The node after the head's is that of the second thread, or the head's own. */
    lemma NextOfHead()
      requires Linked() && head != null
      ensures ring != [] && ring[0] == head && NoDuplicates(ring) && forall t | t in ring :: t in threads
      ensures forall t, u | t in threads && u in threads && t.ll == u.ll :: t == u
      ensures head.ll.next == ring[CircularList.Succ(0, |ring|)].ll
      ensures ring[CircularList.Succ(0, |ring|)] in threads
      ensures ring[CircularList.Succ(0, |ring|)] == head <==> |ring| == 1
    {
      var s, i := Nodes(ring), CircularList.Succ(0, |ring|);
      assert s[0].next == s[i];
      forall j, k | 0 <= j < k < |ring|
        ensures ring[j] != ring[k]
      {
        assert s[j] != s[k];
      }
    }

    /** thread_create, as far as the ring is concerned */
    method Spawn() returns (th: Thread)
      requires Valid()
      modifies this`ring, this`threads, this`head, this`nodes, nodes
      ensures Valid() && fresh(th) && fresh(th.ll) && head == old(head)
      ensures threads == old(threads) + {th} && nodes == old(nodes) + {th.ll} && th !in old(Now()).state
      ensures Now() == Step(old(Now()), Create(th))
    {
      Sane(Now(), kernel);
      hide Linked;
      hide WellFormed;
      hide Now;
      ghost var before := Now();
      th := NewThread();
      StepKeeps(before, kernel, Create(th));
    }

    /** new_thread_init */
    method NewThread() returns (th: Thread)
      requires Linked()
      modifies this`ring, this`threads, this`head, this`nodes, nodes
      ensures Linked() && fresh(th) && fresh(th.ll) && th !in old(Now()).state
      ensures threads == old(threads) + {th} && nodes == old(nodes) + {th.ll}
      ensures Now() == View(old(ring) + [th], old(Now()).state[th := Running])
      ensures old(head) != null ==> head == old(head)
    {
      hide LinkedFrom;
      hide Nodes;
      th := new Thread();
      ghost var before := States();
      Admit(th);
      Add(th);
      assert States() == before[th := Running];
    }

    /** One more thread in memory */
    method Admit(th: Thread)
      requires Linked() && th !in threads && th.ll !in nodes
      modifies this`threads, this`nodes
      ensures Linked() && threads == old(threads) + {th} && nodes == old(nodes) + {th.ll} && th !in ring
    {
      threads := threads + {th};
      nodes := nodes + {th.ll};
    }

    /** The marking in thread_kill, called by the running thread. */
    method MarkDying()
      requires Valid() && ring[0] != kernel
      modifies threads
      ensures Valid() && Now() == Step(old(Now()), Mark)
      ensures ring[0].state == Dying && forall t | t in threads && t != ring[0] :: t.state == old(t.state)
    {
      Sane(Now(), kernel);
      StepKeeps(Now(), kernel, Mark);
      ghost var before := Now();
      head.state := Dying;
      assert Now().state == before.state[ring[0] := Dying];
    }

    /** thread_del of a thread in the ring */
    method Delete(th: Thread)
      requires Linked() && th in ring
      modifies this`head, this`ring, this`allEnded, nodes
      ensures Linked() && forall t | t in ring :: t in old(ring)
      ensures |old(ring)| == 1 ==> allEnded && ring == old(ring)
      ensures |old(ring)| >= 2 ==>
                && allEnded == old(allEnded)
                && ring == Without(if old(ring)[0] == th then old(ring)[1..] + [th] else old(ring), th)
    {
      hide LinkedFrom;
      hide Nodes;
      hide Without;
      InMemory(th);
      NextOfHead();
      if head == th {
        Rotate();
        NextOfHead();
      }
      if head == th {
        allEnded := true;
      } else {
        Unlink(th);
      }
    }

    /** threads_head = threads_head->ll.next */
    method Rotate()
      requires Linked() && head != null
      modifies this`head, this`ring
      ensures Linked() && ring != [] && head == ring[0] && forall t | t in ring :: t in old(ring)
      ensures ring == old(ring)[1..] + [old(ring)[0]] && Now() == old(Now()).(ring := ring)
    {
      NextOfHead();
      LinkedTurned();
      hide LinkedFrom;
      hide NoDuplicates;
      head := ThreadOf(head.ll.next);
      ring := ring[1..] + [ring[0]];
    }

    lemma LinkedTurned()
      requires Linked() && head != null
      ensures ring != [] && LinkedFrom(ring[CircularList.Succ(0, |ring|)], ring[1..] + [ring[0]])
      ensures forall t | t in ring[1..] + [ring[0]] :: t in ring
    {
      OneTurn(ring);
      CircularList.RingTurned(Nodes(ring), if |ring| == 1 then 0 else 1);
      hide Nodes;
      hide CircularList.Ring;
      hide CircularList.Turned;
    }

    /** list_del of a thread that is not the head */
    method Unlink(th: Thread)
      requires Linked() && th in ring && th != head
      modifies this`ring, nodes
      ensures Linked() && ring == Without(old(ring), th) && (forall t | t in ring :: t in old(ring))
      ensures th.ll.next == null && th.ll.prev == null
    {
      NextOfHead();
      ghost var i :| 0 <= i < |ring| && ring[i] == th;
      WithoutNodes(ring, i);
      hide Nodes;
      hide NoDuplicates;
      hide CircularList.Ring;
      CircularList.Del(th.ll, Nodes(ring), i);
      ring := Without(ring, th);
    }

    /** switch_threads: the next thread becomes the head; a dying one leaves the ring and is dead. */
    method SwitchThreads()
      requires Valid()
      modifies this`head, this`ring, this`allEnded, threads, nodes
      ensures Valid() && allEnded == old(allEnded)
      ensures Now() == if allEnded then old(Now()) else Step(old(Now()), Switch)
    {
      Sane(Now(), kernel);
      if allEnded || head == null {
        allEnded := true;
        return;
      }
      NextOfHead();
      if head == ThreadOf(head.ll.next) {
        return;
      }
      Advance();
    }

    /** The rest of switch_threads, with a second thread to switch to */
    method Advance()
      requires Valid() && |ring| >= 2
      modifies this`head, this`ring, this`allEnded, threads, nodes
      ensures Valid() && allEnded == old(allEnded) && Now() == Step(old(Now()), Switch)
    {
      Sane(Now(), kernel);
      StepKeeps(Now(), kernel, Switch);
      HeadsAlive();
      LastOut(ring);
      hide WellFormed;
      hide Now;
      hide Nodes;
      hide CircularList.Ring;
      var curr := head;
      Rotate();
      assert curr.state != Dead && head.state != Dead;
      if curr.state == Dying {
        Retire(curr);
      }
    }

    /** The end of switch_threads for a dying thread, which is the last of the ring by now. */
    method Retire(curr: Thread)
      requires Linked() && |ring| >= 2 && curr in ring && ring[0] != curr
      modifies this`head, this`ring, this`allEnded, threads, nodes
      ensures Linked() && allEnded == old(allEnded)
      ensures Now() == View(Without(old(ring), curr), old(Now()).state[curr := Dead])
    {
      hide LinkedFrom;
      hide NoDuplicates;
      hide States;
      hide Without;
      hide WellFormed;
      InMemory(curr);
      Delete(curr);
      MarkDead(curr);
    }

    lemma InMemory(th: Thread)
      requires Linked() && th in ring
      ensures th in threads && head != null
    {
    }

    /** curr->state = TH_DEAD */
    method MarkDead(curr: Thread)
      requires Linked() && curr in threads
      modifies curr
      ensures Linked() && States() == old(States())[curr := Dead]
    {
      hide Linked;
      curr.state := Dead;
    }

    lemma HeadsAlive()
      requires Valid() && |ring| >= 2
      ensures ring[0] in threads && ring[0].state != Dead && ring[1] in threads && ring[1].state != Dead
      ensures Now().ring == ring && ring[0] in Now().state && Now().state[ring[0]] == ring[0].state
    {
      assert ring[0] in ring && ring[1] in ring;
    }

    /** One call; the kernel's thread does not call thread_kill. */
    method Do(call: Call) returns (ghost e: Event)
      requires Valid() && !allEnded && (call == ToMark ==> head != kernel)
      modifies this, threads, nodes
      ensures Valid() && !allEnded && fresh(threads - old(threads)) && fresh(nodes - old(nodes))
      ensures Enabled(old(Now()), kernel, e) && CallOf(e) == call && Now() == Step(old(Now()), e)
    {
      hide LinkedFrom;
      hide WellFormed;
      hide Nodes;
      hide Step;
      HeadFirst();
      match call {
        case ToCreate =>
          var th := Spawn();
          e := Create(th);
        case ToMark =>
          MarkDying();
          e := Mark;
        case ToSwitch =>
          SwitchThreads();
          e := Switch;
      }
    }

    /** Calls in any order, one after the other: the code does a legal run of the steps. */
    method Perform(calls: seq<Call>) returns (ghost es: seq<Event>)
      requires Valid() && !allEnded
      modifies this, threads, nodes
      ensures Valid() && !allEnded && fresh(threads - old(threads)) && fresh(nodes - old(nodes))
      ensures Legal(old(Now()), kernel, es) && Now() == Run(old(Now()), es) && Traces(old(Now()), kernel, calls, es)
      decreases |calls|
    {
      hide Now;
      hide LinkedFrom;
      hide WellFormed;
      hide Enabled;
      hide Step;
      ghost var v := Now();
      Sane(v, kernel);
      HeadFirst();
      es := [];
      if calls == [] {
        return;
      }
      if calls[0] == ToMark && head == kernel {
        es := Perform(calls[1..]);
        return;
      }
      ghost var e := Do(calls[0]);
      es := Perform(calls[1..]);
      RunFrom(v, kernel, calls, e, es);
      es := [e] + es;
    }

    lemma HeadFirst()
      requires Valid()
      ensures ring != [] && head == ring[0] && Now().ring == ring
    {
    }

    /** The end of thread_wait: a dead thread is not in the ring, and its memory is given back. */
    method Reap(thread: Thread)
      requires Valid() && thread in threads && thread.state == Dead
      modifies this`threads, this`nodes
      ensures Valid() && ring == old(ring) && threads == old(threads) - {thread}
      ensures nodes == old(nodes) - {thread.ll}
      ensures ring[0] != thread && thread.ll !in Nodes(ring)
    {
      DeadIsOut(Now(), kernel, thread);
      assert ring[0] != thread;
      threads := threads - {thread};
      nodes := nodes - {thread.ll};
    }
  }

  lemma {:induction false} WithoutLast(s: seq<Thread>, t: Thread)
    requires t !in s
    ensures Without(s + [t], t) == s
  {
    if s != [] {
      assert (s + [t])[1..] == s[1..] + [t];
      WithoutLast(s[1..], t);
    } else {
      assert s + [t] == [t];
    }
  }

  lemma {:induction false} LastOut(s: seq<Thread>)
    requires NoDuplicates(s) && |s| >= 2
    ensures var r := s[1..] + [s[0]]; NoDuplicates(r) && r[0] != s[0] && Without(r, s[0]) == s[1..]
  {
    assert s[0] !in s[1..];
    WithoutLast(s[1..], s[0]);
  }
}