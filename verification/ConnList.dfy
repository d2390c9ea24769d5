/** Enumerating connections while others come and go (nabud/conn.c): each region under
    conn_list_mutex is one step, taken by any number of threads in any order. */
module ConnList {

  type ConnId = nat   // a connection structure; never reused
  type Thread = nat   // one call of conn_enumerate

  /** An enumeration: on a connection with the lock dropped for the callback, or over. */
  datatype Walk =
    | On(cur: ConnId, visited: seq<ConnId>)
    | Finished(visited: seq<ConnId>)
    | Stopped(visited: seq<ConnId>)

  datatype State = State(
    list: seq<ConnId>,
    enumCount: map<ConnId, nat>,
    connCount: int,
    walks: map<Thread, Walk>,
    used: set<ConnId>)

  datatype Event =
    | Insert(c: ConnId)
    | Remove(c: ConnId)
    | Begin(t: Thread)
    | Advance(t: Thread, stop: bool)   // the callback returned

  const Initial := State([], map[], 0, map[], {})

  // ----- Steps -----

  function IndexOf(list: seq<ConnId>, c: ConnId): (i: nat)
    requires c in list
    ensures i < |list| && list[i] == c
  {
    if list[0] == c then 0 else 1 + IndexOf(list[1..], c)
  }

  function Without(list: seq<ConnId>, c: ConnId): seq<ConnId>
    requires c in list
  {
    var i := IndexOf(list, c);
    list[..i] + list[i + 1..]
  }

  /** When a region can be entered: conn_remove waits on the condition variable until no
      enumerator is on its connection. */
  predicate Enabled(s: State, e: Event) {
    match e
    case Insert(c) => c !in s.used
    case Remove(c) => c in s.list && c in s.enumCount && s.enumCount[c] == 0
    case Begin(t) => t !in s.walks
    case Advance(t, _) => t in s.walks && s.walks[t].On?
  }

  /** Taking the next connection, or finishing: enum_count++ before the lock is dropped. */
  function Enter(s: State, t: Thread, i: nat, visited: seq<ConnId>): State {
    if i >= |s.list| then s.(walks := s.walks[t := Finished(visited)])
    else
      var c := s.list[i];
      s.(enumCount := s.enumCount[c := (if c in s.enumCount then s.enumCount[c] else 0) + 1],
         walks := s.walks[t := On(c, visited + [c])])
  }

  /** What the code relies on: the link it follows belongs to a listed connection, and the
      assertion that its enum_count is not zero holds. */
  predicate Safe(s: State, e: Event)
    requires Enabled(s, e)
  {
    e.Advance? ==> var c := s.walks[e.t].cur; c in s.list && c in s.enumCount && s.enumCount[c] != 0
  }

  /** An enumerator steps off its connection: enum_count--. */
  function Leave(s: State, t: Thread): State
    requires Enabled(s, Advance(t, true)) && Safe(s, Advance(t, true))
  {
    var w := s.walks[t];
    s.(enumCount := s.enumCount[w.cur := s.enumCount[w.cur] - 1], walks := s.walks[t := Stopped(w.visited)])
  }

  function Next(s: State, e: Event): State
    requires Enabled(s, e) && Safe(s, e)
  {
    match e
    case Insert(c) =>
      s.(list := s.list + [c], enumCount := s.enumCount[c := 0], connCount := s.connCount + 1, used := s.used + {c})
    case Remove(c) =>
      s.(list := Without(s.list, c), enumCount := s.enumCount - {c}, connCount := s.connCount - 1)
    case Begin(t) => Enter(s, t, 0, [])
    case Advance(t, stop) =>
      if stop then Leave(s, t)
      else Enter(Leave(s, t), t, IndexOf(s.list, s.walks[t].cur) + 1, s.walks[t].visited)
  }

  // ----- The invariant -----

  ghost predicate Distinct(q: seq<ConnId>) { forall i, j :: 0 <= i < j < |q| ==> q[i] != q[j] }

  ghost function Visitors(walks: map<Thread, Walk>, c: ConnId): set<Thread> {
    set t | t in walks && walks[t].On? && walks[t].cur == c
  }

  /** Listed connections up to `i` have been visited; those after it have not. */
  ghost predicate Split(list: seq<ConnId>, i: int, visited: seq<ConnId>) {
    forall j :: 0 <= j < |list| ==> (list[j] in visited <==> j <= i)
  }

  ghost predicate WalkOk(s: State, w: Walk) {
    && Distinct(w.visited)
    && (forall c :: c in w.visited ==> c in s.used)
    && (w.On? ==> w.cur in s.list && Split(s.list, IndexOf(s.list, w.cur), w.visited))
  }

  /** enum_count counts the enumerators on a connection; an enumerator's connection is listed;
      conn_count is the list's length. */
  ghost predicate Inv(s: State) {
    && Distinct(s.list) && s.connCount == |s.list|
    && (forall c :: c in s.list <==> c in s.enumCount)
    && (forall c :: c in s.list ==> c in s.used)
    && (forall c :: c in s.enumCount ==> s.enumCount[c] == |Visitors(s.walks, c)|)
    && (forall t :: t in s.walks ==> WalkOk(s, s.walks[t]))
  }

  // ----- Every step keeps the invariant -----

  lemma CountMove(walks: map<Thread, Walk>, t: Thread, w: Walk, c: ConnId)
    ensures |Visitors(walks[t := w], c)|
         == |Visitors(walks, c)| - (if t in Visitors(walks, c) then 1 else 0) + (if w.On? && w.cur == c then 1 else 0)
  {
    var before, after := Visitors(walks, c), Visitors(walks[t := w], c);
    if w.On? && w.cur == c {
      assert after == before + {t};
    } else {
      assert after == before - {t};
    }
  }

  lemma IndexUnique(list: seq<ConnId>, i: nat)
    requires Distinct(list) && i < |list|
    ensures IndexOf(list, list[i]) == i
  {
  }

  /** No enumerator ever follows the link of a removed connection. */
  lemma AlwaysSafe(s: State, e: Event)
    requires Inv(s) && Enabled(s, e)
    ensures Safe(s, e)
  {
    if e.Advance? {
      var w := s.walks[e.t];
      assert WalkOk(s, w);
      assert e.t in Visitors(s.walks, w.cur);
    }
  }

  lemma InsertKeeps(s: State, c: ConnId)
    requires Inv(s) && c !in s.used
    ensures Inv(Next(s, Insert(c)))
  {
    var s' := Next(s, Insert(c));
    forall t | t in s'.walks
      ensures WalkOk(s', s'.walks[t])
    {
      var w := s.walks[t];
      assert WalkOk(s, w);
      if w.On? {
        var i := IndexOf(s.list, w.cur);
        assert s'.list[i] == w.cur;
        IndexUnique(s'.list, i);
      }
    }
    assert Visitors(s.walks, c) == {};
  }

  lemma WithoutIndex(list: seq<ConnId>, c: ConnId, x: ConnId)
    requires Distinct(list) && c in list && x in list && x != c
    ensures var l, i, k := Without(list, c), IndexOf(list, x), IndexOf(list, c);
      Distinct(l) && x in l && IndexOf(l, x) == if i < k then i else i - 1
  {
    var l, i, k := Without(list, c), IndexOf(list, x), IndexOf(list, c);
    var j := if i < k then i else i - 1;
    assert l[j] == x;
    IndexUnique(l, j);
  }

  lemma WithoutMembers(list: seq<ConnId>, c: ConnId)
    requires Distinct(list) && c in list
    ensures Distinct(Without(list, c)) && |Without(list, c)| == |list| - 1
    ensures forall x :: x in Without(list, c) <==> x in list && x != c
  {
    forall x | x in list && x != c
      ensures x in Without(list, c)
    {
      WithoutIndex(list, c, x);
    }
  }

  /** An enumerator on another connection keeps its place when `c` is unlinked. */
  lemma RemoveWalk(s: State, c: ConnId, w: Walk, list': seq<ConnId>)
    requires Distinct(s.list) && c in s.list && list' == Without(s.list, c)
    requires WalkOk(s, w) && (w.On? ==> w.cur != c)
    ensures WalkOk(s.(list := list'), w)
  {
    if w.On? {
      WithoutIndex(s.list, c, w.cur);
    }
  }

  lemma RemoveKeeps(s: State, c: ConnId)
    requires Inv(s) && Enabled(s, Remove(c))
    ensures Inv(Next(s, Remove(c)))
  {
    var s' := Next(s, Remove(c));
    WithoutMembers(s.list, c);
    forall t | t in s'.walks
      ensures WalkOk(s', s'.walks[t])
    {
      var w := s.walks[t];
      assert w.On? && w.cur == c ==> t in Visitors(s.walks, c);
      RemoveWalk(s, c, w, s'.list);
      assert WalkOk(s.(list := s'.list), w);
    }
  }

  lemma LeaveKeeps(s: State, t: Thread)
    requires Inv(s) && Enabled(s, Advance(t, true)) && Safe(s, Advance(t, true))
    ensures Inv(Leave(s, t))
  {
    var s' := Leave(s, t);
    forall c | c in s'.enumCount
      ensures s'.enumCount[c] == |Visitors(s'.walks, c)|
    {
      CountMove(s.walks, t, Stopped(s.walks[t].visited), c);
    }
    forall u | u in s'.walks
      ensures WalkOk(s', s'.walks[u])
    {
      assert WalkOk(s, s.walks[u]);
    }
  }

  /** An enumeration that visited these connections may take the one at `i` next. */
  ghost predicate ReadyAt(s: State, i: nat, visited: seq<ConnId>) {
    Distinct(visited) && Split(s.list, i - 1, visited) && forall c :: c in visited ==> c in s.used
  }

  lemma WalkReady(s: State, w: Walk, left: State)
    requires w.On? && WalkOk(s, w) && left.list == s.list && left.used == s.used
    ensures ReadyAt(left, IndexOf(s.list, w.cur) + 1, w.visited)
  {
    assert Split(s.list, IndexOf(s.list, w.cur) + 1 - 1, w.visited);
  }

  lemma EnterKeeps(s: State, t: Thread, i: nat, visited: seq<ConnId>)
    requires Inv(s) && (t in s.walks ==> !s.walks[t].On?) && i <= |s.list|
    requires ReadyAt(s, i, visited)
    ensures Inv(Enter(s, t, i, visited))
  {
    var s' := Enter(s, t, i, visited);
    if i < |s.list| {
      IndexUnique(s.list, i);
    }
    forall c | c in s'.enumCount
      ensures s'.enumCount[c] == |Visitors(s'.walks, c)|
    {
      CountMove(s.walks, t, s'.walks[t], c);
    }
    forall u | u in s'.walks
      ensures WalkOk(s', s'.walks[u])
    {
      if u != t {
        assert WalkOk(s, s.walks[u]);
      }
    }
  }

  lemma BeginKeeps(s: State, t: Thread)
    requires Inv(s) && t !in s.walks
    ensures Inv(Next(s, Begin(t)))
  {
    EnterKeeps(s, t, 0, []);
  }

  lemma AdvanceKeeps(s: State, t: Thread, stop: bool)
    requires Inv(s) && Enabled(s, Advance(t, stop)) && Safe(s, Advance(t, stop))
    ensures Inv(Next(s, Advance(t, stop)))
  {
    LeaveKeeps(s, t);
    if !stop {
      var w := s.walks[t];
      assert WalkOk(s, w);
      WalkReady(s, w, Leave(s, t));
      ContinueKeeps(s, t, Leave(s, t), IndexOf(s.list, w.cur) + 1, w.visited);
    }
  }

  lemma ContinueKeeps(s: State, t: Thread, left: State, i: nat, visited: seq<ConnId>)
    requires Enabled(s, Advance(t, false)) && Safe(s, Advance(t, false)) && left == Leave(s, t) && Inv(left)
    requires i == IndexOf(s.list, s.walks[t].cur) + 1 && visited == s.walks[t].visited && ReadyAt(left, i, visited)
    ensures Inv(Next(s, Advance(t, false)))
  {
    assert Next(s, Advance(t, false)) == Enter(left, t, i, visited);
    EnterKeeps(left, t, i, visited);
  }

  lemma NextKeeps(s: State, e: Event)
    requires Inv(s) && Enabled(s, e) && Safe(s, e)
    ensures Inv(Next(s, e))
  {
    match e
    case Insert(c) => InsertKeeps(s, c);
    case Remove(c) => RemoveKeeps(s, c);
    case Begin(t) => BeginKeeps(s, t);
    case Advance(t, stop) => AdvanceKeeps(s, t, stop);
  }

  // ----- Runs -----

  /** A step, or waiting when the region cannot be entered. */
  function Step(s: State, e: Event): State {
    if Enabled(s, e) && Safe(s, e) then Next(s, e) else s
  }

  function Run(s: State, events: seq<Event>): State
    decreases |events|
  {
    if events == [] then s else Run(Step(s, events[0]), events[1..])
  }

  /** In every reachable state, for any number of enumerating, inserting and removing threads:
      the invariant holds and every region that can be entered is safe. */
  lemma {:induction false} RunKeeps(s: State, events: seq<Event>)
    requires Inv(s)
    ensures Inv(Run(s, events))
    ensures forall e :: Enabled(Run(s, events), e) ==> Safe(Run(s, events), e)
    decreases |events|
  {
    if events == [] {
      forall e | Enabled(s, e) ensures Safe(s, e) { AlwaysSafe(s, e); }
    } else {
      if Enabled(s, events[0]) && Safe(s, events[0]) {
        NextKeeps(s, events[0]);
      }
      RunKeeps(Step(s, events[0]), events[1..]);
    }
  }

  /** What an enumeration owes a connection that was listed when it began. */
  ghost predicate Owes(s: State, t: Thread, c: ConnId) {
    t in s.walks && c in s.used && (s.walks[t].Finished? && c in s.list ==> c in s.walks[t].visited)
  }

  /** An enumeration that has come to the end of the list has visited all of it. */
  lemma EndOwes(s: State, t: Thread, c: ConnId)
    requires Inv(s) && t in s.walks && s.walks[t].On? && c in s.list
    ensures WalkOk(s, s.walks[t])
    ensures IndexOf(s.list, s.walks[t].cur) + 1 == |s.list| ==> c in s.walks[t].visited
  {
    var i := IndexOf(s.list, c);
    assert WalkOk(s, s.walks[t]);
    assert s.list[i] in s.walks[t].visited <==> i <= IndexOf(s.list, s.walks[t].cur);
  }

  lemma AdvanceOwes(s: State, u: Thread, stop: bool, t: Thread, c: ConnId)
    requires Inv(s) && Owes(s, t, c) && Enabled(s, Advance(u, stop)) && Safe(s, Advance(u, stop))
    ensures Owes(Next(s, Advance(u, stop)), t, c)
  {
    if u == t && c in s.list && !stop {
      EndOwes(s, t, c);
    }
  }

  lemma StepOwes(s: State, e: Event, t: Thread, c: ConnId)
    requires Inv(s) && Owes(s, t, c) && Enabled(s, e) && Safe(s, e)
    ensures Owes(Next(s, e), t, c)
  {
    match e
    case Insert(_) =>
    case Remove(_) =>
    case Begin(_) =>
    case Advance(u, stop) => AdvanceOwes(s, u, stop, t, c);
  }

  lemma {:induction false} RunOwes(s: State, events: seq<Event>, t: Thread, c: ConnId)
    requires Inv(s) && Owes(s, t, c)
    ensures Inv(Run(s, events)) && Owes(Run(s, events), t, c)
    decreases |events|
  {
    if events != [] {
      if Enabled(s, events[0]) && Safe(s, events[0]) {
        NextKeeps(s, events[0]);
        StepOwes(s, events[0], t, c);
      }
      RunOwes(Step(s, events[0]), events[1..], t, c);
    }
  }

  // ----- What the steps achieve -----

  /** A new connection is listed last; a removed one is listed no more, and nobody else moves. */
  lemma ListExactly(s: State, c: ConnId, x: ConnId)
    requires Inv(s)
    ensures c !in s.used ==> Next(s, Insert(c)).list == s.list + [c] && Next(s, Insert(c)).walks == s.walks
    ensures Enabled(s, Remove(c)) ==> var l := Next(s, Remove(c)).list;
      && (x in l <==> x in s.list && x != c) && |l| == |s.list| - 1 && Next(s, Remove(c)).walks == s.walks
      && (x in l ==> IndexOf(l, x) == IndexOf(s.list, x) - if IndexOf(s.list, x) < IndexOf(s.list, c) then 0 else 1)
  {
    if Enabled(s, Remove(c)) {
      WithoutMembers(s.list, c);
      if x in s.list && x != c {
        WithoutIndex(s.list, c, x);
      }
    }
  }

  /** An enumeration begins with the first connection. When a callback returns true, it goes on
      to the next one in the list, if there is one; else it ends there. */
  lemma WalkExactly(s: State, t: Thread, stop: bool)
    requires Inv(s)
    ensures t !in s.walks ==>
      Next(s, Begin(t)).walks[t] == if s.list == [] then Finished([]) else On(s.list[0], [s.list[0]])
    ensures Enabled(s, Advance(t, stop)) ==> Safe(s, Advance(t, stop)) && s.walks[t].cur in s.list
    ensures Enabled(s, Advance(t, stop)) ==>
      var w, i := s.walks[t], IndexOf(s.list, s.walks[t].cur) + 1;
      Next(s, Advance(t, stop)).walks[t] ==
        if stop then Stopped(w.visited)
        else if i < |s.list| then On(s.list[i], w.visited + [s.list[i]])
        else Finished(w.visited)
  {
    if Enabled(s, Advance(t, stop)) {
      AlwaysSafe(s, Advance(t, stop));
    }
  }

  /** In a run every step that can be taken is taken. */
  lemma RunTakes(s: State, e: Event, rest: seq<Event>)
    requires Inv(s) && Enabled(s, e)
    ensures Safe(s, e) && Run(s, [e] + rest) == Run(Next(s, e), rest)
  {
    AlwaysSafe(s, e);
    assert ([e] + rest)[1..] == rest;
  }

  lemma StepNotStopped(s: State, e: Event, t: Thread)
    requires t in s.walks && !s.walks[t].Stopped? && e != Advance(t, true)
    ensures t in Step(s, e).walks && !Step(s, e).walks[t].Stopped?
  {
  }

  /** An enumeration is stopped only by a callback of its own. */
  lemma {:induction false} NotStopped(s: State, events: seq<Event>, t: Thread)
    requires t in s.walks && !s.walks[t].Stopped? && Advance(t, true) !in events
    ensures t in Run(s, events).walks && !Run(s, events).walks[t].Stopped?
    decreases |events|
  {
    if events != [] {
      StepNotStopped(s, events[0], t);
      NotStopped(Step(s, events[0]), events[1..], t);
    }
  }

  /** A connection listed from the beginning to the end of an enumeration that no callback
      stops is visited exactly once, whatever other threads do meanwhile. */
  lemma VisitedExactlyOnce(s: State, t: Thread, events: seq<Event>, c: ConnId)
    requires Inv(s) && t !in s.walks && c in s.list && Advance(t, true) !in events
    ensures var end := Run(Next(s, Begin(t)), events);
      t in end.walks && (!end.walks[t].On? && c in end.list ==> multiset(end.walks[t].visited)[c] == 1)
  {
    var s' := Next(s, Begin(t));
    NextKeeps(s, Begin(t));
    assert s.list != [];
    RunOwes(s', events, t, c);
    NotStopped(s', events, t);
    var end := Run(s', events);
    var w := end.walks[t];
    assert WalkOk(end, w);
    if w.Finished? && c in end.list {
      DistinctOnce(w.visited, c);
    }
  }

  lemma {:induction false} DistinctOnce(q: seq<ConnId>, c: ConnId)
    requires Distinct(q) && c in q
    ensures multiset(q)[c] == 1
  {
    var i := IndexOf(q, c);
    assert q == q[..i] + [c] + q[i + 1..];
    assert c !in q[..i] && c !in q[i + 1..];
  }

  // ----- The list object -----

  class Connections {
    var list: seq<ConnId>
    var enumCount: map<ConnId, nat>
    var connCount: int
    var walks: map<Thread, Walk>
    ghost var used: set<ConnId>

    ghost function View(): State
      reads this
    {
      State(list, enumCount, connCount, walks, used)
    }

    constructor ()
      ensures View() == Initial && Inv(View())
    {
      list, enumCount, connCount, walks, used := [], map[], 0, map[], {};
    }

    /** conn_insert. */
    method InsertConn(c: ConnId)
      requires Inv(View()) && c !in used
      modifies this
      ensures View() == Next(old(View()), Insert(c)) && Inv(View())
    {
      NextKeeps(View(), Insert(c));
      list := list + [c];
      enumCount := enumCount[c := 0];
      connCount := connCount + 1;
      used := used + {c};
    }

    /** conn_remove, once the wait for enum_count to drop to zero is over. */
    method RemoveConn(c: ConnId)
      requires Inv(View()) && Enabled(View(), Remove(c))
      modifies this
      ensures View() == Next(old(View()), Remove(c)) && Inv(View())
    {
      NextKeeps(View(), Remove(c));
      list := Without(list, c);
      enumCount := enumCount - {c};
      connCount := connCount - 1;
    }

    /** conn_enumerate up to its first callback. */
    method BeginEnumeration(t: Thread)
      requires Inv(View()) && t !in walks
      modifies this
      ensures View() == Next(old(View()), Begin(t)) && Inv(View())
    {
      NextKeeps(View(), Begin(t));
      EnterNext(t, 0, []);
    }

    /** The head of the loop: take the connection at `i`, if there is one. */
    method EnterNext(t: Thread, i: nat, visited: seq<ConnId>)
      requires i <= |list| && forall c :: c in list ==> c in enumCount
      modifies this`enumCount, this`walks
      ensures View() == Enter(old(View()), t, i, visited)
    {
      if i == |list| {
        walks := walks[t := Finished(visited)];
      } else {
        var c := list[i];
        enumCount := enumCount[c := enumCount[c] + 1];
        walks := walks[t := On(c, visited + [c])];
      }
    }

    /** conn_enumerate from the return of one callback to the next, or to its end. */
    method AfterCallback(t: Thread, stop: bool)
      requires Inv(View()) && Enabled(View(), Advance(t, stop))
      modifies this
      ensures Safe(old(View()), Advance(t, stop))
      ensures View() == Next(old(View()), Advance(t, stop)) && Inv(View())
    {
      AlwaysSafe(View(), Advance(t, stop));
      NextKeeps(View(), Advance(t, stop));
      MoveOn(t, stop);
    }

    /** The tail of the loop: enum_count--, then stop or follow the link. */
    method MoveOn(t: Thread, stop: bool)
      requires Enabled(View(), Advance(t, stop)) && Safe(View(), Advance(t, stop))
      requires forall c :: c in list ==> c in enumCount
      modifies this`enumCount, this`walks
      ensures View() == Next(old(View()), Advance(t, stop))
    {
      var c, visited := walks[t].cur, walks[t].visited;
      enumCount := enumCount[c := enumCount[c] - 1];
      walks := walks[t := Stopped(visited)];
      if !stop {
        EnterNext(t, IndexOf(list, c) + 1, visited);
      }
    }
  }
}
