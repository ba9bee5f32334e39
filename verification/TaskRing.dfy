/** The doubly linked list of tasks and the round-robin scheduler on it (task.c), as coded:
    removing a task never updates the `prev` link of its successor, and the block of a removed task
    can become a new task at the same address. */
module TaskRing {
  import opened Arith

  class Task {
    var next: Task?
    var prev: Task?

    constructor ()
      ensures next == null && prev == null
    {
      next, prev := null, null;
    }
  }

  /** A snapshot of all links. `list` is the chain of next links from head; `next` and `prev`
      cover every block that was ever a task, removed ones included. */
  datatype Links = Links(
    list: seq<Task>, next: map<Task, Task?>, prev: map<Task, Task?>,
    head: Task?, tail: Task?, current: Task?)

  function Without<T>(s: seq<T>, i: nat): (r: seq<T>)
    requires i < |s|
    ensures |r| == |s| - 1
  {
    s[..i] + s[i + 1..]
  }

  function After(s: seq<Task>, i: nat): Task? {
    if i + 1 < |s| then s[i + 1] else null
  }

  function Before(s: seq<Task>, i: nat): Task?
    requires i < |s|
  {
    if i == 0 then null else s[i - 1]
  }

  ghost predicate Distinct(s: seq<Task>) {
    forall i, j :: 0 <= i < j < |s| ==> s[i] != s[j]
  }

  /** The next links run along s. */
  ghost predicate Chain(s: seq<Task>, next: map<Task, Task?>) {
    forall i {:trigger next[s[i]]} :: 0 <= i < |s| ==> s[i] in next && next[s[i]] == After(s, i)
  }

  ghost predicate Known(s: seq<Task>, m: map<Task, Task?>) {
    forall i :: 0 <= i < |s| ==> s[i] in m
  }

  /** next links, head, tail and current describe the duplicate-free sequence `list`. */
  ghost predicate Forward(l: Links) {
    && l.next.Keys == l.prev.Keys && Known(l.list, l.next) && Known(l.list, l.prev)
    && Distinct(l.list) && Chain(l.list, l.next)
    && l.head == (if l.list == [] then null else l.list[0])
    && (l.list != [] ==> l.tail == l.list[|l.list| - 1])
    && (if l.list == [] then l.current == null else l.current in l.list)
  }

  ghost predicate BackOk(l: Links, i: nat) {
    i < |l.list| && l.list[i] in l.prev && l.prev[l.list[i]] == Before(l.list, i)
  }

  /** The list is in order going forward, and every prev link leads to a block that was a task once. Where
      it leads is left open: to the predecessor, to a removed task, or to one that is listed again. */
  ghost predicate Inv(l: Links) {
    Forward(l) && forall t :: t in l.prev ==> l.prev[t] == null || l.prev[t] in l.prev
  }

  /** A proper doubly linked list. */
  ghost predicate Exact(l: Links) {
    Forward(l) && forall i :: 0 <= i < |l.list| ==> BackOk(l, i)
  }

  /** What task_list_remove writes. */
  function Unlinked(l: Links, task: Task): Links
    requires task in l.next && task in l.prev
  {
    var p, n := l.prev[task], l.next[task];
    var head := if task == l.head then n else l.head;
    l.(next := if p != null then l.next[p := n] else l.next,
       head := head,
       tail := if task == l.tail then p else l.tail,
       current := if task == l.current then (if n == null then head else n) else l.current)
  }

  /** The links after removing list[i] when the chain really loses it. */
  function Removed(l: Links, i: nat): Links
    requires i < |l.list| && l.list[i] in l.next && l.list[i] in l.prev
  {
    Unlinked(l, l.list[i]).(list := Without(l.list, i))
  }

  lemma WithoutAt<T>(s: seq<T>, i: nat, j: nat)
    requires i < |s| && j < |s| - 1
    ensures Without(s, i)[j] == s[if j < i then j else j + 1]
  {
  }

  lemma WithoutMembers(s: seq<Task>, i: nat)
    requires Distinct(s) && i < |s|
    ensures s[i] !in Without(s, i) && Distinct(Without(s, i))
    ensures forall t :: t in s && t != s[i] ==> t in Without(s, i)
    ensures forall t :: t in Without(s, i) ==> t in s
  {
    var r := Without(s, i);
    forall j | 0 <= j < |r| ensures r[j] in s && r[j] != s[i] {
      WithoutAt(s, i, j);
    }
    forall t | t in s && t != s[i] ensures t in r {
      var x :| 0 <= x < |s| && s[x] == t;
      WithoutAt(s, i, if x < i then x else x - 1);
    }
    forall a, b | 0 <= a < b < |r| ensures r[a] != r[b] {
      WithoutAt(s, i, a);
      WithoutAt(s, i, b);
    }
  }

  /** Redirecting the predecessor (or a block other than s[1..]) past s[i] gives the chain without s[i]. */
  lemma ChainWithout(s: seq<Task>, next: map<Task, Task?>, i: nat, p: Task?)
    requires Distinct(s) && Chain(s, next) && Known(s, next) && i < |s|
    requires if i > 0 then p == s[i - 1] else p == null || p !in s[1..]
    ensures Chain(Without(s, i), if p == null then next else next[p := next[s[i]]])
  {
    var r, after := Without(s, i), if p == null then next else next[p := next[s[i]]];
    assert next[s[i]] == After(s, i);
    forall j | 0 <= j < |r| ensures r[j] in after && after[r[j]] == After(r, j) {
      var x := if j < i then j else j + 1;
      WithoutAt(s, i, j);
      if j + 1 < |r| { WithoutAt(s, i, j + 1); }
      assert next[s[x]] == After(s, x);
      assert s[x] in s;
      assert i == 0 ==> s[x] == s[1..][x - 1];
    }
  }

  lemma ChainAt(s: seq<Task>, next: map<Task, Task?>, i: nat)
    requires Chain(s, next) && Known(s, next) && i < |s|
    ensures s[i] in next && next[s[i]] == After(s, i)
  {
    assert s[i] in next;
    assert next[s[i]] == After(s, i);
  }

  /** When the write of task_list_remove takes list[i], and nothing else, out of the chain: the task's
      prev link names its predecessor; the head's names no other listed task. */
  ghost predicate RemovalOk(l: Links, i: nat) {
    && i < |l.list| && l.list[i] in l.prev
    && var p := l.prev[l.list[i]];
      if i == 0 then p == null || p !in l.list[1..] else p == l.list[i - 1]
  }

  /** Removing a listed task leaves the list without it, with head, tail and current in step, if and
      only if that is so. */
  lemma RemovalExactly(l: Links, i: nat)
    requires Inv(l) && i < |l.list|
    ensures l.list[i] in l.next && l.list[i] in l.prev
    ensures RemovalOk(l, i) <==> Inv(Removed(l, i))
    ensures RemovalOk(l, i) <==> Chain(Removed(l, i).list, Removed(l, i).next)
    ensures RemovalOk(l, i) && |l.list| > 1 ==> Removed(l, i).current != l.list[i]
  {
    hide Chain, Distinct;
    ChainAt(l.list, l.next, i);
    assert l.list[i] in l.prev;
    if RemovalOk(l, i) {
      RemovalKeepsChain(l, i);
      RemovalMovesEnds(l, i);
    } else {
      RemovalBreaksChain(l, i);
    }
  }

  lemma RemovalBreaksChain(l: Links, i: nat)
    requires Inv(l) && i < |l.list| && l.list[i] in l.next && l.list[i] in l.prev && !RemovalOk(l, i)
    ensures !Chain(Removed(l, i).list, Removed(l, i).next)
  {
    hide Without;
    var s, r := l.list, Removed(l, i);
    var p, n := l.prev[s[i]], l.next[s[i]];
    ChainAt(s, l.next, i);
    if i > 0 {
      WithoutAt(s, i, i - 1);
      ChainAt(s, l.next, i - 1);
      assert Chain(r.list, r.next) ==> r.next[r.list[i - 1]] == After(r.list, i - 1);
      if i < |s| - 1 { WithoutAt(s, i, i); }
    } else {
      var x :| 1 <= x < |s| && s[x] == p;
      WithoutAt(s, i, x - 1);
      assert Chain(r.list, r.next) ==> r.next[r.list[x - 1]] == After(r.list, x - 1);
      if x < |s| - 1 { WithoutAt(s, i, x); }
    }
  }

  /** The chain and its members. */
  lemma RemovalKeepsChain(l: Links, i: nat)
    requires Forward(l) && RemovalOk(l, i)
    requires forall t :: t in l.prev ==> l.prev[t] == null || l.prev[t] in l.prev
    ensures var r := Removed(l, i);
      && r.next.Keys == r.prev.Keys && Known(r.list, r.next) && Known(r.list, r.prev)
      && Distinct(r.list) && Chain(r.list, r.next)
  {
    hide Chain, Distinct;
    var s, r := l.list, Removed(l, i);
    ChainAt(s, l.next, i);
    ChainWithout(s, l.next, i, l.prev[s[i]]);
    WithoutMembers(s, i);
    forall j | 0 <= j < |r.list| ensures r.list[j] in l.next && r.list[j] in l.prev {
      WithoutAt(s, i, j);
    }
  }

  /** Head, tail and current. */
  lemma RemovalMovesEnds(l: Links, i: nat)
    requires Forward(l) && RemovalOk(l, i)
    ensures var r := Removed(l, i);
      && r.head == (if r.list == [] then null else r.list[0])
      && (r.list != [] ==> r.tail == r.list[|r.list| - 1])
      && (if r.list == [] then r.current == null else r.current in r.list)
      && (|l.list| > 1 ==> r.current != l.list[i])
  {
    hide Chain, Distinct, Known, Without;
    var s := l.list;
    ChainAt(s, l.next, i);
    WithoutMembers(s, i);
    RemovalEnds(s, i);
  }

  lemma RemovalEnds(s: seq<Task>, i: nat)
    requires Distinct(s) && i < |s|
    ensures |s| > 1 ==> Without(s, i)[0] == (if i == 0 then s[1] else s[0]) && Without(s, i)[|s| - 2] == (if i == |s| - 1 then s[i - 1] else s[|s| - 1])
    ensures i + 1 < |s| ==> s[i + 1] in Without(s, i) && s[i + 1] != s[i]
    ensures i > 0 ==> s[0] in Without(s, i) && s[0] != s[i] && s[|s| - 1] != s[0]
    ensures i < |s| - 1 ==> s[|s| - 1] != s[i]
  {
    WithoutMembers(s, i);
    if |s| > 1 {
      WithoutAt(s, i, 0);
      WithoutAt(s, i, |s| - 2);
      assert s[0] in s;
      if i + 1 < |s| { assert s[i + 1] in s && s[i + 1] != s[i]; }
    }
  }

  /** The prev links after a removal: the successor of the removed task keeps pointing at it, and
      every other link stays as good as it was. */
  lemma RemovalBackLinks(l: Links, i: nat)
    requires Inv(l) && RemovalOk(l, i)
    ensures forall j :: 0 <= j < |l.list| - 1 && BackOk(l, if j < i then j else j + 1) ==>
      (BackOk(Removed(l, i), j) <==> j != i)
    ensures Exact(l) ==> (Exact(Removed(l, i)) <==> i == |l.list| - 1)
  {
    hide Chain, Distinct, Forward;
    ForwardFacts(l);
    var s, r := l.list, Removed(l, i);
    RemovalExactly(l, i);
    WithoutMembers(s, i);
    forall j | 0 <= j < |r.list| && BackOk(l, if j < i then j else j + 1)
      ensures BackOk(r, j) <==> j != i
    {
      WithoutAt(s, i, j);
      if j > 0 { WithoutAt(s, i, j - 1); }
      if i > 0 { DistinctAt(s, i - 1, i); }
    }
    if Exact(l) && i < |s| - 1 {
      assert BackOk(l, i + 1);
      assert !BackOk(r, i);
    }
  }

  lemma DistinctAt(s: seq<Task>, i: nat, j: nat)
    requires Distinct(s) && i < j < |s|
    ensures s[i] != s[j]
  {
  }

  lemma ForwardFacts(l: Links)
    requires Forward(l)
    ensures Distinct(l.list) && Known(l.list, l.prev) && Known(l.list, l.next) && l.next.Keys == l.prev.Keys
  {
  }

  /** If the prev link of a later task leads out of the list, the write goes to a removed task's block: the
      chain still runs through the task, and if it was the tail, tail now points outside the list. */
  lemma RemovalFails(l: Links, i: nat)
    requires Inv(l) && 0 < i < |l.list| && l.list[i] in l.prev && l.list[i] in l.next
    requires l.prev[l.list[i]] == null || l.prev[l.list[i]] !in l.list
    ensures var r := Unlinked(l, l.list[i]);
      && r.list == l.list && l.list[i] in r.list && r.head == l.head
      && (forall j :: 0 <= j < |l.list| ==> l.list[j] in r.next && r.next[l.list[j]] == l.next[l.list[j]])
      && (i == |l.list| - 1 ==> r.tail !in r.list && !Forward(r))
      && r.current != l.list[i] && r.current in r.list
  {
    hide Chain, Distinct;
    var s := l.list;
    ChainAt(s, l.next, i);
    RemovalEnds(s, i);
    WithoutMembers(s, i);
    assert forall j :: 0 <= j < |s| ==> s[j] in s;
  }

  /** Example: after removing b from a, b, c, removing c leaves c in the chain. */
  lemma TwoRemovals(l: Links)
    requires Exact(l) && Inv(l) && |l.list| == 3
    ensures RemovalOk(l, 1)
    ensures var r := Removed(l, 1);
      && Inv(r) && r.list == [l.list[0], l.list[2]] && !RemovalOk(r, 1)
      && Unlinked(r, l.list[2]).next[l.list[0]] == l.list[2]
      && Unlinked(r, l.list[2]).tail == l.list[1]
  {
    assert BackOk(l, 1) && BackOk(l, 2);
    RemovalExactly(l, 1);
    var r := Removed(l, 1);
    assert r.list == [l.list[0], l.list[2]];
    assert r.prev[l.list[2]] == l.list[1];
    ChainAt(r.list, r.next, 0);
    RemovalFails(r, 1);
    assert Unlinked(r, r.list[1]).next[r.list[0]] == r.next[r.list[0]];
  }

  /** What the list part of task_new writes. */
  function Appended(l: Links, task: Task): Links
    requires l.head == null || (l.tail != null && l.tail in l.next)
  {
    var m := l.(list := l.list + [task], next := l.next[task := null], prev := l.prev[task := null]);
    if l.head == null then m.(head := task, tail := task, current := task)
    else m.(next := m.next[l.tail := task], prev := m.prev[task := l.tail], tail := task)
  }

  /** The links once a block has been cleared. */
  function Cleared(l: Links, task: Task): Links {
    l.(next := l.next[task := null], prev := l.prev[task := null])
  }

  lemma ClearedAppend(l: Links, task: Task)
    requires l.head == null || (l.tail != null && l.tail in l.next)
    ensures Appended(Cleared(l, task), task) == Appended(l, task)
    ensures var c := Cleared(l, task); c.head == l.head && c.tail == l.tail && c.list == l.list
  {
  }

  lemma ListKnown(l: Links)
    requires Inv(l)
    ensures forall t :: t in l.list ==> t in l.next
    ensures l.head != null ==> l.tail in l.list
  {
    hide Chain, Distinct;
  }

  /** Any block that is not listed can become the next task, a removed one included. */
  lemma AppendKeeps(l: Links, task: Task)
    requires Inv(l) && task !in l.list
    ensures l.head == null || (l.tail != null && l.tail in l.next)
    ensures Inv(Appended(l, task)) && (Exact(l) ==> Exact(Appended(l, task)))
  {
    hide Chain, Distinct;
    var s := l.list;
    ChainAppend(s, l.next, task);
    AppendEnds(l, task);
    if Exact(l) {
      forall i | 0 <= i <= |s| ensures BackOk(Appended(l, task), i) { AppendBack(l, task, i); }
    }
  }

  /** All but the chain: the links' domains and values, head, tail and current. */
  lemma AppendEnds(l: Links, task: Task)
    requires Inv(l) && task !in l.list
    ensures var r := Appended(l, task);
      && r.next.Keys == r.prev.Keys && Known(r.list, r.next) && Known(r.list, r.prev)
      && r.head == r.list[0] && r.tail == r.list[|r.list| - 1] && r.current in r.list
      && forall t :: t in r.prev ==> r.prev[t] == null || r.prev[t] in r.prev
  {
    hide Chain, Distinct;
  }

  lemma AppendBack(l: Links, task: Task, i: nat)
    requires Inv(l) && task !in l.list && i <= |l.list| && (i < |l.list| ==> BackOk(l, i))
    ensures BackOk(Appended(l, task), i)
  {
    hide Chain, Distinct;
    assert i < |l.list| ==> l.list[i] in l.list;
  }

  lemma TailKnown(l: Links)
    requires Inv(l)
    ensures l.head == null || (l.tail != null && l.tail in l.next)
  {
    hide Chain, Distinct;
  }

  lemma ChainAppend(s: seq<Task>, next: map<Task, Task?>, task: Task)
    requires Distinct(s) && Chain(s, next) && Known(s, next) && task !in s
    ensures var m := next[task := null];
      Chain(s + [task], if s == [] then m else m[s[|s| - 1] := task])
    ensures Distinct(s + [task])
  {
    var m := next[task := null];
    var r, after := s + [task], if s == [] then m else m[s[|s| - 1] := task];
    assert forall i :: 0 <= i < |s| ==> s[i] in s;
    forall i | 0 <= i < |r| ensures r[i] in after && after[r[i]] == After(r, i) {
      if i < |s| { assert next[s[i]] == After(s, i); }
    }
  }

  /** Example: b leaves the exact ring a, b, c; its block becomes a task again, and d is appended. Both
      removals of the head that follow find a list in order, yet the second leaves the head pointing at
      itself, and d is lost. */
  lemma ReuseExample(l: Links, d: Task)
    requires Exact(l) && Inv(l) && |l.list| == 3 && d !in l.next
    ensures RemovalOk(l, 1)
    ensures var b, c := l.list[1], l.list[2];
      var two := Appended(Removed(l, 1), b);
      var four := Appended(two, d);
      && Inv(four) && four.list == [l.list[0], c, b, d] && RemovalOk(four, 0)
      && var three := Removed(four, 0);
      && Inv(three) && three.list == [c, b, d] && !RemovalOk(three, 0)
      && var r := Unlinked(three, c);
      && r.head == b && r.next[b] == b
  {
    hide Inv, Exact, RemovalOk;
    var a, b, c := l.list[0], l.list[1], l.list[2];
    var four := ReuseStart(l, d, a, b, c);
    ReuseEnd(four, a, b, c, d);
  }

  lemma ReuseStart(l: Links, d: Task, a: Task, b: Task, c: Task) returns (four: Links)
    requires Exact(l) && Inv(l) && l.list == [a, b, c] && d !in l.next
    ensures RemovalOk(l, 1) && four == Appended(Appended(Removed(l, 1), b), d)
    ensures Inv(four) && four.list == [a, c, b, d] && a in four.prev && four.prev[a] == null && c in four.prev && four.prev[c] == b
  {
    hide Forward, Chain, Distinct;
    ForwardFacts(l);
    assert BackOk(l, 0) && BackOk(l, 1) && BackOk(l, 2);
    assert b != a && b != c && a != c by { DistinctAt(l.list, 0, 1); DistinctAt(l.list, 1, 2); DistinctAt(l.list, 0, 2); }
    RemovalExactly(l, 1);
    var one := Removed(l, 1);
    assert one.list == [a, c];
    AppendKeeps(one, b);
    var two := Appended(one, b);
    assert two.list == [a, c, b];
    ListKnown(two);
    AppendKeeps(two, d);
    four := Appended(two, d);
  }

  lemma ReuseEnd(four: Links, a: Task, b: Task, c: Task, d: Task)
    requires Inv(four) && four.list == [a, c, b, d]
    requires a in four.prev && four.prev[a] == null && c in four.prev && four.prev[c] == b
    ensures RemovalOk(four, 0)
    ensures var three := Removed(four, 0);
      && Inv(three) && three.list == [c, b, d] && !RemovalOk(three, 0)
      && Unlinked(three, c).head == b && Unlinked(three, c).next[b] == b
  {
    hide Chain, Distinct;
    RemovalExactly(four, 0);
    var three := Removed(four, 0);
    assert three.list == [c, b, d] && three.list[1..] == [b, d];
    assert three.prev[c] == b;
    ChainAt(three.list, three.next, 0);
  }

  // ---- whole runs ----

  datatype Event = Created(task: Task) | SwitchedTo(task: Task) | Freed(i: nat)

  /** What happens to the list at all: creation in an unlisted block, a switch to a listed task, the
      removal of a listed task. */
  ghost predicate Sensible(l: Links, e: Event) {
    match e
    case Created(task) => task !in l.list
    case SwitchedTo(task) => task in l.list
    case Freed(i) => i < |l.list|
  }

  /** What a caller of task_free would have to make sure of. */
  ghost predicate Guard(l: Links, e: Event) {
    e.Freed? ==> RemovalOk(l, e.i)
  }

  function Next(l: Links, e: Event): Links
    requires Inv(l) && Sensible(l, e)
  {
    match e
    case Created(task) => AppendKeeps(l, task); Appended(l, task)
    case SwitchedTo(task) => l.(current := task)
    case Freed(i) => RemovalExactly(l, i); Removed(l, i)
  }

  lemma SwitchKeeps(l: Links, task: Task)
    requires Inv(l) && task in l.list
    ensures Inv(l.(current := task))
  {
    hide Chain, Distinct;
  }

  lemma NextExactly(l: Links, e: Event)
    requires Inv(l) && Sensible(l, e)
    ensures Inv(Next(l, e)) <==> Guard(l, e)
    ensures e.Freed? && Guard(l, e) && |l.list| > 1 ==> Next(l, e).current != l.list[e.i]
  {
    hide Inv, RemovalOk;
    match e
    case Created(task) => AppendKeeps(l, task);
    case SwitchedTo(task) => SwitchKeeps(l, task);
    case Freed(i) => RemovalExactly(l, i);
  }

  /** A run of the code: as long as the list is in order, each event does what the code does. */
  ghost predicate IsRun(states: seq<Links>, events: seq<Event>) {
    && |states| == |events| + 1
    && forall k :: 0 <= k < |events| && Inv(states[k]) ==> IsStep(states[k], events[k], states[k + 1])
  }

  ghost predicate IsStep(l: Links, e: Event, l': Links)
    requires Inv(l)
  {
    Sensible(l, e) && l' == Next(l, e)
  }

  ghost predicate GuardedAt(states: seq<Links>, events: seq<Event>, k: nat)
    requires k < |events| < |states|
  {
    Guard(states[k], events[k])
  }

  /** Over any interleaving of creations, in new or used blocks, switches and removals, the links describe
      one duplicate-free sequence with head, tail and current in step throughout, if and only if every
      removal met the guard. */
  lemma {:induction false} RunKeeps(states: seq<Links>, events: seq<Event>)
    requires IsRun(states, events) && Inv(states[0])
    ensures (forall k :: 0 <= k < |states| ==> Inv(states[k])) <==> (forall k :: 0 <= k < |events| ==> GuardedAt(states, events, k))
  {
    hide Inv, Guard, Next, Sensible;
    if forall k :: 0 <= k < |states| ==> Inv(states[k]) {
      forall k | 0 <= k < |events| ensures GuardedAt(states, events, k) {
        assert Inv(states[k]) && Inv(states[k + 1]) && IsStep(states[k], events[k], states[k + 1]);
        NextExactly(states[k], events[k]);
      }
    }
    if forall k :: 0 <= k < |events| ==> GuardedAt(states, events, k) {
      forall k | 0 <= k < |states| ensures Inv(states[k]) {
        GuardedRunKeeps(states, events, k);
      }
    }
  }

  lemma {:induction false} GuardedRunKeeps(states: seq<Links>, events: seq<Event>, k: nat)
    requires IsRun(states, events) && Inv(states[0]) && k < |states|
    requires forall j :: 0 <= j < |events| ==> GuardedAt(states, events, j)
    ensures Inv(states[k])
    decreases k
  {
    hide Inv, Guard, Next, Sensible;
    if k > 0 {
      GuardedRunKeeps(states, events, k - 1);
      assert GuardedAt(states, events, k - 1);
      assert IsStep(states[k - 1], events[k - 1], states[k - 1 + 1]);
      NextExactly(states[k - 1], events[k - 1]);
    }
  }

  // ---- round robin ----

  /** Position i of a ring of n. */
  function Around(i: nat, n: nat): (r: nat)
    requires n > 0
    ensures r < n
  {
    Natural(i, n);
    Euclid(i, n);
    i % n
  }

  lemma AroundIs(i: nat, n: nat)
    requires n > 0
    ensures i < n ==> Around(i, n) == i
    ensures n <= i < 2 * n ==> Around(i, n) == i - n
    ensures Around(i + 1, n) == if Around(i, n) + 1 < n then Around(i, n) + 1 else 0
  {
    if i < n { Below(i, n); } else if i < 2 * n { DivMod(i, n, 1, i - n); }
    Euclid(i, n);
    if i % n + 1 < n {
      DivMod(i + 1, n, i / n, i % n + 1);
    } else {
      Distribute(i / n + 1, 1, n);
      DivMod(i + 1, n, i / n + 1, 0);
    }
  }

  /** task_get_next */
  function NextTask(l: Links): Task?
    requires l.current != null && l.current in l.next
  {
    if l.next[l.current] == null then l.head else l.next[l.current]
  }

  lemma NextTaskIs(l: Links, i: nat)
    requires Forward(l) && i < |l.list| && l.current == l.list[i]
    ensures l.current in l.next && NextTask(l) == l.list[Around(i + 1, |l.list|)]
  {
    hide Chain, Distinct, Around;
    ChainAt(l.list, l.next, i);
    AroundIs(i + 1, |l.list|);
  }

  /** The ring after k calls of task_next. */
  ghost function Turns(l: Links, k: nat): (r: Links)
    requires Forward(l) && l.list != []
    ensures Forward(r) && r.list == l.list
  {
    if k == 0 then l
    else
      var m := Turns(l, k - 1);
      var i :| 0 <= i < |m.list| && m.list[i] == m.current;
      NextTaskIs(m, i);
      m.(current := NextTask(m))
  }

  lemma {:induction false} TurnsReach(l: Links, i: nat, k: nat)
    requires Forward(l) && i < |l.list| && l.current == l.list[i]
    ensures Turns(l, k).current == l.list[Around(i + k, |l.list|)]
    decreases k
  {
    hide Forward, Around;
    AroundIs(i, |l.list|);
    if k > 0 {
      var at := Around(i + k - 1, |l.list|);
      TurnsReach(l, i, k - 1);
      NextTaskIs(Turns(l, k - 1), at);
      AroundIs(at, |l.list|);
      AroundIs(i + k - 1, |l.list|);
    }
  }

  /** Whoever runs keeps running when another task is removed; when the running task itself is removed, the
      next one of the old order runs, after the last the first. */
  lemma RemovalCurrent(l: Links, i: nat)
    requires Inv(l) && i < |l.list| && |l.list| > 1 && l.list[i] in l.next && l.list[i] in l.prev
    ensures Unlinked(l, l.list[i]).current == if l.current != l.list[i] then l.current else l.list[Around(i + 1, |l.list|)]
    ensures Removed(l, i).current == Unlinked(l, l.list[i]).current
  {
    hide Chain, Distinct, Around;
    ChainAt(l.list, l.next, i);
    AroundIs(i + 1, |l.list|);
    if i > 0 { DistinctAt(l.list, 0, i); }
  }

  /** Fairness over a removal: the turns of the remaining tasks go on in the old order, as if the removed
      task, d turns ahead, had been skipped. */
  lemma RemovalKeepsTurns(l: Links, i: nat, c: nat, k: nat)
    requires Inv(l) && RemovalOk(l, i) && i < |l.list| && |l.list| > 1
    requires c < |l.list| && l.current == l.list[c] && k < |l.list| - 1
    ensures l.list[i] in l.next && Forward(Removed(l, i)) && Removed(l, i).list != []
    ensures var d := Around(i + |l.list| - c, |l.list|);
      Turns(Removed(l, i), k).current == Turns(l, if k < d then k else k + 1).current
  {
    hide Inv, Forward, RemovalOk, Around, Turns, Removed, Without, Unlinked;
    var n := |l.list|;
    RemovalResult(l, i, c);
    var r := Removed(l, i);
    var now := SkipIndex(n, i, c, k);
    WithoutAt(l.list, i, now);
    WithoutAt(l.list, i, Around(now + k, n - 1));
    TurnsReach(l, c, if k < Around(i + n - c, n) then k else k + 1);
    TurnsReach(r, now, k);
  }

  lemma RemovalResult(l: Links, i: nat, c: nat)
    requires Inv(l) && RemovalOk(l, i) && i < |l.list| && |l.list| > 1 && c < |l.list| && l.current == l.list[c]
    ensures Forward(l) && l.list[i] in l.next && l.list[i] in l.prev
    ensures Forward(Removed(l, i)) && Removed(l, i).list == Without(l.list, i)
    ensures Removed(l, i).current == l.list[if c == i then Around(i + 1, |l.list|) else c]
  {
    hide Inv, Forward, RemovalOk, Around, Without;
    ForwardOf(l);
    RemovalExactly(l, i);
    RemovalCurrent(l, i);
    SameTask(l, i, c);
    ForwardOf(Removed(l, i));
  }

  /** Places in a ring of n and in the ring without place i: where the turn at c goes on, and where it is
      k turns later. */
  lemma SkipIndex(n: nat, i: nat, c: nat, k: nat) returns (now: nat)
    requires n > 1 && i < n && c < n && k < n - 1
    ensures now < n - 1
    ensures (if now < i then now else now + 1) == if c == i then Around(i + 1, n) else c
    ensures var x := Around(now + k, n - 1);
      (if x < i then x else x + 1) == Around(c + if k < Around(i + n - c, n) then k else k + 1, n)
  {
    hide Around;
    AroundIs(i + 1, n);
    AroundIs(i + n - c, n);
    var was := if c == i then Around(i + 1, n) else c;
    now := if was < i then was else was - 1;
    AroundIs(now + k, n - 1);
    AroundIs(c + k, n);
    AroundIs(c + k + 1, n);
  }

  lemma SameTask(l: Links, i: nat, c: nat)
    requires Inv(l) && i < |l.list| && c < |l.list| && l.current == l.list[c]
    ensures l.current == l.list[i] <==> c == i
  {
    hide Chain;
  }

  lemma ForwardOf(l: Links)
    requires Inv(l)
    ensures Forward(l)
  {
  }

  /** Fairness: after |list| turns the turn is back where it started ... */
  lemma RoundRobinReturns(l: Links, i: nat)
    requires Forward(l) && i < |l.list| && l.current == l.list[i]
    ensures Turns(l, |l.list|).current == l.current
  {
    hide Forward, Turns, Around;
    TurnsReach(l, i, |l.list|);
    AroundIs(i + |l.list|, |l.list|);
  }

  /** Task t is current after k turns. */
  ghost predicate RunsAt(l: Links, k: nat, t: Task)
    requires Forward(l) && l.list != []
  {
    Turns(l, k).current == t
  }

  /** ... every listed task has had a turn ... */
  lemma EveryoneRuns(l: Links, i: nat, j: nat)
    requires Forward(l) && i < |l.list| && l.current == l.list[i] && j < |l.list|
    ensures exists k :: 0 <= k < |l.list| && RunsAt(l, k, l.list[j])
  {
    hide Forward, Around;
    AroundIs(j, |l.list|);
    AroundIs(j + |l.list|, |l.list|);
    var k := if j >= i then j - i else j + |l.list| - i;
    TurnsReach(l, i, k);
    assert RunsAt(l, k, l.list[j]);
  }

  /** ... and none had two. */
  lemma TurnsDiffer(l: Links, i: nat, a: nat, b: nat)
    requires Forward(l) && i < |l.list| && l.current == l.list[i] && a < b < |l.list|
    ensures Turns(l, a).current != Turns(l, b).current
  {
    hide Turns, Forward, Distinct, Around;
    ForwardFacts(l);
    AroundIs(i + a, |l.list|);
    AroundIs(i + b, |l.list|);
    TurnsReach(l, i, a);
    TurnsReach(l, i, b);
    var x, y := Around(i + a, |l.list|), Around(i + b, |l.list|);
    if x < y { DistinctAt(l.list, x, y); } else { DistinctAt(l.list, y, x); }
  }

  /** A task appended while list[i] runs gets its turn before the scheduler wraps to the head. */
  lemma AppendedRunsBeforeWrap(l: Links, i: nat, task: Task)
    requires Inv(l) && i < |l.list| && l.current == l.list[i]
    requires task !in l.list
    ensures l.tail != null && l.tail in l.next && Forward(Appended(l, task))
    ensures Turns(Appended(l, task), |l.list| - i).current == task
    ensures forall k :: 0 < k < |l.list| - i ==> Turns(Appended(l, task), k).current == l.list[i + k]
  {
    hide Chain, Distinct, Turns, Around;
    AppendKeeps(l, task);
    var r := Appended(l, task);
    TurnsReach(r, i, |l.list| - i);
    AroundIs(|l.list|, |r.list|);
    forall k | 0 < k < |l.list| - i ensures Turns(r, k).current == l.list[i + k] {
      TurnsReach(r, i, k);
      AroundIs(i + k, |r.list|);
    }
  }

  // ---- the code on real tasks ----

  ghost function NextMap(tasks: set<Task>): (m: map<Task, Task?>)
    reads tasks
    ensures m.Keys == tasks
  {
    map t | t in tasks :: t.next
  }

  ghost function PrevMap(tasks: set<Task>): (m: map<Task, Task?>)
    reads tasks
    ensures m.Keys == tasks
  {
    map t | t in tasks :: t.prev
  }

  class Ring {
    var head: Task?
    var tail: Task?
    var current: Task?
    /** The chain of next links from head, and every task the ring ever held. */
    ghost var list: seq<Task>
    ghost var known: set<Task>

    ghost function View(): Links
      reads this, known
    {
      Links(list, NextMap(known), PrevMap(known), head, tail, current)
    }

    /** No link leads to an object the ring never held. */
    ghost predicate Sealed()
      reads this, known
    {
      && (forall t {:trigger t.next} :: t in known ==> t.next == null || t.next in known)
      && (forall t {:trigger t.prev} :: t in known ==> t.prev == null || t.prev in known)
      && (tail == null || tail in known) && (head == null || head in known)
    }

    ghost predicate Valid()
      reads this, known
    {
      Inv(View()) && Sealed()
    }

    constructor ()
      ensures Valid() && list == [] && known == {}
    {
      head, tail, current := null, null, null;
      list, known := [], {};
    }

    lemma ViewIs(l: Links)
      requires l.next.Keys == known && l.prev.Keys == known && l.list == list
      requires forall t :: t in known ==> l.next[t] == t.next && l.prev[t] == t.prev
      requires l.head == head && l.tail == tail && l.current == current
      ensures View() == l
    {
      assert NextMap(known) == l.next;
      assert PrevMap(known) == l.prev;
    }

    /** The block of a new task, cleared: a new one, or one that was a task before. */
    method TakeBlock(block: Task?) returns (task: Task)
      requires Sealed() && (block != null ==> block in known)
      modifies this`known, known
      ensures if block == null then fresh(task) else task == block
      ensures known == old(known) + {task} && task.next == null && task.prev == null
      ensures Sealed() && View() == Cleared(old(View()), task)
    {
      hide NextMap, PrevMap, Cleared;
      if block == null {
        task := NewBlock();
      } else {
        task := block;
        ClearBlock(task);
        assert known == known + {task};
      }
    }

    method NewBlock() returns (task: Task)
      requires Sealed()
      modifies this`known
      ensures fresh(task) && known == old(known) + {task} && task.next == null && task.prev == null
      ensures Sealed() && View() == Cleared(old(View()), task)
    {
      ghost var r := View();
      task := new Task();
      known := known + {task};
      ViewIs(Cleared(r, task));
    }

    method ClearBlock(task: Task)
      requires Sealed() && task in known
      modifies task
      ensures task.next == null && task.prev == null
      ensures Sealed() && View() == Cleared(old(View()), task)
    {
      ghost var r := View();
      task.next, task.prev := null, null;
      ViewIs(Cleared(r, task));
    }

    method AttachFirst(task: Task)
      requires Sealed() && head == null && task in known && task.next == null && task.prev == null
      modifies this`head, this`tail, this`current, this`list
      ensures Sealed() && View() == Appended(old(View()), task)
    {
      ghost var r := Appended(View(), task);
      list := list + [task];
      head := task;
      tail := task;
      current := task;
      ViewIs(r);
    }

    method AttachLast(task: Task)
      requires Sealed() && head != null && tail != null && tail in known && tail != task
      requires task in known && task.next == null && task.prev == null
      modifies this`tail, this`list, task, tail
      ensures Sealed() && View() == Appended(old(View()), task)
    {
      ghost var r := Appended(View(), task);
      list := list + [task];
      tail.next := task;
      task.prev := tail;
      tail := task;
      ViewIs(r);
    }

    /** The list part of task_new. The heap may hand out the block of any task that has left the list. */
    method Append(block: Task?) returns (task: Task)
      requires Valid() && (block != null ==> block in known && block !in list)
      modifies this, known
      ensures if block == null then fresh(task) else task == block
      ensures known == old(known) + {task}
      ensures Valid() && View() == Appended(old(View()), task)
    {
      hide Inv, Appended, NextMap, PrevMap, Cleared;
      ghost var l := View();
      TailKnown(l);
      ListKnown(l);
      task := TakeBlock(block);
      ClearedAppend(l, task);
      if head == null {
        AttachFirst(task);
      } else {
        AttachLast(task);
      }
      AppendKeeps(l, task);
    }

    /** task_get_next */
    method GetNext() returns (next: Task?)
      requires current != null && current in known
      ensures next == NextTask(View())
      ensures next == if current.next == null then head else current.next
    {
      if current.next == null {
        return head;
      }
      return current.next;
    }

    /** task_switch, as far as the list is concerned. */
    method Switch(task: Task)
      requires Valid() && task in list
      modifies this`current
      ensures Valid() && View() == old(View()).(current := task)
    {
      hide Inv, NextMap, PrevMap;
      current := task;
      SwitchKeeps(old(View()), task);
      assert View() == old(View()).(current := task);
    }

    /** task_next, up to the return to user land. */
    method Next(ghost i: nat)
      requires Valid() && i < |list| && current == list[i]
      modifies this`current
      ensures Valid() && View() == old(View()).(current := list[Around(i + 1, |list|)])
    {
      NextTaskIs(View(), i);
      var next := GetNext();
      assert next == list[Around(i + 1, |list|)] && next in list;
      Switch(next);
    }

    lemma LinksAt(t: Task)
      requires t in known
      ensures View().next[t] == t.next && View().prev[t] == t.prev
    {
    }

    /** The write through the prev link in task_list_remove. */
    method Bypass(task: Task)
      requires Sealed() && task in known
      modifies known
      ensures Sealed()
      ensures View() == old(View()).(next := if old(task.prev) == null then old(View().next)
                                             else old(View().next)[old(task.prev) := old(task.next)])
    {
      ghost var l := View();
      ghost var p, n := task.prev, task.next;
      if task.prev != null {
        task.prev.next := task.next;
      }
      ViewIs(l.(next := if p == null then l.next else l.next[p := n]));
    }

    /** How head, tail and current move off a task in task_list_remove. */
    method StepOff(task: Task)
      requires current != null && current in known
      modifies this`head, this`tail, this`current
      ensures head == if old(head) == task then task.next else old(head)
      ensures tail == if old(tail) == task then task.prev else old(tail)
      ensures current == if old(current) != task then old(current) else if task.next != null then task.next else head
    {
      if task == head {
        head := task.next;
      }
      if task == tail {
        tail := task.prev;
      }
      if task == current {
        current := GetNext();
      }
    }

    /** The statements of task_list_remove. */
    method Unlink(task: Task)
      requires Sealed() && task in known && current != null && current in known
      modifies this`head, this`tail, this`current, known
      ensures Sealed() && View() == Unlinked(old(View()), task)
    {
      hide NextMap, PrevMap;
      LinksAt(task);
      Bypass(task);
      LinksAt(task);
      StepOff(task);
    }

    /** task_list_remove, as coded; RemovalExactly and RemovalFails say what becomes of the list,
        RemovalCurrent and RemovalKeepsTurns who runs next. */
    method Remove(task: Task)
      requires Valid() && task in list
      modifies this, known
      ensures known == old(known) && Sealed()
      ensures View().(list := old(list)) == Unlinked(old(View()), task)
      ensures forall i :: 0 <= i < |old(list)| && old(list)[i] == task ==>
        if RemovalOk(old(View()), i)
        then Valid() && list == Without(old(list), i)
        else list == old(list) && !Inv(View().(list := Without(old(list), i)))
      ensures forall i :: 0 <= i < |old(list)| && old(list)[i] == task && |old(list)| > 1 ==>
        current == if old(current) != task then old(current) else old(list)[Around(i + 1, |old(list)|)]
    {
      hide Inv, RemovalOk, Unlinked, NextMap, PrevMap, Around, Without;
      ghost var l := View();
      ghost var i: nat :| 0 <= i < |list| && list[i] == task;
      ListedOnce(l, i);
      RemoveAt(task, i);
    }

    /** The same for the task at place i. */
    method RemoveAt(task: Task, ghost i: nat)
      requires Valid() && i < |list| && list[i] == task
      modifies this, known
      ensures known == old(known) && Sealed()
      ensures View().(list := old(list)) == Unlinked(old(View()), task)
      ensures if RemovalOk(old(View()), i)
        then Valid() && list == Without(old(list), i)
        else list == old(list) && !Inv(View().(list := Without(old(list), i)))
      ensures |old(list)| > 1 ==>
        current == if old(current) != task then old(current) else old(list)[Around(i + 1, |old(list)|)]
    {
      hide Inv, RemovalOk, Unlinked, NextMap, PrevMap, Around;
      ghost var l := View();
      ListedOnce(l, i);
      LinksAt(task);
      RemovalExactly(l, i);
      if |list| > 1 {
        RemovalCurrent(l, i);
      }
      Unlink(task);
      assert View().(list := Without(l.list, i)) == Removed(l, i);
      if RemovalOk(l, i) {
        list := Without(list, i);
      }
    }
  }

  lemma ListedOnce(l: Links, i: nat)
    requires Inv(l) && i < |l.list|
    ensures forall j :: 0 <= j < |l.list| && l.list[j] == l.list[i] ==> j == i
    ensures l.list[i] in l.prev && l.list[i] in l.next && l.current != null && l.current in l.next
  {
    hide Chain;
  }
}
