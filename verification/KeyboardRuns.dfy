/** Whole sessions at the keyboard buffer: what the reader gets back of what was typed. */
module KeyboardRuns {
  import opened Bits
  import opened Keyboard

  datatype Event = Pushed(c: byte) | Popped | Erased

  /** The ring, and the characters its reader has received so far. */
  datatype Session = Session(ring: Ring, received: seq<byte>)

  function Perform(s: Session, e: Event): (n: Session)
    requires |s.ring.buffer| == SIZE
    ensures |n.ring.buffer| == SIZE
  {
    match e
    case Pushed(c) => s.(ring := Push(s.ring, c))
    case Popped => Session(Pop(s.ring), if PopChar(s.ring) == 0 then s.received else s.received + [PopChar(s.ring)])
    case Erased => s.(ring := Backspace(s.ring))
  }

  function Play(r: Ring, events: seq<Event>): (s: Session)
    requires |r.buffer| == SIZE
    ensures |s.ring.buffer| == SIZE
  {
    if events == [] then Session(r, [])
    else Perform(Play(r, events[..|events| - 1]), events[|events| - 1])
  }

  // ---- the same without a ring ----

  /** Everything typed and not erased, and how much of it has been read. */
  datatype Log = Log(typed: seq<byte>, taken: nat)

  ghost predicate Sensible(l: Log) {
    l.taken <= |l.typed| && forall i :: 0 <= i < |l.typed| ==> l.typed[i] != 0
  }

  /** At most 1024 characters wait, and a backspace has a character to erase. */
  predicate Allowed(l: Log, e: Event) {
    match e
    case Pushed(c) => c == 0 || |l.typed| - l.taken < 1024
    case Popped => true
    case Erased => l.taken < |l.typed|
  }

  function Note(l: Log, e: Event): Log {
    match e
    case Pushed(c) => if c == 0 then l else l.(typed := l.typed + [c])
    case Popped => if l.taken < |l.typed| then l.(taken := l.taken + 1) else l
    case Erased => if l.typed == [] then l else l.(typed := l.typed[..|l.typed| - 1])
  }

  function Record(events: seq<Event>): Log {
    if events == [] then Log([], 0) else Note(Record(events[..|events| - 1]), events[|events| - 1])
  }

  predicate AllowedAt(events: seq<Event>, k: nat)
    requires k < |events|
  {
    Allowed(Record(events[..k]), events[k])
  }

  /** The session and the log tell the same story: the reader has got the first characters, the ring
      holds the others. */
  ghost predicate Agree(s: Session, l: Log) {
    && Sensible(l) && |s.ring.buffer| == SIZE
    && s.received == l.typed[..l.taken] && Represents(s.ring, l.typed[l.taken..])
  }

  ghost predicate IsQueue(r: Ring) {
    exists q :: Represents(r, q)
  }

  lemma StepAgrees(s: Session, l: Log, e: Event)
    requires Agree(s, l)
    ensures Allowed(l, e) ==> Agree(Perform(s, e), Note(l, e))
    ensures Allowed(l, e) <==> IsQueue(Perform(s, e).ring)
  {
    hide Represents, Push, Pop, Backspace, PopChar;
    var q := l.typed[l.taken..];
    match e
    case Pushed(c) =>
      if c == 0 {
        PushNothing(s.ring);
      } else {
        PushIsEnqueue(s.ring, q, c);
        assert Represents(s.ring, q) ==> |q| == |l.typed| - l.taken;
        assert (l.typed + [c])[l.taken..] == q + [c] && (l.typed + [c])[..l.taken] == l.typed[..l.taken];
      }
    case Popped =>
      PopIsDequeue(s.ring, q);
      if q != [] {
        assert l.typed[l.taken + 1..] == q[1..] && l.typed[..l.taken + 1] == l.typed[..l.taken] + [q[0]];
      }
    case Erased =>
      BackspaceIsDrop(s.ring, q);
      if q != [] {
        var t := l.typed[..|l.typed| - 1];
        assert t[l.taken..] == q[..|q| - 1] && t[..l.taken] == l.typed[..l.taken];
      }
  }

  lemma PushNothing(r: Ring)
    requires |r.buffer| == SIZE
    ensures Push(r, 0) == r
  {
  }

  /** Over every allowed session the characters received are the first of those typed and not erased,
      in order, and the ring holds the rest. */
  lemma {:induction false} SessionIsFifo(r: Ring, events: seq<Event>)
    requires Represents(r, []) && forall k :: 0 <= k < |events| ==> AllowedAt(events, k)
    ensures Agree(Play(r, events), Record(events))
  {
    hide Represents, Allowed, Agree, Perform, Note;
    StartAgrees(r);
    if events != [] {
      var n := |events| - 1;
      Earlier(events, n);
      SessionIsFifo(r, events[..n]);
      assert AllowedAt(events, n);
      StepAgrees(Play(r, events[..n]), Record(events[..n]), events[n]);
    }
  }

  lemma StartAgrees(r: Ring)
    requires Represents(r, [])
    ensures |r.buffer| == SIZE && Agree(Session(r, []), Log([], 0))
  {
  }

  lemma Earlier(events: seq<Event>, n: nat)
    requires n <= |events|
    ensures forall k :: 0 <= k < n ==> (AllowedAt(events[..n], k) <==> AllowedAt(events, k))
  {
    hide Allowed, Record;
    forall k | 0 <= k < n ensures AllowedAt(events[..n], k) <==> AllowedAt(events, k) {
      assert events[..n][..k] == events[..k];
    }
  }

  /** The ring stands for a queue throughout the session if and only if every event was allowed. */
  lemma {:induction false} SessionExactly(r: Ring, events: seq<Event>)
    requires Represents(r, [])
    ensures (forall k :: 0 <= k <= |events| ==> QueueAt(r, events, k)) <==> (forall k :: 0 <= k < |events| ==> AllowedAt(events, k))
  {
    hide Represents, AllowedAt, Agree, Perform, Note, IsQueue;
    StartAgrees(r);
    if events == [] {
      QueueAtStart(r, events);
    } else {
      var n := |events| - 1;
      var before := events[..n];
      SessionExactly(r, before);
      Earlier(events, n);
      forall k | 0 <= k <= n ensures QueueAt(r, before, k) <==> QueueAt(r, events, k) {
        assert before[..k] == events[..k];
      }
      if forall k :: 0 <= k < n ==> AllowedAt(events, k) {
        SessionIsFifo(r, before);
        StepAgrees(Play(r, before), Record(before), events[n]);
        LastEvent(r, events);
      }
    }
  }

  ghost predicate QueueAt(r: Ring, events: seq<Event>, k: nat)
    requires |r.buffer| == SIZE && k <= |events|
  {
    IsQueue(Play(r, events[..k]).ring)
  }

  lemma QueueAtStart(r: Ring, events: seq<Event>)
    requires Represents(r, [])
    ensures QueueAt(r, events, 0)
  {
    hide Represents;
    assert events[..0] == [];
  }

  lemma LastEvent(r: Ring, events: seq<Event>)
    requires |r.buffer| == SIZE && events != []
    ensures var n := |events| - 1;
      && (AllowedAt(events, n) <==> Allowed(Record(events[..n]), events[n]))
      && (QueueAt(r, events, n + 1) <==> IsQueue(Perform(Play(r, events[..n]), events[n]).ring))
  {
    hide IsQueue, Allowed, Perform, Record;
    assert events[..|events|] == events;
  }
}
