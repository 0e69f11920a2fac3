/** The perf descriptors behind the attachment points of a kprobe or uprobe. A kprobe's point is keyed
    by function and offset, a uprobe's by function, offset, target and process. */
module Descriptors {
  import opened Bytes

  datatype KProbeKey = KProbeKey(fnName: string, offset: nat)
  datatype UProbeKey = UProbeKey(fnName: Option<string>, offset: nat, target: string, pid: Option<int>)

  datatype Point<K> = Point(key: K, pfd: nat)
  datatype Event = Opened(fd: nat) | Closed(fd: nat)

  /** What the rest of the system answers to one attach call: whether the program is loaded, the
      symbol resolves, the event opens (and as which descriptor), takes the program and is enabled. */
  datatype Answers = Answers(loaded: bool, resolved: bool, event: Option<nat>, bpfSet: bool, enabled: bool)

  datatype Op<K> = Attach(key: K, answers: Answers) | Detach(key: K)

  datatype World<K> = World(log: seq<Event>, points: seq<Point<K>>)

  // ---------- the log of the kernel ----------

  /** A descriptor is open if the last thing that happened to it is an open. */
  predicate IsOpen(log: seq<Event>, fd: nat) {
    log != [] &&
    var last := log[|log| - 1];
    if last.fd == fd then last.Opened? else IsOpen(log[..|log| - 1], fd)
  }

  /** Nothing is opened that is open, and nothing is closed that is not: no descriptor is closed twice. */
  predicate Disciplined(log: seq<Event>) {
    log == [] ||
    (var n := |log| - 1;
     Disciplined(log[..n]) && (log[n].Opened? <==> !IsOpen(log[..n], log[n].fd)))
  }

  lemma {:induction false} DisciplinedCounts(log: seq<Event>, fd: nat)
    requires Disciplined(log)
    ensures multiset(log)[Opened(fd)] == multiset(log)[Closed(fd)] + if IsOpen(log, fd) then 1 else 0
  {
    if log != [] {
      assert log == log[..|log| - 1] + [log[|log| - 1]];
      DisciplinedCounts(log[..|log| - 1], fd);
    }
  }

  lemma Snoc(log: seq<Event>, e: Event)
    ensures forall fd: nat :: IsOpen(log + [e], fd) <==> if e.fd == fd then e.Opened? else IsOpen(log, fd)
    ensures Disciplined(log + [e]) <==> Disciplined(log) && (e.Opened? <==> !IsOpen(log, e.fd))
  {
    assert (log + [e])[..|log|] == log;
  }

  // ---------- attach, detach, drop ----------

  function Remaining<K(==)>(ps: seq<Point<K>>, key: K): (r: seq<Point<K>>) {
    if ps == [] then []
    else (if ps[0].key == key then [] else [ps[0]]) + Remaining(ps[1..], key)
  }

  function Removed<K(==)>(ps: seq<Point<K>>, key: K): (r: seq<Point<K>>) {
    if ps == [] then []
    else (if ps[0].key == key then [ps[0]] else []) + Removed(ps[1..], key)
  }

  lemma SplitNone<K>(key: K)
    ensures Remaining([], key) == [] && Removed([], key) == []
  {
  }

  lemma SplitHead<K>(ps: seq<Point<K>>, key: K)
    requires ps != []
    ensures ps[0].key == key ==>
              Removed(ps, key) == [ps[0]] + Removed(ps[1..], key) && Remaining(ps, key) == Remaining(ps[1..], key)
    ensures ps[0].key != key ==>
              Removed(ps, key) == Removed(ps[1..], key) && Remaining(ps, key) == [ps[0]] + Remaining(ps[1..], key)
  {
  }

  function CloseAll<K>(log: seq<Event>, ps: seq<Point<K>>): (log': seq<Event>)
    decreases |ps|
  {
    if ps == [] then log else CloseAll(log + [Closed(ps[0].pfd)], ps[1..])
  }

  predicate Succeeds(a: Answers) {
    a.loaded && a.resolved && a.event.Some? && a.bpfSet && a.enabled
  }

  // The kernel never hands out a descriptor that is open.
  predicate Possible(log: seq<Event>, a: Answers) {
    a.event.Some? ==> !IsOpen(log, a.event.value)
  }

  function AttachStep<K>(w: World<K>, key: K, a: Answers): (w': World<K>) {
    if !a.loaded || !a.resolved || a.event.None? then w
    else
      var fd := a.event.value;
      if a.bpfSet && a.enabled then World(w.log + [Opened(fd)], w.points + [Point(key, fd)])
      else w.(log := w.log + [Opened(fd), Closed(fd)])
  }

  function Step<K(==)>(w: World<K>, op: Op<K>): (w': World<K>) {
    match op
    case Attach(key, a) => if Possible(w.log, a) then AttachStep(w, key, a) else w
    case Detach(key) => World(CloseAll(w.log, Removed(w.points, key)), Remaining(w.points, key))
  }

  function Drop<K>(w: World<K>): (w': World<K>) {
    World(CloseAll(w.log, w.points), [])
  }

  function Run<K(==)>(w: World<K>, ops: seq<Op<K>>): (w': World<K>)
    decreases |ops|
  {
    if ops == [] then w else Run(Step(w, ops[0]), ops[1..])
  }

  /** A probe as it runs: the vector of attachment points, and the descriptors it opens and closes. */
  class Probe<K(==)> {
    var points: seq<Point<K>>
    var log: seq<Event>

    constructor ()
      ensures View() == World([], [])
    {
      points, log := [], [];
    }

    ghost function View(): World<K>
      reads this
    {
      World(log, points)
    }

    method AttachProbe(key: K, a: Answers) returns (ok: bool)
      requires Possible(log, a)
      modifies this
      ensures View() == Step(old(View()), Attach(key, a)) && (ok <==> Succeeds(a))
    {
      if !a.loaded { return false; }
      if !a.resolved { return false; }
      if a.event.None? { return false; }
      var pfd := a.event.value;
      log := log + [Opened(pfd)];
      ok := a.bpfSet && a.enabled;
      if ok {
        points := points + [Point(key, pfd)];
      } else {
        log := log + [Closed(pfd)];
        assert log == old(log) + [Opened(pfd), Closed(pfd)];
      }
    }

    /** Vec::retain: points that match are dropped, which closes their descriptors. */
    method DetachProbe(key: K)
      modifies this
      ensures View() == Step(old(View()), Detach(key))
    {
      hide Remaining, Removed;
      var kept: seq<Point<K>> := [];
      var i := 0;
      assert points[0..] == points;
      while i < |points|
        invariant 0 <= i <= |points| && points == old(points)
        invariant Remaining(points, key) == kept + Remaining(points[i..], key)
        invariant CloseAll(old(log), Removed(points, key)) == CloseAll(log, Removed(points[i..], key))
      {
        assert points[i..][1..] == points[i + 1..];
        SplitHead(points[i..], key);
        if points[i].key != key {
          kept := kept + [points[i]];
        } else {
          log := log + [Closed(points[i].pfd)];
        }
        i := i + 1;
      }
      SplitNone(key);
      assert points[i..] == [] && kept + [] == kept;
      points := kept;
    }

    method DropProbe()
      modifies this
      ensures View() == Drop(old(View()))
    {
      while points != []
        invariant CloseAll(old(log), old(points)) == CloseAll(log, points)
        decreases |points|
      {
        log := log + [Closed(points[0].pfd)];
        points := points[1..];
      }
    }
  }

  type KProbe = Probe<KProbeKey>
  type UProbe = Probe<UProbeKey>

  // ---------- conservation ----------

  predicate Distinct<K>(ps: seq<Point<K>>) {
    forall i, j :: 0 <= i < j < |ps| ==> ps[i].pfd != ps[j].pfd
  }

  predicate Recorded<K>(ps: seq<Point<K>>, fd: nat) {
    exists i :: 0 <= i < |ps| && ps[i].pfd == fd
  }

  /** A descriptor is open exactly while one attachment point records it. */
  ghost predicate Conserved<K>(w: World<K>) {
    Disciplined(w.log) && Distinct(w.points) && forall fd: nat :: IsOpen(w.log, fd) <==> Recorded(w.points, fd)
  }

  lemma {:induction false} CloseAllFacts<K>(log: seq<Event>, ps: seq<Point<K>>)
    requires Disciplined(log) && Distinct(ps) && forall fd: nat :: Recorded(ps, fd) ==> IsOpen(log, fd)
    ensures Disciplined(CloseAll(log, ps))
    ensures forall fd: nat :: IsOpen(CloseAll(log, ps), fd) <==> IsOpen(log, fd) && !Recorded(ps, fd)
    decreases |ps|
  {
    if ps != [] {
      hide IsOpen, Disciplined;
      var fd0, rest := ps[0].pfd, ps[1..];
      var log' := log + [Closed(fd0)];
      assert Recorded(ps, fd0);
      Snoc(log, Closed(fd0));
      RecordedCons(ps);
      CloseAllFacts(log', rest);
    }
  }

  lemma RecordedCons<K>(ps: seq<Point<K>>)
    requires ps != []
    ensures forall fd: nat :: Recorded(ps, fd) <==> fd == ps[0].pfd || Recorded(ps[1..], fd)
    ensures Distinct(ps) ==> Distinct(ps[1..]) && !Recorded(ps[1..], ps[0].pfd)
  {
    forall fd: nat ensures Recorded(ps, fd) <==> fd == ps[0].pfd || Recorded(ps[1..], fd) {
      if Recorded(ps[1..], fd) {
        var i :| 0 <= i < |ps[1..]| && ps[1..][i].pfd == fd;
        assert ps[i + 1].pfd == fd;
      }
      if Recorded(ps, fd) && fd != ps[0].pfd {
        var i :| 0 <= i < |ps| && ps[i].pfd == fd;
        assert ps[1..][i - 1].pfd == fd;
      }
    }
  }

  lemma {:induction false} SplitPoints<K>(ps: seq<Point<K>>, key: K)
    ensures forall fd: nat :: Recorded(ps, fd) <==> Recorded(Remaining(ps, key), fd) || Recorded(Removed(ps, key), fd)
    ensures Distinct(ps) ==> Distinct(Remaining(ps, key)) && Distinct(Removed(ps, key))
    ensures Distinct(ps) ==> forall fd: nat :: !(Recorded(Remaining(ps, key), fd) && Recorded(Removed(ps, key), fd))
  {
    if ps != [] {
      hide Recorded;
      SplitPoints(ps[1..], key);
      RecordedCons(ps);
      var a, b := Remaining(ps, key), Removed(ps, key);
      if ps[0].key == key {
        RecordedCons(b);
        assert b[1..] == Removed(ps[1..], key) && a == Remaining(ps[1..], key);
        DistinctCons(b);
      } else {
        RecordedCons(a);
        assert a[1..] == Remaining(ps[1..], key) && b == Removed(ps[1..], key);
        DistinctCons(a);
      }
    }
  }

  lemma DistinctCons<K>(ps: seq<Point<K>>)
    requires ps != []
    ensures Distinct(ps) <==> Distinct(ps[1..]) && !Recorded(ps[1..], ps[0].pfd)
  {
    RecordedCons(ps);
    if Distinct(ps[1..]) && !Recorded(ps[1..], ps[0].pfd) {
      forall i, j | 0 <= i < j < |ps| ensures ps[i].pfd != ps[j].pfd {
        assert ps[j] == ps[1..][j - 1];
        if i > 0 { assert ps[i] == ps[1..][i - 1]; }
      }
    }
  }

  lemma AttachConserves<K>(w: World<K>, key: K, a: Answers)
    requires Conserved(w) && Possible(w.log, a)
    ensures Conserved(AttachStep(w, key, a))
  {
    if a.loaded && a.resolved && a.event.Some? {
      hide IsOpen, Disciplined;
      var fd := a.event.value;
      var log1 := w.log + [Opened(fd)];
      Snoc(w.log, Opened(fd));
      if a.bpfSet && a.enabled {
        var ps := w.points + [Point(key, fd)];
        forall x: nat ensures Recorded(ps, x) <==> x == fd || Recorded(w.points, x) {
          if Recorded(w.points, x) {
            var i :| 0 <= i < |w.points| && w.points[i].pfd == x;
            assert ps[i].pfd == x;
          }
          assert ps[|w.points|].pfd == fd;
        }
        assert !Recorded(w.points, fd);
      } else {
        Snoc(log1, Closed(fd));
        assert w.log + [Opened(fd), Closed(fd)] == log1 + [Closed(fd)];
      }
    }
  }

  lemma StepConserves<K>(w: World<K>, op: Op<K>)
    requires Conserved(w)
    ensures Conserved(Step(w, op))
  {
    match op
    case Attach(key, a) =>
      if Possible(w.log, a) { AttachConserves(w, key, a); }
    case Detach(key) =>
      hide IsOpen, Disciplined, Recorded, Distinct;
      SplitPoints(w.points, key);
      CloseAllFacts(w.log, Removed(w.points, key));
  }

  /** Over every sequence of attach and detach calls and every answer of the kernel, a descriptor is
      open exactly while an attachment point records it. */
  lemma {:induction false} RunConserves<K>(w: World<K>, ops: seq<Op<K>>)
    requires Conserved(w)
    ensures Conserved(Run(w, ops))
    decreases |ops|
  {
    if ops != [] {
      StepConserves(w, ops[0]);
      RunConserves(Step(w, ops[0]), ops[1..]);
    }
  }

  /** When the probe is dropped at the end, every descriptor ever opened has been closed exactly as
      often as it was opened, and none is left open. */
  lemma DropClosesAll<K>(ops: seq<Op<K>>, fd: nat)
    ensures var log := Drop(Run(World([], []), ops)).log;
            && Disciplined(log) && !IsOpen(log, fd)
            && multiset(log)[Opened(fd)] == multiset(log)[Closed(fd)]
  {
    var start: World<K> := World([], []);
    RunConserves(start, ops);
    var w := Run(start, ops);
    CloseAllFacts(w.log, w.points);
    DisciplinedCounts(Drop(w).log, fd);
  }

  /** An attach that succeeds records its own key and descriptor as the last point, one that fails
      leaves the points as they were. */
  lemma AttachExact<K>(w: World<K>, key: K, a: Answers)
    requires Conserved(w) && Possible(w.log, a)
    ensures var w' := Step(w, Attach(key, a));
            if a.loaded && a.resolved && a.event.Some? && a.bpfSet && a.enabled
            then Succeeds(a) && w'.points == w.points + [Point(key, a.event.value)] && IsOpen(w'.log, a.event.value)
            else !Succeeds(a) && w'.points == w.points && forall fd: nat :: IsOpen(w'.log, fd) <==> IsOpen(w.log, fd)
  {
    hide IsOpen, Disciplined;
    AttachConserves(w, key, a);
    if a.event.Some? {
      var fd := a.event.value;
      Snoc(w.log, Opened(fd));
      Snoc(w.log + [Opened(fd)], Closed(fd));
      assert w.log + [Opened(fd), Closed(fd)] == w.log + [Opened(fd)] + [Closed(fd)];
    }
  }

  /** A detach removes exactly the points of its key and keeps every other one. */
  lemma {:induction false} DetachExact<K>(ps: seq<Point<K>>, key: K)
    ensures forall p :: p in Remaining(ps, key) <==> p in ps && p.key != key
    ensures forall p :: p in Removed(ps, key) <==> p in ps && p.key == key
    ensures multiset(Remaining(ps, key)) + multiset(Removed(ps, key)) == multiset(ps)
  {
    if ps != [] {
      SplitHead(ps, key);
      DetachExact(ps[1..], key);
      hide Remaining, Removed;
      assert ps == [ps[0]] + ps[1..];
    }
  }

  /** The points that stay keep their order. */
  lemma {:induction false} DetachKeepsOrder<K>(ps: seq<Point<K>>, qs: seq<Point<K>>, key: K)
    ensures Remaining(ps + qs, key) == Remaining(ps, key) + Remaining(qs, key)
  {
    if ps == [] {
      assert ps + qs == qs;
    } else {
      assert (ps + qs)[1..] == ps[1..] + qs;
      SplitHead(ps, key);
      SplitHead(ps + qs, key);
      DetachKeepsOrder(ps[1..], qs, key);
    }
  }
}
