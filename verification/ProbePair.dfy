/** The entry/return probe pair: the entry handler stores the parameters of the call under the
    thread id, the return handler takes them out and hands them to the probe function. */
module ProbePair {

  const MAX_ENTRIES := 10240

  type Tid = nat
  type Parms = seq<nat>

  datatype Event = Enter(tid: Tid, parms: Parms) | Exit(tid: Tid)

  // ---------- the shared parameter map ----------

  /** The map of at most 10240 entries. Storing fails only for a new key in a full map. */
  function Store(m: map<Tid, Parms>, tid: Tid, parms: Parms): (m': map<Tid, Parms>) {
    if tid in m || |m| < MAX_ENTRIES then m[tid := parms] else m
  }

  datatype Outcome = Quiet | Called(parms: Parms)

  /** One event: the map after it, and the call of the probe function it makes, if any. */
  function Step(m: map<Tid, Parms>, e: Event): (r: (map<Tid, Parms>, Outcome)) {
    match e
    case Enter(tid, parms) => (Store(m, tid, parms), Quiet)
    case Exit(tid) => if tid in m then (m - {tid}, Called(m[tid])) else (m, Quiet)
  }

  function Run(es: seq<Event>): (m: map<Tid, Parms>) {
    if es == [] then map[] else Step(Run(es[..|es| - 1]), es[|es| - 1]).0
  }

  /** What the probe function receives at event j of a run. */
  function CallAt(es: seq<Event>, j: nat): (o: Outcome)
    requires j < |es|
  {
    Step(Run(es[..j]), es[j]).1
  }

  class Handlers {
    var parms: map<Tid, Parms>

    constructor ()
      ensures parms == map[]
    {
      parms := map[];
    }

    method OnEnter(tid: Tid, regs: Parms)
      modifies this
      ensures parms == Step(old(parms), Enter(tid, regs)).0
    {
      if tid in parms || |parms| < MAX_ENTRIES {
        parms := parms[tid := regs];
      }
    }

    method OnExit(tid: Tid) returns (call: Outcome)
      modifies this
      ensures (parms, call) == Step(old(parms), Exit(tid))
    {
      if tid !in parms {
        return Quiet;
      }
      var p := parms[tid];
      parms := parms - {tid};
      return Called(p);
    }
  }

  // ---------- calls and returns, thread by thread ----------

  /** The open calls of a thread, as positions of their entries, innermost last. A return closes the
      innermost one; a return without an open call (entered before the probes were attached) closes
      none. */
  function OpenCalls(es: seq<Event>, tid: Tid): (stack: seq<nat>)
    ensures forall i :: 0 <= i < |stack| ==> stack[i] < |es| && es[stack[i]].Enter? && es[stack[i]].tid == tid
  {
    if es == [] then []
    else
      var n := |es| - 1;
      var stack := OpenCalls(es[..n], tid);
      if es[n].tid != tid then stack
      else if es[n].Enter? then stack + [n]
      else if stack == [] then [] else stack[..|stack| - 1]
  }

  // The entry that the return at position j closes, if any.
  predicate Closes(es: seq<Event>, j: nat, i: nat)
    requires j < |es|
  {
    es[j].Exit? &&
    var stack := OpenCalls(es[..j], es[j].tid);
    stack != [] && stack[|stack| - 1] == i
  }

  /** The last event of a thread is the entry at position i. */
  predicate LastIsEntry(es: seq<Event>, tid: Tid, i: nat) {
    i < |es| && es[i].Enter? && es[i].tid == tid && forall k :: i < k < |es| ==> es[k].tid != tid
  }

  // The entry at position i was stored.
  predicate Stored(es: seq<Event>, i: nat)
    requires i < |es|
  {
    var m := Run(es[..i]);
    es[i].tid in m || |m| < MAX_ENTRIES
  }

  lemma {:induction false} EntryInMap(es: seq<Event>, tid: Tid, i: nat)
    requires LastIsEntry(es, tid, i)
    ensures tid in Run(es) <==> Stored(es, i)
    ensures Stored(es, i) ==> Run(es)[tid] == es[i].parms
    ensures OpenCalls(es, tid) != [] && OpenCalls(es, tid)[|OpenCalls(es, tid)| - 1] == i
  {
    var n := |es| - 1;
    if i < n {
      assert LastIsEntry(es[..n], tid, i);
      EntryInMap(es[..n], tid, i);
      hide Step, LastIsEntry;
      assert es[..n][..i] == es[..i];
      OtherThread(Run(es[..n]), es[n], tid);
    }
  }

  lemma OtherThread(m: map<Tid, Parms>, e: Event, tid: Tid)
    requires e.tid != tid
    ensures tid in Step(m, e).0 <==> tid in m
    ensures tid in m ==> Step(m, e).0[tid] == m[tid]
  {
  }

  lemma {:induction false} MapHasEntry(es: seq<Event>, tid: Tid) returns (i: nat)
    requires tid in Run(es)
    ensures LastIsEntry(es, tid, i)
  {
    var n := |es| - 1;
    if es[n].tid == tid {
      i := n;
    } else {
      i := MapHasEntry(es[..n], tid);
    }
  }

  /** Over every interleaving of threads and every failed insertion, a return calls the probe function
      if and only if the thread's previous event is an entry that was stored. That entry is the one
      the return closes, and its parameters are the ones passed: so under recursion the function runs
      only for innermost calls, and never with another call's parameters. */
  lemma CallsMatch(es: seq<Event>, j: nat)
    requires j < |es| && es[j].Exit?
    ensures CallAt(es, j).Called? <==> exists i: nat :: LastIsEntry(es[..j], es[j].tid, i) && Stored(es[..j], i)
    ensures forall i: nat :: LastIsEntry(es[..j], es[j].tid, i) && Stored(es[..j], i) ==>
              CallAt(es, j) == Called(es[i].parms) && Closes(es, j, i)
  {
    var tid := es[j].tid;
    if tid in Run(es[..j]) {
      var i := MapHasEntry(es[..j], tid);
      EntryInMap(es[..j], tid, i);
    }
    forall i: nat | LastIsEntry(es[..j], tid, i) && Stored(es[..j], i)
      ensures CallAt(es, j) == Called(es[i].parms) && Closes(es, j, i)
    {
      EntryInMap(es[..j], tid, i);
    }
  }

  /** Without failed insertions exactly the innermost calls are reported. */
  lemma InnermostReported(es: seq<Event>, j: nat, i: nat)
    requires j < |es| && es[j].Exit? && Closes(es, j, i) && Stored(es[..j], i)
    ensures CallAt(es, j).Called? <==> LastIsEntry(es[..j], es[j].tid, i)
  {
    CallsMatch(es, j);
    if CallAt(es, j).Called? {
      var i': nat :| LastIsEntry(es[..j], es[j].tid, i') && Stored(es[..j], i');
      assert Closes(es, j, i');
    }
  }

  // ---------- when an entry is stored, from the events alone ----------

  /** The threads that wait for a return: those whose last event is an entry. */
  function Waiting(es: seq<Event>): (tids: set<Tid>) {
    if es == [] then {}
    else
      var init, e := es[..|es| - 1], es[|es| - 1];
      if e.Enter? then Waiting(init) + {e.tid} else Waiting(init) - {e.tid}
  }

  lemma {:induction false} WaitingExactly(es: seq<Event>, tid: Tid)
    ensures tid in Waiting(es) <==> exists i: nat :: LastIsEntry(es, tid, i)
  {
    if es != [] {
      var n := |es| - 1;
      WaitingExactly(es[..n], tid);
      if es[n].tid != tid {
        forall i: nat ensures LastIsEntry(es, tid, i) <==> LastIsEntry(es[..n], tid, i) {
        }
      } else if es[n].Enter? {
        assert LastIsEntry(es, tid, n);
      }
    }
  }

  /** Only waiting threads have an entry in the map. */
  lemma MapWithinWaiting(es: seq<Event>)
    ensures Run(es).Keys <= Waiting(es) && |Run(es)| <= |Waiting(es)|
  {
    forall tid | tid in Run(es) ensures tid in Waiting(es) {
      var i := MapHasEntry(es, tid);
      WaitingExactly(es, tid);
    }
    SubsetSize(Run(es).Keys, Waiting(es));
  }

  lemma SubsetSize(a: set<Tid>, b: set<Tid>)
    requires a <= b
    ensures |a| <= |b|
  {
    assert b == a + (b - a);
  }

  /** An entry is stored whenever fewer than 10240 threads wait, whatever was stored before. */
  lemma RoomStores(es: seq<Event>, i: nat)
    requires i < |es| && |Waiting(es[..i])| < 10240
    ensures Stored(es, i)
  {
    MapWithinWaiting(es[..i]);
  }

  ghost predicate AllStored(es: seq<Event>) {
    forall i :: 0 <= i < |es| && es[i].Enter? ==> Stored(es, i)
  }

  predicate FitsAt(es: seq<Event>, k: nat) {
    k <= |es| ==> |Waiting(es[..k])| <= 10240
  }

  ghost predicate NeverCrowded(es: seq<Event>) {
    forall k: nat :: FitsAt(es, k)
  }

  /** No entry of a run is lost if and only if never more than 10240 threads wait at a time. */
  lemma {:induction false} AllStoredExactly(es: seq<Event>)
    ensures AllStored(es) <==> NeverCrowded(es)
    ensures AllStored(es) ==> Run(es).Keys == Waiting(es)
  {
    if es == [] {
      assert forall k: nat :: k <= |es| ==> es[..k] == [];
    } else {
      hide *;
      var init, e := es[..|es| - 1], es[|es| - 1];
      assert es == init + [e];
      AllStoredExactly(init);
      StoredSnoc(es);
      CrowdedSnoc(es);
      if AllStored(init) {
        CrowdedNow(init);
        StoredStep(init, e);
      }
    }
  }

  lemma StoredSnoc(es: seq<Event>)
    requires es != []
    ensures var n := |es| - 1;
            AllStored(es) <==> AllStored(es[..n]) && (es[n].Enter? ==> Stored(es, n))
  {
    hide Run;
    var n := |es| - 1;
    forall i | 0 <= i < n ensures Stored(es, i) <==> Stored(es[..n], i) {
      assert es[..n][..i] == es[..i];
    }
  }

  lemma CrowdedSnoc(es: seq<Event>)
    requires es != []
    ensures NeverCrowded(es) <==> NeverCrowded(es[..|es| - 1]) && |Waiting(es)| <= 10240
  {
    hide Waiting;
    var n := |es| - 1;
    forall k: nat ensures FitsAt(es, k) <==> if k == n + 1 then |Waiting(es)| <= 10240 else FitsAt(es[..n], k) {
      if k == n + 1 {
        assert es[..k] == es;
      } else if k <= n {
        assert es[..n][..k] == es[..k];
      }
    }
    assert FitsAt(es[..n], n + 1) && FitsAt(es, n + 1) <==> |Waiting(es)| <= 10240;
  }

  lemma CrowdedNow(es: seq<Event>)
    requires NeverCrowded(es)
    ensures |Waiting(es)| <= 10240
  {
    assert FitsAt(es, |es|) && es[..|es|] == es;
  }

  lemma StepKeys(m: map<Tid, Parms>, e: Event)
    ensures e.Enter? ==> Step(m, e).0.Keys == m.Keys + if e.tid in m || |m| < MAX_ENTRIES then {e.tid} else {}
    ensures e.Exit? ==> Step(m, e).0.Keys == m.Keys - {e.tid}
  {
  }

  lemma RunWaitingSnoc(init: seq<Event>, e: Event)
    ensures var es := init + [e];
            && Run(es) == Step(Run(init), e).0
            && Waiting(es) == (if e.Enter? then Waiting(init) + {e.tid} else Waiting(init) - {e.tid})
            && (Stored(es, |init|) <==> e.tid in Run(init) || |Run(init)| < MAX_ENTRIES)
  {
    hide Step;
    assert (init + [e])[..|init|] == init;
  }

  // While nothing was lost the map is full exactly when too many threads wait.
  lemma StoredStep(init: seq<Event>, e: Event)
    requires Run(init).Keys == Waiting(init) && |Waiting(init)| <= 10240
    ensures var es := init + [e];
            && ((e.Enter? ==> Stored(es, |init|)) <==> |Waiting(es)| <= 10240)
            && ((e.Enter? ==> Stored(es, |init|)) ==> Run(es).Keys == Waiting(es))
  {
    hide Step, Run, Waiting, Stored;
    RunWaitingSnoc(init, e);
    StepKeys(Run(init), e);
    var w := Waiting(init);
    assert |Run(init)| == |w|;
    if e.Enter? && e.tid !in w {
      assert |w + {e.tid}| == |w| + 1;
    } else if e.Enter? {
      assert w + {e.tid} == w;
    } else {
      SubsetSize(w - {e.tid}, w);
    }
  }

  /** From the events alone: in a run that was never crowded, a return is reported if and only if it
      closes an innermost call. */
  lemma UncrowdedReported(es: seq<Event>, j: nat, i: nat)
    requires j < |es| && Closes(es, j, i) && NeverCrowded(es[..j])
    ensures CallAt(es, j).Called? <==> LastIsEntry(es[..j], es[j].tid, i)
  {
    AllStoredExactly(es[..j]);
    InnermostReported(es, j, i);
  }
}
