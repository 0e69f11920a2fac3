/** Removal of rejected types and of everything that depends on them, on the bare reference graph.
    Type id `i` is node `i - 1` of the graph and lists the ids it refers to; id 0 is void. */
module BtfGraph {
  import opened Bytes

  type Graph = g: seq<seq<u32>> | |g| < 0x1_0000_0000

  predicate IsId(g: Graph, id: int) {
    1 <= id <= |g|
  }

  predicate RefersTo(g: Graph, x: int, r: u32) {
    IsId(g, x) && r in g[x - 1]
  }

  // ---------- which types must go ----------

  ghost predicate IsChain(g: Graph, p: seq<u32>) {
    && p != []
    && (forall i :: 0 <= i < |p| ==> IsId(g, p[i]))
    && (forall i :: 0 <= i < |p| - 1 ==> RefersTo(g, p[i], p[i + 1]))
  }

  ghost predicate LeadsToRejected(g: Graph, rejected: set<u32>, p: seq<u32>, id: u32) {
    IsChain(g, p) && p[0] == id && p[|p| - 1] in rejected
  }

  /** Some chain of references from `id` ends in a rejected type. */
  ghost predicate Doomed(g: Graph, rejected: set<u32>, id: u32) {
    exists p :: LeadsToRejected(g, rejected, p, id)
  }

  lemma RejectedDoomed(g: Graph, rejected: set<u32>, id: u32)
    requires IsId(g, id) && id in rejected
    ensures Doomed(g, rejected, id)
  {
    assert LeadsToRejected(g, rejected, [id], id);
  }

  lemma DoomSpreads(g: Graph, rejected: set<u32>, x: u32, r: u32)
    requires Doomed(g, rejected, r) && RefersTo(g, x, r)
    ensures Doomed(g, rejected, x)
  {
    var p :| LeadsToRejected(g, rejected, p, r);
    var q := [x] + p;
    assert forall i :: 1 <= i < |q| ==> q[i] == p[i - 1];
    assert LeadsToRejected(g, rejected, q, x);
  }

  /** No rejected type, and every referenced type of the section, is in `kept`. */
  ghost predicate ReferenceClosed(g: Graph, rejected: set<u32>, kept: iset<u32>) {
    && (forall id :: id in kept ==> IsId(g, id) && id !in rejected)
    && (forall id, r: u32 :: id in kept && RefersTo(g, id, r) && IsId(g, r) ==> r in kept)
  }

  ghost function Survivors(g: Graph, rejected: set<u32>): iset<u32> {
    iset id: u32 | IsId(g, id) && !Doomed(g, rejected, id)
  }

  /** The survivors are reference-closed, and every reference-closed set lies inside them. */
  lemma SurvivorsLargestClosed(g: Graph, rejected: set<u32>)
    ensures ReferenceClosed(g, rejected, Survivors(g, rejected))
    ensures forall kept :: ReferenceClosed(g, rejected, kept) ==> kept <= Survivors(g, rejected)
  {
    forall id: u32 | IsId(g, id) && !Doomed(g, rejected, id) ensures id !in rejected {
      if id in rejected { RejectedDoomed(g, rejected, id); }
    }
    forall id: u32, r: u32 | RefersTo(g, id, r) && !Doomed(g, rejected, id)
      ensures !Doomed(g, rejected, r)
    {
      if Doomed(g, rejected, r) { DoomSpreads(g, rejected, id, r); }
    }
    forall kept, id | ReferenceClosed(g, rejected, kept) && id in kept
      ensures !Doomed(g, rejected, id)
    {
      if Doomed(g, rejected, id) {
        var p :| LeadsToRejected(g, rejected, p, id);
        ChainStaysInside(g, rejected, p, kept, |p| - 1);
        assert false;
      }
    }
  }

  lemma {:induction false} ChainStaysInside(g: Graph, rejected: set<u32>, p: seq<u32>, kept: iset<u32>, i: nat)
    requires IsChain(g, p) && p[0] in kept && i < |p| && ReferenceClosed(g, rejected, kept)
    ensures p[i] in kept
  {
    if i > 0 {
      ChainStaysInside(g, rejected, p, kept, i - 1);
      assert RefersTo(g, p[i - 1], p[i]);
    }
  }

  // ---------- reverse links ----------

  type Links = map<u32, seq<u32>>

  ghost function Elements(s: seq<u32>): set<u32> {
    set r | r in s
  }

  /** Every id the section mentions: its own types and all their references. */
  ghost function AllKeys(g: Graph): set<u32> {
    if g == [] then {}
    else AllKeys(g[..|g| - 1]) + {|g|} + Elements(g[|g| - 1])
  }

  lemma {:induction false} AllKeysMember(g: Graph, k: u32)
    ensures k in AllKeys(g) <==> IsId(g, k) || exists x :: RefersTo(g, x, k)
  {
    if g != [] {
      var n := |g| - 1;
      var init := g[..n];
      AllKeysMember(init, k);
      if k in AllKeys(g) {
        if x :| RefersTo(init, x, k) {
          assert RefersTo(g, x, k);
        } else if k in g[n] {
          assert RefersTo(g, n + 1, k);
        }
      }
      if x :| RefersTo(g, x, k) {
        assert x == n + 1 || RefersTo(init, x, k);
      }
    }
  }

  /** `links[k]` lists exactly the types that refer to `k`. */
  ghost predicate ReverseOf(g: Graph, links: Links) {
    && links.Keys == AllKeys(g)
    && forall k, x :: k in links ==> (x in links[k] <==> RefersTo(g, x, k))
  }

  // The types listed under `k`, none when the map has no such key.
  function Listed(links: Links, k: u32): seq<u32> {
    if k in links then links[k] else []
  }

  // `links` extended by one type `id` that makes the references `refs`.
  ghost predicate Extends(links: Links, id: u32, refs: seq<u32>, links': Links) {
    && links'.Keys == links.Keys + {id} + Elements(refs)
    && forall k, x :: k in links' ==> (x in links'[k] <==> x in Listed(links, k) || (x == id && k in refs))
  }

  method AddLinks(links0: Links, id: u32, refs: seq<u32>) returns (links: Links)
    ensures Extends(links0, id, refs, links)
  {
    links := links0[id := Listed(links0, id)];
    for j := 0 to |refs|
      invariant Extends(links0, id, refs[..j], links)
    {
      links := links[refs[j] := Listed(links, refs[j]) + [id]];
      assert refs[..j + 1] == refs[..j] + [refs[j]];
    }
    assert refs[..|refs|] == refs;
  }

  lemma ReverseExtends(g: Graph, i: nat, links: Links, links': Links)
    requires i < |g| && ReverseOf(g[..i], links)
    requires Extends(links, i + 1, g[i], links')
    ensures ReverseOf(g[..i + 1], links')
  {
    var g', g0 := g[..i + 1], g[..i];
    assert g'[..i] == g0 && g'[i] == g[i];
    assert links'.Keys == AllKeys(g');
    forall k, x | k in links'
      ensures x in links'[k] <==> RefersTo(g', x, k)
    {
      AllKeysMember(g0, k);
      assert RefersTo(g', x, k) <==> RefersTo(g0, x, k) || (x == i + 1 && k in g[i]);
      assert x in Listed(links, k) <==> RefersTo(g0, x, k);
    }
  }

  /** First loop of `filter`: builds the map from each id to the types that refer to it. */
  method BuildLinks(g: Graph) returns (links: Links)
    ensures ReverseOf(g, links)
  {
    links := map[];
    for i := 0 to |g|
      invariant ReverseOf(g[..i], links)
    {
      ghost var before := links;
      links := AddLinks(links, i + 1, g[i]);
      ReverseExtends(g, i, before, links);
    }
    assert g[..|g|] == g;
  }

  // ---------- the removal worklist ----------

  // With an id of `doomed`, all the types that refer to it are in `doomed`.
  ghost predicate ReferrersIn(all: Links, doomed: iset<u32>) {
    forall k, x :: k in all && k in doomed && x in all[k] ==> x in doomed
  }

  // Whatever refers to a removed id is removed too, apart from the ids in `pending`.
  ghost predicate ClosedExcept(all: Links, links: Links, pending: seq<u32>) {
    forall k, x :: k in all && k !in links && x in all[k] ==> x !in links || x in pending
  }

  /** What every round of the worklist keeps: only doomed ids are removed, and the referrers of a
      removed id are removed or still on the list. */
  ghost predicate WorkInv(doomed: iset<u32>, all: Links, links: Links, pending: seq<u32>) {
    && (forall k :: k in links ==> k in all && links[k] == all[k])
    && (forall k :: k in all && k !in links ==> k in doomed)
    && ClosedExcept(all, links, pending)
    && (forall x :: x in pending ==> x in doomed)
  }

  lemma TakeKey(doomed: iset<u32>, all: Links, links: Links, stack: seq<u32>, remId: u32)
    requires ReferrersIn(all, doomed) && WorkInv(doomed, all, links, stack + [remId]) && remId in links
    ensures WorkInv(doomed, all, links - {remId}, stack + links[remId])
    ensures |links - {remId}| < |links|
  {
    var pending := stack + links[remId];
    assert remId in stack + [remId];
    forall x | x in pending ensures x in doomed {
      if x in stack {
        assert x in stack + [remId];
      }
    }
    assert (links - {remId}).Keys == links.Keys - {remId};
    assert |links.Keys - {remId}| == |links.Keys| - 1;
  }

  lemma AddPending(doomed: iset<u32>, all: Links, links: Links, stack: seq<u32>, remId: u32)
    requires WorkInv(doomed, all, links, stack) && remId in doomed
    ensures WorkInv(doomed, all, links, stack + [remId])
  {
  }

  lemma SkipKey(doomed: iset<u32>, all: Links, links: Links, stack: seq<u32>, remId: u32)
    requires WorkInv(doomed, all, links, stack + [remId]) && remId !in links
    ensures WorkInv(doomed, all, links, stack)
  {
    assert forall x :: x in stack ==> x in stack + [remId];
  }

  /** The loop 'recur of `filter`: removes `id` and everything that leads to it. Each round takes a
      key out of the map or, failing that, an entry off the stack. */
  method RemoveDependents(ghost doomed: iset<u32>, ghost all: Links, links0: Links, id: u32)
    returns (links: Links)
    requires ReferrersIn(all, doomed) && WorkInv(doomed, all, links0, []) && id in doomed
    ensures WorkInv(doomed, all, links, [])
    ensures links.Keys <= links0.Keys && id !in links
  {
    hide WorkInv, ReferrersIn;
    links := links0;
    var stack: seq<u32> := [];
    var remId := id;
    AddPending(doomed, all, links, stack, remId);
    while true
      invariant WorkInv(doomed, all, links, stack + [remId])
      invariant links.Keys <= links0.Keys && (id in links ==> remId == id)
      decreases |links|, |stack|
    {
      if remId in links {
        var inIds := links[remId];
        TakeKey(doomed, all, links, stack, remId);
        links := links - {remId};
        if inIds != [] {
          var last := |inIds| - 1;
          assert stack + inIds == stack + inIds[..last] + [inIds[last]];
          stack := stack + inIds[..last];
          remId := inIds[last];
          continue;
        }
        assert stack + inIds == stack;
      } else {
        SkipKey(doomed, all, links, stack, remId);
      }
      if stack != [] {
        assert stack == stack[..|stack| - 1] + [stack[|stack| - 1]];
        remId := stack[|stack| - 1];
        stack := stack[..|stack| - 1];
      } else {
        break;
      }
    }
  }

  /** The ids left in the link map: all ids the section mentions, less the doomed ones. */
  ghost function SurvivingKeys(g: Graph, rejected: set<u32>): set<u32> {
    set k | k in AllKeys(g) && !Doomed(g, rejected, k)
  }

  ghost function DoomedIds(g: Graph, rejected: set<u32>): iset<u32> {
    iset id: u32 | Doomed(g, rejected, id)
  }

  lemma DoomedReferrers(g: Graph, rejected: set<u32>, all: Links)
    requires ReverseOf(g, all)
    ensures ReferrersIn(all, DoomedIds(g, rejected))
  {
    forall k, x | k in all && Doomed(g, rejected, k) && x in all[k]
      ensures Doomed(g, rejected, x)
    {
      DoomSpreads(g, rejected, x, k);
    }
  }

  /** Second loop of `filter`: what is left are exactly the surviving ids. */
  method RemoveRejected(g: Graph, rejected: set<u32>, all: Links) returns (links: Links)
    requires ReverseOf(g, all)
    ensures links.Keys == SurvivingKeys(g, rejected)
  {
    ghost var doomed := DoomedIds(g, rejected);
    DoomedReferrers(g, rejected, all);
    links := all;
    for i := 0 to |g|
      invariant WorkInv(doomed, all, links, [])
      invariant forall id :: 1 <= id <= i && id in rejected ==> id !in links
    {
      var id: u32 := i + 1;
      if id in rejected {
        RejectedDoomed(g, rejected, id);
        links := RemoveDependents(doomed, all, links, id);
      }
    }
    RemovedExactly(g, rejected, all, links);
  }

  lemma RemovedExactly(g: Graph, rejected: set<u32>, all: Links, links: Links)
    requires ReverseOf(g, all) && WorkInv(DoomedIds(g, rejected), all, links, [])
    requires forall id :: IsId(g, id) && id in rejected ==> id !in links
    ensures links.Keys == SurvivingKeys(g, rejected)
  {
    forall k | k in links ensures !Doomed(g, rejected, k) {
      if Doomed(g, rejected, k) {
        var p :| LeadsToRejected(g, rejected, p, k);
        ChainRemoved(g, all, links, p, 0);
        assert false;
      }
    }
    assert links.Keys <= all.Keys;
  }

  // A chain whose end is removed from a closed map is removed altogether.
  lemma {:induction false} ChainRemoved(g: Graph, all: Links, links: Links, p: seq<u32>, i: nat)
    requires ReverseOf(g, all) && ClosedExcept(all, links, []) && IsChain(g, p) && i < |p|
    requires p[|p| - 1] !in links
    ensures p[i] !in links
    decreases |p| - i
  {
    if i < |p| - 1 {
      ChainRemoved(g, all, links, p, i + 1);
      AllKeysMember(g, p[i + 1]);
      assert RefersTo(g, p[i], p[i + 1]);
    }
  }
}
