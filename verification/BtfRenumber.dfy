/** New ids for the surviving ids: their ranks, so that the kept types are numbered 1, 2, 3, ... */
module BtfRenumber {
  import opened Bytes
  import opened BtfGraph

  ghost function Below(keys: set<u32>, r: u32): set<u32> {
    set k | k in keys && k < r
  }

  /** The new id of `r`: its rank among the keys, counting from 0 when void is a key, else from 1. */
  ghost function NewId(keys: set<u32>, r: u32): (n: nat) {
    |Below(keys, r)| + if 0 in keys then 0 else 1
  }

  // The kept type ids among 1..n, in order.
  ghost function Kept(keys: set<u32>, n: nat): (ids: seq<u32>)
    requires n < 0x1_0000_0000
    ensures forall id :: id in ids <==> 1 <= id <= n && id in keys
    ensures forall j :: 0 <= j < |ids| ==> 1 <= ids[j] <= n && ids[j] in keys
  {
    if n == 0 then [] else Kept(keys, n - 1) + if n in keys then [n] else []
  }

  lemma BelowStep(keys: set<u32>, r: u32)
    requires r + 1 < 0x1_0000_0000
    ensures |Below(keys, r + 1)| == |Below(keys, r)| + if r in keys then 1 else 0
  {
    if r in keys {
      assert Below(keys, r + 1) == Below(keys, r) + {r};
    } else {
      assert Below(keys, r + 1) == Below(keys, r);
    }
  }

  /** As many ids are kept among 1..n as the next new id has predecessors. */
  lemma {:induction false} KeptCount(keys: set<u32>, n: nat)
    requires n + 1 < 0x1_0000_0000
    ensures NewId(keys, n + 1) == |Kept(keys, n)| + 1
  {
    BelowStep(keys, n);
    if n == 0 {
      assert Below(keys, 0) == {};
    } else {
      KeptCount(keys, n - 1);
    }
  }

  /** The kept ids are renumbered 1, 2, 3, ... in their old order. */
  lemma {:induction false} KeptConsecutive(keys: set<u32>, n: nat, j: nat)
    requires n + 1 < 0x1_0000_0000 && j < |Kept(keys, n)|
    ensures NewId(keys, Kept(keys, n)[j]) == j + 1
    ensures forall i :: 0 <= i < j ==> Kept(keys, n)[i] < Kept(keys, n)[j]
  {
    KeptCount(keys, n - 1);
    if j < |Kept(keys, n - 1)| {
      KeptConsecutive(keys, n - 1, j);
    } else {
      forall i | 0 <= i < j ensures Kept(keys, n)[i] < Kept(keys, n)[j] {
        assert Kept(keys, n)[i] in Kept(keys, n - 1);
      }
    }
  }

  lemma KeptAt(keys: set<u32>, n: nat, r: u32)
    requires n + 1 < 0x1_0000_0000 && 1 <= r <= n && r in keys
    ensures 1 <= NewId(keys, r) <= |Kept(keys, n)|
    ensures Kept(keys, n)[NewId(keys, r) - 1] == r
  {
    assert r in Kept(keys, n);
    var j :| 0 <= j < |Kept(keys, n)| && Kept(keys, n)[j] == r;
    KeptConsecutive(keys, n, j);
  }

  lemma {:induction false} BelowBound(keys: set<u32>, r: u32)
    ensures |Below(keys, r)| <= r
    ensures 0 !in keys && r > 0 ==> |Below(keys, r)| < r
  {
    if r == 0 {
      assert Below(keys, 0) == {};
    } else {
      BelowStep(keys, r - 1);
      BelowBound(keys, r - 1);
    }
  }

  lemma {:induction false} BelowMonotone(keys: set<u32>, a: u32, b: u32)
    requires a <= b
    ensures |Below(keys, a)| <= |Below(keys, b)|
  {
    if a < b {
      BelowStep(keys, b - 1);
      BelowMonotone(keys, a, b - 1);
    }
  }

  /** Renumbering keeps the order of the ids, so no two of them become one. */
  lemma NewIdIncreasing(keys: set<u32>, a: u32, b: u32)
    requires a in keys && a < b
    ensures NewId(keys, a) < NewId(keys, b)
  {
    BelowStep(keys, a);
    BelowMonotone(keys, a + 1, b);
  }

  /** New ids never exceed old ones, so they still fit in 32 bits. */
  lemma NewIdFits(keys: set<u32>, r: u32)
    requires r in keys
    ensures NewId(keys, r) <= r
  {
    BelowBound(keys, r);
  }

  /** Void stays void, and an id beyond the section's types stays beyond the kept ones. */
  lemma NewIdOutside(keys: set<u32>, n: nat, r: u32)
    requires n + 1 < 0x1_0000_0000 && r in keys && !(1 <= r <= n)
    ensures r == 0 ==> NewId(keys, r) == 0
    ensures r > n ==> NewId(keys, r) > |Kept(keys, n)|
  {
    if r == 0 {
      assert Below(keys, 0) == {};
    } else {
      KeptCount(keys, n);
      BelowMonotone(keys, n + 1, r);
    }
  }

  // ---------- when nothing has to be renumbered ----------

  /** The keys have no gaps: with an id, all smaller ones except perhaps void are keys. */
  ghost predicate Compact(keys: set<u32>) {
    forall r: u32, k: u32 :: r in keys && 1 <= k < r ==> k in keys
  }

  lemma {:induction false} RankIdentity(keys: set<u32>, r: u32)
    requires r >= 1
    ensures NewId(keys, r) == r <==> forall k: u32 :: 1 <= k < r ==> k in keys
  {
    BelowStep(keys, r - 1);
    if r == 1 {
      assert Below(keys, 0) == {};
    } else {
      RankIdentity(keys, r - 1);
      BelowBound(keys, r - 1);
    }
  }

  /** Renumbering is the identity exactly on compact keys. */
  lemma CompactIdentity(keys: set<u32>)
    ensures (forall r: u32 :: r in keys ==> NewId(keys, r) == r) <==> Compact(keys)
  {
    hide NewId;
    forall r: u32 | r in keys
      ensures NewId(keys, r) == r <==> forall k: u32 :: 1 <= k < r ==> k in keys
    {
      if r >= 1 {
        RankIdentity(keys, r);
      } else {
        NewIdOutside(keys, 0, r);
      }
    }
  }

  /** Every number between the first new id and the new id of `r` is the new id of a smaller key. */
  lemma {:induction false} RankOnto(keys: set<u32>, r: u32, k: nat) returns (d: u32)
    requires 1 <= k < NewId(keys, r)
    ensures d in keys && d < r && NewId(keys, d) == k
  {
    assert Below(keys, 0) == {};
    BelowStep(keys, r - 1);
    if r - 1 in keys && NewId(keys, r - 1) == k {
      d := r - 1;
    } else {
      d := RankOnto(keys, r - 1, k);
    }
  }

  lemma {:induction false} KeptLength(keys: set<u32>, n: nat)
    requires n < 0x1_0000_0000
    ensures |Kept(keys, n)| <= n
    ensures (forall k: u32 :: 1 <= k <= n ==> k in keys) ==>
              |Kept(keys, n)| == n && forall j :: 0 <= j < n ==> Kept(keys, n)[j] == j + 1
  {
    if n > 0 {
      KeptLength(keys, n - 1);
    }
  }

  // ---------- the code that assigns the new ids ----------

  /** Draining the map and sorting: the keys, in increasing order. */
  method SortedIds(keys: set<u32>) returns (ids: seq<u32>)
    ensures forall k :: k in ids <==> k in keys
    ensures forall i, j :: 0 <= i < j < |ids| ==> ids[i] < ids[j]
  {
    ids := [];
    var rest := keys;
    while rest != {}
      invariant rest <= keys && forall k :: k in ids <==> k in keys && k !in rest
      invariant forall i, k :: 0 <= i < |ids| && k in rest ==> ids[i] < k
      invariant forall i, j :: 0 <= i < j < |ids| ==> ids[i] < ids[j]
      decreases rest
    {
      ghost var least := LeastExists(rest);
      var m :| m in rest && forall k :: k in rest ==> m <= k;
      ids := ids + [m];
      rest := rest - {m};
    }
  }

  lemma LeastExists(s: set<u32>) returns (m: u32)
    requires s != {}
    ensures m in s && forall k :: k in s ==> m <= k
    decreases |s|
  {
    m :| m in s;
    var rest := s - {m};
    if rest != {} {
      var m' := LeastExists(rest);
      assert forall k :: k in s ==> k == m || k in rest;
      if m' < m { m := m'; }
    } else {
      assert forall k :: k in s ==> k == m || k in rest;
    }
  }

  ghost function NewId32(keys: set<u32>, r: u32): (n: u32)
    requires r in keys
  {
    NewIdFits(keys, r);
    NewId(keys, r)
  }

  ghost function NewIds(keys: set<u32>): (ids: map<u32, u32>)
    ensures ids.Keys == keys
  {
    map k | k in keys :: NewId32(keys, k)
  }

  method AssignNewIds(keys: set<u32>) returns (ids: map<u32, u32>)
    ensures ids == NewIds(keys)
  {
    var correction := if 0 in keys then 0 else 1;
    var oldIds := SortedIds(keys);
    ids := map[];
    for i := 0 to |oldIds|
      invariant forall k :: k in ids <==> k in oldIds[..i]
      invariant forall k :: k in ids ==> ids[k] == NewId(keys, k)
    {
      RankOfSorted(keys, oldIds, i);
      NewIdFits(keys, oldIds[i]);
      ids := ids[oldIds[i] := i + correction];
      assert oldIds[..i + 1] == oldIds[..i] + [oldIds[i]];
    }
    assert oldIds[..|oldIds|] == oldIds;
  }

  lemma RankOfSorted(keys: set<u32>, ids: seq<u32>, i: nat)
    requires i < |ids| && forall k :: k in ids <==> k in keys
    requires forall a, b :: 0 <= a < b < |ids| ==> ids[a] < ids[b]
    ensures |Below(keys, ids[i])| == i
  {
    var pre := ids[..i];
    forall k ensures k in Below(keys, ids[i]) <==> k in pre {
      if k in Below(keys, ids[i]) {
        var a :| 0 <= a < |ids| && ids[a] == k;
        assert a < i && pre[a] == k;
      }
      if k in pre {
        var a :| 0 <= a < i && pre[a] == k;
        assert ids[a] == k && ids[a] in ids;
      }
    }
    assert Below(keys, ids[i]) == Elements(pre);
    DistinctCount(pre);
  }

  lemma {:induction false} DistinctCount(s: seq<u32>)
    requires forall a, b :: 0 <= a < b < |s| ==> s[a] < s[b]
    ensures |Elements(s)| == |s|
  {
    if s != [] {
      var n := |s| - 1;
      DistinctCount(s[..n]);
      assert s == s[..n] + [s[n]];
      assert Elements(s) == Elements(s[..n]) + {s[n]};
      assert s[n] !in s[..n];
    }
  }
}
