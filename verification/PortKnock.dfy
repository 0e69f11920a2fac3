/** The port-knock filter: a source may reach the target port once it has knocked, in order, on the
    configured ports. */
module PortKnock {
  import opened Bytes
  import Arith

  const MAX_SEQ_LEN := 4
  const CAPACITY := 1024

  datatype PortSequence = PortSequence(ports: seq<u16>, len: nat, target: nat) {
    predicate Valid() {
      |ports| == MAX_SEQ_LEN && len <= MAX_SEQ_LEN
    }

    /** PortSequence::is_complete. */
    predicate IsComplete(other: PortSequence)
      requires Valid() && other.Valid()
    {
      len == other.len && forall i :: 0 <= i < len ==> ports[i] == other.ports[i]
    }
  }

  datatype Knock = Knock(sequence: PortSequence, complete: nat)

  function NewKnock(target: nat): (k: Knock)
    ensures k.sequence.Valid() && k.sequence.len == 0 && k.complete == 0
  {
    Knock(PortSequence([0, 0, 0, 0], 0, target), 0)
  }

  datatype Packet = Packet(tcp: bool, syn: bool, source: u32, dest: u16)
  datatype Verdict = Pass | Drop
  datatype Event = Connection(source: u32, allowed: bool) | Attempt(source: u32, sequence: PortSequence)

  datatype State = State(knocks: map<u32, Knock>, events: seq<Event>)

  predicate WellFormed(s: State) {
    forall ip :: ip in s.knocks ==> s.knocks[ip].sequence.Valid()
  }

  /** The sequence that user space configures: one to four ports. */
  predicate Configured(cfg: PortSequence) {
    cfg.Valid() && cfg.len >= 1
  }

  predicate ToTarget(cfg: PortSequence, dest: u16) {
    dest == cfg.target % 0x1_0000
  }

  function Record(cfg: PortSequence, k: Knock, dest: u16): (k': Knock)
    requires k.sequence.Valid()
    ensures k'.sequence.Valid()
  {
    var seq0 := k.sequence;
    var len := if seq0.len >= cfg.len || seq0.len >= MAX_SEQ_LEN then 0 else seq0.len;
    k.(sequence := seq0.(ports := seq0.ports[len := dest], len := len + 1))
  }

  /** One packet through the filter. A source that cannot get an entry because the table is full is
      let through: the probe returns an error, which the program wrapper turns into Pass. */
  function Step(cfg: PortSequence, s: State, p: Packet): (r: (State, Verdict))
    requires Configured(cfg) && WellFormed(s)
    ensures WellFormed(r.0)
  {
    if !p.tcp || !p.syn then (s, Pass)
    else if p.source !in s.knocks && |s.knocks| >= CAPACITY then (s, Pass) else
    var k := if p.source in s.knocks then s.knocks[p.source] else NewKnock(cfg.target);
    if k.complete == 1 then (s.(knocks := s.knocks[p.source := k]), Pass)
    else if ToTarget(cfg, p.dest) then
      if !cfg.IsComplete(k.sequence) then
        (State(s.knocks[p.source := k], s.events + [Connection(p.source, false)]), Drop)
      else
        (State(s.knocks[p.source := k.(complete := 1)], s.events + [Connection(p.source, true)]), Pass)
    else
      var k' := Record(cfg, k, p.dest);
      (State(s.knocks[p.source := k'], s.events + [Attempt(p.source, k'.sequence)]), Pass)
  }

  function Run(cfg: PortSequence, ps: seq<Packet>): (s: State)
    requires Configured(cfg)
    ensures WellFormed(s)
  {
    if ps == [] then State(map[], [])
    else Step(cfg, Run(cfg, ps[..|ps| - 1]), ps[|ps| - 1]).0
  }

  /** The probe as it runs, updating the entry of the packet's source in place. */
  class Filter {
    var knocks: map<u32, Knock>
    var events: seq<Event>
    const cfg: PortSequence

    constructor (cfg: PortSequence)
      ensures this.cfg == cfg && View() == State(map[], [])
    {
      this.cfg := cfg;
      knocks, events := map[], [];
    }

    ghost function View(): State
      reads this
    {
      State(knocks, events)
    }

    method Probe(p: Packet) returns (v: Verdict)
      requires Configured(cfg) && WellFormed(View())
      modifies this
      ensures (View(), v) == Step(cfg, old(View()), p)
    {
      if !p.tcp { return Pass; }
      if !p.syn { return Pass; }
      var key := p.source;
      if key !in knocks {
        if |knocks| >= CAPACITY { return Pass; }
        knocks := knocks[key := NewKnock(cfg.target)];
      }
      if knocks[key].complete == 1 {
        assert knocks == old(knocks)[key := knocks[key]];
        return Pass;
      }
      if p.dest == cfg.target % 0x1_0000 {
        if !cfg.IsComplete(knocks[key].sequence) {
          events := events + [Connection(key, false)];
          assert knocks == old(knocks)[key := knocks[key]];
          return Drop;
        }
        knocks := knocks[key := knocks[key].(complete := 1)];
        events := events + [Connection(key, true)];
        assert knocks == old(knocks)[key := knocks[key]];
        return Pass;
      }
      var sequence := knocks[key].sequence;
      if sequence.len >= cfg.len || sequence.len >= MAX_SEQ_LEN {
        sequence := sequence.(len := 0);
      }
      sequence := sequence.(ports := sequence.ports[sequence.len := p.dest]);
      sequence := sequence.(len := sequence.len + 1);
      knocks := knocks[key := knocks[key].(sequence := sequence)];
      events := events + [Attempt(key, sequence)];
      assert knocks == old(knocks)[key := knocks[key]];
      return Pass;
    }
  }

  // ---------- what the packets alone say ----------

  predicate From(p: Packet, ip: u32) {
    p.tcp && p.syn && p.source == ip
  }

  /** The SYN packets a source has sent. */
  function Own(ps: seq<Packet>, ip: u32): (own: seq<Packet>) {
    if ps == [] then []
    else Own(ps[..|ps| - 1], ip) + if From(ps[|ps| - 1], ip) then [ps[|ps| - 1]] else []
  }

  /** The ports a source has knocked on: every SYN that is not for the target. */
  function Knocked(cfg: PortSequence, own: seq<Packet>): (ports: seq<u16>) {
    if own == [] then []
    else
      var last := own[|own| - 1].dest;
      Knocked(cfg, own[..|own| - 1]) + if ToTarget(cfg, last) then [] else [last]
  }

  /** The knocks so far form whole chunks of the configured length and the last one is the sequence. */
  predicate Earned(cfg: PortSequence, knocked: seq<u16>)
    requires Configured(cfg)
  {
    |knocked| > 0 && |knocked| % cfg.len == 0 && knocked[|knocked| - cfg.len..] == cfg.ports[..cfg.len]
  }

  predicate EarnedAt(cfg: PortSequence, own: seq<Packet>, j: nat)
    requires Configured(cfg)
  {
    j < |own| && ToTarget(cfg, own[j].dest) && Earned(cfg, Knocked(cfg, own[..j]))
  }

  /** At one of its target SYNs the source had earned the access. */
  ghost predicate Opened(cfg: PortSequence, own: seq<Packet>)
    requires Configured(cfg)
  {
    exists j :: EarnedAt(cfg, own, j)
  }

  lemma OpenedSnoc(cfg: PortSequence, own: seq<Packet>, p: Packet)
    requires Configured(cfg)
    ensures Opened(cfg, own + [p]) <==>
            Opened(cfg, own) || (ToTarget(cfg, p.dest) && Earned(cfg, Knocked(cfg, own)))
  {
    var own' := own + [p];
    assert own'[..|own|] == own;
    forall j | 0 <= j < |own| ensures EarnedAt(cfg, own', j) <==> EarnedAt(cfg, own, j) {
      assert own'[..j] == own[..j];
    }
    if Opened(cfg, own) {
      var j :| EarnedAt(cfg, own, j);
      assert EarnedAt(cfg, own', j);
    }
    if ToTarget(cfg, p.dest) && Earned(cfg, Knocked(cfg, own)) {
      assert EarnedAt(cfg, own', |own|);
    }
    if Opened(cfg, own') {
      var j :| EarnedAt(cfg, own', j);
      assert j == |own| || EarnedAt(cfg, own, j);
    }
  }

  // Length of the unfinished or just finished chunk after n knocks.
  function ChunkLen(cfg: PortSequence, n: nat): nat
    requires Configured(cfg)
  {
    if n == 0 then 0 else (n - 1) % cfg.len + 1
  }

  // The next knock continues the chunk, or starts a new one when it is full.
  lemma ChunkGrows(cfg: PortSequence, n: nat)
    requires Configured(cfg)
    ensures ChunkLen(cfg, n) <= cfg.len && ChunkLen(cfg, n) <= n
    ensures ChunkLen(cfg, n + 1) == (if ChunkLen(cfg, n) >= cfg.len then 0 else ChunkLen(cfg, n)) + 1
    ensures ChunkLen(cfg, n) == cfg.len <==> n > 0 && n % cfg.len == 0
    ensures n % cfg.len == if ChunkLen(cfg, n) >= cfg.len then 0 else ChunkLen(cfg, n)
  {
    var len := cfg.len;
    if n > 0 {
      var q, r := (n - 1) / len, (n - 1) % len;
      if r + 1 < len {
        Arith.ModUnique(n, q, r + 1, len);
      } else {
        Arith.ModUnique(n, q + 1, 0, len);
      }
    } else {
      Arith.ModUnique(n, 0, 0, len);
    }
  }

  /** The last knock made at place `k` of a chunk, 0 if there was none. */
  function LastAt(knocked: seq<u16>, len: nat, k: nat): (port: u16)
    requires len >= 1
  {
    if knocked == [] then 0
    else
      var n := |knocked| - 1;
      if n % len == k then knocked[n] else LastAt(knocked[..n], len, k)
  }

  /** The buffer holds the last, possibly unfinished chunk of the source's knocks; the places after it
      still hold what was knocked there before. */
  ghost predicate Buffers(cfg: PortSequence, k: Knock, knocked: seq<u16>)
    requires Configured(cfg)
  {
    var len := ChunkLen(cfg, |knocked|);
    && k.sequence.Valid() && k.sequence.target == cfg.target && k.sequence.len == len <= |knocked|
    && k.sequence.ports[..len] == knocked[|knocked| - len..]
    && Places(cfg, k.sequence, knocked)
  }

  ghost predicate Places(cfg: PortSequence, sequence: PortSequence, knocked: seq<u16>)
    requires Configured(cfg) && sequence.Valid()
  {
    forall i :: 0 <= i < MAX_SEQ_LEN ==> sequence.ports[i] == LastAt(knocked, cfg.len, i)
  }

  lemma LastAtSnoc(knocked: seq<u16>, len: nat, k: nat, dest: u16)
    requires len >= 1
    ensures LastAt(knocked + [dest], len, k) == if |knocked| % len == k then dest else LastAt(knocked, len, k)
  {
    assert (knocked + [dest])[..|knocked|] == knocked;
  }

  lemma RecordPlaces(cfg: PortSequence, k: Knock, knocked: seq<u16>, dest: u16)
    requires Configured(cfg) && Buffers(cfg, k, knocked)
    ensures Places(cfg, Record(cfg, k, dest).sequence, knocked + [dest])
  {
    hide ChunkLen, LastAt;
    ChunkGrows(cfg, |knocked|);
    forall i | 0 <= i < MAX_SEQ_LEN
      ensures Record(cfg, k, dest).sequence.ports[i] == LastAt(knocked + [dest], cfg.len, i)
    {
      LastAtSnoc(knocked, cfg.len, i, dest);
    }
  }

  // Writing the next port after the last `len` knocks.
  lemma ChunkSnoc(ports: seq<u16>, knocked: seq<u16>, len: nat, dest: u16)
    requires len < |ports| && len <= |knocked| && ports[..len] == knocked[|knocked| - len..]
    ensures ports[len := dest][..len + 1] == (knocked + [dest])[|knocked| - len..]
  {
    assert ports[len := dest][..len + 1] == ports[..len] + [dest];
  }

  lemma BufferedRecord(cfg: PortSequence, k: Knock, knocked: seq<u16>, dest: u16)
    requires Configured(cfg) && Buffers(cfg, k, knocked)
    ensures Buffers(cfg, Record(cfg, k, dest), knocked + [dest])
  {
    RecordPlaces(cfg, k, knocked, dest);
    hide ChunkLen, Places;
    ChunkGrows(cfg, |knocked|);
    var len := if k.sequence.len >= cfg.len then 0 else k.sequence.len;
    assert k.sequence.ports[..len] == knocked[|knocked| - len..];
    ChunkSnoc(k.sequence.ports, knocked, len, dest);
  }

  lemma BufferedComplete(cfg: PortSequence, k: Knock, knocked: seq<u16>)
    requires Configured(cfg) && Buffers(cfg, k, knocked)
    ensures cfg.IsComplete(k.sequence) <==> Earned(cfg, knocked)
  {
    hide ChunkLen;
    ChunkGrows(cfg, |knocked|);
    if k.sequence.len == cfg.len {
      var a, b := cfg.ports[..cfg.len], k.sequence.ports[..cfg.len];
      assert cfg.IsComplete(k.sequence) <==> a == b by {
        assert (forall i :: 0 <= i < cfg.len ==> a[i] == b[i]) <==> a == b;
        assert forall i :: 0 <= i < cfg.len ==> a[i] == cfg.ports[i] && b[i] == k.sequence.ports[i];
      }
    }
  }

  function AllowedCount(events: seq<Event>, ip: u32): (n: nat) {
    if events == [] then 0
    else AllowedCount(events[..|events| - 1], ip)
         + if events[|events| - 1] == Connection(ip, true) then 1 else 0
  }

  /** What the state says of a source after any run, in terms of its packets only. */
  ghost predicate Agrees(cfg: PortSequence, s: State, own: seq<Packet>, ip: u32)
    requires Configured(cfg)
  {
    if ip !in s.knocks then
      (own == [] || |s.knocks| >= CAPACITY) && AllowedCount(s.events, ip) == 0
    else
      && s.knocks[ip].complete == (if Opened(cfg, own) then 1 else 0)
      && (!Opened(cfg, own) ==> Buffers(cfg, s.knocks[ip], Knocked(cfg, own)))
      && AllowedCount(s.events, ip) == if Opened(cfg, own) then 1 else 0
  }

  lemma CountSnoc(events: seq<Event>, e: Event, ip: u32)
    ensures AllowedCount(events + [e], ip) ==
            AllowedCount(events, ip) + if e == Connection(ip, true) then 1 else 0
  {
    assert (events + [e])[..|events|] == events;
  }

  // A packet of another source, or one that is not a SYN, leaves the entry of `ip` alone.
  lemma OtherKnocks(cfg: PortSequence, s: State, p: Packet, ip: u32)
    requires Configured(cfg) && WellFormed(s) && !From(p, ip)
    ensures var s' := Step(cfg, s, p).0;
            && (ip in s'.knocks <==> ip in s.knocks) && |s'.knocks| >= |s.knocks|
            && (ip in s.knocks ==> s'.knocks[ip] == s.knocks[ip])
  {
    hide Record, PortSequence.IsComplete;
    var s' := Step(cfg, s, p).0;
    if s'.knocks.Keys != s.knocks.Keys {
      assert s'.knocks.Keys == s.knocks.Keys + {p.source};
    }
    assert |s'.knocks.Keys| >= |s.knocks.Keys|;
  }

  lemma OtherEvents(cfg: PortSequence, s: State, p: Packet, ip: u32)
    requires Configured(cfg) && WellFormed(s) && !From(p, ip)
    ensures AllowedCount(Step(cfg, s, p).0.events, ip) == AllowedCount(s.events, ip)
  {
    hide Record, PortSequence.IsComplete, AllowedCount;
    var s' := Step(cfg, s, p).0;
    if s'.events != s.events {
      var n := |s.events|;
      assert s'.events == s.events + [s'.events[n]] && s'.events[n] != Connection(ip, true);
      CountSnoc(s.events, s'.events[n], ip);
    }
  }

  lemma StepOther(cfg: PortSequence, s: State, p: Packet, ip: u32, own: seq<Packet>)
    requires Configured(cfg) && WellFormed(s) && !From(p, ip) && Agrees(cfg, s, own, ip)
    ensures Agrees(cfg, Step(cfg, s, p).0, own, ip)
  {
    hide Step, Opened, Buffers, Knocked, AllowedCount;
    OtherKnocks(cfg, s, p, ip);
    OtherEvents(cfg, s, p, ip);
  }

  lemma StepOwn(cfg: PortSequence, s: State, p: Packet, own: seq<Packet>)
    requires Configured(cfg) && WellFormed(s) && p.tcp && p.syn && Agrees(cfg, s, own, p.source)
    ensures Agrees(cfg, Step(cfg, s, p).0, own + [p], p.source)
    ensures ToTarget(cfg, p.dest) ==>
              (Step(cfg, s, p).1 == Drop <==>
               (p.source in s.knocks || |s.knocks| < CAPACITY) && !Opened(cfg, own + [p]))
  {
    hide Opened, Buffers, Record, Earned, ToTarget, Knocked, AllowedCount;
    var ip := p.source;
    OpenedSnoc(cfg, own, p);
    KnockedSnoc(cfg, own, p);
    forall e { CountSnoc(s.events, e, ip); }
    if ip !in s.knocks && |s.knocks| < CAPACITY {
      Fresh(cfg, own);
    }
    var k := if ip in s.knocks then s.knocks[ip] else NewKnock(cfg.target);
    if !Opened(cfg, own) && (ip in s.knocks || |s.knocks| < CAPACITY) {
      BufferedComplete(cfg, k, Knocked(cfg, own));
      BufferedRecord(cfg, k, Knocked(cfg, own), p.dest);
      BufferedSame(cfg, k, Knocked(cfg, own));
    }
  }

  lemma KnockedSnoc(cfg: PortSequence, own: seq<Packet>, p: Packet)
    ensures ToTarget(cfg, p.dest) ==> Knocked(cfg, own + [p]) == Knocked(cfg, own)
    ensures !ToTarget(cfg, p.dest) ==> Knocked(cfg, own + [p]) == Knocked(cfg, own) + [p.dest]
  {
    assert (own + [p])[..|own|] == own;
  }

  // Marking a knock complete leaves the buffer alone.
  lemma BufferedSame(cfg: PortSequence, k: Knock, knocked: seq<u16>)
    requires Configured(cfg) && Buffers(cfg, k, knocked)
    ensures Buffers(cfg, k.(complete := 1), knocked) && k.sequence.Valid()
    ensures Record(cfg, k, 0).complete == k.complete
    ensures forall d: u16 :: Record(cfg, k, d).complete == k.complete
  {
  }

  lemma Fresh(cfg: PortSequence, own: seq<Packet>)
    requires Configured(cfg) && own == []
    ensures !Opened(cfg, own) && Buffers(cfg, NewKnock(cfg.target), Knocked(cfg, own))
  {
  }

  /** After every run, for every source: with an entry, it is marked complete exactly if it earned the
      access at one of its target SYNs, its buffer holds the last chunk of its knocks until then, and
      exactly one "allowed" event was sent if it is complete, none before. */
  lemma {:induction false} RunAgrees(cfg: PortSequence, ps: seq<Packet>, ip: u32)
    requires Configured(cfg)
    ensures Agrees(cfg, Run(cfg, ps), Own(ps, ip), ip)
  {
    if ps != [] {
      var init, p := ps[..|ps| - 1], ps[|ps| - 1];
      RunAgrees(cfg, init, ip);
      hide Agrees, Step;
      if From(p, ip) {
        StepOwn(cfg, Run(cfg, init), p, Own(init, ip));
      } else {
        StepOther(cfg, Run(cfg, init), p, ip, Own(init, ip));
        assert Own(ps, ip) == Own(init, ip);
      }
    }
  }

  // ---------- who has a place in the table ----------

  /** The sources of all SYN packets. */
  function Sources(ps: seq<Packet>): (ips: set<u32>) {
    if ps == [] then {}
    else
      var p := ps[|ps| - 1];
      Sources(ps[..|ps| - 1]) + if p.tcp && p.syn then {p.source} else {}
  }

  predicate PlaceAt(ps: seq<Packet>, ip: u32, j: nat) {
    j < |ps| && From(ps[j], ip) && |Sources(ps[..j])| < CAPACITY
  }

  /** Fewer than CAPACITY sources had sent a SYN before one of the SYNs of `ip`. */
  ghost predicate HasPlace(ps: seq<Packet>, ip: u32) {
    exists j :: PlaceAt(ps, ip, j)
  }

  lemma HasPlaceSnoc(ps: seq<Packet>, p: Packet, ip: u32)
    ensures HasPlace(ps + [p], ip) <==> HasPlace(ps, ip) || (From(p, ip) && |Sources(ps)| < CAPACITY)
  {
    var ps' := ps + [p];
    assert ps'[..|ps|] == ps;
    forall j | 0 <= j < |ps| ensures PlaceAt(ps', ip, j) <==> PlaceAt(ps, ip, j) {
      assert ps'[..j] == ps[..j];
    }
    if HasPlace(ps, ip) {
      var j :| PlaceAt(ps, ip, j);
      assert PlaceAt(ps', ip, j);
    }
    if From(p, ip) && |Sources(ps)| < CAPACITY {
      assert PlaceAt(ps', ip, |ps|);
    }
    if HasPlace(ps', ip) {
      var j :| PlaceAt(ps', ip, j);
      assert j == |ps| || PlaceAt(ps, ip, j);
    }
  }

  // One packet changes at most the entry of its source.
  lemma StepEntry(cfg: PortSequence, s: State, p: Packet) returns (k: Knock)
    requires Configured(cfg) && WellFormed(s)
    ensures Step(cfg, s, p).0.knocks ==
            if p.tcp && p.syn && (p.source in s.knocks || |s.knocks| < CAPACITY) then s.knocks[p.source := k]
            else s.knocks
  {
    hide Record, PortSequence.IsComplete;
    var m := Step(cfg, s, p).0.knocks;
    k := if p.source in m then m[p.source] else NewKnock(cfg.target);
  }

  // It adds its source to the table, if there is room.
  lemma StepKeys(cfg: PortSequence, s: State, p: Packet)
    requires Configured(cfg) && WellFormed(s)
    ensures Step(cfg, s, p).0.knocks.Keys ==
            s.knocks.Keys + if p.tcp && p.syn && |s.knocks| < CAPACITY then {p.source} else {}
  {
    hide Step, WellFormed;
    var k := StepEntry(cfg, s, p);
    assert s.knocks[p.source := k].Keys == s.knocks.Keys + {p.source};
  }

  lemma RunSnoc(cfg: PortSequence, init: seq<Packet>, p: Packet)
    requires Configured(cfg)
    ensures Run(cfg, init + [p]) == Step(cfg, Run(cfg, init), p).0
    ensures Sources(init + [p]) == Sources(init) + if p.tcp && p.syn then {p.source} else {}
  {
    hide Step;
    assert (init + [p])[..|init|] == init;
  }

  /** The table holds exactly the sources that had a place, and it is as full as their number allows. */
  ghost predicate TableFits(keys: set<u32>, ps: seq<Packet>) {
    && (forall ip: u32 :: ip in keys <==> HasPlace(ps, ip))
    && keys <= Sources(ps) && |keys| <= CAPACITY && (|keys| < CAPACITY ==> keys == Sources(ps))
  }

  lemma TableGrows(keys: set<u32>, init: seq<Packet>, p: Packet)
    requires TableFits(keys, init)
    requires Sources(init + [p]) == Sources(init) + if p.tcp && p.syn then {p.source} else {}
    ensures TableFits(keys + if p.tcp && p.syn && |keys| < CAPACITY then {p.source} else {}, init + [p])
  {
    hide HasPlace, Sources;
    SubsetSize(keys, Sources(init));
    forall ip: u32 ensures HasPlace(init + [p], ip) <==>
                           HasPlace(init, ip) || (From(p, ip) && |Sources(init)| < CAPACITY)
    {
      HasPlaceSnoc(init, p, ip);
    }
  }

  /** After every run the table holds exactly the sources that had a place. */
  lemma {:induction false} TableExactly(cfg: PortSequence, ps: seq<Packet>)
    requires Configured(cfg)
    ensures TableFits(Run(cfg, ps).knocks.Keys, ps)
  {
    if ps != [] {
      hide *;
      var init, p := ps[..|ps| - 1], ps[|ps| - 1];
      TableExactly(cfg, init);
      assert ps == init + [p];
      RunSnoc(cfg, init, p);
      StepKeys(cfg, Run(cfg, init), p);
      TableGrows(Run(cfg, init).knocks.Keys, init, p);
    }
  }

  lemma SubsetSize(a: set<u32>, b: set<u32>)
    requires a <= b
    ensures |a| <= |b|
  {
    assert b == a + (b - a);
  }

  /** After every run, a SYN for the target is blocked if and only if its source has not earned the
      access, now or earlier, and it came before the table was full of other sources. */
  lemma TargetBlockedExactly(cfg: PortSequence, ps: seq<Packet>, p: Packet)
    requires Configured(cfg) && p.tcp && p.syn && ToTarget(cfg, p.dest)
    ensures Step(cfg, Run(cfg, ps), p).1 == Drop <==>
            HasPlace(ps + [p], p.source) && !Opened(cfg, Own(ps + [p], p.source))
  {
    hide Step, Opened, Agrees, HasPlace;
    var s := Run(cfg, ps);
    RunAgrees(cfg, ps, p.source);
    StepOwn(cfg, s, p, Own(ps, p.source));
    assert (ps + [p])[..|ps|] == ps;
    TableExactly(cfg, ps);
    HasPlaceSnoc(ps, p, p.source);
    SubsetSize(s.knocks.Keys, Sources(ps));
  }

  lemma OnlyTargetDropped(cfg: PortSequence, s: State, p: Packet)
    requires Configured(cfg) && WellFormed(s) && Step(cfg, s, p).1 == Drop
    ensures p.tcp && p.syn && p.dest == cfg.target % 0x1_0000
  {
    hide Record, PortSequence.IsComplete;
  }

  /** Every verdict, after every run, for every packet: it is Drop if and only if the packet is a TCP
      SYN for the target port, its source had a place in the table, and it has not earned the access.
      Packets of other protocols, packets without the flag and knocks always pass. */
  lemma VerdictExactly(cfg: PortSequence, ps: seq<Packet>, p: Packet)
    requires |cfg.ports| == 4 && 1 <= cfg.len <= 4
    ensures Step(cfg, Run(cfg, ps), p).1 == Drop <==>
            && p.tcp && p.syn && p.dest == cfg.target % 0x1_0000
            && HasPlace(ps + [p], p.source) && !Opened(cfg, Own(ps + [p], p.source))
  {
    hide Step, Opened, HasPlace;
    if Step(cfg, Run(cfg, ps), p).1 == Drop {
      OnlyTargetDropped(cfg, Run(cfg, ps), p);
    }
    if p.tcp && p.syn && p.dest == cfg.target % 0x1_0000 {
      TargetBlockedExactly(cfg, ps, p);
    }
  }

  // ---------- what user space is told ----------

  /** The event for a packet, from the packets alone: nothing for one that is not a SYN, of a source
      without a place or with access; whether the access is earned for a SYN to the target port; and
      the last chunk of its knocks for any other. */
  ghost predicate Told(cfg: PortSequence, ps: seq<Packet>, p: Packet, events: seq<Event>)
    requires Configured(cfg)
  {
    var own := Own(ps, p.source);
    if !p.tcp || !p.syn || !HasPlace(ps + [p], p.source) || Opened(cfg, own) then events == []
    else if p.dest == cfg.target % 0x1_0000 then events == [Connection(p.source, Earned(cfg, Knocked(cfg, own)))]
    else
      |events| == 1 && events[0].Attempt? && events[0].source == p.source &&
      Buffers(cfg, Knock(events[0].sequence, 0), Knocked(cfg, own) + [p.dest])
  }

  /** After every run, each packet adds exactly the event that the packets so far call for. */
  lemma EventsExactly(cfg: PortSequence, ps: seq<Packet>, p: Packet)
    requires |cfg.ports| == 4 && 1 <= cfg.len <= 4
    ensures var before, after := Run(cfg, ps).events, Step(cfg, Run(cfg, ps), p).0.events;
            before <= after && Told(cfg, ps, p, after[|before|..])
  {
    hide Opened, HasPlace, Buffers, Earned, Knocked, PortSequence.IsComplete;
    var s, own := Run(cfg, ps), Own(ps, p.source);
    RunAgrees(cfg, ps, p.source);
    TableExactly(cfg, ps);
    HasPlaceSnoc(ps, p, p.source);
    SubsetSize(s.knocks.Keys, Sources(ps));
    if p.tcp && p.syn && (p.source in s.knocks || |s.knocks| < CAPACITY) && !Opened(cfg, own) {
      if p.source !in s.knocks {
        Fresh(cfg, own);
      }
      var k := if p.source in s.knocks then s.knocks[p.source] else NewKnock(cfg.target);
      BufferedComplete(cfg, k, Knocked(cfg, own));
      BufferedRecord(cfg, k, Knocked(cfg, own), p.dest);
      BuffersOnly(cfg, Record(cfg, k, p.dest), Knocked(cfg, own) + [p.dest]);
    } else if p.source !in s.knocks {
      Fresh(cfg, []);
    }
  }

  // Whether a buffer holds the last chunk does not depend on the completion flag.
  lemma BuffersOnly(cfg: PortSequence, k: Knock, knocked: seq<u16>)
    requires Configured(cfg) && Buffers(cfg, k, knocked)
    ensures Buffers(cfg, Knock(k.sequence, 0), knocked)
  {
    hide Places;
  }

  // SYN packets of the sources 0, 1, ..., n - 1.
  function Flood(n: nat): (ps: seq<Packet>)
    requires n <= CAPACITY
  {
    if n == 0 then [] else Flood(n - 1) + [Packet(true, true, n - 1, 0)]
  }

  lemma {:induction false} FloodFills(n: nat, ip: u32)
    requires n <= CAPACITY <= ip
    ensures |Sources(Flood(n))| == n && Own(Flood(n), ip) == []
    ensures forall k: u32 :: k in Sources(Flood(n)) <==> k < n
  {
    if n > 0 {
      FloodFills(n - 1, ip);
      assert Flood(n)[..|Flood(n)| - 1] == Flood(n - 1);
    }
  }

  /** Counterexample: after SYNs of 1024 distinct sources, whatever the configured sequence, a source
      that never knocked reaches the target. */
  lemma FullTableLetsThrough(cfg: PortSequence)
    requires Configured(cfg)
    ensures var ps, p := Flood(1024), Packet(true, true, 1024, cfg.target % 0x1_0000);
            Step(cfg, Run(cfg, ps), p).1 == Pass && !Opened(cfg, Own(ps + [p], 1024))
  {
    hide Step, Run, Own, Sources, Flood, HasPlace, Opened, WellFormed;
    var ps, p := Flood(1024), Packet(true, true, 1024, cfg.target % 0x1_0000);
    FloodFills(1024, 1024);
    OneTargetSyn(cfg, ps, p);
    TableExactly(cfg, ps);
    FullTablePasses(cfg, Run(cfg, ps), p);
  }

  // A source whose only SYN is for the target has not earned the access.
  lemma OneTargetSyn(cfg: PortSequence, ps: seq<Packet>, p: Packet)
    requires Configured(cfg) && From(p, p.source) && Own(ps, p.source) == []
    ensures !Opened(cfg, Own(ps + [p], p.source))
  {
    assert (ps + [p])[..|ps|] == ps;
    assert Own(ps + [p], p.source) == [] + [p];
    OpenedSnoc(cfg, [], p);
  }

  lemma FullTablePasses(cfg: PortSequence, s: State, p: Packet)
    requires Configured(cfg) && WellFormed(s) && p.source !in s.knocks && |s.knocks| >= CAPACITY
    ensures Step(cfg, s, p).1 == Pass
  {
  }

  /** Access once earned is kept, whatever packets follow. */
  lemma {:induction false} AccessPermanent(cfg: PortSequence, ps: seq<Packet>, more: seq<Packet>, ip: u32)
    requires Configured(cfg) && Opened(cfg, Own(ps, ip))
    ensures Opened(cfg, Own(ps + more, ip))
  {
    if more == [] {
      assert ps + more == ps;
    } else {
      var n := |more| - 1;
      AccessPermanent(cfg, ps, more[..n], ip);
      var all := ps + more;
      assert all[..|all| - 1] == ps + more[..n] && all[|all| - 1] == more[n];
      OpenedSnoc(cfg, Own(ps + more[..n], ip), more[n]);
      assert Own(ps + more[..n], ip) + [] == Own(ps + more[..n], ip);
    }
  }
}
