/** Patching of the 64-bit immediate loads of a BPF program with the maps they refer to. */
module Relocation {
  import opened Bytes

  const PSEUDO_MAP_FD := 1
  const PSEUDO_MAP_VALUE := 2
  const INSN_SIZE := 8

  type i32 = x: int | -0x8000_0000 <= x < 0x8000_0000

  datatype Insn = Insn(code: byte, dst: byte, src: byte, off: int, imm: i32)
  datatype Sym = Sym(shndx: nat, value: nat)
  datatype MapRef = MapRef(fd: i32, sectionData: bool)
  datatype Rel = Rel(target: nat, offset: nat, symIdx: nat) {
    function Index(): nat {
      offset / INSN_SIZE
    }
  }

  // Program code by section index.
  type Programs = map<nat, seq<Insn>>

  // Maps by section index, maps by symbol value, and the symbol table.
  datatype Env = Env(maps: map<nat, MapRef>, symMaps: map<nat, MapRef>, symtab: seq<Sym>)

  predicate FitsI32(x: int) {
    -0x8000_0000 <= x < 0x8000_0000
  }

  /** The cast `st_value as i32`. */
  function AsI32(v: nat): (x: i32)
    ensures (x - v) % 0x1_0000_0000 == 0
  {
    var low := v % 0x1_0000_0000;
    if low < 0x8000_0000 then low else low - 0x1_0000_0000
  }

  // ---------- what each step does, as functions of the programs ----------

  function PatchFd(code: seq<Insn>, i: nat, fd: i32): (code': seq<Insn>)
    requires i < |code|
  {
    code[i := code[i].(src := PSEUDO_MAP_FD, imm := fd)]
  }

  function PatchValue(code: seq<Insn>, i: nat, fd: i32, addend: i32): (code': seq<Insn>)
    requires i + 1 < |code| && FitsI32(code[i].imm + addend)
  {
    code[i := code[i].(src := PSEUDO_MAP_VALUE, imm := fd)]
        [i + 1 := code[i + 1].(imm := code[i].imm + addend)]
  }

  /** RelocationInfo::apply. */
  function Apply(ps: Programs, rel: Rel, env: Env): (r: Result<Programs>) {
    if rel.target !in ps then Err(Reloc)
    else if rel.symIdx >= |env.symtab| then Err(Fault) else
    var sym, i, code := env.symtab[rel.symIdx], rel.Index(), ps[rel.target];
    if sym.shndx !in env.maps then Err(Reloc) else
    var m := env.maps[sym.shndx];
    if m.sectionData then
      if i + 1 >= |code| || !FitsI32(code[i].imm + AsI32(sym.value)) then Err(Fault)
      else Ok(ps[rel.target := PatchValue(code, i, m.fd, AsI32(sym.value))])
    else
      if i >= |code| then Err(Fault)
      else Ok(ps[rel.target := PatchFd(code, i, m.fd)])
  }

  /** RelocationInfo::apply_with_symmap. */
  function ApplyWithSymmap(ps: Programs, rel: Rel, env: Env): (r: Result<Programs>) {
    if rel.target !in ps then Err(Reloc)
    else if rel.symIdx >= |env.symtab| then Err(Fault) else
    var sym, i, code := env.symtab[rel.symIdx], rel.Index(), ps[rel.target];
    if sym.value !in env.symMaps then Err(Reloc)
    else if i >= |code| then Err(Fault)
    else Ok(ps[rel.target := PatchFd(code, i, env.symMaps[sym.value].fd)])
  }

  /** One round of the loop in ModuleBuilder::to_module, with its fallback. */
  function Step(ps: Programs, rel: Rel, env: Env): (r: Result<Programs>) {
    if rel.target !in ps then Ok(ps)
    else if Apply(ps, rel, env) == Err(Reloc) then ApplyWithSymmap(ps, rel, env)
    else Apply(ps, rel, env)
  }

  function Load(ps: Programs, rels: seq<Rel>, env: Env): (r: Result<Programs>) {
    if rels == [] then Ok(ps)
    else var ps1 :- Step(ps, rels[0], env); Load(ps1, rels[1..], env)
  }

  // ---------- the code that does it ----------

  class ModuleBuilder {
    var programs: Programs
    const env: Env

    constructor (programs: Programs, env: Env)
      ensures this.programs == programs && this.env == env
    {
      this.programs, this.env := programs, env;
    }

    /** A failed `apply` has not touched the code, so the fallback starts from the same program. */
    method ApplyRel(rel: Rel) returns (r: Result<()>)
      modifies this
      ensures match Apply(old(programs), rel, env)
              case Ok(ps) => r == Ok(()) && programs == ps
              case Err(e) => r == Err(e) && (e == Reloc ==> programs == old(programs))
    {
      if rel.target !in programs { return Err(Reloc); }
      if rel.symIdx >= |env.symtab| { return Err(Fault); }
      var sym := env.symtab[rel.symIdx];
      var i, code := rel.Index(), programs[rel.target];
      if sym.shndx !in env.maps { return Err(Reloc); }
      var m := env.maps[sym.shndx];
      if i >= |code| { return Err(Fault); }
      if m.sectionData {
        code := code[i := code[i].(src := PSEUDO_MAP_VALUE)];
        if i + 1 >= |code| { return Err(Fault); }
        if !FitsI32(code[i].imm + AsI32(sym.value)) { return Err(Fault); }
        code := code[i + 1 := code[i + 1].(imm := code[i].imm + AsI32(sym.value))];
      } else {
        code := code[i := code[i].(src := PSEUDO_MAP_FD)];
      }
      code := code[i := code[i].(imm := m.fd)];
      assert code == if m.sectionData then PatchValue(programs[rel.target], i, m.fd, AsI32(sym.value))
                     else PatchFd(programs[rel.target], i, m.fd);
      programs := programs[rel.target := code];
      return Ok(());
    }

    method ApplyRelWithSymmap(rel: Rel) returns (r: Result<()>)
      modifies this
      ensures match ApplyWithSymmap(old(programs), rel, env)
              case Ok(ps) => r == Ok(()) && programs == ps
              case Err(e) => r == Err(e)
    {
      if rel.target !in programs { return Err(Reloc); }
      if rel.symIdx >= |env.symtab| { return Err(Fault); }
      var sym := env.symtab[rel.symIdx];
      var i, code := rel.Index(), programs[rel.target];
      if sym.value !in env.symMaps { return Err(Reloc); }
      if i >= |code| { return Err(Fault); }
      code := code[i := code[i].(src := PSEUDO_MAP_FD)];
      code := code[i := code[i].(imm := env.symMaps[sym.value].fd)];
      assert code == PatchFd(programs[rel.target], i, env.symMaps[sym.value].fd);
      programs := programs[rel.target := code];
      return Ok(());
    }

    method ToModule(rels: seq<Rel>) returns (r: Result<Programs>)
      modifies this
      ensures r == Load(old(programs), rels, env)
    {
      for k := 0 to |rels|
        invariant Load(old(programs), rels, env) == Load(programs, rels[k..], env)
      {
        ghost var ps := programs;
        var rel := rels[k];
        assert rels[k..][0] == rel && rels[k..][1..] == rels[k + 1..];
        if rel.target in programs {
          var a := ApplyRel(rel);
          if a == Err(Reloc) {
            var b := ApplyRelWithSymmap(rel);
            if b.Err? { return Err(b.error); }
          } else if a.Err? {
            return Err(a.error);
          }
        }
        assert Step(ps, rel, env) == Ok(programs);
      }
      return Ok(programs);
    }
  }

  // ---------- what the result means ----------

  /** What a relocation makes of its load: the map it resolves to, and for section data the addend. */
  datatype Patch = MapFd(fd: i32) | MapValue(fd: i32, addend: i32)

  function Resolve(rel: Rel, env: Env): Option<Patch> {
    if rel.symIdx >= |env.symtab| then None else
    var sym := env.symtab[rel.symIdx];
    if sym.shndx in env.maps then
      var m := env.maps[sym.shndx];
      Some(if m.sectionData then MapValue(m.fd, AsI32(sym.value)) else MapFd(m.fd))
    else if sym.value in env.symMaps then Some(MapFd(env.symMaps[sym.value].fd))
    else None
  }

  /** The relocation can be carried out on these programs. */
  predicate CanApply(ps: Programs, rel: Rel, env: Env) {
    rel.target in ps ==>
      var code, i, p := ps[rel.target], rel.Index(), Resolve(rel, env);
      && p.Some? && i < |code|
      && (p.value.MapValue? ==>
          i + 1 < |code| && -0x8000_0000 <= code[i].imm + p.value.addend <= 0x7FFF_FFFF)
  }

  function Patched(ps: Programs, rel: Rel, env: Env): (code: seq<Insn>)
    requires rel.target in ps && CanApply(ps, rel, env)
  {
    match Resolve(rel, env).value
    case MapFd(fd) => PatchFd(ps[rel.target], rel.Index(), fd)
    case MapValue(fd, a) => PatchValue(ps[rel.target], rel.Index(), fd, a)
  }

  lemma StepExact(ps: Programs, rel: Rel, env: Env)
    ensures Step(ps, rel, env).Ok? <==> CanApply(ps, rel, env)
    ensures CanApply(ps, rel, env) && rel.target in ps ==>
              Step(ps, rel, env).value == ps[rel.target := Patched(ps, rel, env)]
  {
  }

  /** A relocation is refused when its symbol exists and resolves to no map; every other failure is a
      fault. */
  lemma StepErrorExactly(ps: Programs, rel: Rel, env: Env)
    requires !CanApply(ps, rel, env)
    ensures Step(ps, rel, env) == Err(if rel.symIdx < |env.symtab| && Resolve(rel, env).None? then Reloc else Fault)
  {
  }

  /** What a 64-bit immediate load denotes, by its source register (section 5.4 of RFC 9669). */
  datatype Denotation = Constant64(lo: i32, hi: i32) | MapByFd(fd: i32) | MapValueAt(fd: i32, offset: int)

  function Denote(code: seq<Insn>, i: nat): Denotation
    requires i + 1 < |code|
  {
    if code[i].src == 1 then MapByFd(code[i].imm)
    else if code[i].src == 2 then MapValueAt(code[i].imm, code[i + 1].imm)
    else Constant64(code[i].imm, code[i + 1].imm)
  }

  // Two relocations of one program whose two-instruction loads overlap.
  predicate Overlap(a: Rel, b: Rel) {
    a.target == b.target && -1 <= a.Index() - b.Index() <= 1
  }

  predicate Disjoint(rels: seq<Rel>) {
    forall i, j :: 0 <= i < j < |rels| ==> !Overlap(rels[i], rels[j])
  }

  // The load starting at (p, i) is not touched by `rel`.
  predicate Clear(rel: Rel, p: nat, i: int) {
    rel.target != p || !(-1 <= rel.Index() - i <= 0)
  }

  ghost predicate SameShape(ps: Programs, qs: Programs) {
    ps.Keys == qs.Keys && forall p :: p in ps ==> |ps[p]| == |qs[p]|
  }

  lemma StepFrame(ps: Programs, rel: Rel, env: Env)
    requires Step(ps, rel, env).Ok?
    ensures var qs := Step(ps, rel, env).value;
            SameShape(ps, qs) &&
            forall p, i :: p in ps && 0 <= i < |ps[p]| && Clear(rel, p, i) ==> qs[p][i] == ps[p][i]
  {
  }

  /** Instructions that no relocation touches are unchanged, and no program changes its length. */
  lemma {:induction false} LoadFrame(ps: Programs, rels: seq<Rel>, env: Env, p: nat, i: nat)
    requires Load(ps, rels, env).Ok?
    ensures SameShape(ps, Load(ps, rels, env).value)
    ensures p in ps && i < |ps[p]| && (forall rel :: rel in rels ==> Clear(rel, p, i)) ==>
              Load(ps, rels, env).value[p][i] == ps[p][i]
    decreases |rels|
  {
    if rels != [] {
      StepFrame(ps, rels[0], env);
      LoadFrame(Step(ps, rels[0], env).value, rels[1..], env, p, i);
    }
  }

  // Relocations elsewhere leave it open whether, and as what, `b` can be applied.
  lemma StepKeepsOthers(ps: Programs, a: Rel, b: Rel, env: Env)
    requires Step(ps, a, env).Ok? && !Overlap(a, b)
    ensures var qs := Step(ps, a, env).value;
            && (CanApply(qs, b, env) <==> CanApply(ps, b, env))
            && (b.target in ps && CanApply(ps, b, env) ==>
                var i := b.Index();
                && b.target in qs && |qs[b.target]| == |ps[b.target]|
                && Patched(qs, b, env)[i] == Patched(ps, b, env)[i]
                && (i + 1 < |ps[b.target]| ==> Patched(qs, b, env)[i + 1] == Patched(ps, b, env)[i + 1]))
  {
    StepFrame(ps, a, env);
    hide Step, Resolve;
    var i := b.Index();
    assert Clear(a, b.target, i) && Clear(a, b.target, i + 1);
  }

  /** A module loads if and only if every single relocation can be carried out on the programs as
      they were. */
  lemma {:induction false} LoadsIffAll(ps: Programs, rels: seq<Rel>, env: Env)
    requires Disjoint(rels)
    ensures Load(ps, rels, env).Ok? <==> forall rel :: rel in rels ==> CanApply(ps, rel, env)
    decreases |rels|
  {
    if rels != [] {
      hide CanApply, Step, Overlap;
      StepExact(ps, rels[0], env);
      assert forall rel :: rel in rels <==> rel == rels[0] || rel in rels[1..];
      if Step(ps, rels[0], env).Ok? {
        var qs := Step(ps, rels[0], env).value;
        LoadsIffAll(qs, rels[1..], env);
        forall rel | rel in rels[1..] ensures CanApply(qs, rel, env) <==> CanApply(ps, rel, env) {
          StepKeepsOthers(ps, rels[0], rel, env);
        }
      }
    }
  }

  /** The first relocation that cannot be carried out decides the error. */
  lemma {:induction false} LoadErrorExactly(ps: Programs, rels: seq<Rel>, env: Env, k: nat)
    requires Disjoint(rels) && k < |rels|
    requires (forall j :: 0 <= j < k ==> CanApply(ps, rels[j], env)) && !CanApply(ps, rels[k], env)
    ensures Load(ps, rels, env) ==
            Err(if rels[k].symIdx < |env.symtab| && Resolve(rels[k], env).None? then Reloc else Fault)
    decreases |rels|
  {
    hide CanApply, Step, Overlap, Resolve;
    StepExact(ps, rels[0], env);
    if k == 0 {
      StepErrorExactly(ps, rels[0], env);
    } else {
      var qs := Step(ps, rels[0], env).value;
      forall j | 1 <= j <= k ensures CanApply(qs, rels[j], env) <==> CanApply(ps, rels[j], env) {
        StepKeepsOthers(ps, rels[0], rels[j], env);
      }
      LoadErrorExactly(qs, rels[1..], env, k - 1);
    }
  }

  /** The pair of instructions each relocation patches is what patching it alone would make it. */
  lemma {:induction false} LoadPatches(ps: Programs, rels: seq<Rel>, env: Env, k: nat)
    requires Disjoint(rels) && Load(ps, rels, env).Ok? && k < |rels| && rels[k].target in ps
    ensures CanApply(ps, rels[k], env)
    ensures var p, i := rels[k].target, rels[k].Index();
            var qs := Load(ps, rels, env).value;
            && p in qs && |qs[p]| == |ps[p]|
            && qs[p][i] == Patched(ps, rels[k], env)[i]
            && (i + 1 < |ps[p]| ==> qs[p][i + 1] == Patched(ps, rels[k], env)[i + 1])
    decreases |rels|
  {
    var rel := rels[k];
    var p, i := rel.target, rel.Index();
    LoadsIffAll(ps, rels, env);
    assert rel in rels;
    LoadFrame(ps, rels, env, p, i);
    StepExact(ps, rels[0], env);
    var ps1 := Step(ps, rels[0], env).value;
    if k == 0 {
      LoadFrame(ps1, rels[1..], env, p, i);
      LoadFrame(ps1, rels[1..], env, p, i + 1);
      assert forall r :: r in rels[1..] ==> !Overlap(rel, r);
    } else {
      StepKeepsOthers(ps, rels[0], rel, env);
      LoadPatches(ps1, rels[1..], env, k - 1);
    }
  }

  /** Each relocated load, the instruction of eight bytes its offset points into, denotes its symbol's
      map and, for section data, the place in it given by the original immediate plus the symbol's
      value; its other fields are unchanged. */
  lemma LoadDenotes(ps: Programs, rels: seq<Rel>, env: Env, k: nat)
    requires Disjoint(rels) && Load(ps, rels, env).Ok? && k < |rels|
    requires rels[k].target in ps && rels[k].Index() + 1 < |ps[rels[k].target]|
    ensures Resolve(rels[k], env).Some?
    ensures var p, i := rels[k].target, rels[k].Index();
            var qs := Load(ps, rels, env).value;
            && p in qs && |qs[p]| == |ps[p]| && 8 * i <= rels[k].offset < 8 * i + 8
            && (match Resolve(rels[k], env).value
                case MapFd(fd) => Denote(qs[p], i) == MapByFd(fd) && qs[p][i + 1] == ps[p][i + 1]
                case MapValue(fd, a) => Denote(qs[p], i) == MapValueAt(fd, ps[p][i].imm + a))
            && qs[p][i] == ps[p][i].(src := qs[p][i].src, imm := qs[p][i].imm)
            && qs[p][i + 1] == ps[p][i + 1].(imm := qs[p][i + 1].imm)
  {
    hide Load, Step, Resolve;
    LoadPatches(ps, rels, env, k);
  }

  lemma PermutedDisjoint(rels: seq<Rel>, rels': seq<Rel>)
    requires Disjoint(rels) && multiset(rels) == multiset(rels')
    ensures Disjoint(rels') && forall rel :: rel in rels <==> rel in rels'
  {
    forall rel ensures rel in rels <==> rel in rels' {
      assert rel in rels <==> rel in multiset(rels);
      assert rel in rels' <==> rel in multiset(rels');
    }
    forall i, j | 0 <= i < j < |rels'| ensures !Overlap(rels'[i], rels'[j]) {
      var a, b := rels'[i], rels'[j];
      if a == b {
        assert rels' == rels'[..i] + [a] + rels'[i + 1..j] + [a] + rels'[j + 1..];
        assert multiset(rels)[a] >= 2;
        TwoPlaces(rels, a);
      } else {
        assert a in rels' && b in rels';
        var x :| 0 <= x < |rels| && rels[x] == a;
        var y :| 0 <= y < |rels| && rels[y] == b;
        assert x < y || y < x;
      }
    }
  }

  lemma {:induction false} TwoPlaces(rels: seq<Rel>, a: Rel)
    requires Disjoint(rels)
    ensures multiset(rels)[a] <= 1
  {
    if rels != [] {
      TwoPlaces(rels[1..], a);
      assert rels == [rels[0]] + rels[1..];
      if a in rels[1..] {
        var y :| 0 <= y < |rels[1..]| && rels[1..][y] == a;
        assert !Overlap(rels[0], rels[y + 1]);
        assert rels[0] != a;
      } else {
        assert multiset(rels[1..])[a] == 0;
      }
    }
  }

  /** Relocation is order-independent: any order of the same relocations loads or fails alike and
      gives the same code. */
  lemma LoadOrderIndependent(ps: Programs, rels: seq<Rel>, rels': seq<Rel>, env: Env)
    requires Disjoint(rels) && multiset(rels) == multiset(rels')
    ensures Load(ps, rels, env).Ok? <==> Load(ps, rels', env).Ok?
    ensures Load(ps, rels, env).Ok? ==> Load(ps, rels, env) == Load(ps, rels', env)
  {
    hide Load, CanApply;
    PermutedDisjoint(rels, rels');
    LoadsIffAll(ps, rels, env);
    LoadsIffAll(ps, rels', env);
    if Load(ps, rels, env).Ok? {
      var qs, qs' := Load(ps, rels, env).value, Load(ps, rels', env).value;
      LoadFrame(ps, rels, env, 0, 0);
      LoadFrame(ps, rels', env, 0, 0);
      forall p | p in ps ensures qs[p] == qs'[p] {
        forall i | 0 <= i < |ps[p]| ensures qs[p][i] == qs'[p][i] {
          SameInsn(ps, rels, rels', env, p, i);
        }
      }
      assert qs == qs';
    }
  }

  lemma SameInsn(ps: Programs, rels: seq<Rel>, rels': seq<Rel>, env: Env, p: nat, i: nat)
    requires Disjoint(rels) && Disjoint(rels') && forall rel :: rel in rels <==> rel in rels'
    requires Load(ps, rels, env).Ok? && Load(ps, rels', env).Ok? && p in ps && i < |ps[p]|
    ensures p in Load(ps, rels, env).value && p in Load(ps, rels', env).value
    ensures |Load(ps, rels, env).value[p]| == |Load(ps, rels', env).value[p]| == |ps[p]|
    ensures Load(ps, rels, env).value[p][i] == Load(ps, rels', env).value[p][i]
  {
    hide Load, CanApply, Patched, Overlap;
    LoadFrame(ps, rels, env, p, i);
    LoadFrame(ps, rels', env, p, i);
    if rel :| rel in rels && !Clear(rel, p, i) {
      var k :| 0 <= k < |rels| && rels[k] == rel;
      var k' :| 0 <= k' < |rels'| && rels'[k'] == rel;
      LoadPatches(ps, rels, env, k);
      LoadPatches(ps, rels', env, k');
    }
  }
}
