/** Generation of read accessors for the fields of listed structs, including the fields of anonymous
    members nested in them. */
module Accessors {
  import opened Bytes

  datatype Ty = Path(ident: string) | Ptr | OtherType
  datatype Field = Field(ident: Option<string>, ty: Ty)
  datatype Item = Struct(fields: seq<Field>) | Union(fields: seq<Field>)
  type Items = map<string, Item>

  datatype Accessor = Accessor(prefix: seq<string>, field: Field)

  // ---------- the three classes of fields ----------

  predicate EnterField(id: string) {
    "__bindgen_anon" <= id || "__sk_common" <= id
  }

  predicate BlacklistedField(id: string) {
    "_bindgen" <= id || "_bitfield" <= id
  }

  /** An anonymous member: its own fields are visited instead of it. */
  predicate Entered(f: Field) {
    f.ident.Some? && EnterField(f.ident.value)
  }

  /** A field that gets an accessor. */
  predicate Plain(f: Field) {
    f.ident.Some? && !EnterField(f.ident.value) && !BlacklistedField(f.ident.value)
  }

  predicate StartsWith(id: string, p: string) {
    |p| <= |id| && id[..|p|] == p
  }

  /** By the first letters of its name: a field is looked into, left out, or gets an accessor. */
  lemma FieldClasses(f: Field)
    ensures f.ident.None? ==> !Entered(f) && !Plain(f)
    ensures f.ident.Some? ==>
              var id := f.ident.value;
              && (Entered(f) <==> StartsWith(id, "__bindgen_anon") || StartsWith(id, "__sk_common"))
              && (Plain(f) <==> !Entered(f) && !StartsWith(id, "_bindgen") && !StartsWith(id, "_bitfield"))
  {
  }

  // The type of an anonymous member is one of the file's structs or unions.
  predicate Known(items: Items, f: Field) {
    f.ty.Path? && f.ty.ident in items
  }

  /** Anonymous nesting is acyclic: every anonymous member's type ranks below its container. */
  predicate Acyclic(items: Items, rank: map<string, nat>) {
    items.Keys <= rank.Keys &&
    forall name :: name in items ==> BelowRank(items, rank, items[name].fields, rank[name])
  }

  predicate BelowRank(items: Items, rank: map<string, nat>, fields: seq<Field>, bound: nat)
    requires items.Keys <= rank.Keys
  {
    forall f :: f in fields && Entered(f) && Known(items, f) ==> rank[f.ty.ident] < bound
  }

  // ---------- what the visitor collects ----------

  /** The accessors of a list of fields below `prefix`. Following an anonymous member whose type is
      not a known item is a fault. */
  ghost function Visit(items: Items, rank: map<string, nat>, fields: seq<Field>, bound: nat, prefix: seq<string>)
    : (r: Result<seq<Accessor>>)
    requires Acyclic(items, rank) && BelowRank(items, rank, fields, bound)
    decreases bound, |fields|, 1
  {
    if fields == [] then Ok([]) else
    var first :- VisitOne(items, rank, fields[0], bound, prefix);
    var rest :- Visit(items, rank, fields[1..], bound, prefix);
    Ok(first + rest)
  }

  ghost function VisitOne(items: Items, rank: map<string, nat>, f: Field, bound: nat, prefix: seq<string>)
    : (r: Result<seq<Accessor>>)
    requires Acyclic(items, rank) && BelowRank(items, rank, [f], bound)
    decreases bound, 0, 0
  {
    if Entered(f) then
      if !Known(items, f) then Err(Fault)
      else
        assert f in [f];
        Visit(items, rank, items[f.ty.ident].fields, rank[f.ty.ident], prefix + [f.ident.value])
    else Ok(if Plain(f) then [Accessor(prefix, f)] else [])
  }

  // ---------- the visitor as it runs ----------

  class GenerateAccessors {
    const items: Items
    const whitelist: set<string>
    var prefix: seq<string>
    var accessors: seq<Accessor>
    var typeAccessors: map<string, seq<Accessor>>

    constructor (items: Items, whitelist: set<string>)
      ensures this.items == items && this.whitelist == whitelist
      ensures prefix == [] && accessors == [] && typeAccessors == map[]
    {
      this.items, this.whitelist := items, whitelist;
      prefix, accessors, typeAccessors := [], [], map[];
    }

    /** visit_field, below a listed struct: the prefix is pushed and popped again. */
    method VisitField(f: Field, ghost rank: map<string, nat>, ghost bound: nat) returns (ok: bool)
      requires Acyclic(items, rank) && BelowRank(items, rank, [f], bound) && prefix != []
      modifies this
      ensures typeAccessors == old(typeAccessors)
      ensures match VisitOne(items, rank, f, bound, old(prefix))
              case Ok(accs) => ok && prefix == old(prefix) && accessors == old(accessors) + accs
              case Err(_) => !ok
      decreases bound, 0, 0
    {
      if f.ident.None? { return true; }
      var id := f.ident.value;
      if EnterField(id) {
        if !Known(items, f) { return false; }
        assert f in [f];
        prefix := prefix + [id];
        ok := VisitFields(items[f.ty.ident].fields, rank, rank[f.ty.ident]);
        if ok {
          prefix := prefix[..|prefix| - 1];
        }
      } else {
        if !BlacklistedField(id) {
          accessors := accessors + [Accessor(prefix, f)];
        }
        ok := true;
      }
    }

    /** The fields of a struct or union, one after the other. */
    method VisitFields(fields: seq<Field>, ghost rank: map<string, nat>, ghost bound: nat) returns (ok: bool)
      requires Acyclic(items, rank) && BelowRank(items, rank, fields, bound) && prefix != []
      modifies this
      ensures typeAccessors == old(typeAccessors)
      ensures match Visit(items, rank, fields, bound, old(prefix))
              case Ok(accs) => ok && prefix == old(prefix) && accessors == old(accessors) + accs
              case Err(_) => !ok
      decreases bound, |fields|, 1
    {
      if fields == [] { return true; }
      ok := VisitField(fields[0], rank, bound);
      if ok {
        ok := VisitFields(fields[1..], rank, bound);
      }
    }

    /** visit_item_struct at the top level of the file. */
    method VisitStruct(name: string, node: Item, ghost rank: map<string, nat>, ghost bound: nat) returns (ok: bool)
      requires Acyclic(items, rank) && BelowRank(items, rank, node.fields, bound)
      requires prefix == [] && accessors == []
      modifies this
      ensures if name !in whitelist then ok && typeAccessors == old(typeAccessors)
              else match Visit(items, rank, node.fields, bound, ["self"])
                   case Ok(accs) =>
                     ok && typeAccessors == if accs == [] then old(typeAccessors) else old(typeAccessors)[name := accs]
                   case Err(_) => !ok
      ensures ok ==> prefix == [] && accessors == []
    {
      if name !in whitelist { return true; }
      prefix := prefix + ["self"];
      assert prefix == ["self"];
      ok := VisitFields(node.fields, rank, bound);
      ghost var visited := Visit(items, rank, node.fields, bound, ["self"]);
      if ok {
        assert [] + visited.value == visited.value;
        if accessors != [] {
          typeAccessors := typeAccessors[name := accessors];
          accessors := [];
        }
        prefix := prefix[..|prefix| - 1];
      }
    }
  }

  // ---------- what the paths mean ----------

  /** Following the member names of `path` one by one from `fields`, each time into the type of an
      anonymous member, leads to the field `f`. */
  ghost predicate Reaches(items: Items, fields: seq<Field>, path: seq<string>, f: Field)
    decreases |path|
  {
    if path == [] then f in fields
    else exists g :: g in fields && ReachesVia(items, g, path, f)
  }

  ghost predicate ReachesVia(items: Items, g: Field, path: seq<string>, f: Field)
    requires path != []
    decreases |path|, 0
  {
    Entered(g) && g.ident.value == path[0] && Known(items, g) &&
    Reaches(items, items[g.ty.ident].fields, path[1..], f)
  }

  lemma ReachesCons(items: Items, fields: seq<Field>, path: seq<string>, f: Field)
    requires fields != []
    ensures Reaches(items, fields, path, f) <==>
            Reaches(items, [fields[0]], path, f) || Reaches(items, fields[1..], path, f)
  {
    assert fields == [fields[0]] + fields[1..];
  }

  /** Soundness: the path of every collected accessor resolves, member by member, to its field. */
  lemma {:induction false} VisitSound(items: Items, rank: map<string, nat>, fields: seq<Field>, bound: nat,
                                      prefix: seq<string>, a: Accessor) returns (path: seq<string>)
    requires Acyclic(items, rank) && BelowRank(items, rank, fields, bound)
    requires Visit(items, rank, fields, bound, prefix).Ok? && a in Visit(items, rank, fields, bound, prefix).value
    ensures a.prefix == prefix + path && Reaches(items, fields, path, a.field) && Plain(a.field)
    decreases bound, |fields|, 1
  {
    var f := fields[0];
    var first := VisitOne(items, rank, f, bound, prefix).value;
    if a in first {
      if Entered(f) {
        assert f in [f];
        var rest := VisitSound(items, rank, items[f.ty.ident].fields, rank[f.ty.ident], prefix + [f.ident.value], a);
        path := [f.ident.value] + rest;
        assert path[1..] == rest;
        assert ReachesVia(items, f, path, a.field);
        assert prefix + [f.ident.value] + rest == prefix + path;
      } else {
        path := [];
        assert prefix + path == prefix;
      }
    } else {
      path := VisitSound(items, rank, fields[1..], bound, prefix, a);
      ReachesCons(items, fields, path, a.field);
    }
  }

  /** Completeness: every plain field that a path reaches is collected with that path. */
  lemma {:induction false} VisitComplete(items: Items, rank: map<string, nat>, fields: seq<Field>, bound: nat,
                                         prefix: seq<string>, path: seq<string>, f: Field)
    requires Acyclic(items, rank) && BelowRank(items, rank, fields, bound)
    requires Visit(items, rank, fields, bound, prefix).Ok? && Reaches(items, fields, path, f) && Plain(f)
    ensures Accessor(prefix + path, f) in Visit(items, rank, fields, bound, prefix).value
    decreases bound, |fields|, 1
  {
    var g := fields[0];
    var first := VisitOne(items, rank, g, bound, prefix).value;
    ReachesCons(items, fields, path, f);
    if Reaches(items, [g], path, f) {
      if path == [] {
        assert prefix + path == prefix;
      } else {
        assert ReachesVia(items, g, path, f);
        assert g in [g];
        VisitComplete(items, rank, items[g.ty.ident].fields, rank[g.ty.ident], prefix + [path[0]], path[1..], f);
        assert prefix + [path[0]] + path[1..] == prefix + path;
      }
    } else {
      VisitComplete(items, rank, fields[1..], bound, prefix, path, f);
    }
  }

  /** Fields are visited in the order of their declaration. */
  lemma {:induction false} VisitInOrder(items: Items, rank: map<string, nat>, a: seq<Field>, b: seq<Field>, bound: nat,
                                        prefix: seq<string>)
    requires Acyclic(items, rank) && BelowRank(items, rank, a, bound) && BelowRank(items, rank, b, bound)
    requires Visit(items, rank, a, bound, prefix).Ok? && Visit(items, rank, b, bound, prefix).Ok?
    ensures BelowRank(items, rank, a + b, bound)
    ensures Visit(items, rank, a + b, bound, prefix) ==
            Ok(Visit(items, rank, a, bound, prefix).value + Visit(items, rank, b, bound, prefix).value)
    decreases |a|
  {
    if a == [] {
      assert a + b == b;
      assert [] + Visit(items, rank, b, bound, prefix).value == Visit(items, rank, b, bound, prefix).value;
    } else {
      VisitInOrder(items, rank, a[1..], b, bound, prefix);
      assert (a + b)[1..] == a[1..] + b && (a + b)[0] == a[0];
      var x, y, z := VisitOne(items, rank, a[0], bound, prefix).value, Visit(items, rank, a[1..], bound, prefix).value,
        Visit(items, rank, b, bound, prefix).value;
      assert x + (y + z) == (x + y) + z;
    }
  }

  ghost predicate ResolvesAll(items: Items, fields: seq<Field>) {
    forall path, g :: Reaches(items, fields, path, g) && Entered(g) ==> Known(items, g)
  }

  lemma ResolvesCons(items: Items, fields: seq<Field>)
    requires fields != []
    ensures ResolvesAll(items, fields) <==> ResolvesAll(items, [fields[0]]) && ResolvesAll(items, fields[1..])
  {
    forall path, g ensures Reaches(items, fields, path, g) <==>
                           Reaches(items, [fields[0]], path, g) || Reaches(items, fields[1..], path, g)
    {
      ReachesCons(items, fields, path, g);
    }
  }

  lemma ResolvesOne(items: Items, f: Field)
    ensures ResolvesAll(items, [f]) <==>
            (Entered(f) ==> Known(items, f) && ResolvesAll(items, items[f.ty.ident].fields))
  {
    if ResolvesAll(items, [f]) && Entered(f) {
      assert Reaches(items, [f], [], f);
      forall path, g | Reaches(items, items[f.ty.ident].fields, path, g) && Entered(g) ensures Known(items, g) {
        var longer := [f.ident.value] + path;
        assert longer[1..] == path && f in [f];
        assert ReachesVia(items, f, longer, g);
        assert Reaches(items, [f], longer, g);
      }
    }
    if Entered(f) ==> Known(items, f) && ResolvesAll(items, items[f.ty.ident].fields) {
      forall path, g | Reaches(items, [f], path, g) && Entered(g) ensures Known(items, g) {
        if path == [] {
          assert g == f;
        } else {
          var h :| h in [f] && ReachesVia(items, h, path, g);
          assert h == f && Reaches(items, items[f.ty.ident].fields, path[1..], g);
        }
      }
    }
  }

  /** The visit goes through if and only if every anonymous member it reaches has a known type. */
  lemma {:induction false} VisitOkExactly(items: Items, rank: map<string, nat>, fields: seq<Field>, bound: nat,
                                          prefix: seq<string>)
    requires Acyclic(items, rank) && BelowRank(items, rank, fields, bound)
    ensures Visit(items, rank, fields, bound, prefix) == Err(Fault) <==> !ResolvesAll(items, fields)
    ensures Visit(items, rank, fields, bound, prefix).Ok? <==> ResolvesAll(items, fields)
    decreases bound, |fields|, 1
  {
    if fields == [] {
      assert forall path, g :: !Reaches(items, fields, path, g);
    } else {
      var f := fields[0];
      ResolvesCons(items, fields);
      ResolvesOne(items, f);
      VisitOkExactly(items, rank, fields[1..], bound, prefix);
      if Entered(f) && Known(items, f) {
        assert f in [f];
        VisitOkExactly(items, rank, items[f.ty.ident].fields, rank[f.ty.ident], prefix + [f.ident.value]);
      }
    }
  }

  // ---------- one function per name ----------

  /** The fold with `or_insert_with`: the first accessor of each name wins. */
  function Unique(accs: seq<Accessor>): (m: map<string, Accessor>) {
    if accs == [] then map[]
    else
      var m, a := Unique(accs[..|accs| - 1]), accs[|accs| - 1];
      if a.field.ident.None? || a.field.ident.value in m then m else m[a.field.ident.value := a]
  }

  predicate NamedAt(accs: seq<Accessor>, n: string, i: nat) {
    i < |accs| && accs[i].field.ident == Some(n)
  }

  /** `a` is the accessor at the least index that carries the name `n`. */
  ghost predicate FirstNamed(accs: seq<Accessor>, n: string, a: Accessor) {
    exists i: nat :: NamedAt(accs, n, i) && accs[i] == a && forall k: nat :: k < i ==> !NamedAt(accs, n, k)
  }

  lemma FirstNamedSnoc(accs: seq<Accessor>, n: string, a: Accessor, b: Accessor)
    requires FirstNamed(accs, n, a)
    ensures FirstNamed(accs + [b], n, a)
  {
    var i: nat :| NamedAt(accs, n, i) && accs[i] == a && forall k: nat :: k < i ==> !NamedAt(accs, n, k);
    assert NamedAt(accs + [b], n, i);
    assert forall k: nat :: k < i && NamedAt(accs + [b], n, k) ==> NamedAt(accs, n, k);
  }

  lemma FirstNamedNew(accs: seq<Accessor>, n: string, b: Accessor)
    requires b.field.ident == Some(n) && forall a :: a in accs ==> a.field.ident != Some(n)
    ensures FirstNamed(accs + [b], n, b)
  {
    assert NamedAt(accs + [b], n, |accs|);
    forall k: nat | k < |accs| ensures !NamedAt(accs + [b], n, k) {
      assert accs[k] in accs;
    }
  }

  /** Every name has an accessor, and it is the one at the least index with that name. */
  lemma {:induction false} UniqueNames(accs: seq<Accessor>)
    ensures forall a :: a in accs && a.field.ident.Some? ==> a.field.ident.value in Unique(accs)
    ensures forall n :: n in Unique(accs) ==> FirstNamed(accs, n, Unique(accs)[n])
  {
    if accs != [] {
      hide FirstNamed;
      var init, a := accs[..|accs| - 1], accs[|accs| - 1];
      UniqueNames(init);
      assert accs == init + [a];
      forall n | n in Unique(accs) ensures FirstNamed(accs, n, Unique(accs)[n]) {
        if n in Unique(init) {
          FirstNamedSnoc(init, n, Unique(init)[n], a);
        } else {
          FirstNamedNew(init, n, a);
        }
      }
    }
  }

  /** For a listed struct with any acyclic anonymous nesting: exactly the names of the plain fields
      reachable from it get an accessor, one each, its path leads from the struct to that field, and
      of several fields of one name the first one visited has it. */
  lemma AccessorsExact(items: Items, rank: map<string, nat>, fields: seq<Field>, bound: nat)
    requires Acyclic(items, rank) && BelowRank(items, rank, fields, bound)
    requires Visit(items, rank, fields, bound, ["self"]).Ok?
    ensures var accs := Visit(items, rank, fields, bound, ["self"]).value;
            var m := Unique(accs);
            && (forall path, f :: Reaches(items, fields, path, f) && Plain(f) ==> f.ident.value in m)
            && (forall n :: n in m ==> FirstNamed(accs, n, m[n]))
            && (forall n :: n in m ==>
                  m[n].field.ident == Some(n) && Plain(m[n].field) && m[n].prefix != [] && m[n].prefix[0] == "self" &&
                  Reaches(items, fields, m[n].prefix[1..], m[n].field))
  {
    hide Visit, Reaches, Acyclic, BelowRank, Unique;
    var accs := Visit(items, rank, fields, bound, ["self"]).value;
    UniqueNames(accs);
    forall path, f | Reaches(items, fields, path, f) && Plain(f) ensures f.ident.value in Unique(accs) {
      VisitComplete(items, rank, fields, bound, ["self"], path, f);
      assert Accessor(["self"] + path, f) in accs;
    }
    forall n | n in Unique(accs)
      ensures Unique(accs)[n].prefix != [] && Unique(accs)[n].prefix[0] == "self" && Plain(Unique(accs)[n].field)
      ensures Reaches(items, fields, Unique(accs)[n].prefix[1..], Unique(accs)[n].field)
    {
      var a := Unique(accs)[n];
      var path := VisitSound(items, rank, fields, bound, ["self"], a);
      assert a.prefix[1..] == path;
    }
  }
}
