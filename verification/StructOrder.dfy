/**
 The order in which scripts/generate_fmha_params.py emits nested structs: a depth-first visit that
 appends each struct after the structs it contains.
 */
module StructOrder {
  import opened Sequences
  import opened Reachability

  /** A field, with the struct name its annotation resolves to. */
  datatype Field = Field(name: string, target: string)

  datatype Struct = Struct(name: string, fields: seq<Field>)

  type Schema = map<string, Struct>

  /** Schemas file each struct under its own name. */
  ghost predicate WellNamed(schema: Schema) { forall k | k in schema :: schema[k].name == k }

  function Nested(schema: Schema, field: Field): Option<Struct> {
    if field.target in schema then Some(schema[field.target]) else None
  }

  /** Which structs each struct contains. */
  function Contains(schema: Schema): Graph {
    map k | k in schema :: set f | f in schema[k].fields && f.target in schema :: f.target
  }

  function Names(order: seq<Struct>): (r: seq<string>)
    ensures |r| == |order| && forall i | 0 <= i < |r| :: r[i] == order[i].name
  {
    seq(|order|, i requires 0 <= i < |order| => order[i].name)
  }

  /**
   What the visit keeps: `order` holds finished structs, once each; the seen names are those and the
   ones on `path`, which are still being visited; all of them are reachable; and everything a
   finished struct contains has been seen, before it if the schema has no cycles.
   */
  ghost predicate Consistent(schema: Schema, root: string, order: seq<Struct>, seen: set<string>, path: set<string>) {
    && (forall s | s in order :: s.name in schema && schema[s.name] == s)
    && Distinct(Names(order))
    && seen == Elements(Names(order)) + path
    && Elements(Names(order)) !! path
    && (forall x | x in seen :: Reaches(Contains(schema), root, x))
    && (forall s | s in order :: Next(Contains(schema), s.name) <= seen)
    && (AcyclicFrom(Contains(schema), root) ==> SuccessorsFirst(Contains(schema), Names(order)))
  }

  /** Starting a struct that has not been seen. */
  lemma StartStruct(schema: Schema, root: string, order: seq<Struct>, seen: set<string>, path: set<string>, s: Struct)
    requires Consistent(schema, root, order, seen, path) && s.name !in seen
    requires Reaches(Contains(schema), root, s.name)
    ensures Consistent(schema, root, order, seen + {s.name}, path + {s.name})
  {
  }

  /** `name` is reachable, and everything on the path leads to it. */
  ghost predicate Ahead(schema: Schema, root: string, path: set<string>, name: string) {
    && Reaches(Contains(schema), root, name)
    && forall x | x in path :: Leads(Contains(schema), x, name)
  }

  /** What the nested struct of field `i` may rely on. */
  lemma Descend(schema: Schema, root: string, path: set<string>, s: Struct, i: nat)
    requires WellNamed(schema) && s.name in schema && schema[s.name] == s
    requires i < |s.fields| && s.fields[i].target in schema
    requires s.name in path && Ahead(schema, root, path - {s.name}, s.name)
    ensures Ahead(schema, root, path, s.fields[i].target)
  {
    var g, name := Contains(schema), s.fields[i].target;
    assert s.fields[i] in s.fields && name in Next(g, s.name);
    ReachesStep(g, root, s.name, name);
    forall x | x in path ensures Leads(g, x, name) {
      assert x != s.name ==> x in path - {s.name};
      LeadsStep(g, x, s.name, name);
    }
  }

  lemma ContentsSeen(schema: Schema, s: Struct, seen: set<string>)
    requires s.name in schema && schema[s.name] == s
    requires forall k | 0 <= k < |s.fields| :: s.fields[k].target in schema ==> s.fields[k].target in seen
    ensures Next(Contains(schema), s.name) <= seen
  {
  }

  /** Finishing a struct whose contents have all been seen. */
  lemma FinishStruct(schema: Schema, root: string, order: seq<Struct>, seen: set<string>, path: set<string>, s: Struct)
    requires s.name in schema && schema[s.name] == s && s.name !in path
    requires Consistent(schema, root, order, seen, path + {s.name})
    requires Next(Contains(schema), s.name) <= seen
    requires forall x | x in path :: Leads(Contains(schema), x, s.name)
    ensures Consistent(schema, root, order + [s], seen, path)
  {
    var g := Contains(schema);
    var names, names' := Names(order), Names(order + [s]);
    assert names' == names + [s.name];
    assert Elements(names') == Elements(names) + {s.name};
    if AcyclicFrom(g, root) {
      forall c | c in Next(g, s.name) ensures c in names {
        if c in path + {s.name} {
          LeadsStep(g, c, s.name, c);
        }
      }
      forall i, c | 0 <= i < |names'| && c in Next(g, names'[i]) ensures c in names'[..i] {
        if i < |names| { assert names'[..i] == names[..i]; } else { assert names'[..i] == names; }
      }
    }
  }

  class Visitor {
    const schema: Schema
    ghost const root: string
    var order: seq<Struct>
    var seen: set<string>

    ghost predicate Valid(path: set<string>)
      reads this
    {
      WellNamed(schema) && Consistent(schema, root, order, seen, path)
    }

    constructor (schema: Schema, ghost root: string)
      requires WellNamed(schema)
      ensures Valid({}) && this.schema == schema && this.root == root && order == [] && seen == {}
    {
      this.schema, this.root := schema, root;
      order, seen := [], {};
    }

    method Visit(s: Struct, ghost path: set<string>)
      requires Valid(path) && s.name in schema && schema[s.name] == s && Ahead(schema, root, path, s.name)
      modifies this
      ensures Valid(path) && old(seen) + {s.name} <= seen
      ensures s.name !in old(seen) ==> order != [] && order[|order| - 1] == s
      decreases schema.Keys - seen, 0
    {
      if s.name in seen { return; }
      StartStruct(schema, root, order, seen, path, s);
      seen := seen + {s.name};
      assert path + {s.name} - {s.name} == path;
      VisitFields(s, path + {s.name});
      ContentsSeen(schema, s, seen);
      FinishStruct(schema, root, order, seen, path, s);
      order := order + [s];
    }

    /** The loop over the fields of the struct that is being visited. */
    method VisitFields(s: Struct, ghost path: set<string>)
      requires Valid(path) && s.name in schema && schema[s.name] == s
      requires s.name in path && Ahead(schema, root, path - {s.name}, s.name)
      modifies this
      ensures Valid(path) && old(seen) <= seen
      ensures forall k | 0 <= k < |s.fields| :: s.fields[k].target in schema ==> s.fields[k].target in seen
      decreases schema.Keys - seen, 1
    {
      for i := 0 to |s.fields|
        invariant Valid(path) && old(seen) <= seen
        invariant forall k | 0 <= k < i :: s.fields[k].target in schema ==> s.fields[k].target in seen
      {
        var nested := Nested(schema, s.fields[i]);
        if nested.Some? {
          Descend(schema, root, path, s, i);
          Visit(nested.value, path);
        }
      }
    }
  }

  /**
   The order holds exactly the structs reachable from the root, each once, the root last; it puts
   every struct after the structs it contains if and only if none of them contains itself. Only a
   root the schema does not have is refused; cycles are not, and the visit ends on them too.
   */
  method DependencyOrder(schema: Schema, root: string) returns (r: Option<seq<Struct>>)
    requires WellNamed(schema)
    ensures r.Some? <==> root in schema
    ensures r.Some? ==>
              && Distinct(Names(r.value))
              && (forall x :: x in Names(r.value) <==> Reaches(Contains(schema), root, x))
              && (forall s | s in r.value :: s.name in schema && schema[s.name] == s)
              && r.value != [] && r.value[|r.value| - 1] == schema[root]
              && (SuccessorsFirst(Contains(schema), Names(r.value)) <==> AcyclicFrom(Contains(schema), root))
  {
    if root !in schema { return None; }
    var visitor := new Visitor(schema, root);
    ReachesSelf(Contains(schema), root);
    visitor.Visit(schema[root], {});
    VisitedAll(schema, root, visitor.order, visitor.seen);
    return Some(visitor.order);
  }

  /** What a finished visit means. */
  lemma VisitedAll(schema: Schema, root: string, order: seq<Struct>, seen: set<string>)
    requires Consistent(schema, root, order, seen, {}) && root in seen
    ensures forall x :: x in Names(order) <==> Reaches(Contains(schema), root, x)
    ensures SuccessorsFirst(Contains(schema), Names(order)) <==> AcyclicFrom(Contains(schema), root)
  {
    var g := Contains(schema);
    forall x | x in seen ensures Next(g, x) <= seen {
      assert x in Names(order);
      var i :| 0 <= i < |order| && Names(order)[i] == x;
      assert order[i] in order;
    }
    forall x ensures x in Names(order) <==> Reaches(g, root, x) {
      if Reaches(g, root, x) { ClosedHoldsReachable(g, seen, root, x); }
    }
    if SuccessorsFirst(g, Names(order)) {
      forall x | Reaches(g, root, x) ensures !Leads(g, x, x) {
        OrderedIsAcyclic(g, Names(order), x);
      }
    }
  }
}
