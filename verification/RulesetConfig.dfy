/**
  The depth-first walk that admits a ruleset configuration: over any finite heap, cyclic or
  shared, with the set of objects on the current path and a node counter updated in place.
 */
module RulesetConfig {

  type ObjectId = nat

  datatype Value =
    | Null | Text(text: string) | Boolean(flag: bool) | Number(finite: bool) | Unsupported | Ref(id: ObjectId)

  datatype Entry = Entry(key: string, value: Value)

  datatype HeapObject = DateObject | ArrayObject(items: seq<Value>) | PlainObject(entries: seq<Entry>) | OtherObject

  type Heap = map<ObjectId, HeapObject>

  const MAX_DEPTH := 12
  const MAX_NODES := 2000
  const DANGEROUS_KEYS := {"__proto__", "prototype", "constructor"}

  function Values(entries: seq<Entry>): (values: seq<Value>)
    ensures |values| == |entries| && forall i :: 0 <= i < |entries| ==> values[i] == entries[i].value
  {
    seq(|entries|, i requires 0 <= i < |entries| => entries[i].value)
  }

  function Children(o: HeapObject): seq<Value> {
    match o
    case ArrayObject(items) => items
    case PlainObject(entries) => Values(entries)
    case _ => []
  }

  predicate SafeKeys(entries: seq<Entry>) {
    forall i :: 0 <= i < |entries| ==> entries[i].key !in DANGEROUS_KEYS
  }

  predicate AllowedObject(o: HeapObject) {
    o.ArrayObject? || (o.PlainObject? && SafeKeys(o.entries))
  }

  predicate AllowedLeaf(v: Value) {
    v.Null? || v.Text? || v.Boolean? || (v.Number? && v.finite)
  }

  predicate Points(heap: Heap, v: Value) {
    v.Ref? ==> v.id in heap
  }

  /** There are no dangling references. */
  predicate Closed(heap: Heap) {
    forall id :: id in heap ==> forall i :: 0 <= i < |Children(heap[id])| ==> Points(heap, Children(heap[id])[i])
  }

  // ----- Unfolding a value into a tree -----

  datatype Tree = Leaf(value: Value) | Node(id: ObjectId, children: seq<Tree>)

  /** `t` is what following all references from `v` unfolds to. */
  predicate Unfolds(heap: Heap, v: Value, t: Tree)
    decreases t
  {
    match t
    case Leaf(value) => !v.Ref? && v == value
    case Node(id, children) => v == Ref(id) && id in heap && UnfoldsAll(heap, Children(heap[id]), children)
  }

  predicate UnfoldsAll(heap: Heap, vs: seq<Value>, ts: seq<Tree>)
    decreases ts
  {
    if ts == [] then vs == []
    else vs != [] && Unfolds(heap, vs[0], ts[0]) && UnfoldsAll(heap, vs[1..], ts[1..])
  }

  /** Only allowed leaves, containers and keys. */
  predicate Allowed(heap: Heap, t: Tree)
    decreases t
  {
    match t
    case Leaf(value) => AllowedLeaf(value)
    case Node(id, children) => id in heap && AllowedObject(heap[id]) && AllAllowed(heap, children)
  }

  predicate AllAllowed(heap: Heap, ts: seq<Tree>)
    decreases ts
  {
    ts == [] || (Allowed(heap, ts[0]) && AllAllowed(heap, ts[1..]))
  }

  function Size(t: Tree): (n: nat)
    ensures n > 0
    decreases t
  {
    match t
    case Leaf(_) => 1
    case Node(_, children) => 1 + SizeAll(children)
  }

  function SizeAll(ts: seq<Tree>): nat
    decreases ts
  {
    if ts == [] then 0 else Size(ts[0]) + SizeAll(ts[1..])
  }

  /** Every node lies at most `limit` below the root. */
  predicate Shallow(t: Tree, limit: int)
    decreases t
  {
    limit >= 0 && match t case Leaf(_) => true case Node(_, children) => AllShallow(children, limit - 1)
  }

  predicate AllShallow(ts: seq<Tree>, limit: int)
    decreases ts
  {
    ts == [] || (Shallow(ts[0], limit) && AllShallow(ts[1..], limit))
  }

  /** The objects the tree passes through avoid `seen`. */
  predicate Avoids(t: Tree, seen: set<ObjectId>)
    decreases t
  {
    match t
    case Leaf(_) => true
    case Node(id, children) => id !in seen && AllAvoid(children, seen)
  }

  predicate AllAvoid(ts: seq<Tree>, seen: set<ObjectId>)
    decreases ts
  {
    ts == [] || (Avoids(ts[0], seen) && AllAvoid(ts[1..], seen))
  }

  /** A finite tree within the limits: what the walk admits from an empty path. */
  ghost predicate Admissible(heap: Heap, v: Value, t: Tree) {
    Unfolds(heap, v, t) && Allowed(heap, t) && Shallow(t, MAX_DEPTH) && Size(t) <= MAX_NODES
  }

  // ----- Unfoldings are unique, so a finite one never meets its own root -----

  lemma {:induction false} UnfoldingIsUnique(heap: Heap, v: Value, t: Tree, u: Tree)
    requires Unfolds(heap, v, t) && Unfolds(heap, v, u)
    ensures t == u
    decreases t
  {
    if t.Node? {
      UnfoldingsAreUnique(heap, Children(heap[t.id]), t.children, u.children);
    }
  }

  lemma {:induction false} UnfoldingsAreUnique(heap: Heap, vs: seq<Value>, ts: seq<Tree>, us: seq<Tree>)
    requires UnfoldsAll(heap, vs, ts) && UnfoldsAll(heap, vs, us)
    ensures ts == us
    decreases ts
  {
    if ts != [] && us != [] {
      UnfoldingIsUnique(heap, vs[0], ts[0], us[0]);
      UnfoldingsAreUnique(heap, vs[1..], ts[1..], us[1..]);
      assert ts == [ts[0]] + ts[1..] && us == [us[0]] + us[1..];
    }
  }

  /** A tree smaller than the unfolding of `id` does not pass through `id`. */
  lemma {:induction false} SmallerTreeAvoids(heap: Heap, v: Value, t: Tree, root: Tree)
    requires Unfolds(heap, v, t) && root.Node? && Unfolds(heap, Ref(root.id), root) && Size(t) < Size(root)
    ensures Avoids(t, {root.id})
    decreases t
  {
    if t.Node? {
      if t.id == root.id {
        UnfoldingIsUnique(heap, Ref(root.id), t, root);
      }
      SmallerTreesAvoid(heap, Children(heap[t.id]), t.children, root);
    }
  }

  lemma {:induction false} SmallerTreesAvoid(heap: Heap, vs: seq<Value>, ts: seq<Tree>, root: Tree)
    requires UnfoldsAll(heap, vs, ts) && root.Node? && Unfolds(heap, Ref(root.id), root) && SizeAll(ts) < Size(root)
    ensures AllAvoid(ts, {root.id})
    decreases ts
  {
    if ts != [] {
      SmallerTreeAvoids(heap, vs[0], ts[0], root);
      SmallerTreesAvoid(heap, vs[1..], ts[1..], root);
    }
  }

  /** An object with a finite unfolding is never reached again below itself. */
  lemma UnfoldingIsAcyclic(heap: Heap, t: Tree)
    requires t.Node? && Unfolds(heap, Ref(t.id), t)
    ensures AllAvoid(t.children, {t.id})
  {
    SmallerTreesAvoid(heap, Children(heap[t.id]), t.children, t);
  }

  lemma {:induction false} AvoidsBoth(t: Tree, a: set<ObjectId>, b: set<ObjectId>)
    ensures Avoids(t, a + b) <==> Avoids(t, a) && Avoids(t, b)
    decreases t
  {
    if t.Node? {
      AllAvoidBoth(t.children, a, b);
    }
  }

  lemma {:induction false} AllAvoidBoth(ts: seq<Tree>, a: set<ObjectId>, b: set<ObjectId>)
    ensures AllAvoid(ts, a + b) <==> AllAvoid(ts, a) && AllAvoid(ts, b)
    decreases ts
  {
    if ts != [] {
      AvoidsBoth(ts[0], a, b);
      AllAvoidBoth(ts[1..], a, b);
    }
  }

  lemma {:induction false} EmptyIsAvoided(t: Tree)
    ensures Avoids(t, {})
    decreases t
  {
    if t.Node? {
      EmptyIsAvoidedByAll(t.children);
    }
  }

  lemma {:induction false} EmptyIsAvoidedByAll(ts: seq<Tree>)
    ensures AllAvoid(ts, {})
    decreases ts
  {
    if ts != [] {
      EmptyIsAvoided(ts[0]);
      EmptyIsAvoidedByAll(ts[1..]);
    }
  }

  // ----- What one visit admits -----

  /** `t` is the unfolding of `v`, and a visit at this depth, count and path lets all of it pass. */
  predicate Admits(heap: Heap, v: Value, t: Tree, depth: nat, nodes: nat, seen: set<ObjectId>) {
    && Unfolds(heap, v, t) && Allowed(heap, t) && Shallow(t, MAX_DEPTH - depth)
    && nodes + Size(t) <= MAX_NODES && Avoids(t, seen)
  }

  /** The same for children visited in turn. */
  predicate AdmitsAll(heap: Heap, vs: seq<Value>, ts: seq<Tree>, depth: nat, nodes: nat, seen: set<ObjectId>) {
    && UnfoldsAll(heap, vs, ts) && AllAllowed(heap, ts) && AllShallow(ts, MAX_DEPTH - depth)
    && nodes + SizeAll(ts) <= MAX_NODES && AllAvoid(ts, seen)
  }

  lemma {:induction false} AdmitsNext(
    heap: Heap, vs: seq<Value>, ts: seq<Tree>, v: Value, t: Tree, depth: nat, nodes: nat, seen: set<ObjectId>)
    requires AdmitsAll(heap, vs, ts, depth, nodes, seen)
    requires Admits(heap, v, t, depth, nodes + SizeAll(ts), seen)
    ensures AdmitsAll(heap, vs + [v], ts + [t], depth, nodes, seen)
    ensures SizeAll(ts + [t]) == SizeAll(ts) + Size(t)
    decreases ts
  {
    if ts == [] {
      assert vs + [v] == [v] && ts + [t] == [t];
    } else {
      assert (vs + [v])[1..] == vs[1..] + [v] && (ts + [t])[1..] == ts[1..] + [t];
      AdmitsNext(heap, vs[1..], ts[1..], v, t, depth, nodes + Size(ts[0]), seen);
    }
  }

  /** What all children are admitted with admits the first `i` and then the next. */
  lemma {:induction false} AdmitsEach(
    heap: Heap, vs: seq<Value>, ts: seq<Tree>, i: nat, depth: nat, nodes: nat, seen: set<ObjectId>)
    requires AdmitsAll(heap, vs, ts, depth, nodes, seen) && i < |vs|
    ensures |ts| == |vs| && UnfoldsAll(heap, vs[..i], ts[..i])
    ensures Admits(heap, vs[i], ts[i], depth, nodes + SizeAll(ts[..i]), seen)
    decreases ts
  {
    AdmitsOne(heap, vs, ts, depth, nodes, seen);
    OneTreeEach(heap, vs, ts);
    if i == 0 {
      assert ts[..i] == [];
    } else {
      AdmitsEach(heap, vs[1..], ts[1..], i - 1, depth, nodes + Size(ts[0]), seen);
      assert ts[..i][1..] == ts[1..][..i - 1] && vs[..i][1..] == vs[1..][..i - 1];
    }
  }

  lemma {:induction false} OneTreeEach(heap: Heap, vs: seq<Value>, ts: seq<Tree>)
    requires UnfoldsAll(heap, vs, ts)
    ensures |ts| == |vs|
    decreases ts
  {
    if ts != [] {
      OneTreeEach(heap, vs[1..], ts[1..]);
    }
  }

  lemma {:induction false} AdmitsOne(
    heap: Heap, vs: seq<Value>, ts: seq<Tree>, depth: nat, nodes: nat, seen: set<ObjectId>)
    requires AdmitsAll(heap, vs, ts, depth, nodes, seen) && vs != []
    ensures ts != [] && Admits(heap, vs[0], ts[0], depth, nodes, seen)
    ensures AdmitsAll(heap, vs[1..], ts[1..], depth, nodes + Size(ts[0]), seen)
  {
  }

  /**
    An object is admitted with the trees its children are admitted with, one level down and with
    itself on the path.
   */
  lemma AdmitsObject(heap: Heap, id: ObjectId, ts: seq<Tree>, depth: nat, nodes: nat, seen: set<ObjectId>)
    requires id in heap && AllowedObject(heap[id]) && id !in seen && depth <= MAX_DEPTH
    requires AdmitsAll(heap, Children(heap[id]), ts, depth + 1, nodes + 1, seen + {id})
    ensures Admits(heap, Ref(id), Node(id, ts), depth, nodes, seen)
  {
    AllAvoidBoth(ts, seen, {id});
  }

  lemma AdmitsChildren(heap: Heap, id: ObjectId, t: Tree, depth: nat, nodes: nat, seen: set<ObjectId>)
    requires Admits(heap, Ref(id), t, depth, nodes, seen)
    ensures id in heap && t.Node? && AllowedObject(heap[id]) && id !in seen && depth <= MAX_DEPTH
    ensures AdmitsAll(heap, Children(heap[id]), t.children, depth + 1, nodes + 1, seen + {id})
  {
    SmallerTreesAvoid(heap, Children(heap[id]), t.children, t);
    AllAvoidBoth(t.children, seen, {id});
  }

  /** Once a child is refused, so is its object. */
  lemma RefusedChild(
    heap: Heap, id: ObjectId, ts: seq<Tree>, i: nat, depth: nat, nodes: nat, seen: set<ObjectId>,
    child: Value, below: nat, count: nat, path: set<ObjectId>)
    requires id in heap && i < |Children(heap[id])| && child == Children(heap[id])[i]
    requires below == depth + 1 && count == nodes + 1 + SizeAll(ts) && path == seen + {id}
    requires UnfoldsAll(heap, Children(heap[id])[..i], ts)
    requires forall u :: !Admits(heap, child, u, below, count, path)
    ensures forall t :: !Admits(heap, Ref(id), t, depth, nodes, seen)
  {
    forall t ensures !Admits(heap, Ref(id), t, depth, nodes, seen) {
      if Admits(heap, Ref(id), t, depth, nodes, seen) {
        AdmitsChildren(heap, id, t, depth, nodes, seen);
        AdmitsEach(heap, Children(heap[id]), t.children, i, depth + 1, nodes + 1, seen + {id});
        UnfoldingsAreUnique(heap, Children(heap[id])[..i], t.children[..i], ts);
        assert false;
      }
    }
  }

  /** Nothing is admitted too deep, past the count, twice on a path, or with a foreign object or a dangerous key. */
  lemma RefusedAtOnce(heap: Heap, v: Value, depth: nat, nodes: nat, seen: set<ObjectId>)
    requires Points(heap, v)
    requires || depth > MAX_DEPTH || nodes >= MAX_NODES || v.Unsupported? || (v.Number? && !v.finite)
             || (v.Ref? && (v.id in seen || !AllowedObject(heap[v.id])))
    ensures forall t :: !Admits(heap, v, t, depth, nodes, seen)
  {
    forall t ensures !Admits(heap, v, t, depth, nodes, seen) {
    }
  }

  lemma PassesAtOnce(heap: Heap, v: Value, depth: nat, nodes: nat, seen: set<ObjectId>)
    requires depth <= MAX_DEPTH && nodes < MAX_NODES
    ensures AllowedLeaf(v) && !v.Ref? ==> Admits(heap, v, Leaf(v), depth, nodes, seen) && Size(Leaf(v)) == 1
    ensures AdmitsAll(heap, [], [], depth + 1, nodes + 1, seen) && SizeAll([]) == 0
  {
  }

  lemma AdmitsUnfolds(heap: Heap, vs: seq<Value>, ts: seq<Tree>, depth: nat, nodes: nat, seen: set<ObjectId>)
    requires AdmitsAll(heap, vs, ts, depth, nodes, seen)
    ensures UnfoldsAll(heap, vs, ts)
  {
  }

  class Walk {
    const heap: Heap
    var seen: set<ObjectId>
    var nodes: nat

    constructor (heap: Heap)
      ensures this.heap == heap && seen == {} && nodes == 0
    {
      this.heap := heap;
      seen, nodes := {}, 0;
    }

    /**
      Returns normally exactly when some finite tree is admitted; then the path is back where it
      was and the counter has grown by the tree's size.
     */
    method Visit(item: Value, depth: nat) returns (ok: bool, ghost tree: Tree)
      requires Closed(heap) && Points(heap, item) && depth <= MAX_DEPTH + 1
      modifies this
      ensures ok ==> Admits(heap, item, tree, depth, old(nodes), old(seen))
      ensures ok ==> seen == old(seen) && nodes == old(nodes) + Size(tree)
      ensures !ok ==> forall t :: !Admits(heap, item, t, depth, old(nodes), old(seen))
      decreases MAX_DEPTH + 1 - depth
    {
      hide Unfolds, UnfoldsAll, Allowed, AllAllowed, Shallow, AllShallow, Avoids, AllAvoid, Admits, AdmitsAll, SizeAll;
      tree := Leaf(item);
      nodes := nodes + 1;
      if depth > MAX_DEPTH || nodes > MAX_NODES {
        RefusedAtOnce(heap, item, depth, old(nodes), old(seen));
        return false, tree;
      }
      PassesAtOnce(heap, item, depth, old(nodes), old(seen));
      if item.Null? || item.Text? || item.Boolean? {
        return true, tree;
      }
      if item.Number? {
        if !item.finite {
          RefusedAtOnce(heap, item, depth, old(nodes), old(seen));
          return false, tree;
        }
        return true, tree;
      }
      if !item.Ref? || heap[item.id].DateObject? {
        RefusedAtOnce(heap, item, depth, old(nodes), old(seen));
        return false, tree;
      }
      if item.id in seen {
        RefusedAtOnce(heap, item, depth, old(nodes), old(seen));
        return false, tree;
      }
      PassesAtOnce(heap, item, depth, old(nodes), old(seen) + {item.id});
      seen := seen + {item.id};
      ghost var trees: seq<Tree> := [];
      if heap[item.id].ArrayObject? {
        var items := heap[item.id].items;
        for i := 0 to |items|
          invariant seen == old(seen) + {item.id} && nodes == old(nodes) + 1 + SizeAll(trees)
          invariant AdmitsAll(heap, items[..i], trees, depth + 1, old(nodes) + 1, seen)
        {
          AdmitsUnfolds(heap, items[..i], trees, depth + 1, old(nodes) + 1, seen);
          assert items[i] == Children(heap[item.id])[i];
          ghost var before := nodes;
          var fine, child := Visit(items[i], depth + 1);
          if !fine {
            RefusedChild(heap, item.id, trees, i, depth, old(nodes), old(seen), items[i], depth + 1, before,
              old(seen) + {item.id});
            return false, tree;
          }
          assert items[..i + 1] == items[..i] + [items[i]];
          AdmitsNext(heap, items[..i], trees, items[i], child, depth + 1, old(nodes) + 1, seen);
          trees := trees + [child];
        }
        assert items[..|items|] == items;
      } else {
        if !heap[item.id].PlainObject? {
          RefusedAtOnce(heap, item, depth, old(nodes), old(seen));
          return false, tree;
        }
        var entries := heap[item.id].entries;
        ghost var values := Values(entries);
        for i := 0 to |entries|
          invariant seen == old(seen) + {item.id} && nodes == old(nodes) + 1 + SizeAll(trees)
          invariant SafeKeys(entries[..i])
          invariant AdmitsAll(heap, values[..i], trees, depth + 1, old(nodes) + 1, seen)
        {
          if entries[i].key in DANGEROUS_KEYS {
            RefusedAtOnce(heap, item, depth, old(nodes), old(seen));
            return false, tree;
          }
          AdmitsUnfolds(heap, values[..i], trees, depth + 1, old(nodes) + 1, seen);
          assert entries[i].value == Children(heap[item.id])[i];
          ghost var before := nodes;
          var fine, child := Visit(entries[i].value, depth + 1);
          if !fine {
            RefusedChild(heap, item.id, trees, i, depth, old(nodes), old(seen), entries[i].value, depth + 1, before,
              old(seen) + {item.id});
            return false, tree;
          }
          assert values[..i + 1] == values[..i] + [values[i]];
          AdmitsNext(heap, values[..i], trees, values[i], child, depth + 1, old(nodes) + 1, seen);
          trees := trees + [child];
        }
        assert values[..|entries|] == values;
      }
      AdmitsObject(heap, item.id, trees, depth, old(nodes), old(seen));
      seen := seen - {item.id};
      ok, tree := true, Node(item.id, trees);
    }
  }

  /**
    The walk over a whole configuration: it passes exactly when the value unfolds to a tree at
    most twelve deep, of at most two thousand nodes, with only allowed leaves, containers and keys.
   */
  method AssertConfiguration(heap: Heap, value: Value) returns (ok: bool)
    requires Closed(heap) && Points(heap, value)
    ensures ok <==> exists t :: Admissible(heap, value, t)
  {
    var walk := new Walk(heap);
    ghost var tree;
    ok, tree := walk.Visit(value, 0);
    forall t ensures Admissible(heap, value, t) <==> Admits(heap, value, t, 0, 0, {}) {
      EmptyIsAvoided(t);
    }
  }
}
