/**
  Which ruleset configurations pass, said with the positions in a configuration: the paths of child
  numbers that lead somewhere. Sharing counts every path, and a cycle has endlessly many.
 */
module RulesetPaths {
  import opened RulesetConfig
  import opened Wrappers

  type Path = seq<nat>

  /** The child of that number, in an array or in the order of an object's keys. */
  function Child(o: HeapObject, n: nat): Option<Value> {
    match o
    case ArrayObject(items) => if n < |items| then Some(items[n]) else None
    case PlainObject(entries) => if n < |entries| then Some(entries[n].value) else None
    case _ => None
  }

  /** What is found by following the path from the value. */
  function At(heap: Heap, v: Value, path: Path): Option<Value>
    decreases |path|
  {
    if path == [] then Some(v)
    else if v.Ref? && v.id in heap && Child(heap[v.id], path[0]).Some? then
      At(heap, Child(heap[v.id], path[0]).value, path[1..])
    else None
  }

  /** Null, texts, booleans, finite numbers, arrays, and plain objects without the three keys. */
  predicate MayStand(heap: Heap, v: Value) {
    match v
    case Null => true
    case Text(_) => true
    case Boolean(_) => true
    case Number(finite) => finite
    case Unsupported => false
    case Ref(id) =>
      id in heap &&
      match heap[id]
      case ArrayObject(_) => true
      case PlainObject(entries) =>
        forall e :: e in entries ==> e.key != "__proto__" && e.key != "prototype" && e.key != "constructor"
      case _ => false
  }

  /** The positions, and that there are no others. */
  ghost predicate ArePositions(heap: Heap, v: Value, paths: set<Path>) {
    forall p: Path :: p in paths <==> At(heap, v, p).Some?
  }

  /** Every position is at most so deep and holds what may stand in a configuration. */
  ghost predicate AllMayStand(heap: Heap, v: Value, depth: int) {
    forall p: Path :: At(heap, v, p).Some? ==> |p| <= depth && MayStand(heap, At(heap, v, p).value)
  }

  // ----- Positions of a tree -----

  function Below(n: nat, paths: set<Path>): set<Path> {
    set p | p in paths :: [n] + p
  }

  function Positions(t: Tree): set<Path>
    decreases t
  {
    match t
    case Leaf(_) => {[]}
    case Node(_, children) => {[]} + PositionsOf(children, 0)
  }

  /** The positions of trees that are children from number `n` on. */
  function PositionsOf(ts: seq<Tree>, n: nat): set<Path>
    decreases ts
  {
    if ts == [] then {} else Below(n, Positions(ts[0])) + PositionsOf(ts[1..], n + 1)
  }

  lemma {:induction false} BelowCount(n: nat, paths: set<Path>)
    ensures |Below(n, paths)| == |paths|
    decreases |paths|
  {
    if paths == {} {
    } else {
      var p :| p in paths;
      BelowCount(n, paths - {p});
      forall q ensures q in Below(n, paths) <==> q == [n] + p || q in Below(n, paths - {p}) {
      }
      assert Below(n, paths) == Below(n, paths - {p}) + {[n] + p};
      assert [n] + p !in Below(n, paths - {p}) by {
        forall q | q in paths - {p} ensures [n] + q != [n] + p {
          assert ([n] + q)[1..] == q && ([n] + p)[1..] == p;
        }
      }
    }
  }

  lemma {:induction false} PositionsOfStart(ts: seq<Tree>, n: nat)
    ensures forall p :: p in PositionsOf(ts, n) ==> p != [] && n <= p[0]
    decreases ts
  {
    if ts != [] {
      PositionsOfStart(ts[1..], n + 1);
    }
  }

  lemma {:induction false} PositionCount(t: Tree)
    ensures |Positions(t)| == Size(t)
    decreases t
  {
    if t.Node? {
      PositionsCount(t.children, 0);
      PositionsOfStart(t.children, 0);
    }
  }

  lemma {:induction false} PositionsCount(ts: seq<Tree>, n: nat)
    ensures |PositionsOf(ts, n)| == SizeAll(ts)
    decreases ts
  {
    if ts != [] {
      PositionCount(ts[0]);
      PositionsCount(ts[1..], n + 1);
      PositionsOfStart(ts[1..], n + 1);
      BelowCount(n, Positions(ts[0]));
      assert Below(n, Positions(ts[0])) !! PositionsOf(ts[1..], n + 1);
    }
  }

  // ----- Positions of a value and of its unfolding -----

  lemma ChildIs(o: HeapObject, n: nat)
    ensures Child(o, n) == if n < |Children(o)| then Some(Children(o)[n]) else None
  {
  }

  lemma {:induction false} PositionsAgree(heap: Heap, v: Value, t: Tree, p: Path)
    requires Unfolds(heap, v, t)
    ensures p in Positions(t) <==> At(heap, v, p).Some?
    decreases t
  {
    if t.Node? {
      PositionsOfStart(t.children, 0);
      if p != [] {
        ChildIs(heap[t.id], p[0]);
        ChildPositionsAgree(heap, Children(heap[t.id]), t.children, 0, p);
      }
    }
  }

  lemma {:induction false} ChildPositionsAgree(heap: Heap, vs: seq<Value>, ts: seq<Tree>, n: nat, p: Path)
    requires UnfoldsAll(heap, vs, ts) && p != []
    ensures p in PositionsOf(ts, n) <==> n <= p[0] < n + |vs| && At(heap, vs[p[0] - n], p[1..]).Some?
    decreases ts
  {
    if ts != [] {
      PositionsOfStart(ts[1..], n + 1);
      PositionsAgree(heap, vs[0], ts[0], p[1..]);
      ChildPositionsAgree(heap, vs[1..], ts[1..], n + 1, p);
      assert p in Below(n, Positions(ts[0])) <==> p[0] == n && p[1..] in Positions(ts[0]) by {
        assert p == [p[0]] + p[1..];
        forall q | q in Positions(ts[0]) && p == [n] + q ensures p[0] == n && p[1..] == q {
        }
      }
    }
  }

  // ----- Limits -----

  lemma MayStandIff(heap: Heap, v: Value, t: Tree)
    requires Unfolds(heap, v, t)
    ensures MayStand(heap, v) <==> if t.Leaf? then AllowedLeaf(t.value) else AllowedObject(heap[t.id])
  {
    if t.Node? && heap[t.id].PlainObject? {
      var entries := heap[t.id].entries;
      assert forall i :: 0 <= i < |entries| ==> entries[i] in entries;
    }
  }

  lemma {:induction false} LimitsIff(heap: Heap, v: Value, t: Tree, depth: int)
    requires Unfolds(heap, v, t)
    ensures Allowed(heap, t) && Shallow(t, depth) <==> AllMayStand(heap, v, depth)
    decreases t
  {
    hide MayStand, AllMayStand, AllowedLeaf, AllowedObject, Unfolds, UnfoldsAll, Allowed, Shallow;
    MayStandIff(heap, v, t);
    AllMayStandHere(heap, v, depth);
    LimitsHere(heap, t, depth);
    if t.Node? {
      UnfoldsBelow(heap, v, t);
      assert ValuesBelow(heap, v) == Children(heap[t.id]);
      ChildLimitsIff(heap, Children(heap[t.id]), t.children, depth - 1);
    } else {
      UnfoldsLeaf(heap, v, t);
    }
  }

  lemma LimitsHere(heap: Heap, t: Tree, depth: int)
    ensures Allowed(heap, t) && Shallow(t, depth) <==>
            && depth >= 0
            && if t.Leaf? then AllowedLeaf(t.value)
               else
                 && t.id in heap && AllowedObject(heap[t.id])
                 && AllAllowed(heap, t.children) && AllShallow(t.children, depth - 1)
  {
    hide AllowedLeaf, AllowedObject, AllAllowed, AllShallow;
  }

  lemma UnfoldsBelow(heap: Heap, v: Value, t: Tree)
    requires Unfolds(heap, v, t) && t.Node?
    ensures v == Ref(t.id) && t.id in heap && UnfoldsAll(heap, Children(heap[t.id]), t.children)
  {
  }

  lemma UnfoldsLeaf(heap: Heap, v: Value, t: Tree)
    requires Unfolds(heap, v, t) && t.Leaf?
    ensures !v.Ref?
  {
  }

  /** The values below `v`, if it refers to an object. */
  function ValuesBelow(heap: Heap, v: Value): seq<Value> {
    if v.Ref? && v.id in heap then Children(heap[v.id]) else []
  }

  lemma AllMayStandHere(heap: Heap, v: Value, depth: int)
    ensures AllMayStand(heap, v, depth) <==>
            && depth >= 0 && MayStand(heap, v)
            && forall i :: 0 <= i < |ValuesBelow(heap, v)| ==> AllMayStand(heap, ValuesBelow(heap, v)[i], depth - 1)
  {
    hide MayStand, Children;
    var below := ValuesBelow(heap, v);
    if AllMayStand(heap, v, depth) {
      assert At(heap, v, []).Some?;
      forall i | 0 <= i < |below| ensures AllMayStand(heap, below[i], depth - 1) {
        ChildIs(heap[v.id], i);
        forall p: Path | At(heap, below[i], p).Some?
          ensures |p| <= depth - 1 && MayStand(heap, At(heap, below[i], p).value)
        {
          assert ([i] + p)[1..] == p;
          assert At(heap, v, [i] + p) == At(heap, below[i], p);
        }
      }
    } else if depth >= 0 && MayStand(heap, v) {
      var p: Path :| At(heap, v, p).Some? && !(|p| <= depth && MayStand(heap, At(heap, v, p).value));
      assert p != [];
      ChildIs(heap[v.id], p[0]);
      assert At(heap, below[p[0]], p[1..]).Some?;
    }
  }

  lemma {:induction false} ChildLimitsIff(heap: Heap, vs: seq<Value>, ts: seq<Tree>, depth: int)
    requires UnfoldsAll(heap, vs, ts)
    ensures AllAllowed(heap, ts) && AllShallow(ts, depth)
       <==> forall i :: 0 <= i < |vs| ==> AllMayStand(heap, vs[i], depth)
    decreases ts
  {
    hide AllMayStand, Allowed, Shallow;
    if ts != [] {
      LimitsIff(heap, vs[0], ts[0], depth);
      ChildLimitsIff(heap, vs[1..], ts[1..], depth);
      assert forall i :: 0 < i < |vs| ==> vs[i] == vs[1..][i - 1];
    }
  }

  // ----- Growing the tree -----

  /** A value whose positions all lie within some depth has an unfolding. */
  lemma {:induction false} HasUnfolding(heap: Heap, v: Value, depth: int) returns (t: Tree)
    requires AllMayStand(heap, v, depth)
    ensures Unfolds(heap, v, t)
    decreases depth + 1, 0
  {
    AllMayStandHere(heap, v, depth);
    hide AllMayStand;
    if v.Ref? {
      assert v.id in heap && ValuesBelow(heap, v) == Children(heap[v.id]);
      var ts := HaveUnfoldings(heap, Children(heap[v.id]), depth - 1);
      t := Node(v.id, ts);
    } else {
      t := Leaf(v);
    }
  }

  lemma {:induction false} HaveUnfoldings(heap: Heap, vs: seq<Value>, depth: int) returns (ts: seq<Tree>)
    requires depth >= -1
    requires forall i :: 0 <= i < |vs| ==> AllMayStand(heap, vs[i], depth)
    ensures UnfoldsAll(heap, vs, ts)
    decreases depth + 1, 1 + |vs|
  {
    hide AllMayStand;
    if vs == [] {
      ts := [];
    } else {
      var t := HasUnfolding(heap, vs[0], depth);
      assert forall i :: 0 <= i < |vs[1..]| ==> vs[1..][i] == vs[i + 1];
      var rest := HaveUnfoldings(heap, vs[1..], depth);
      ts := [t] + rest;
    }
  }

  /** Finitely many positions: at most two thousand, each at most twelve steps deep. */
  ghost predicate WithinLimits(heap: Heap, v: Value) {
    AllMayStand(heap, v, 12) && exists paths: set<Path> :: ArePositions(heap, v, paths) && |paths| <= 2000
  }

  /**
    A configuration passes exactly when it has at most two thousand positions, none deeper than
    twelve steps, and each holds what may stand in a configuration.
   */
  lemma PassesIff(heap: Heap, v: Value)
    ensures (exists t :: Admissible(heap, v, t)) <==> WithinLimits(heap, v)
  {
    hide AllMayStand, Unfolds, Allowed, Shallow, Size;
    if t :| Admissible(heap, v, t) {
      LimitsIff(heap, v, t, 12);
      PositionCount(t);
      forall p: Path ensures p in Positions(t) <==> At(heap, v, p).Some? {
        PositionsAgree(heap, v, t, p);
      }
      assert ArePositions(heap, v, Positions(t));
    }
    if WithinLimits(heap, v) {
      var paths: set<Path> :| ArePositions(heap, v, paths) && |paths| <= 2000;
      var t := HasUnfolding(heap, v, 12);
      LimitsIff(heap, v, t, 12);
      PositionCount(t);
      forall p: Path ensures p in Positions(t) <==> p in paths {
        PositionsAgree(heap, v, t, p);
      }
      assert Positions(t) == paths;
      assert Admissible(heap, v, t);
    }
  }
}
