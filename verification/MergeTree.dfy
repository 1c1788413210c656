/**
 Deep merge on values: what mergeDeep computes, free of the heap, and its algebra.
 A node is an object; a leaf is anything else (primitive, array, function, null).
 */
module MergeTree {
  import opened JsPrims

  // The name __proto__ leads to the prototype itself and is no key of these trees.
  type Key = k: string | k != "__proto__" witness ""

  // Every object inherits a function under each of these names.
  const INHERITED: set<Key> := {
    "constructor", "hasOwnProperty", "isPrototypeOf", "propertyIsEnumerable", "toLocaleString", "toString", "valueOf",
    "__defineGetter__", "__defineSetter__", "__lookupGetter__", "__lookupSetter__"
  }

  // Arrays and functions are never entered by the merge: only their identity matters.
  datatype Leaf = Plain(p: Prim) | ArrayRef(id: nat) | Builtin(name: Key)

  datatype Tree = Leaf(v: Leaf) | Node(kids: map<Key, Tree>)

  const EMPTY: Tree := Node(map[])

  predicate LeafTruthy(v: Leaf) {
    v.Plain? ==> Truthy(v.p)
  }

  // A truthy leaf: the merge will not put an object in its place.
  predicate Stays(t: Tree) {
    t.Leaf? && LeafTruthy(t.v)
  }

  // What the merge descends into at key k of target t: a falsy or absent value gives way to {}.
  function Base(t: Tree, k: Key): Tree
    requires t.Node?
  {
    if k in t.kids && (t.kids[k].Node? || Stays(t.kids[k])) then t.kids[k] else EMPTY
  }

  // An inherited function stands where the target would have to hold an object: it passes
  // for a value, so no room is made.
  predicate Shadowed(t: Tree, k: Key)
    requires t.Node?
  {
    k !in t.kids && k in INHERITED
  }

  function Merge(t: Tree, s: Tree): Tree
    decreases s
  {
    if t.Node? && s.Node? then
      Node(map k | k in t.kids.Keys + s.kids.Keys && !Lost(t, s, k) :: MergeAt(t, s, k))
    else t
  }

  // The source's object under a shadowed name goes nowhere.
  predicate Lost(t: Tree, s: Tree, k: Key)
    requires t.Node? && s.Node?
  {
    k in s.kids && s.kids[k].Node? && Shadowed(t, k)
  }

  // The merged value at key k.
  function MergeAt(t: Tree, s: Tree, k: Key): Tree
    requires t.Node? && s.Node? && (k in t.kids || k in s.kids)
    decreases s, 0
  {
    if k !in s.kids then t.kids[k]
    else if s.kids[k].Leaf? then s.kids[k]
    else Merge(Base(t, k), s.kids[k])
  }

  // One turn of the key loop: the source's value u arrives at key k of the target.
  function Arrive(t: Tree, k: Key, u: Tree): Tree
    requires t.Node?
  {
    if u.Node? && Shadowed(t, k) then t else Node(t.kids[k := if u.Leaf? then u else Merge(Base(t, k), u)])
  }

  // The target with room for an object at key k.
  function Room(t: Tree, k: Key): Tree
    requires t.Node?
  {
    if Shadowed(t, k) then t else Node(t.kids[k := Base(t, k)])
  }

  // The target after the recursive call on key k: a function takes nothing in.
  function Filled(t: Tree, k: Key, u: Tree): Tree
    requires t.Node?
  {
    if k in t.kids then Node(t.kids[k := Merge(t.kids[k], u)]) else t
  }

  // An object arrives in two steps: make room for it, then merge it in.
  lemma {:induction false} ObjectArrives(t: Tree, k: Key, u: Tree)
    requires t.Node? && u.Node?
    ensures Filled(Room(t, k), k, u) == Arrive(t, k, u)
  {
    SameNodes(Filled(Room(t, k), k, u), Arrive(t, k, u));
  }

  // The target t0 after the keys of s0 outside todo have arrived.
  ghost predicate PartlyMerged(t: Tree, t0: Tree, s0: Tree, todo: set<Key>)
    requires t.Node? && t0.Node? && s0.Node?
  {
    forall k: Key :: ValueAt(t, k) == if k in todo then ValueAt(t0, k) else ValueAt(Merge(t0, s0), k)
  }

  lemma {:induction false} NothingArrived(t0: Tree, s0: Tree)
    requires t0.Node? && s0.Node?
    ensures PartlyMerged(t0, t0, s0, s0.kids.Keys)
  {
    forall k: Key | k !in s0.kids.Keys ensures ValueAt(t0, k) == ValueAt(Merge(t0, s0), k) {
      MergedAt(t0, s0, k);
    }
  }

  lemma {:induction false} KeyArrives(t: Tree, t0: Tree, s0: Tree, todo: set<Key>, key: Key)
    requires t.Node? && t0.Node? && s0.Node?
    requires PartlyMerged(t, t0, s0, todo) && key in todo && todo <= s0.kids.Keys
    ensures PartlyMerged(Arrive(t, key, s0.kids[key]), t0, s0, todo - {key})
  {
    assert ValueAt(t, key) == ValueAt(t0, key);
    MergedAt(t0, s0, key);
  }

  lemma {:induction false} AllArrived(t: Tree, t0: Tree, s0: Tree)
    requires t.Node? && t0.Node? && s0.Node?
    requires PartlyMerged(t, t0, s0, {})
    ensures t == Merge(t0, s0)
  {
    SameEverywhere(t, Merge(t0, s0));
  }

  function MergeAll(t: Tree, sources: seq<Tree>): Tree
    decreases sources
  {
    if sources == [] then t else MergeAll(Merge(t, sources[0]), sources[1..])
  }

  lemma {:induction false} SameNodes(t: Tree, u: Tree)
    requires t.Node? && u.Node? && t.kids.Keys == u.kids.Keys
    requires forall k :: k in t.kids ==> t.kids[k] == u.kids[k]
    ensures t == u
  {
    assert t.kids == u.kids;
  }

  // --- Key by key -------------------------------------------------------------------------

  datatype Reading = Absent | Found(t: Tree)

  function ValueAt(t: Tree, k: Key): Reading {
    if t.Node? && k in t.kids then Found(t.kids[k]) else Absent
  }

  // What the target's and the source's values at one key make of each other.
  function Meet(a: Reading, c: Reading, k: Key): Reading {
    if c.Absent? then a
    else if c.t.Leaf? then c
    else if a.Absent? then if k in INHERITED then Absent else Found(Merge(EMPTY, c.t))
    else if a.t.Leaf? && !Stays(a.t) then Found(Merge(EMPTY, c.t))
    else Found(Merge(a.t, c.t))
  }

  lemma {:induction false} MergedAt(t: Tree, s: Tree, k: Key)
    requires t.Node? && s.Node?
    ensures ValueAt(Merge(t, s), k) == Meet(ValueAt(t, k), ValueAt(s, k), k)
  {
  }

  lemma {:induction false} SameEverywhere(t: Tree, u: Tree)
    requires t.Node? && u.Node? && forall k: Key :: ValueAt(t, k) == ValueAt(u, k)
    ensures t == u
  {
    forall k: Key ensures k in t.kids <==> k in u.kids {
      assert ValueAt(t, k) == ValueAt(u, k);
    }
    assert t.kids.Keys == u.kids.Keys;
    forall k | k in t.kids ensures t.kids[k] == u.kids[k] {
      assert ValueAt(t, k) == ValueAt(u, k);
    }
    SameNodes(t, u);
  }

  lemma {:induction false} RightIdentity(t: Tree)
    ensures Merge(t, EMPTY) == t
  {
    if t.Node? {
      SameNodes(Merge(t, EMPTY), t);
    }
  }

  // --- Merging into nothing ---------------------------------------------------------------

  // No object of s, at any depth, sits under an inherited name.
  predicate Ordinary(s: Tree)
    decreases s
  {
    s.Node? ==> forall k :: k in s.kids && s.kids[k].Node? ==> k !in INHERITED && Ordinary(s.kids[k])
  }

  // s without its objects under inherited names.
  function Pruned(s: Tree): Tree
    decreases s
  {
    if s.Leaf? then s
    else Node(map k | k in s.kids && !(s.kids[k].Node? && k in INHERITED) :: Pruned(s.kids[k]))
  }

  // Merging into an empty object copies the source but for those objects.
  lemma {:induction false} IntoEmpty(s: Tree)
    requires s.Node?
    ensures Merge(EMPTY, s) == Pruned(s)
    decreases s
  {
    forall k | k in s.kids ensures ValueAt(Merge(EMPTY, s), k) == ValueAt(Pruned(s), k) {
      if s.kids[k].Node? {
        IntoEmpty(s.kids[k]);
      }
    }
    SameEverywhere(Merge(EMPTY, s), Pruned(s));
  }

  lemma {:induction false} PrunedExactly(s: Tree)
    ensures Pruned(s) == s <==> Ordinary(s)
    decreases s
  {
    if s.Node? {
      forall k | k in s.kids
        ensures ValueAt(Pruned(s), k) == ValueAt(s, k) <==> (s.kids[k].Node? ==> k !in INHERITED && Ordinary(s.kids[k]))
      {
        PrunedExactly(s.kids[k]);
      }
      if Ordinary(s) {
        forall k: Key ensures ValueAt(Pruned(s), k) == ValueAt(s, k) {
        }
        SameEverywhere(Pruned(s), s);
      }
    }
  }

  lemma {:induction false} PrunedIsOrdinary(s: Tree)
    ensures Ordinary(Pruned(s))
    decreases s
  {
    if s.Node? {
      forall k | k in Pruned(s).kids ensures Ordinary(Pruned(s).kids[k]) {
        PrunedIsOrdinary(s.kids[k]);
      }
    }
  }

  // Merging into an empty object copies the source exactly when the source is ordinary.
  lemma {:induction false} LeftIdentityExactly(s: Tree)
    requires s.Node?
    ensures Merge(EMPTY, s) == s <==> Ordinary(s)
  {
    IntoEmpty(s);
    PrunedExactly(s);
  }

  // These eleven names lose their objects, and no others do.
  lemma {:induction false} LostNames(k: Key, u: Tree)
    requires u.Node?
    ensures Merge(EMPTY, Node(map[k := u])) == EMPTY <==>
            k == "constructor" || k == "hasOwnProperty" || k == "isPrototypeOf" || k == "propertyIsEnumerable" ||
            k == "toLocaleString" || k == "toString" || k == "valueOf" || k == "__defineGetter__" ||
            k == "__defineSetter__" || k == "__lookupGetter__" || k == "__lookupSetter__"
  {
    MergedAt(EMPTY, Node(map[k := u]), k);
    if k in INHERITED {
      SameNodes(Merge(EMPTY, Node(map[k := u])), EMPTY);
    }
  }

  // An object under the name constructor is lost.
  lemma {:induction false} ConstructorIsLost(u: Tree)
    requires u.Node?
    ensures Merge(EMPTY, Node(map["constructor" := u])) == EMPTY
  {
    var s := Node(map["constructor" := u]);
    assert Lost(EMPTY, s, "constructor");
    SameNodes(Merge(EMPTY, s), EMPTY);
  }

  // Merging the same source twice is merging it once.
  lemma {:induction false} Idempotent(t: Tree, s: Tree)
    ensures Merge(Merge(t, s), s) == Merge(t, s)
    decreases s
  {
    if t.Node? && s.Node? {
      var m := Merge(t, s);
      forall k: Key ensures ValueAt(Merge(m, s), k) == ValueAt(m, k) {
        MergedAt(t, s, k);
        MergedAt(m, s, k);
        if k in s.kids && s.kids[k].Node? {
          Idempotent(Base(t, k), s.kids[k]);
        }
      }
      SameEverywhere(Merge(m, s), m);
    }
  }

  // --- Replacement ------------------------------------------------------------------------

  // z covers x: merging z over x leaves nothing of x and loses nothing of z.
  predicate Covers(z: Tree, x: Tree)
    requires z.Node? && x.Node?
    decreases x, 1
  {
    && (forall k :: k in x.kids ==> CoversAt(z, x, k))
    && (forall k :: k in z.kids && k !in x.kids && z.kids[k].Node? ==> k !in INHERITED && Ordinary(z.kids[k]))
  }

  predicate CoversAt(z: Tree, x: Tree, k: Key)
    requires z.Node? && x.Node? && k in x.kids
    decreases x, 0
  {
    && k in z.kids
    && (z.kids[k].Node? ==>
      if x.kids[k].Node? then Covers(z.kids[k], x.kids[k]) else !Stays(x.kids[k]) && Ordinary(z.kids[k]))
  }

  lemma {:induction false} CoversAtIsReplacement(z: Tree, x: Tree, k: Key)
    requires z.Node? && x.Node? && k in x.kids
    ensures CoversAt(z, x, k) <==> ValueAt(Merge(x, z), k) == ValueAt(z, k)
    decreases x, 0
  {
    MergedAt(x, z, k);
    if k in z.kids && z.kids[k].Node? {
      if x.kids[k].Node? {
        CoversIsReplacement(z.kids[k], x.kids[k]);
      } else {
        LeftIdentityExactly(z.kids[k]);
      }
    }
  }

  lemma {:induction false} CoversIsReplacement(z: Tree, x: Tree)
    requires z.Node? && x.Node?
    ensures Covers(z, x) <==> Merge(x, z) == z
    decreases x, 1
  {
    forall k | k in x.kids ensures CoversAt(z, x, k) <==> ValueAt(Merge(x, z), k) == ValueAt(z, k) {
      CoversAtIsReplacement(z, x, k);
    }
    forall k: Key | k !in x.kids
      ensures ValueAt(Merge(x, z), k) == ValueAt(z, k)
        <==> (k in z.kids && z.kids[k].Node? ==> k !in INHERITED && Ordinary(z.kids[k]))
    {
      MergedAt(x, z, k);
      if k in z.kids && z.kids[k].Node? {
        LeftIdentityExactly(z.kids[k]);
      }
    }
    if Covers(z, x) {
      SameEverywhere(Merge(x, z), z);
    }
  }

  // --- Sources that add nothing -----------------------------------------------------------

  // Merging c into a changes nothing.
  predicate Inert(a: Tree, c: Tree)
    requires a.Node? && c.Node?
    decreases c, 1
  {
    forall k :: k in c.kids ==> InertAt(a, c, k)
  }

  predicate InertAt(a: Tree, c: Tree, k: Key)
    requires a.Node? && c.Node? && k in c.kids
    decreases c, 0
  {
    if k !in a.kids then c.kids[k].Node? && k in INHERITED
    else if c.kids[k].Leaf? then a.kids[k] == c.kids[k]
    else if a.kids[k].Leaf? then Stays(a.kids[k])
    else Inert(a.kids[k], c.kids[k])
  }

  lemma {:induction false} InertExactly(a: Tree, c: Tree)
    requires a.Node? && c.Node?
    ensures Inert(a, c) <==> Merge(a, c) == a
    decreases c
  {
    forall k: Key ensures ValueAt(Merge(a, c), k) == ValueAt(a, k) <==> (k in c.kids ==> InertAt(a, c, k)) {
      MergedAt(a, c, k);
      if k in c.kids && k in a.kids && c.kids[k].Node? && a.kids[k].Node? {
        InertExactly(a.kids[k], c.kids[k]);
      }
    }
    if Inert(a, c) {
      SameEverywhere(Merge(a, c), a);
    }
  }

  // It is all one to a whether c is pruned before it is merged in.
  predicate PruningMoot(a: Tree, c: Tree)
    requires a.Node? && c.Node?
    decreases c, 1
  {
    forall k :: k in c.kids && k in a.kids && c.kids[k].Node? ==> PruningMootAt(a, c, k)
  }

  predicate PruningMootAt(a: Tree, c: Tree, k: Key)
    requires a.Node? && c.Node? && k in c.kids && k in a.kids && c.kids[k].Node?
    decreases c, 0
  {
    if a.kids[k].Leaf? then k in INHERITED ==> Stays(a.kids[k])
    else if k in INHERITED then Inert(a.kids[k], c.kids[k])
    else PruningMoot(a.kids[k], c.kids[k])
  }

  lemma {:induction false} PruningMootExactly(a: Tree, c: Tree)
    requires a.Node? && c.Node?
    ensures PruningMoot(a, c) <==> Merge(a, Pruned(c)) == Merge(a, c)
    decreases c, 1
  {
    var p := Pruned(c);
    forall k: Key
      ensures ValueAt(Merge(a, p), k) == ValueAt(Merge(a, c), k)
        <==> (k in c.kids && k in a.kids && c.kids[k].Node? ==> PruningMootAt(a, c, k))
    {
      PruningMootThere(a, c, k);
    }
    if PruningMoot(a, c) {
      SameEverywhere(Merge(a, p), Merge(a, c));
    }
  }

  lemma {:induction false} PruningMootThere(a: Tree, c: Tree, k: Key)
    requires a.Node? && c.Node?
    ensures ValueAt(Merge(a, Pruned(c)), k) == ValueAt(Merge(a, c), k)
      <==> (k in c.kids && k in a.kids && c.kids[k].Node? ==> PruningMootAt(a, c, k))
    decreases c, 0
  {
    MergedAt(a, Pruned(c), k);
    MergedAt(a, c, k);
    if k in c.kids && c.kids[k].Node? {
      var u := c.kids[k];
      IntoEmpty(u);
      PrunedTwice(u);
      if k in a.kids && a.kids[k].Node? {
        InertExactly(a.kids[k], u);
        PruningMootExactly(a.kids[k], u);
      }
    }
  }

  lemma {:induction false} PrunedTwice(s: Tree)
    requires s.Node?
    ensures Merge(EMPTY, Pruned(s)) == Pruned(s)
  {
    PrunedIsOrdinary(s);
    LeftIdentityExactly(Pruned(s));
  }

  // --- Associativity ----------------------------------------------------------------------

  // Where regrouping is harmless, at every object of the last tree:
  // the middle tree holds nothing there, and pruning the object is all one to the first tree;
  // or a truthy leaf stops it either way; or an object, and regrouping below is harmless;
  // or a falsy leaf, and the object covers what the first tree holds, if the key is not inherited.
  predicate Regroups(x: Tree, y: Tree, z: Tree)
    requires x.Node? && y.Node? && z.Node?
    decreases y, 1
  {
    forall k :: k in z.kids && z.kids[k].Node? ==> RegroupsAt(x, y, z, k)
  }

  predicate RegroupsAt(x: Tree, y: Tree, z: Tree, k: Key)
    requires x.Node? && y.Node? && z.Node?
    requires k in z.kids && z.kids[k].Node?
    decreases y, 0
  {
    if k !in y.kids then k in x.kids ==> PruningMootAt(x, z, k)
    else if Stays(y.kids[k]) || (Shadowed(x, k) && y.kids[k].Node?) then true
    else if y.kids[k].Node? then Base(x, k).Node? ==> Regroups(Base(x, k), y.kids[k], z.kids[k])
    else if k in x.kids then !Stays(x.kids[k]) && (x.kids[k].Node? ==> Covers(Pruned(z.kids[k]), x.kids[k]))
    else k !in INHERITED
  }

  lemma {:induction false} RegroupAt(x: Tree, y: Tree, z: Tree, k: Key)
    requires x.Node? && y.Node? && z.Node?
    ensures ValueAt(Merge(Merge(x, y), z), k) == ValueAt(Merge(x, Merge(y, z)), k)
        <==> (k in z.kids && z.kids[k].Node? ==> RegroupsAt(x, y, z, k))
    decreases y, 0
  {
    MergedAt(x, y, k);
    MergedAt(y, z, k);
    MergedAt(Merge(x, y), z, k);
    MergedAt(x, Merge(y, z), k);
    if k in z.kids && z.kids[k].Node? {
      var c := z.kids[k];
      IntoEmpty(c);
      PrunedTwice(c);
      if k !in y.kids {
        PruningMootThere(x, z, k);
        MergedAt(x, z, k);
        MergedAt(x, Pruned(z), k);
      } else if y.kids[k].Node? {
        if Base(x, k).Node? {
          AssociativeExactly(Base(x, k), y.kids[k], c);
        }
      } else if k in x.kids && x.kids[k].Node? {
        CoversIsReplacement(Pruned(c), x.kids[k]);
      }
    }
  }

  // Merging is associative exactly where Regroups holds.
  lemma {:induction false} AssociativeExactly(x: Tree, y: Tree, z: Tree)
    requires x.Node? && y.Node? && z.Node?
    ensures Merge(Merge(x, y), z) == Merge(x, Merge(y, z)) <==> Regroups(x, y, z)
    decreases y, 1
  {
    var l, r := Merge(Merge(x, y), z), Merge(x, Merge(y, z));
    forall k: Key
      ensures ValueAt(l, k) == ValueAt(r, k) <==> (k in z.kids && z.kids[k].Node? ==> RegroupsAt(x, y, z, k))
    {
      RegroupAt(x, y, z, k);
    }
    if Regroups(x, y, z) {
      SameEverywhere(l, r);
    }
  }

  // No path holds an object in one tree and a leaf in the other.
  predicate Compatible(y: Tree, z: Tree)
    requires y.Node? && z.Node?
    decreases y
  {
    forall k :: k in y.kids && k in z.kids ==>
      && (y.kids[k].Node? <==> z.kids[k].Node?)
      && (y.kids[k].Node? && z.kids[k].Node? ==> Compatible(y.kids[k], z.kids[k]))
  }

  lemma {:induction false} CompatibleRegroups(x: Tree, y: Tree, z: Tree)
    requires x.Node? && y.Node? && z.Node? && Compatible(y, z) && Ordinary(z)
    ensures Regroups(x, y, z)
    decreases y
  {
    forall k | k in z.kids && z.kids[k].Node? ensures RegroupsAt(x, y, z, k) {
      if k in y.kids {
        if Base(x, k).Node? {
          CompatibleRegroups(Base(x, k), y.kids[k], z.kids[k]);
        }
      } else if k in x.kids && x.kids[k].Node? {
        PrunedExactly(z.kids[k]);
        PruningMootExactly(x.kids[k], z.kids[k]);
      }
    }
  }

  // Compatible sources may be merged into each other first, whatever the target, when the last
  // one is ordinary.
  lemma {:induction false} AssociativeOnCompatible(x: Tree, y: Tree, z: Tree)
    requires x.Node? && y.Node? && z.Node? && Compatible(y, z) && Ordinary(z)
    ensures Merge(Merge(x, y), z) == Merge(x, Merge(y, z))
  {
    CompatibleRegroups(x, y, z);
    AssociativeExactly(x, y, z);
  }

  // --- Reading back -----------------------------------------------------------------------

  function Read(t: Tree, path: seq<Key>): Reading
    decreases path
  {
    if path == [] then Found(t)
    else if t.Node? && path[0] in t.kids then Read(t.kids[path[0]], path[1..])
    else Absent
  }

  // Before the end of the path, t has a truthy leaf on it, or nothing where the name is inherited.
  predicate Cut(t: Tree, path: seq<Key>)
    decreases path
  {
    && |path| > 1 && t.Node?
    && (Shadowed(t, path[0]) || Stays(Base(t, path[0])) || Cut(Base(t, path[0]), path[1..]))
  }

  // The path leaves s at a key that s does not have.
  predicate Untouched(s: Tree, path: seq<Key>)
    decreases path
  {
    s.Node? && path != [] && (path[0] !in s.kids || Untouched(s.kids[path[0]], path[1..]))
  }

  // A leaf of the source is read back, or its path is cut in the target.
  lemma {:induction false} SourceLeavesReadBack(t: Tree, s: Tree, path: seq<Key>)
    requires t.Node? && path != [] && Read(s, path).Found? && Read(s, path).t.Leaf?
    ensures Read(Merge(t, s), path) == if Cut(t, path) then Absent else Read(s, path)
    decreases path
  {
    var k := path[0];
    MergedAt(t, s, k);
    if |path| > 1 && !Shadowed(t, k) && !Stays(Base(t, k)) {
      SourceLeavesReadBack(Base(t, k), s.kids[k], path[1..]);
    }
  }

  // What an object u of the source makes of the value that the target has at its path.
  function Settled(here: Reading, u: Tree, path: seq<Key>): Reading {
    if here.Absent? && path != [] && path[|path| - 1] in INHERITED then Absent
    else if here.Found? && Stays(here.t) then here
    else Found(Merge(if here.Found? && here.t.Node? then here.t else EMPTY, u))
  }

  // An object of the source is merged over what the target has at its path, a truthy leaf stays,
  // and a cut path holds nothing.
  lemma {:induction false} SourceObjectsMerge(t: Tree, s: Tree, path: seq<Key>)
    requires t.Node? && Read(s, path).Found? && Read(s, path).t.Node?
    ensures Read(Merge(t, s), path) ==
            if Cut(t, path) then Absent else Settled(Read(t, path), Read(s, path).t, path)
    decreases path
  {
    if |path| == 1 {
      ObjectSettles(t, s, path[0]);
      assert path == [path[0]];
    } else if path != [] {
      var k, rest := path[0], path[1..];
      MergedAt(t, s, k);
      if !Shadowed(t, k) && !Stays(Base(t, k)) {
        SourceObjectsMerge(Base(t, k), s.kids[k], rest);
        assert Read(t, path) == Read(Base(t, k), rest);
      }
    }
  }

  lemma {:induction false} ObjectSettles(t: Tree, s: Tree, k: Key)
    requires t.Node? && s.Node? && k in s.kids && s.kids[k].Node?
    ensures Read(Merge(t, s), [k]) == Settled(Read(t, [k]), s.kids[k], [k])
  {
    MergedAt(t, s, k);
    assert forall u: Tree :: u.Node? ==> Read(u, [k]) == ValueAt(u, k);
  }

  // What the source does not touch reads as before.
  lemma {:induction false} UntouchedReadsAsBefore(t: Tree, s: Tree, path: seq<Key>)
    requires Untouched(s, path)
    ensures Read(Merge(t, s), path) == Read(t, path)
    decreases path
  {
    if t.Node? && path[0] in s.kids {
      MergedAt(t, s, path[0]);
      UntouchedReadsAsBefore(Base(t, path[0]), s.kids[path[0]], path[1..]);
    }
  }

  // --- Several sources --------------------------------------------------------------------

  lemma {:induction false} MergeAllOne(t: Tree, s: Tree)
    ensures MergeAll(t, []) == t && MergeAll(t, [s]) == Merge(t, s)
  {
    assert [s][1..] == [];
  }

  // The sources are merged one after the other.
  lemma {:induction false} MergeAllConcat(t: Tree, xs: seq<Tree>, ys: seq<Tree>)
    ensures MergeAll(t, xs + ys) == MergeAll(MergeAll(t, xs), ys)
    decreases xs
  {
    if xs == [] {
      assert xs + ys == ys;
    } else {
      assert (xs + ys)[1..] == xs[1..] + ys;
      MergeAllConcat(Merge(t, xs[0]), xs[1..], ys);
    }
  }

  lemma {:induction false} MergeAllStaysNode(t: Tree, sources: seq<Tree>)
    ensures t.Node? <==> MergeAll(t, sources).Node?
    ensures t.Leaf? ==> MergeAll(t, sources) == t
    decreases sources
  {
    if sources != [] {
      MergeAllStaysNode(Merge(t, sources[0]), sources[1..]);
    }
  }

  // No source is an object that touches the path.
  predicate UntouchedByAll(sources: seq<Tree>, path: seq<Key>) {
    forall s :: s in sources ==> s.Leaf? || Untouched(s, path)
  }

  // A path that no source touches reads as before.
  lemma {:induction false} UntouchedByAllReadsAsBefore(t: Tree, sources: seq<Tree>, path: seq<Key>)
    requires UntouchedByAll(sources, path)
    ensures Read(MergeAll(t, sources), path) == Read(t, path)
    decreases sources
  {
    if sources != [] {
      assert sources[0] in sources;
      if sources[0].Node? {
        UntouchedReadsAsBefore(t, sources[0], path);
      }
      UntouchedByAllReadsAsBefore(Merge(t, sources[0]), sources[1..], path);
    }
  }

  // The last source that touches a path decides it: a leaf there is read back, unless the path is
  // cut in what the target and the earlier sources make; and never at the top level.
  lemma {:induction false} LastSourceWins(t: Tree, earlier: seq<Tree>, s: Tree, later: seq<Tree>, path: seq<Key>)
    requires t.Node? && path != [] && Read(s, path).Found? && Read(s, path).t.Leaf? && UntouchedByAll(later, path)
    ensures Read(MergeAll(t, earlier + [s] + later), path) ==
            if Cut(MergeAll(t, earlier), path) then Absent else Read(s, path)
    ensures |path| == 1 ==> Read(MergeAll(t, earlier + [s] + later), path) == Read(s, path)
  {
    var u := MergeAll(t, earlier);
    MergeAllStaysNode(t, earlier);
    MergeAllConcat(t, earlier + [s], later);
    MergeAllConcat(t, earlier, [s]);
    MergeAllOne(u, s);
    UntouchedByAllReadsAsBefore(Merge(u, s), later, path);
    SourceLeavesReadBack(u, s, path);
  }

  // A falsy value of the target gives way to an object, and no other does.
  lemma {:induction false} FalsyGivesWay(k: Key, p: Prim, u: Tree)
    requires u.Node?
    ensures var merged := ValueAt(Merge(Node(map[k := Leaf(Plain(p))]), Node(map[k := u])), k);
      merged == if p in {Undefined, Null, NaN, Bool(false), Num(0.0), Str("")} then Found(Merge(EMPTY, u))
                else Found(Leaf(Plain(p)))
  {
    var t, s := Node(map[k := Leaf(Plain(p))]), Node(map[k := u]);
    MergedAt(t, s, k);
  }

  // Arrays and functions are truthy.
  lemma {:induction false} ReferencesStay(k: Key, v: Leaf, u: Tree)
    requires u.Node? && !v.Plain?
    ensures ValueAt(Merge(Node(map[k := Leaf(v)]), Node(map[k := u])), k) == Found(Leaf(v))
  {
    var t, s := Node(map[k := Leaf(v)]), Node(map[k := u]);
    MergedAt(t, s, k);
  }
}
