/**
 mergeDeep as it runs: in place, on a heap of objects. A Shape is a ghost picture of the
 objects a value reaches; Holds says that the heap looks like the picture.
 */
module MergeHeap {
  import opened JsPrims
  import opened MergeTree

  datatype JsVal = Atom(v: Leaf) | Ref(o: JsObject)

  class JsObject {
    var fields: map<Key, JsVal>

    // The object literal {}.
    constructor ()
      ensures fields == map[]
    {
      fields := map[];
    }
  }

  predicate IsTruthy(v: JsVal) {
    v.Atom? ==> LeafTruthy(v.v)
  }

  // t[key]: an own value, an inherited function, or undefined.
  function GetProperty(t: JsObject, key: Key): JsVal
    reads t
  {
    if key in t.fields then t.fields[key]
    else if key in INHERITED then Atom(Builtin(key))
    else Atom(Plain(Undefined))
  }

  datatype Shape = Scalar(v: Leaf) | At(o: JsObject, kids: map<Key, Shape>)

  // The objects in the picture.
  ghost function Footprint(sh: Shape): set<JsObject>
    decreases sh, 1
  {
    if sh.Scalar? then {} else {sh.o} + Beneath(sh)
  }

  ghost function Beneath(sh: Shape): set<JsObject>
    requires sh.At?
    decreases sh, 0
  {
    set k, x | k in sh.kids && x in Footprint(sh.kids[k]) :: x
  }

  lemma {:induction false} KidFootprint(sh: Shape, k: Key)
    requires sh.At? && k in sh.kids
    ensures Footprint(sh.kids[k]) <= Footprint(sh)
  {
    forall x | x in Footprint(sh.kids[k]) ensures x in Beneath(sh) {
    }
  }

  // The values in the picture.
  ghost function TreeOf(sh: Shape): (t: Tree)
    ensures sh.At? ==> t.Node? && t.kids.Keys == sh.kids.Keys
    decreases sh
  {
    match sh
    case Scalar(v) => Leaf(v)
    case At(_, kids) => Node(map k | k in kids :: TreeOf(kids[k]))
  }

  // No object reaches itself. Objects may be shared.
  ghost predicate Acyclic(sh: Shape)
    decreases sh
  {
    sh.At? ==> forall k :: k in sh.kids ==> sh.o !in Footprint(sh.kids[k]) && Acyclic(sh.kids[k])
  }

  // No object is reached by two paths.
  ghost predicate TreeShaped(sh: Shape)
    decreases sh
  {
    sh.At? ==>
      && (forall k :: k in sh.kids ==> sh.o !in Footprint(sh.kids[k]) && TreeShaped(sh.kids[k]))
      && (forall k, l :: k in sh.kids && l in sh.kids && k != l ==> Footprint(sh.kids[k]) !! Footprint(sh.kids[l]))
  }

  ghost predicate Holds(v: JsVal, sh: Shape)
    reads Footprint(sh)
    decreases sh
  {
    if sh.Scalar? then v == Atom(sh.v)
    else
      && v == Ref(sh.o)
      && sh.o.fields.Keys == sh.kids.Keys
      && forall k :: k in sh.kids ==> (KidFootprint(sh, k); Holds(sh.o.fields[k], sh.kids[k]))
  }

  // The heap determines the picture.
  lemma {:induction false} PictureUnique(v: JsVal, sh: Shape, sh': Shape)
    requires Holds(v, sh) && Holds(v, sh')
    ensures sh == sh'
    decreases sh
  {
    if sh.At? {
      forall k | k in sh.kids ensures sh.kids[k] == sh'.kids[k] {
        PictureUnique(sh.o.fields[k], sh.kids[k], sh'.kids[k]);
      }
      assert sh.kids == sh'.kids;
    }
  }

  ghost function Footprints(shs: seq<Shape>): set<JsObject> {
    if shs == [] then {} else Footprint(shs[0]) + Footprints(shs[1..])
  }

  ghost function TreesOf(shs: seq<Shape>): seq<Tree> {
    if shs == [] then [] else [TreeOf(shs[0])] + TreesOf(shs[1..])
  }

  // The values vs look like shs, which are acyclic.
  ghost predicate Sources(vs: seq<JsVal>, shs: seq<Shape>)
    reads Footprints(shs)
    decreases shs
  {
    && |vs| == |shs|
    && (shs != [] ==> Holds(vs[0], shs[0]) && Acyclic(shs[0]) && Sources(vs[1..], shs[1..]))
  }

  lemma {:induction false} ShapeAllocated(sh: Shape)
    ensures forall o :: o in Footprint(sh) ==> allocated(o)
    decreases sh
  {
    if sh.At? {
      forall k | k in sh.kids ensures forall o :: o in Footprint(sh.kids[k]) ==> allocated(o) {
        ShapeAllocated(sh.kids[k]);
      }
      assert forall o :: o in Beneath(sh) ==> allocated(o);
    }
  }

  lemma {:induction false} ShapesAllocated(shs: seq<Shape>)
    ensures forall o :: o in Footprints(shs) ==> allocated(o)
  {
    if shs != [] {
      ShapeAllocated(shs[0]);
      ShapesAllocated(shs[1..]);
    }
  }

  lemma {:induction false} OneSource(v: JsVal, sh: Shape)
    requires Holds(v, sh) && Acyclic(sh)
    ensures Sources([v], [sh]) && Footprints([sh]) == Footprint(sh)
    ensures forall t :: MergeAll(t, TreesOf([sh])) == Merge(t, TreeOf(sh))
  {
    assert [v][1..] == [] && [sh][1..] == [];
    assert TreesOf([sh]) == [TreeOf(sh)];
    forall t ensures MergeAll(t, [TreeOf(sh)]) == Merge(t, TreeOf(sh)) {
      assert [TreeOf(sh)][1..] == [];
    }
  }

  // The picture with another field value.
  ghost function WithKid(sh: Shape, key: Key, kid: Shape): Shape
    requires sh.At?
  {
    At(sh.o, sh.kids[key := kid])
  }

  // Replacing one field value by a disjoint one keeps a tree a tree.
  lemma {:induction false} ReplaceKid(sh: Shape, key: Key, kid: Shape)
    requires sh.At? && TreeShaped(sh) && TreeShaped(kid)
    requires sh.o !in Footprint(kid)
    requires forall k :: k in sh.kids && k != key ==> Footprint(sh.kids[k]) !! Footprint(kid)
    ensures TreeShaped(WithKid(sh, key, kid))
    ensures Footprint(WithKid(sh, key, kid)) <= Footprint(sh) + Footprint(kid)
    ensures TreeOf(WithKid(sh, key, kid)) == Node(TreeOf(sh).kids[key := TreeOf(kid)])
  {
    var next := WithKid(sh, key, kid);
    forall x | x in Beneath(next) && x !in Footprint(kid) ensures x in Beneath(sh) {
      var k :| k in next.kids && x in Footprint(next.kids[k]);
      assert k in sh.kids && x in Footprint(sh.kids[k]);
    }
    SameNodes(TreeOf(next), Node(TreeOf(sh).kids[key := TreeOf(kid)]));
  }

  // after replaces before: the same root, no old object taken in.
  twostate predicate Grown(before: Shape, new after: Shape) {
    && (forall x :: x in Footprint(after) ==> x in Footprint(before) || fresh(x))
    && (before.At? ==> after.At? && after.o == before.o)
    && (before.Scalar? ==> after == before)
  }

  method MergeDeep(target: JsVal, sources: seq<JsVal>, ghost sh: Shape, ghost shs: seq<Shape>)
    returns (r: JsVal, ghost after: Shape)
    requires Holds(target, sh) && TreeShaped(sh)
    requires Sources(sources, shs) && Footprint(sh) !! Footprints(shs)
    modifies Footprint(sh)
    ensures r == target
    ensures Holds(target, after) && TreeShaped(after) && Grown(sh, after)
    ensures TreeOf(after) == MergeAll(TreeOf(sh), TreesOf(shs))
    ensures Sources(sources, shs)
    decreases Footprints(shs), |shs|, 0
  {
    after := sh;
    if |sources| == 0 {
      return target, after;
    }
    var source := sources[0];
    ShapesAllocated(shs);
    if target.Ref? && source.Ref? {
      after := MergeFields(target.o, source.o, sh, shs[0]);
    }
    r, after := MergeDeep(target, sources[1..], after, shs[1..]);
  }

  // The key loop, in whatever order the keys come.
  method MergeFields(t: JsObject, s: JsObject, ghost sh: Shape, ghost ssh: Shape) returns (ghost after: Shape)
    requires Holds(Ref(t), sh) && TreeShaped(sh)
    requires Holds(Ref(s), ssh) && Acyclic(ssh) && Footprint(sh) !! Footprint(ssh)
    modifies Footprint(sh)
    ensures Holds(Ref(t), after) && TreeShaped(after) && Grown(sh, after)
    ensures TreeOf(after) == Merge(TreeOf(sh), TreeOf(ssh))
    decreases Footprint(ssh), 0, 2
  {
    ghost var t0, s0 := TreeOf(sh), TreeOf(ssh);
    ShapeAllocated(ssh);
    after := sh;
    var todo := s.fields.Keys;
    NothingArrived(t0, s0);
    while todo != {}
      invariant todo <= s.fields.Keys
      invariant Holds(Ref(t), after) && TreeShaped(after) && Grown(sh, after)
      invariant Holds(Ref(s), ssh)
      invariant PartlyMerged(TreeOf(after), t0, s0, todo)
    {
      var key :| key in todo;
      KeyArrives(TreeOf(after), t0, s0, todo, key);
      after := MergeField(t, key, s.fields[key], after, ssh);
      todo := todo - {key};
    }
    AllArrived(TreeOf(after), t0, s0);
  }

  // One turn of the loop.
  method MergeField(t: JsObject, key: Key, v: JsVal, ghost sh: Shape, ghost ssh: Shape) returns (ghost after: Shape)
    requires Holds(Ref(t), sh) && TreeShaped(sh)
    requires Acyclic(ssh) && ssh.At? && Footprint(sh) !! Footprint(ssh)
    requires key in ssh.kids && Holds(v, ssh.kids[key])
    modifies Footprint(sh)
    ensures Holds(Ref(t), after) && TreeShaped(after) && Grown(sh, after)
    ensures TreeOf(after) == Arrive(TreeOf(sh), key, TreeOf(ssh.kids[key]))
    decreases Footprint(ssh), 0, 1
  {
    KidFootprint(ssh, key);
    if v.Ref? {
      ShapeAllocated(ssh);
      ObjectArrives(TreeOf(sh), key, TreeOf(ssh.kids[key]));
      after := EnsureObject(t, key, sh);
      after := MergeChild(t, key, v, after, ssh);
    } else {
      after := Assign(t, key, v, sh, ssh.kids[key]);
    }
  }

  // if (!target[key]) Object.assign(target, { [key]: {} })
  method EnsureObject(t: JsObject, key: Key, ghost sh: Shape) returns (ghost after: Shape)
    requires Holds(Ref(t), sh) && TreeShaped(sh)
    modifies t
    ensures Holds(Ref(t), after) && TreeShaped(after) && Grown(sh, after)
    ensures key in after.kids || key in INHERITED
    ensures TreeOf(after) == Room(TreeOf(sh), key)
  {
    after := sh;
    TruthInPicture(t, key, sh);
    if !IsTruthy(GetProperty(t, key)) {
      ShapeAllocated(sh);
      var o := new JsObject();
      after := Assign(t, key, Ref(o), sh, At(o, map[]));
    }
  }

  // The test !target[key] fails for a truthy leaf, an object, and an inherited function.
  lemma {:induction false} TruthInPicture(t: JsObject, key: Key, sh: Shape)
    requires Holds(Ref(t), sh)
    ensures Room(TreeOf(sh), key) ==
            if IsTruthy(GetProperty(t, key)) then TreeOf(sh) else Node(TreeOf(sh).kids[key := EMPTY])
  {
    var here := TreeOf(sh);
    if key in t.fields {
      var v, kid := t.fields[key], sh.kids[key];
      assert Holds(v, kid);
      assert here.kids[key] == TreeOf(kid);
      if IsTruthy(v) {
        SameNodes(Room(here, key), here);
      }
    }
  }

  // Object.assign(target, { [key]: v }) for a value disjoint from the target.
  method Assign(t: JsObject, key: Key, v: JsVal, ghost sh: Shape, ghost kid: Shape) returns (ghost after: Shape)
    requires Holds(Ref(t), sh) && TreeShaped(sh)
    requires Holds(v, kid) && TreeShaped(kid) && Footprint(sh) !! Footprint(kid)
    modifies t
    ensures after == WithKid(sh, key, kid)
    ensures Holds(Ref(t), after) && TreeShaped(after)
    ensures Footprint(after) <= Footprint(sh) + Footprint(kid)
    ensures TreeOf(after) == Node(TreeOf(sh).kids[key := TreeOf(kid)])
  {
    forall k | k in sh.kids ensures Footprint(sh.kids[k]) <= Footprint(sh) {
      KidFootprint(sh, k);
    }
    t.fields := t.fields[key := v];
    after := WithKid(sh, key, kid);
    ReplaceKid(sh, key, kid);
  }

  // The recursive call on one property. An inherited function takes nothing in.
  method MergeChild(t: JsObject, key: Key, v: JsVal, ghost sh: Shape, ghost ssh: Shape) returns (ghost after: Shape)
    requires Holds(Ref(t), sh) && TreeShaped(sh) && (key in sh.kids || key in INHERITED)
    requires Acyclic(ssh) && ssh.At? && Footprint(sh) !! Footprint(ssh)
    requires key in ssh.kids && Holds(v, ssh.kids[key])
    modifies Footprint(sh)
    ensures Holds(Ref(t), after) && TreeShaped(after) && Grown(sh, after)
    ensures TreeOf(after) == Filled(TreeOf(sh), key, TreeOf(ssh.kids[key]))
    decreases Footprint(ssh), 0, 0
  {
    KidFootprint(ssh, key);
    forall k | k in sh.kids ensures Footprint(sh.kids[k]) <= Footprint(sh) {
      KidFootprint(sh, k);
    }
    ShapeAllocated(sh);
    ghost var own := key in sh.kids;
    ghost var here := if own then sh.kids[key] else Scalar(Builtin(key));
    ghost var kid := MergeOne(GetProperty(t, key), v, here, ssh.kids[key]);
    after := sh;
    if own {
      forall k | k in sh.kids && k != key
        ensures Holds(t.fields[k], sh.kids[k]) && Footprint(sh.kids[k]) !! Footprint(kid)
      {
        assert Footprint(sh.kids[k]) !! Footprint(sh.kids[key]);
      }
      KidMerged(t, sh, key, kid);
      after := WithKid(sh, key, kid);
    }
  }

  // The siblings' part of the picture is left alone by work below one field.
  lemma {:induction false} KidMerged(t: JsObject, sh: Shape, key: Key, kid: Shape)
    requires sh.At? && sh.o == t && TreeShaped(sh) && key in sh.kids && t.fields.Keys == sh.kids.Keys
    requires forall k :: k in sh.kids && k != key ==>
               Holds(t.fields[k], sh.kids[k]) && Footprint(sh.kids[k]) !! Footprint(kid)
    requires Holds(t.fields[key], kid) && TreeShaped(kid) && t !in Footprint(kid)
    ensures Holds(Ref(t), WithKid(sh, key, kid)) && TreeShaped(WithKid(sh, key, kid))
    ensures Footprint(WithKid(sh, key, kid)) <= Footprint(sh) + Footprint(kid)
    ensures TreeOf(WithKid(sh, key, kid)) == Node(TreeOf(sh).kids[key := TreeOf(kid)])
  {
    ReplaceKid(sh, key, kid);
  }

  // mergeDeep(target[key], source[key])
  method MergeOne(target: JsVal, source: JsVal, ghost sh: Shape, ghost ssh: Shape) returns (ghost after: Shape)
    requires Holds(target, sh) && TreeShaped(sh)
    requires Holds(source, ssh) && Acyclic(ssh) && Footprint(sh) !! Footprint(ssh)
    modifies Footprint(sh)
    ensures Holds(target, after) && TreeShaped(after) && Grown(sh, after)
    ensures TreeOf(after) == Merge(TreeOf(sh), TreeOf(ssh))
    decreases Footprint(ssh), 1, 1
  {
    OneSource(source, ssh);
    var _, kid := MergeDeep(target, [source], sh, [ssh]);
    after := kid;
  }
}
