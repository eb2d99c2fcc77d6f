/** Trees as values: what the permutations of a tree are, and why expanding the vertices in
    breadth-first order enumerates exactly them (common/graph/perm.go, common/graph/tree.go). */
module TreeShapes {
  import opened Basics
  import opened Choose

  /** A vertex with its threshold. */
  datatype Vertex = Vertex(id: string, data: string, threshold: nat, kids: seq<Vertex>)

  /** What a permutation shows of a vertex: everything but the threshold, which cloning drops. */
  datatype Shape = Shape(id: string, data: string, kids: seq<Shape>)

  function ShapeOf(v: Vertex): Shape {
    Shape(v.id, v.data, seq(|v.kids|, i requires 0 <= i < |v.kids| => ShapeOf(v.kids[i])))
  }

  function ShapesOf(vs: seq<Vertex>): (r: seq<Shape>)
    ensures |r| == |vs|
  {
    seq(|vs|, i requires 0 <= i < |vs| => ShapeOf(vs[i]))
  }

  ghost function Ids(v: Vertex): set<string> {
    {v.id} + set k, x | 0 <= k < |v.kids| && x in Ids(v.kids[k]) :: x
  }

  /** No id occurs twice in the tree. */
  ghost predicate Unique(v: Vertex) {
    && (forall k | 0 <= k < |v.kids| :: v.id !in Ids(v.kids[k]) && Unique(v.kids[k]))
    && (forall j, k | 0 <= j < k < |v.kids| :: Ids(v.kids[j]) !! Ids(v.kids[k]))
  }

  // ----- Looking up and replacing by id -----

  predicate Has(s: Shape, id: string) {
    s.id == id || exists k | 0 <= k < |s.kids| :: Has(s.kids[k], id)
  }

  /** `Find`: the first vertex with the id, depth first. */
  function Find(s: Shape, id: string): Option<Shape>
    decreases s, 1
  {
    if s.id == id then Some(s) else FindIn(s.kids, id)
  }

  function FindIn(kids: seq<Shape>, id: string): Option<Shape>
    decreases kids, 0
  {
    if kids == [] then None
    else
      var first := Find(kids[0], id);
      if first.Some? then first else FindIn(kids[1..], id)
  }

  /** `replace`: gives the vertex with the id new descendants. */
  function Replace(s: Shape, id: string, kids: seq<Shape>): Shape {
    if s.id == id then s.(kids := kids)
    else s.(kids := seq(|s.kids|, i requires 0 <= i < |s.kids| => Replace(s.kids[i], id, kids)))
  }

  lemma {:induction false} FindIsHas(s: Shape, id: string)
    ensures Find(s, id).Some? <==> Has(s, id)
    decreases s, 1
  {
    FindInIsHas(s.kids, id);
  }

  lemma {:induction false} FindInIsHas(kids: seq<Shape>, id: string)
    ensures FindIn(kids, id).Some? <==> exists k | 0 <= k < |kids| :: Has(kids[k], id)
    decreases kids, 0
  {
    if kids != [] {
      FindIsHas(kids[0], id);
      FindInIsHas(kids[1..], id);
      assert forall k | 1 <= k < |kids| :: kids[k] == kids[1..][k - 1];
    }
  }

  lemma {:induction false} ReplaceAbsent(s: Shape, id: string, c: seq<Shape>)
    requires !Has(s, id)
    ensures Replace(s, id, c) == s
  {
    forall k | 0 <= k < |s.kids|
      ensures Replace(s.kids[k], id, c) == s.kids[k]
    {
      ReplaceAbsent(s.kids[k], id, c);
    }
  }

  lemma {:induction false} ReplaceTwice(s: Shape, id: string, b: seq<Shape>, c: seq<Shape>)
    ensures Replace(Replace(s, id, b), id, c) == Replace(s, id, c)
  {
    if s.id != id {
      var r := Replace(s, id, b);
      forall k | 0 <= k < |s.kids|
        ensures Replace(r.kids[k], id, c) == Replace(s.kids[k], id, c)
      {
        ReplaceTwice(s.kids[k], id, b, c);
      }
      assert Replace(r, id, c).kids == Replace(s, id, c).kids;
    }
  }

  lemma {:induction false} ReplaceHas(s: Shape, id: string, c: seq<Shape>)
    requires Has(s, id)
    ensures Has(Replace(s, id, c), id)
  {
    if s.id != id {
      var k :| 0 <= k < |s.kids| && Has(s.kids[k], id);
      ReplaceHas(s.kids[k], id, c);
      assert Replace(s, id, c).kids[k] == Replace(s.kids[k], id, c);
    }
  }

  /** After a replacement the id is found with the new descendants. */
  lemma {:induction false} FindReplaced(s: Shape, id: string, c: seq<Shape>)
    requires Has(s, id)
    ensures Find(Replace(s, id, c), id).Some? && Find(Replace(s, id, c), id).value.kids == c
    decreases s, 1
  {
    if s.id != id {
      var r := Replace(s, id, c);
      FindInReplaced(s.kids, r.kids, id, c);
    }
  }

  lemma {:induction false} FindInReplaced(kids: seq<Shape>, changed: seq<Shape>, id: string, c: seq<Shape>)
    requires |changed| == |kids| && forall k | 0 <= k < |kids| :: changed[k] == Replace(kids[k], id, c)
    requires exists k | 0 <= k < |kids| :: Has(kids[k], id)
    ensures FindIn(changed, id).Some? && FindIn(changed, id).value.kids == c
    decreases kids, 0
  {
    if Has(kids[0], id) {
      FindReplaced(kids[0], id, c);
    } else {
      ReplaceAbsent(kids[0], id, c);
      FindIsHas(changed[0], id);
      var k :| 0 <= k < |kids| && Has(kids[k], id);
      assert kids[1..][k - 1] == kids[k];
      FindInReplaced(kids[1..], changed[1..], id, c);
    }
  }

  // ----- Which trees are permutations -----

  /** `s` arises from `t` by keeping, at each inner vertex reached, exactly threshold many descendants. */
  ghost predicate ThresholdTree(t: Vertex, s: Shape) {
    && s.id == t.id && s.data == t.data
    && if t.kids == [] then s.kids == []
       else exists at :: Keeps(t, s, at) && forall j | 0 <= j < |at| :: ThresholdTree(t.kids[at[j]], s.kids[j])
  }

  /** The positions of the descendants that `s` keeps of `t`. */
  ghost predicate Keeps(t: Vertex, s: Shape, at: seq<nat>) {
    Increasing(at, 0, |t.kids|) && |at| == t.threshold && |s.kids| == |at|
  }

  /** The same halfway: only the vertices in `done` have been thinned out, the others are whole. */
  ghost predicate Partial(t: Vertex, done: set<string>, s: Shape) {
    && s.id == t.id && s.data == t.data
    && if t.id !in done || t.kids == [] then s == ShapeOf(t)
       else exists at :: Keeps(t, s, at) && forall j | 0 <= j < |at| :: Partial(t.kids[at[j]], done, s.kids[j])
  }

  lemma PartialKids(t: Vertex, done: set<string>, s: Shape) returns (at: seq<nat>)
    requires Partial(t, done, s) && t.id in done && t.kids != []
    ensures Keeps(t, s, at) && forall j | 0 <= j < |at| :: Partial(t.kids[at[j]], done, s.kids[j])
    ensures s.id == t.id && s.data == t.data
  {
    at :| Keeps(t, s, at) && forall j | 0 <= j < |at| :: Partial(t.kids[at[j]], done, s.kids[j]);
  }

  lemma PartialFromKids(t: Vertex, done: set<string>, s: Shape, at: seq<nat>)
    requires s.id == t.id && s.data == t.data && t.id in done && t.kids != []
    requires Keeps(t, s, at) && forall j | 0 <= j < |at| :: Partial(t.kids[at[j]], done, s.kids[j])
    ensures Partial(t, done, s)
  {
  }

  lemma {:induction false} AllDone(t: Vertex, done: set<string>, s: Shape)
    requires Ids(t) <= done
    ensures Partial(t, done, s) <==> ThresholdTree(t, s)
  {
    if t.kids != [] {
      forall k, x | 0 <= k < |t.kids|
        ensures Partial(t.kids[k], done, x) <==> ThresholdTree(t.kids[k], x)
      {
        AllDone(t.kids[k], done, x);
      }
    }
  }

  /** Below a vertex that is not done nothing is done. */
  ghost predicate TopDown(t: Vertex, done: set<string>) {
    if t.id !in done then Ids(t) !! done
    else forall k | 0 <= k < |t.kids| :: TopDown(t.kids[k], done)
  }

  /** The topmost vertices that are not done: what is waiting in the queue. */
  ghost function Frontier(t: Vertex, done: set<string>): set<Vertex> {
    if t.id !in done then {t}
    else set k, v | 0 <= k < |t.kids| && v in Frontier(t.kids[k], done) :: v
  }

  lemma {:induction false} FrontierIds(t: Vertex, done: set<string>, v: Vertex)
    requires v in Frontier(t, done)
    ensures v.id !in done && Ids(v) <= Ids(t)
  {
    if t.id in done {
      var k :| 0 <= k < |t.kids| && v in Frontier(t.kids[k], done);
      FrontierIds(t.kids[k], done, v);
    }
  }

  /** The vertex `v` is next in this tree, or not in it at all. */
  ghost predicate Ready(t: Vertex, done: set<string>, v: Vertex) {
    Unique(t) && TopDown(t, done) && (v in Frontier(t, done) || v.id !in Ids(t))
  }

  lemma ReadyKid(t: Vertex, done: set<string>, v: Vertex, k: nat)
    requires Ready(t, done, v) && t.id in done && k < |t.kids|
    ensures Ready(t.kids[k], done, v) && t.id != v.id
  {
    if v in Frontier(t, done) {
      FrontierIds(t, done, v);
      var j :| 0 <= j < |t.kids| && v in Frontier(t.kids[j], done);
      FrontierIds(t.kids[j], done, v);
      if j != k { assert v.id !in Ids(t.kids[k]); }
    }
  }

  lemma {:induction false} HasInShapeOf(t: Vertex, id: string)
    ensures Has(ShapeOf(t), id) <==> id in Ids(t)
  {
    forall k | 0 <= k < |t.kids|
      ensures Has(ShapeOf(t).kids[k], id) <==> id in Ids(t.kids[k])
    {
      HasInShapeOf(t.kids[k], id);
    }
  }

  lemma {:induction false} PartialHas(t: Vertex, done: set<string>, s: Shape, id: string)
    requires Partial(t, done, s) && Has(s, id)
    ensures id in Ids(t)
  {
    if t.id !in done || t.kids == [] {
      HasInShapeOf(t, id);
    } else if s.id != id {
      var at := PartialKids(t, done, s);
      var j :| 0 <= j < |s.kids| && Has(s.kids[j], id);
      PartialHas(t.kids[at[j]], done, s.kids[j], id);
    }
  }

  // ----- One expansion step -----

  /** `selectDescendants`. */
  function SelectedKids(v: Vertex, at: seq<nat>): (r: seq<Vertex>)
    requires Increasing(at, 0, |v.kids|)
    ensures |r| == |at|
  {
    Select(v.kids, at)
  }

  /** `c` is a choice of threshold many descendants of `v`. */
  ghost predicate Choice(v: Vertex, c: seq<Shape>) {
    exists at :: Increasing(at, 0, |v.kids|) && |at| == v.threshold && c == ShapesOf(SelectedKids(v, at))
  }

  /** Marking a vertex done changes nothing for a tree that does not contain it. */
  lemma {:induction false} DoneElsewhere(t: Vertex, done: set<string>, id: string, s: Shape)
    requires id !in Ids(t)
    ensures Partial(t, done + {id}, s) <==> Partial(t, done, s)
  {
    forall k, x | 0 <= k < |t.kids|
      ensures Partial(t.kids[k], done + {id}, x) <==> Partial(t.kids[k], done, x)
    {
      DoneElsewhere(t.kids[k], done, id, x);
    }
  }

  /** Partial trees without the vertex stay what they are when the vertex is marked done; for a leaf
      all of them do. */
  lemma {:induction false} StepWithout(t: Vertex, done: set<string>, v: Vertex, s: Shape)
    requires Ready(t, done, v) && (!Has(s, v.id) || v.kids == [])
    ensures Partial(t, done + {v.id}, s) <==> Partial(t, done, s)
  {
    if v.id !in Ids(t) {
      DoneElsewhere(t, done, v.id, s);
    } else if t.id in done {
      forall k, j | 0 <= k < |t.kids| && 0 <= j < |s.kids|
        ensures Partial(t.kids[k], done + {v.id}, s.kids[j]) <==> Partial(t.kids[k], done, s.kids[j])
      {
        ReadyKid(t, done, v, k);
        StepWithout(t.kids[k], done, v, s.kids[j]);
      }
      PartialAgree(t, done, done + {v.id}, s);
      PartialAgree(t, done + {v.id}, done, s);
    }
  }

  lemma PartialAgree(t: Vertex, done: set<string>, done': set<string>, s: Shape)
    requires t.id in done && t.id in done'
    requires forall k, j | 0 <= k < |t.kids| && 0 <= j < |s.kids| ::
               Partial(t.kids[k], done', s.kids[j]) <==> Partial(t.kids[k], done, s.kids[j])
    ensures Partial(t, done, s) ==> Partial(t, done', s)
  {
    if Partial(t, done, s) && t.kids != [] {
      var at :| Keeps(t, s, at) && forall j | 0 <= j < |at| :: Partial(t.kids[at[j]], done, s.kids[j]);
      assert forall j | 0 <= j < |at| :: Partial(t.kids[at[j]], done', s.kids[j]);
    }
  }

  /** In a partial tree a vertex that is not done still has all its descendants. */
  lemma {:induction false} UndoneIsWhole(t: Vertex, done: set<string>, v: Vertex, s: Shape)
    requires Ready(t, done, v) && Partial(t, done, s)
    ensures Replace(s, v.id, ShapesOf(v.kids)) == s
  {
    if v.id !in Ids(t) {
      if Has(s, v.id) { PartialHas(t, done, s, v.id); }
      ReplaceAbsent(s, v.id, ShapesOf(v.kids));
    } else if t.id !in done {
      assert t == v;
      assert ShapesOf(v.kids) == ShapeOf(v).kids;
    } else if t.kids != [] {
      var at :| Keeps(t, s, at) && forall j | 0 <= j < |at| :: Partial(t.kids[at[j]], done, s.kids[j]);
      assert t.id != v.id by { ReadyKid(t, done, v, 0); }
      forall j | 0 <= j < |s.kids|
        ensures Replace(s.kids[j], v.id, ShapesOf(v.kids)) == s.kids[j]
      {
        ReadyKid(t, done, v, at[j]);
        UndoneIsWhole(t.kids[at[j]], done, v, s.kids[j]);
      }
      assert Replace(s, v.id, ShapesOf(v.kids)).kids == s.kids;
    }
  }

  lemma {:induction false} WholeIsPartial(t: Vertex, done: set<string>)
    requires Ids(t) !! done
    ensures forall s :: Partial(t, done, s) <==> s == ShapeOf(t)
  {
  }

  /** Giving a vertex one of its choices turns a partial tree into one where the vertex is done. */
  lemma {:induction false} StepForward(t: Vertex, done: set<string>, v: Vertex, s: Shape, c: seq<Shape>)
    requires Ready(t, done, v) && Partial(t, done, s) && v.kids != [] && Choice(v, c)
    ensures Partial(t, done + {v.id}, Replace(s, v.id, c))
    decreases t, 1
  {
    hide Choice;
    if !Has(s, v.id) {
      ReplaceAbsent(s, v.id, c);
      StepWithout(t, done, v, s);
    } else {
      PartialHas(t, done, s, v.id);
      if t.id !in done {
        ChoiceIsPartial(v, done, c);
      } else {
        StepForwardInside(t, done, v, s, c);
      }
    }
  }

  lemma StepForwardInside(t: Vertex, done: set<string>, v: Vertex, s: Shape, c: seq<Shape>)
    requires Ready(t, done, v) && Partial(t, done, s) && v.kids != [] && Choice(v, c)
    requires t.id in done && Has(s, v.id)
    ensures Partial(t, done + {v.id}, Replace(s, v.id, c))
    decreases t, 0
  {
    hide Ready, Choice;
    var r := Replace(s, v.id, c);
    PartialHas(t, done, s, v.id);
    ReadyInside(t, done, v);
    var at :| Keeps(t, s, at) && forall j | 0 <= j < |at| :: Partial(t.kids[at[j]], done, s.kids[j]);
    forall j | 0 <= j < |at|
      ensures Partial(t.kids[at[j]], done + {v.id}, r.kids[j])
    {
      ReadyKid(t, done, v, at[j]);
      StepForward(t.kids[at[j]], done, v, s.kids[j], c);
    }
    assert Keeps(t, r, at);
  }

  lemma ReadyInside(t: Vertex, done: set<string>, v: Vertex)
    requires Ready(t, done, v) && t.id in done && v.id in Ids(t)
    ensures t.kids != [] && t.id != v.id
  {
    ReadyNotDone(t, done, v);
  }

  lemma ReadyNotDone(t: Vertex, done: set<string>, v: Vertex)
    requires Ready(t, done, v) && v.id in Ids(t)
    ensures v.id !in done
  {
    FrontierIds(t, done, v);
  }

  lemma ChoiceIsPartial(v: Vertex, done: set<string>, c: seq<Shape>)
    requires Ids(v) !! done && Unique(v) && v.kids != [] && Choice(v, c)
    ensures Partial(v, done + {v.id}, Shape(v.id, v.data, c))
  {
    var at :| Increasing(at, 0, |v.kids|) && |at| == v.threshold && c == ShapesOf(SelectedKids(v, at));
    var s := Shape(v.id, v.data, c);
    forall j | 0 <= j < |at|
      ensures Partial(v.kids[at[j]], done + {v.id}, s.kids[j])
    {
      var kid := v.kids[at[j]];
      assert Ids(kid) !! done + {v.id};
      WholeIsPartial(kid, done + {v.id});
    }
    assert Keeps(v, s, at);
  }

  /** Conversely, a partial tree with the vertex done comes from the one with the vertex whole by one of
      the choices. */
  lemma {:induction false} StepBack(t: Vertex, done: set<string>, v: Vertex, s: Shape) returns (c: seq<Shape>)
    requires Ready(t, done, v) && v.kids != [] && Partial(t, done + {v.id}, s) && Has(s, v.id)
    ensures Choice(v, c) && Replace(s, v.id, c) == s
    ensures Partial(t, done, Replace(s, v.id, ShapesOf(v.kids)))
    decreases t, 1
  {
    PartialHas(t, done + {v.id}, s, v.id);
    if t.id !in done {
      c := PartialIsChoice(v, done, s);
      assert ShapeOf(v).kids == ShapesOf(v.kids);
    } else {
      c := StepBackInside(t, done, v, s);
    }
  }

  lemma PartialIsChoice(v: Vertex, done: set<string>, s: Shape) returns (c: seq<Shape>)
    requires Ids(v) !! done && Unique(v) && v.kids != [] && Partial(v, done + {v.id}, s)
    ensures Choice(v, c) && s == Shape(v.id, v.data, c)
  {
    hide Partial;
    var at := PartialKids(v, done + {v.id}, s);
    c := s.kids;
    forall j | 0 <= j < |at|
      ensures c[j] == ShapeOf(v.kids[at[j]])
    {
      var kid := v.kids[at[j]];
      assert Ids(kid) !! done + {v.id};
      WholeIsPartial(kid, done + {v.id});
    }
    assert c == ShapesOf(SelectedKids(v, at));
  }

  lemma StepBackInside(t: Vertex, done: set<string>, v: Vertex, s: Shape) returns (c: seq<Shape>)
    requires Ready(t, done, v) && v.kids != [] && Partial(t, done + {v.id}, s) && Has(s, v.id)
    requires t.id in done && v.id in Ids(t)
    ensures Choice(v, c) && Replace(s, v.id, c) == s
    ensures Partial(t, done, Replace(s, v.id, ShapesOf(v.kids)))
    decreases t, 0
  {
    hide Ready, Choice, Partial, Unique;
    ReadyInside(t, done, v);
    var done', full := done + {v.id}, ShapesOf(v.kids);
    var at := PartialKids(t, done', s);
    var m :| 0 <= m < |s.kids| && Has(s.kids[m], v.id);
    hide Has, ShapesOf;
    ReadyKid(t, done, v, at[m]);
    c := StepBack(t.kids[at[m]], done, v, s.kids[m]);
    var r := Replace(s, v.id, full);
    forall j | 0 <= j < |at|
      ensures Replace(s.kids[j], v.id, c) == s.kids[j]
      ensures Partial(t.kids[at[j]], done, r.kids[j])
    {
      if j != m { OtherKid(t, done, v, s, at, m, j, c); }
    }
    assert Replace(s, v.id, c).kids == s.kids;
    assert Keeps(t, r, at);
    PartialFromKids(t, done, r, at);
  }

  lemma OtherKid(t: Vertex, done: set<string>, v: Vertex, s: Shape, at: seq<nat>, m: nat, j: nat, c: seq<Shape>)
    requires Ready(t, done, v) && t.id in done && Keeps(t, s, at) && m < |at| && j < |at| && m != j
    requires forall i | 0 <= i < |at| :: Partial(t.kids[at[i]], done + {v.id}, s.kids[i])
    requires Has(s.kids[m], v.id)
    ensures Replace(s.kids[j], v.id, c) == s.kids[j] == Replace(s.kids[j], v.id, ShapesOf(v.kids))
    ensures Partial(t.kids[at[j]], done, s.kids[j])
  {
    hide Ready, Partial, Has, Replace;
    ReadyUnique(t, done, v);
    OnlyOneKid(t, done + {v.id}, s, at, m, j, v.id);
    ReplaceAbsent(s.kids[j], v.id, c);
    ReplaceAbsent(s.kids[j], v.id, ShapesOf(v.kids));
    ReadyKid(t, done, v, at[j]);
    StepWithout(t.kids[at[j]], done, v, s.kids[j]);
  }

  lemma ReadyUnique(t: Vertex, done: set<string>, v: Vertex)
    requires Ready(t, done, v)
    ensures Unique(t)
  {
  }

  lemma OnlyOneKid(t: Vertex, done: set<string>, s: Shape, at: seq<nat>, m: nat, j: nat, id: string)
    requires Unique(t) && Keeps(t, s, at) && m < |at| && j < |at| && m != j
    requires forall i | 0 <= i < |at| :: Partial(t.kids[at[i]], done, s.kids[i])
    requires Has(s.kids[m], id)
    ensures !Has(s.kids[j], id)
  {
    hide Partial, Has;
    PartialHas(t.kids[at[m]], done, s.kids[m], id);
    if Has(s.kids[j], id) {
      PartialHas(t.kids[at[j]], done, s.kids[j], id);
    }
  }

  // ----- The enumeration -----

  predicate NoDuplicates<T(==)>(s: seq<T>) {
    forall i, j | 0 <= i < j < |s| :: s[i] != s[j]
  }

  lemma NoDuplicatesAppend<T>(a: seq<T>, b: seq<T>)
    requires NoDuplicates(a) && NoDuplicates(b) && forall x | x in a :: x !in b
    ensures NoDuplicates(a + b)
  {
    forall i, j | 0 <= i < j < |a + b|
      ensures (a + b)[i] != (a + b)[j]
    {
      if i < |a| <= j {
        assert a[i] in a && b[j - |a|] in b;
      }
    }
  }

  /** The permutations in which the vertex does not exist. */
  function Without(perms: seq<Shape>, id: string): seq<Shape> {
    if perms == [] then []
    else (if Find(perms[0], id).Some? then [] else [perms[0]]) + Without(perms[1..], id)
  }

  function Replacements(s: Shape, id: string, choices: seq<seq<Shape>>): (r: seq<Shape>)
    ensures |r| == |choices|
  {
    seq(|choices|, i requires 0 <= i < |choices| => Replace(s, id, choices[i]))
  }

  /** The permutations in which the vertex exists, each with every choice of its descendants. */
  function Expanded(perms: seq<Shape>, id: string, choices: seq<seq<Shape>>): seq<Shape> {
    if perms == [] then []
    else (if Find(perms[0], id).Some? then Replacements(perms[0], id, choices) else [])
         + Expanded(perms[1..], id, choices)
  }

  /** The choices of descendants of a vertex, in the order of `chooseKoutOfN`. */
  function Choices(v: Vertex): (r: seq<seq<Shape>>)
    ensures |r| == |Groups(|v.kids|, v.threshold, 0, [])|
  {
    var groups := Groups(|v.kids|, v.threshold, 0, []);
    seq(|groups|, i requires 0 <= i < |groups| =>
      (GroupsExact(|v.kids|, v.threshold, 0, [], groups[i]);
       assert groups[i][0..] == groups[i];
       ShapesOf(SelectedKids(v, groups[i]))))
  }

  function Size(v: Vertex): nat
    decreases v, 1
  {
    1 + SizeOf(v.kids)
  }

  function SizeOf(vs: seq<Vertex>): nat
    decreases vs, 0
  {
    if vs == [] then 0 else Size(vs[0]) + SizeOf(vs[1..])
  }

  lemma {:induction false} SizeOfAppend(a: seq<Vertex>, b: seq<Vertex>)
    ensures SizeOf(a + b) == SizeOf(a) + SizeOf(b)
  {
    if a == [] {
      assert a + b == b;
    } else {
      assert (a + b)[1..] == a[1..] + b;
      SizeOfAppend(a[1..], b);
    }
  }

  /** The loop of `permute`: take the next vertex of the queue, queue its descendants, and expand the
      permutations at it. */
  function Process(queue: seq<Vertex>, perms: seq<Shape>): seq<Shape>
    decreases SizeOf(queue)
  {
    if queue == [] then perms
    else
      var v := queue[0];
      SizeOfAppend(queue[1..], v.kids);
      assert Size(v) == 1 + SizeOf(v.kids);
      Process(queue[1..] + v.kids,
              if v.kids == [] then perms
              else Without(perms, v.id) + Expanded(perms, v.id, Choices(v)))
  }

  /** `permute`, on a tree that has been pruned. */
  function Permutations(t: Vertex): seq<Shape> { Process([t], [ShapeOf(t)]) }

  lemma {:induction false} WithoutMembers(perms: seq<Shape>, id: string, x: Shape)
    ensures x in Without(perms, id) <==> x in perms && !Has(x, id)
  {
    if perms != [] {
      FindIsHas(perms[0], id);
      WithoutMembers(perms[1..], id, x);
      assert perms == [perms[0]] + perms[1..];
    }
  }

  lemma {:induction false} ExpandedMembers(perms: seq<Shape>, id: string, choices: seq<seq<Shape>>, x: Shape)
    ensures x in Expanded(perms, id, choices) <==>
            exists s, c :: s in perms && c in choices && Has(s, id) && x == Replace(s, id, c)
  {
    if perms != [] {
      FindIsHas(perms[0], id);
      ExpandedMembers(perms[1..], id, choices, x);
      assert perms == [perms[0]] + perms[1..];
      ReplacementsMembers(perms[0], id, choices, x);
    }
  }

  lemma ReplacementsMembers(s: Shape, id: string, choices: seq<seq<Shape>>, x: Shape)
    ensures x in Replacements(s, id, choices) <==> exists c :: c in choices && x == Replace(s, id, c)
  {
    var r := Replacements(s, id, choices);
    if c :| c in choices && x == Replace(s, id, c) {
      var i :| 0 <= i < |choices| && choices[i] == c;
      assert r[i] == x;
    }
    if x in r {
      var i :| 0 <= i < |r| && r[i] == x;
      assert choices[i] in choices;
    }
  }

  /** Every choice of threshold many descendants is listed, once. */
  lemma ChoicesExact(v: Vertex)
    requires Unique(v)
    ensures NoDuplicates(Choices(v)) && forall c :: c in Choices(v) <==> Choice(v, c)
  {
    hide Groups, Choices, Increasing, Unique;
    var n, k := |v.kids|, v.threshold;
    var groups, choices := Groups(n, k, 0, []), Choices(v);
    ChooseExact(n, k);
    forall c
      ensures c in choices <==> Choice(v, c)
    {
      if c in choices {
        var i :| 0 <= i < |choices| && choices[i] == c;
        assert groups[i] in groups;
        ChoicesAt(v, i);
      }
      if Choice(v, c) {
        var at :| Increasing(at, 0, n) && |at| == k && c == ShapesOf(SelectedKids(v, at));
        assert at in groups;
        var i :| 0 <= i < |groups| && groups[i] == at;
        ChoicesAt(v, i);
      }
    }
    forall i, j | 0 <= i < j < |choices|
      ensures choices[i] != choices[j]
    {
      assert groups[i] in groups && groups[j] in groups;
      ChoicesAt(v, i);
      ChoicesAt(v, j);
      SelectInjective(v, groups[i], groups[j]);
    }
  }

  lemma ChoicesAt(v: Vertex, i: nat)
    requires i < |Choices(v)|
    ensures var at := Groups(|v.kids|, v.threshold, 0, [])[i];
            Increasing(at, 0, |v.kids|) && |at| == v.threshold && Choices(v)[i] == ShapesOf(SelectedKids(v, at))
  {
    var groups := Groups(|v.kids|, v.threshold, 0, []);
    GroupsExact(|v.kids|, v.threshold, 0, [], groups[i]);
    assert groups[i][0..] == groups[i];
  }

  lemma SelectInjective(v: Vertex, a: seq<nat>, b: seq<nat>)
    requires Unique(v) && Increasing(a, 0, |v.kids|) && Increasing(b, 0, |v.kids|) && |a| == |b|
    ensures ShapesOf(SelectedKids(v, a)) == ShapesOf(SelectedKids(v, b)) ==> a == b
  {
    forall j | 0 <= j < |a| && ShapesOf(SelectedKids(v, a))[j] == ShapesOf(SelectedKids(v, b))[j]
      ensures a[j] == b[j]
    {
      var x, y := v.kids[a[j]], v.kids[b[j]];
      assert ShapesOf(SelectedKids(v, a))[j] == ShapeOf(x);
      assert ShapesOf(SelectedKids(v, b))[j] == ShapeOf(y);
      assert x.id == y.id && x.id in Ids(x) && y.id in Ids(y);
    }
  }

  // ----- Why the enumeration is exact -----

  /** The list holds each partial tree once, and nothing else. */
  ghost predicate Enumerates(t: Vertex, done: set<string>, perms: seq<Shape>) {
    NoDuplicates(perms) && forall s :: s in perms <==> Partial(t, done, s)
  }

  lemma {:induction false} WithoutNoDuplicates(perms: seq<Shape>, id: string)
    requires NoDuplicates(perms)
    ensures NoDuplicates(Without(perms, id))
  {
    if perms != [] {
      WithoutNoDuplicates(perms[1..], id);
      WithoutMembers(perms[1..], id, perms[0]);
    }
  }

  /** Different permutations and different choices give different replacements. */
  ghost predicate Separates(perms: seq<Shape>, id: string) {
    forall s, s', c, c' | s in perms && s' in perms && Has(s, id) && Has(s', id) &&
      Replace(s, id, c) == Replace(s', id, c') ::
      s == s' && c == c'
  }

  lemma {:induction false} ExpandedNoDuplicates(perms: seq<Shape>, id: string, choices: seq<seq<Shape>>)
    requires NoDuplicates(perms) && NoDuplicates(choices) && Separates(perms, id)
    ensures NoDuplicates(Expanded(perms, id, choices))
  {
    hide Replace, Has;
    if perms != [] {
      var s, rest := perms[0], perms[1..];
      assert perms == [s] + rest;
      ExpandedNoDuplicates(rest, id, choices);
      if Find(s, id).Some? {
        FindIsHas(s, id);
        var first, more := Replacements(s, id, choices), Expanded(rest, id, choices);
        assert NoDuplicates(first);
        forall x | x in first
          ensures x !in more
        {
          ReplacementsMembers(s, id, choices, x);
          ExpandedMembers(rest, id, choices, x);
        }
        NoDuplicatesAppend(first, more);
      }
    }
  }

  /** A replacement can be undone, because every partial tree shows the vertex whole. */
  lemma PartialSeparates(t: Vertex, done: set<string>, v: Vertex, perms: seq<Shape>)
    requires Ready(t, done, v) && forall s | s in perms :: Partial(t, done, s)
    ensures Separates(perms, v.id)
  {
    hide Partial, Ready, Has, Replace;
    forall s, s', c, c' | s in perms && s' in perms && Has(s, v.id) && Has(s', v.id) &&
      Replace(s, v.id, c) == Replace(s', v.id, c')
      ensures s == s' && c == c'
    {
      FindReplaced(s, v.id, c);
      FindReplaced(s', v.id, c');
      UndoneIsWhole(t, done, v, s);
      UndoneIsWhole(t, done, v, s');
      ReplaceTwice(s, v.id, c, ShapesOf(v.kids));
      ReplaceTwice(s', v.id, c', ShapesOf(v.kids));
    }
  }

  lemma ExpandMembers(t: Vertex, done: set<string>, v: Vertex, perms: seq<Shape>, x: Shape)
    requires Ready(t, done, v) && v.kids != [] && Unique(v)
    requires forall s :: s in perms <==> Partial(t, done, s)
    ensures x in Without(perms, v.id) + Expanded(perms, v.id, Choices(v)) <==> Partial(t, done + {v.id}, x)
  {
    hide Partial, Ready, Has, Replace, Choice, Choices, Unique, Without, Expanded;
    WithoutMembers(perms, v.id, x);
    ExpandedMembers(perms, v.id, Choices(v), x);
    ChoicesExact(v);
    if !Has(x, v.id) {
      StepWithout(t, done, v, x);
      forall s, c | s in perms && c in Choices(v) && Has(s, v.id)
        ensures x != Replace(s, v.id, c)
      {
        ReplaceHas(s, v.id, c);
      }
    } else {
      forall s, c | s in perms && c in Choices(v) && Has(s, v.id) && x == Replace(s, v.id, c)
        ensures Partial(t, done + {v.id}, x)
      {
        StepForward(t, done, v, s, c);
      }
      if Partial(t, done + {v.id}, x) {
        var c := StepBack(t, done, v, x);
        var s := Replace(x, v.id, ShapesOf(v.kids));
        ReplaceHas(x, v.id, ShapesOf(v.kids));
        ReplaceTwice(x, v.id, ShapesOf(v.kids), c);
        assert s in perms && c in Choices(v);
      }
    }
  }

  lemma ExpandStep(t: Vertex, done: set<string>, v: Vertex, perms: seq<Shape>)
    requires Ready(t, done, v) && v.kids != [] && Unique(v) && Enumerates(t, done, perms)
    ensures Enumerates(t, done + {v.id}, Without(perms, v.id) + Expanded(perms, v.id, Choices(v)))
  {
    hide Partial, Ready, Has, Replace, Choices, Unique, Without, Expanded, Separates;
    var without, expanded := Without(perms, v.id), Expanded(perms, v.id, Choices(v));
    forall x
      ensures x in without + expanded <==> Partial(t, done + {v.id}, x)
    {
      ExpandMembers(t, done, v, perms, x);
    }
    WithoutNoDuplicates(perms, v.id);
    ChoicesExact(v);
    PartialSeparates(t, done, v, perms);
    ExpandedNoDuplicates(perms, v.id, Choices(v));
    forall x | x in without
      ensures x !in expanded
    {
      WithoutMembers(perms, v.id, x);
      ExpandedMembers(perms, v.id, Choices(v), x);
      if s, c :| s in perms && c in Choices(v) && Has(s, v.id) && x == Replace(s, v.id, c) {
        ReplaceHas(s, v.id, c);
      }
    }
    NoDuplicatesAppend(without, expanded);
  }

  lemma LeafStep(t: Vertex, done: set<string>, v: Vertex, perms: seq<Shape>)
    requires Ready(t, done, v) && v.kids == [] && Enumerates(t, done, perms)
    ensures Enumerates(t, done + {v.id}, perms)
  {
    forall s
      ensures Partial(t, done + {v.id}, s) <==> Partial(t, done, s)
    {
      StepWithout(t, done, v, s);
    }
  }

  // ----- The queue -----

  lemma {:induction false} FrontierElsewhere(t: Vertex, done: set<string>, id: string)
    requires id !in Ids(t)
    ensures Frontier(t, done + {id}) == Frontier(t, done)
    ensures TopDown(t, done + {id}) <==> TopDown(t, done)
  {
    forall k | 0 <= k < |t.kids|
      ensures Frontier(t.kids[k], done + {id}) == Frontier(t.kids[k], done)
      ensures TopDown(t.kids[k], done + {id}) <==> TopDown(t.kids[k], done)
    {
      FrontierElsewhere(t.kids[k], done, id);
    }
  }

  lemma WholeFrontier(t: Vertex, done: set<string>)
    requires Ids(t) !! done
    ensures Frontier(t, done) == {t} && TopDown(t, done)
  {
  }

  /** Marking the vertex done puts its descendants in its place. */
  lemma {:induction false} FrontierStep(t: Vertex, done: set<string>, v: Vertex, x: Vertex)
    requires Ready(t, done, v)
    ensures TopDown(t, done + {v.id})
    ensures x in Frontier(t, done + {v.id}) <==>
            (x in Frontier(t, done) && x != v) || (v in Frontier(t, done) && x in v.kids)
  {
    if v.id !in Ids(t) {
      FrontierElsewhere(t, done, v.id);
      if v in Frontier(t, done) { FrontierIds(t, done, v); }
    } else if t.id !in done {
      forall k | 0 <= k < |t.kids|
        ensures Frontier(t.kids[k], done + {v.id}) == {t.kids[k]} && TopDown(t.kids[k], done + {v.id})
      {
        assert Ids(t.kids[k]) !! done + {v.id};
        WholeFrontier(t.kids[k], done + {v.id});
      }
    } else {
      forall k | 0 <= k < |t.kids|
        ensures TopDown(t.kids[k], done + {v.id})
        ensures x in Frontier(t.kids[k], done + {v.id}) <==>
                (x in Frontier(t.kids[k], done) && x != v) || (v in Frontier(t.kids[k], done) && x in v.kids)
      {
        ReadyKid(t, done, v, k);
        FrontierStep(t.kids[k], done, v, x);
      }
    }
  }

  lemma {:induction false} FrontierDisjoint(t: Vertex, done: set<string>, x: Vertex, y: Vertex)
    requires Unique(t) && x in Frontier(t, done) && y in Frontier(t, done) && x != y
    ensures Ids(x) !! Ids(y)
  {
    if t.id in done {
      var j :| 0 <= j < |t.kids| && x in Frontier(t.kids[j], done);
      var k :| 0 <= k < |t.kids| && y in Frontier(t.kids[k], done);
      if j == k {
        FrontierDisjoint(t.kids[j], done, x, y);
      } else {
        FrontierIds(t.kids[j], done, x);
        FrontierIds(t.kids[k], done, y);
      }
    }
  }

  lemma {:induction false} FrontierUnique(t: Vertex, done: set<string>, v: Vertex)
    requires Unique(t) && v in Frontier(t, done)
    ensures Unique(v)
  {
    if t.id in done {
      var k :| 0 <= k < |t.kids| && v in Frontier(t.kids[k], done);
      FrontierUnique(t.kids[k], done, v);
    }
  }

  lemma {:induction false} EmptyFrontier(t: Vertex, done: set<string>)
    requires Frontier(t, done) == {}
    ensures Ids(t) <= done
  {
    assert t.id in done;
    forall k | 0 <= k < |t.kids|
      ensures Ids(t.kids[k]) <= done
    {
      forall v ensures v !in Frontier(t.kids[k], done) {
        assert v in Frontier(t.kids[k], done) ==> v in Frontier(t, done);
      }
      EmptyFrontier(t.kids[k], done);
    }
  }

  /** The queue holds the topmost vertices that are not done, each once. */
  ghost predicate QueueOk(t: Vertex, done: set<string>, queue: seq<Vertex>) {
    && Unique(t) && TopDown(t, done) && NoDuplicates(queue)
    && forall v :: v in queue <==> v in Frontier(t, done)
  }

  lemma QueueStep(t: Vertex, done: set<string>, queue: seq<Vertex>)
    requires QueueOk(t, done, queue) && queue != []
    ensures var v := queue[0];
            && Ready(t, done, v) && Unique(v)
            && QueueOk(t, done + {v.id}, queue[1..] + v.kids)
  {
    hide Unique, TopDown, Frontier;
    var v, rest := queue[0], queue[1..];
    assert queue == [v] + rest;
    assert v in queue;
    FrontierUnique(t, done, v);
    forall x
      ensures x in rest + v.kids <==> x in Frontier(t, done + {v.id})
    {
      FrontierStep(t, done, v, x);
    }
    FrontierStep(t, done, v, v);
    KidsNoDuplicates(v);
    forall x | x in rest
      ensures x !in v.kids
    {
      assert x in queue;
      FrontierDisjoint(t, done, v, x);
      KidIds(v, x);
    }
    NoDuplicatesAppend(rest, v.kids);
  }

  lemma KidsNoDuplicates(v: Vertex)
    requires Unique(v)
    ensures NoDuplicates(v.kids)
  {
    forall j, k | 0 <= j < k < |v.kids|
      ensures v.kids[j] != v.kids[k]
    {
      assert v.kids[j].id in Ids(v.kids[j]);
    }
  }

  lemma KidIds(v: Vertex, x: Vertex)
    ensures x in v.kids ==> x.id in Ids(v) && x.id in Ids(x)
  {
    if x in v.kids {
      var k :| 0 <= k < |v.kids| && v.kids[k] == x;
      assert x.id in Ids(v.kids[k]);
    }
  }

  lemma {:induction false} ProcessEnumerates(t: Vertex, done: set<string>, queue: seq<Vertex>, perms: seq<Shape>)
    requires QueueOk(t, done, queue) && Enumerates(t, done, perms)
    ensures NoDuplicates(Process(queue, perms))
    ensures forall s :: s in Process(queue, perms) <==> ThresholdTree(t, s)
    decreases SizeOf(queue)
  {
    hide Partial, ThresholdTree, Without, Expanded, Choices, Unique, TopDown, Ready;
    if queue == [] {
      assert Frontier(t, done) == {};
      EmptyFrontier(t, done);
      forall s
        ensures Partial(t, done, s) <==> ThresholdTree(t, s)
      {
        AllDone(t, done, s);
      }
    } else {
      var v := queue[0];
      QueueStep(t, done, queue);
      SizeOfAppend(queue[1..], v.kids);
      assert Size(v) == 1 + SizeOf(v.kids);
      if v.kids == [] {
        LeafStep(t, done, v, perms);
        ProcessEnumerates(t, done + {v.id}, queue[1..] + v.kids, perms);
      } else {
        ExpandStep(t, done, v, perms);
        ProcessEnumerates(t, done + {v.id}, queue[1..] + v.kids,
                          Without(perms, v.id) + Expanded(perms, v.id, Choices(v)));
      }
    }
  }

  /** For unique ids, `permute` returns exactly the trees in which every inner vertex reached keeps
      threshold many of its descendants, each such tree once. */
  lemma PermutationsExact(t: Vertex)
    requires Unique(t)
    ensures NoDuplicates(Permutations(t))
    ensures forall s :: s in Permutations(t) <==> ThresholdTree(t, s)
  {
    hide Unique, ThresholdTree, Process;
    WholeFrontier(t, {});
    assert Enumerates(t, {}, [ShapeOf(t)]);
    ProcessEnumerates(t, {}, [t], [ShapeOf(t)]);
  }
}
