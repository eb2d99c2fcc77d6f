/** Tree vertices as objects: finding, cloning and replacing in place (common/graph/tree.go). */
module TreeVertices {
  import opened TreeShapes

  class TreeVertex {
    const id: string
    const data: string
    var descendants: seq<TreeVertex>
    var threshold: nat

    constructor (id: string, data: string, descendants: seq<TreeVertex>)
      ensures this.id == id && this.data == data && this.descendants == descendants && threshold == 0
    {
      this.id, this.data, this.descendants, threshold := id, data, descendants, 0;
    }
  }

  /** The fields of one vertex. */
  datatype Node = Node(id: string, data: string, threshold: nat, kids: seq<TreeVertex>)

  type Store = map<TreeVertex, Node>

  /** The fields of all vertices of a region, as they are now. */
  ghost function Snap(region: set<TreeVertex>): Store
    reads region
  {
    map v | v in region :: Node(v.id, v.data, v.threshold, v.descendants)
  }

  /** The vertex is the root of this tree in the store. */
  ghost predicate Models(m: Store, v: TreeVertex, t: Vertex)
    decreases t
  {
    && v in m && m[v].id == t.id && m[v].data == t.data && m[v].threshold == t.threshold
    && |m[v].kids| == |t.kids|
    && forall i | 0 <= i < |t.kids| :: Models(m, m[v].kids[i], t.kids[i])
  }

  /** The vertex is the root of a tree of this shape, whatever the thresholds. */
  ghost predicate Shows(m: Store, v: TreeVertex, s: Shape)
    decreases s
  {
    && v in m && m[v].id == s.id && m[v].data == s.data
    && |m[v].kids| == |s.kids|
    && forall i | 0 <= i < |s.kids| :: Shows(m, m[v].kids[i], s.kids[i])
  }

  ghost predicate AllShow(m: Store, vs: seq<TreeVertex>, shapes: seq<Shape>) {
    |vs| == |shapes| && forall i | 0 <= i < |vs| :: Shows(m, vs[i], shapes[i])
  }

  ghost predicate Extends(m: Store, m': Store) {
    forall v | v in m :: v in m' && m'[v] == m[v]
  }

  lemma {:induction false} ModelsShows(m: Store, v: TreeVertex, t: Vertex)
    requires Models(m, v, t)
    ensures Shows(m, v, ShapeOf(t))
  {
    forall i | 0 <= i < |t.kids|
      ensures Shows(m, m[v].kids[i], ShapeOf(t).kids[i])
    {
      ModelsShows(m, m[v].kids[i], t.kids[i]);
    }
  }

  lemma {:induction false} ShowsExtends(m: Store, m': Store, v: TreeVertex, s: Shape)
    requires Shows(m, v, s) && Extends(m, m')
    ensures Shows(m', v, s)
  {
    forall i | 0 <= i < |s.kids|
      ensures Shows(m', m[v].kids[i], s.kids[i])
    {
      ShowsExtends(m, m', m[v].kids[i], s.kids[i]);
    }
  }

  lemma AllShowExtends(m: Store, m': Store, vs: seq<TreeVertex>, shapes: seq<Shape>)
    requires AllShow(m, vs, shapes) && Extends(m, m')
    ensures AllShow(m', vs, shapes)
  {
    forall i | 0 <= i < |vs|
      ensures Shows(m', vs[i], shapes[i])
    {
      ShowsExtends(m, m', vs[i], shapes[i]);
    }
  }

  /** `Find`. */
  method FindVertex(v: TreeVertex, id: string, ghost region: set<TreeVertex>, ghost s: Shape) returns (r: TreeVertex?)
    requires Shows(Snap(region), v, s)
    ensures r != null <==> Find(s, id).Some?
    ensures r != null ==> Shows(Snap(region), r, Find(s, id).value)
    decreases s
  {
    if v.id == id { return v; }
    for i := 0 to |v.descendants|
      invariant FindIn(s.kids, id) == FindIn(s.kids[i..], id)
    {
      var u := v.descendants[i];
      r := FindVertex(u, id, region, s.kids[i]);
      assert s.kids[i..][1..] == s.kids[i + 1..];
      if r != null { return r; }
    }
    return null;
  }

  /** `Exists`. */
  method ExistsVertex(v: TreeVertex, id: string, ghost region: set<TreeVertex>, ghost s: Shape) returns (b: bool)
    requires Shows(Snap(region), v, s)
    ensures b <==> Find(s, id).Some?
  {
    var r := FindVertex(v, id, region, s);
    b := r != null;
  }

  /** `Clone`: a tree of the same shape made of new vertices only. */
  method Clone(v: TreeVertex, ghost region: set<TreeVertex>, ghost s: Shape)
    returns (copy: TreeVertex, ghost new': set<TreeVertex>)
    requires Shows(Snap(region), v, s)
    ensures fresh(new') && Shows(Snap(new'), copy, s)
    decreases s
  {
    var descendants: seq<TreeVertex> := [];
    new' := {};
    for i := 0 to |v.descendants|
      invariant fresh(new') && |descendants| == i
      invariant AllShow(Snap(new'), descendants, s.kids[..i])
    {
      ghost var sub;
      var u;
      u, sub := Clone(v.descendants[i], region, s.kids[i]);
      assert Extends(Snap(new'), Snap(new' + sub)) && Extends(Snap(sub), Snap(new' + sub));
      AllShowExtends(Snap(new'), Snap(new' + sub), descendants, s.kids[..i]);
      ShowsExtends(Snap(sub), Snap(new' + sub), u, s.kids[i]);
      descendants, new' := descendants + [u], new' + sub;
    }
    ghost var below := new';
    ghost var store := Snap(below);
    copy := new TreeVertex(v.id, v.data, descendants);
    new' := below + {copy};
    assert Extends(store, Snap(new'));
    AllShowExtends(store, Snap(new'), descendants, s.kids[..|v.descendants|]);
  }

  // ----- Replacing in place -----

  /** The vertex roots a tree of this shape, except that vertices with the id may have any descendants. */
  ghost predicate Skeleton(m: Store, v: TreeVertex, s: Shape, id: string)
    decreases s
  {
    && v in m && m[v].id == s.id && m[v].data == s.data
    && (s.id != id ==>
          && |m[v].kids| == |s.kids|
          && forall i | 0 <= i < |s.kids| :: Skeleton(m, m[v].kids[i], s.kids[i], id))
  }

  /** The same, and the vertices with the id have the given descendants. */
  ghost predicate Grafted(m: Store, v: TreeVertex, s: Shape, id: string, kids: seq<TreeVertex>)
    decreases s
  {
    && v in m && m[v].id == s.id && m[v].data == s.data
    && if s.id == id then m[v].kids == kids
       else
         && |m[v].kids| == |s.kids|
         && forall i | 0 <= i < |s.kids| :: Grafted(m, m[v].kids[i], s.kids[i], id, kids)
  }

  /** Nothing changes but the descendants of vertices with the id, which become the given ones. */
  ghost predicate OnlyGrafts(m: Store, m': Store, id: string, kids: seq<TreeVertex>) {
    && m.Keys == m'.Keys
    && forall v | v in m :: m'[v] == m[v] || (m[v].id == id && m'[v] == m[v].(kids := kids))
  }

  lemma {:induction false} ShowsSkeleton(m: Store, v: TreeVertex, s: Shape, id: string)
    requires Shows(m, v, s)
    ensures Skeleton(m, v, s, id)
  {
    forall i | 0 <= i < |s.kids|
      ensures Skeleton(m, m[v].kids[i], s.kids[i], id)
    {
      ShowsSkeleton(m, m[v].kids[i], s.kids[i], id);
    }
  }

  lemma {:induction false} SkeletonKept(m: Store, m': Store, v: TreeVertex, s: Shape, id: string, kids: seq<TreeVertex>)
    requires Skeleton(m, v, s, id) && OnlyGrafts(m, m', id, kids)
    ensures Skeleton(m', v, s, id)
  {
    if s.id != id {
      forall i | 0 <= i < |s.kids|
        ensures Skeleton(m', m[v].kids[i], s.kids[i], id)
      {
        SkeletonKept(m, m', m[v].kids[i], s.kids[i], id, kids);
      }
    }
  }

  lemma {:induction false} GraftedKept(m: Store, m': Store, v: TreeVertex, s: Shape, id: string, kids: seq<TreeVertex>)
    requires Grafted(m, v, s, id, kids) && OnlyGrafts(m, m', id, kids)
    ensures Grafted(m', v, s, id, kids)
  {
    if s.id != id {
      forall i | 0 <= i < |s.kids|
        ensures Grafted(m', m[v].kids[i], s.kids[i], id, kids)
      {
        GraftedKept(m, m', m[v].kids[i], s.kids[i], id, kids);
      }
    }
  }

  /** `replace`, in place; it touches vertices with the id only, whether or not subtrees are shared. */
  method ReplaceInPlace(v: TreeVertex, id: string, kids: seq<TreeVertex>, ghost region: set<TreeVertex>, ghost s: Shape)
    requires Skeleton(Snap(region), v, s, id)
    modifies region
    ensures OnlyGrafts(old(Snap(region)), Snap(region), id, kids)
    ensures Grafted(Snap(region), v, s, id, kids)
    decreases s
  {
    if v.id == id {
      v.descendants := kids;
      return;
    }
    ghost var start := Snap(region);
    var descendants := v.descendants;
    for i := 0 to |descendants|
      invariant OnlyGrafts(start, Snap(region), id, kids)
      invariant forall j | 0 <= j < i :: Grafted(Snap(region), descendants[j], s.kids[j], id, kids)
    {
      ghost var before := Snap(region);
      SkeletonKept(start, before, descendants[i], s.kids[i], id, kids);
      ReplaceInPlace(descendants[i], id, kids, region, s.kids[i]);
      ghost var after := Snap(region);
      forall j | 0 <= j < i
        ensures Grafted(after, descendants[j], s.kids[j], id, kids)
      {
        GraftedKept(before, after, descendants[j], s.kids[j], id, kids);
      }
    }
  }

  /** A tree grafted with descendants of known shape shows the replaced shape. */
  lemma {:induction false} GraftedShows(m: Store, m': Store, v: TreeVertex, s: Shape, id: string,
                                        kids: seq<TreeVertex>, shapes: seq<Shape>)
    requires Grafted(m, v, s, id, kids) && Extends(m, m') && AllShow(m', kids, shapes)
    ensures Shows(m', v, Replace(s, id, shapes))
    decreases s
  {
    if s.id != id {
      forall i | 0 <= i < |s.kids|
        ensures Shows(m', m[v].kids[i], Replace(s.kids[i], id, shapes))
      {
        GraftedShows(m, m', m[v].kids[i], s.kids[i], id, kids, shapes);
      }
    }
  }
}
