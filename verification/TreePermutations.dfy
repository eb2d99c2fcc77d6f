/** Enumerating the permutations of a tree over vertex objects: pruning in place, then cloning and
    replacing in breadth-first order (common/graph/perm.go). */
module TreePermutations {
  import opened Choose
  import opened TreeShapes
  import opened TreeVertices

  /** For each inner vertex, the lists of descendants to choose from. */
  type DescendantPermutations = map<TreeVertex, seq<seq<TreeVertex>>>

  ghost predicate AllListed(m: Store, lists: seq<seq<TreeVertex>>, choices: seq<seq<Shape>>) {
    |lists| == |choices| && forall i | 0 <= i < |lists| :: AllShow(m, lists[i], choices[i])
  }

  /** Every inner vertex of the tree has its choices listed, in order. */
  ghost predicate Tabulates(m: Store, dp: DescendantPermutations, v: TreeVertex, t: Vertex)
    requires Models(m, v, t)
    decreases t
  {
    && (t.kids != [] ==> v in dp && AllListed(m, dp[v], Choices(t)))
    && forall i | 0 <= i < |t.kids| :: Tabulates(m, dp, m[v].kids[i], t.kids[i])
  }

  // ----- The second phase: expanding the permutations -----

  /** The permutations in which the vertex exists. */
  function With(perms: seq<Shape>, id: string): seq<Shape> {
    if perms == [] then []
    else (if Find(perms[0], id).Some? then [perms[0]] else []) + With(perms[1..], id)
  }

  lemma {:induction false} ExpandedOfWith(perms: seq<Shape>, id: string, choices: seq<seq<Shape>>)
    ensures Expanded(With(perms, id), id, choices) == Expanded(perms, id, choices)
    ensures forall s | s in With(perms, id) :: Find(s, id).Some?
    decreases |perms|
  {
    hide Find;
    if perms != [] {
      ExpandedOfWith(perms[1..], id, choices);
      if Find(perms[0], id).Some? {
        var w := With(perms, id);
        assert w[0] == perms[0] && w[1..] == With(perms[1..], id);
      } else {
        assert With(perms, id) == With(perms[1..], id);
        assert Expanded(perms, id, choices) == Expanded(perms[1..], id, choices);
      }
    }
  }

  lemma FiltersNone(id: string)
    ensures With([], id) == [] && Without([], id) == []
  {
  }

  lemma {:induction false} WithSnoc(perms: seq<Shape>, s: Shape, id: string)
    ensures With(perms + [s], id) == With(perms, id) + (if Find(s, id).Some? then [s] else [])
    decreases |perms|
  {
    hide Find;
    var all := perms + [s];
    if perms == [] {
      assert all[1..] == [];
    } else {
      assert all[0] == perms[0] && all[1..] == perms[1..] + [s];
      WithSnoc(perms[1..], s, id);
      AppendTwice(if Find(perms[0], id).Some? then [perms[0]] else [], With(perms[1..], id),
                  if Find(s, id).Some? then [s] else []);
    }
  }

  lemma {:induction false} WithoutSnoc(perms: seq<Shape>, s: Shape, id: string)
    ensures Without(perms + [s], id) == Without(perms, id) + (if Find(s, id).Some? then [] else [s])
    decreases |perms|
  {
    hide Find;
    var all := perms + [s];
    if perms == [] {
      assert all[1..] == [];
    } else {
      assert all[0] == perms[0] && all[1..] == perms[1..] + [s];
      WithoutSnoc(perms[1..], s, id);
      AppendTwice(if Find(perms[0], id).Some? then [] else [perms[0]], Without(perms[1..], id),
                  if Find(s, id).Some? then [] else [s]);
    }
  }

  lemma {:induction false} ExpandedSnoc(perms: seq<Shape>, s: Shape, id: string, choices: seq<seq<Shape>>)
    requires Find(s, id).Some?
    ensures Expanded(perms + [s], id, choices) == Expanded(perms, id, choices) + Replacements(s, id, choices)
    decreases |perms|
  {
    hide Find, Replacements;
    var all := perms + [s];
    if perms == [] {
      assert all[1..] == [];
    } else {
      assert all[0] == perms[0] && all[1..] == perms[1..] + [s];
      ExpandedSnoc(perms[1..], s, id, choices);
    }
  }

  /** The loop that separates the permutations where the vertex exists from the others. */
  method Separate(perms: seq<TreeVertex>, id: string, ghost region: set<TreeVertex>, ghost shapes: seq<Shape>)
    returns (with: seq<TreeVertex>, without: seq<TreeVertex>)
    requires AllShow(Snap(region), perms, shapes)
    ensures AllShow(Snap(region), with, With(shapes, id))
    ensures AllShow(Snap(region), without, Without(shapes, id))
  {
    hide Shows, Find, With, Without;
    with, without := [], [];
    FiltersNone(id);
    assert shapes[..0] == [];
    for i := 0 to |perms|
      invariant AllShow(Snap(region), with, With(shapes[..i], id))
      invariant AllShow(Snap(region), without, Without(shapes[..i], id))
    {
      assert shapes[..i + 1] == shapes[..i] + [shapes[i]];
      WithSnoc(shapes[..i], shapes[i], id);
      WithoutSnoc(shapes[..i], shapes[i], id);
      var found := ExistsVertex(perms[i], id, region, shapes[i]);
      if found {
        with := with + [perms[i]];
      } else {
        without := without + [perms[i]];
      }
    }
    assert shapes[..|perms|] == shapes;
  }

  /** A clone with one choice of descendants put in place. */
  method CloneWith(perm: TreeVertex, id: string, list: seq<TreeVertex>,
                   ghost region: set<TreeVertex>, ghost s: Shape, ghost choice: seq<Shape>)
    returns (newTree: TreeVertex, ghost new': set<TreeVertex>)
    requires Shows(Snap(region), perm, s) && AllShow(Snap(region), list, choice)
    ensures fresh(new') && Shows(Snap(region + new'), newTree, Replace(s, id, choice))
  {
    hide Shows, Skeleton, Grafted, Replace;
    newTree, new' := Clone(perm, region, s);
    ShowsSkeleton(Snap(new'), newTree, s, id);
    ReplaceInPlace(newTree, id, list, new', s);
    ghost var all := region + new';
    assert Extends(Snap(new'), Snap(all)) && Extends(Snap(region), Snap(all));
    AllShowExtends(Snap(region), Snap(all), list, choice);
    GraftedShows(Snap(new'), Snap(all), newTree, s, id, list, choice);
  }

  /** The innermost loop: one clone for each choice of descendants. */
  method ExpandOne(perm: TreeVertex, id: string, lists: seq<seq<TreeVertex>>,
                   ghost region: set<TreeVertex>, ghost s: Shape, ghost choices: seq<seq<Shape>>)
    returns (result: seq<TreeVertex>, ghost region': set<TreeVertex>)
    requires Shows(Snap(region), perm, s) && AllListed(Snap(region), lists, choices)
    ensures region <= region' && fresh(region' - region)
    ensures AllShow(Snap(region'), result, Replacements(s, id, choices))
  {
    hide Shows, Replace;
    result, region' := [], region;
    ghost var goal := Replacements(s, id, choices);
    for j := 0 to |lists|
      invariant region <= region' && fresh(region' - region)
      invariant AllShow(Snap(region'), result, goal[..j])
    {
      var newTree;
      ghost var new';
      newTree, new' := CloneWith(perm, id, lists[j], region, s, choices[j]);
      ghost var all := region' + new';
      assert Extends(Snap(region'), Snap(all)) && Extends(Snap(region + new'), Snap(all));
      AllShowExtends(Snap(region'), Snap(all), result, goal[..j]);
      AllShowExtends(Snap(region + new'), Snap(all), [newTree], [Replace(s, id, choices[j])]);
      assert goal[..j + 1] == goal[..j] + [Replace(s, id, choices[j])];
      result, region' := result + [newTree], all;
    }
    assert goal[..|lists|] == goal;
  }

  /** The loop over the permutations where the vertex exists. */
  method ExpandAll(perms: seq<TreeVertex>, id: string, lists: seq<seq<TreeVertex>>, start: seq<TreeVertex>,
                   ghost region: set<TreeVertex>, ghost shapes: seq<Shape>, ghost choices: seq<seq<Shape>>,
                   ghost first: seq<Shape>)
    returns (result: seq<TreeVertex>, ghost region': set<TreeVertex>)
    requires AllShow(Snap(region), perms, shapes) && AllListed(Snap(region), lists, choices)
    requires AllShow(Snap(region), start, first)
    requires forall s | s in shapes :: Find(s, id).Some?
    ensures region <= region' && fresh(region' - region)
    ensures AllShow(Snap(region'), result, first + Expanded(shapes, id, choices))
  {
    hide Shows, Expanded, Find, Replacements;
    result, region' := start, region;
    assert Expanded(shapes[..0], id, choices) == [] by { ExpandedNone(id, choices); }
    assert first + [] == first;
    for i := 0 to |perms|
      invariant region <= region' && fresh(region' - region)
      invariant AllShow(Snap(region'), result, first + Expanded(shapes[..i], id, choices))
    {
      ghost var s := shapes[i];
      ghost var done := first + Expanded(shapes[..i], id, choices);
      var more;
      ghost var grown;
      more, grown := ExpandOne(perms[i], id, lists, region, s, choices);
      ghost var all := region' + grown;
      assert Extends(Snap(region'), Snap(all)) && Extends(Snap(grown), Snap(all));
      AllShowExtends(Snap(region'), Snap(all), result, done);
      AllShowExtends(Snap(grown), Snap(all), more, Replacements(s, id, choices));
      assert shapes[..i + 1] == shapes[..i] + [s];
      ExpandedSnoc(shapes[..i], s, id, choices);
      assert first + Expanded(shapes[..i + 1], id, choices) == done + Replacements(s, id, choices);
      result, region' := result + more, all;
    }
    assert shapes[..|perms|] == shapes;
  }

  lemma ExpandedNone(id: string, choices: seq<seq<Shape>>)
    ensures Expanded([], id, choices) == []
  {
  }

  /** The queue holds the vertices of the values, with their choices listed. */
  ghost predicate QueueModels(m: Store, dp: DescendantPermutations, queue: seq<TreeVertex>, values: seq<Vertex>) {
    |queue| == |values| && forall i | 0 <= i < |queue| ::
      Models(m, queue[i], values[i]) && Tabulates(m, dp, queue[i], values[i])
  }

  lemma KidsModel(m: Store, dp: DescendantPermutations, v: TreeVertex, t: Vertex)
    requires Models(m, v, t) && Tabulates(m, dp, v, t)
    ensures QueueModels(m, dp, m[v].kids, t.kids)
    ensures t.kids != [] ==> v in dp && AllListed(m, dp[v], Choices(t))
  {
    hide AllListed, Choices;
  }

  lemma QueueAdvances(m: Store, dp: DescendantPermutations, queue: seq<TreeVertex>, values: seq<Vertex>)
    requires QueueModels(m, dp, queue, values) && queue != []
    ensures Models(m, queue[0], values[0]) && |m[queue[0]].kids| == |values[0].kids|
    ensures values[0].kids != [] ==> queue[0] in dp && AllListed(m, dp[queue[0]], Choices(values[0]))
    ensures QueueModels(m, dp, queue[1..] + m[queue[0]].kids, values[1..] + values[0].kids)
  {
    KidsModel(m, dp, queue[0], values[0]);
    hide Models, Tabulates, AllListed, Choices;
  }

  /** The breadth-first loop of `permute` over the pruned tree. It changes no vertex that existed
      before, and returns trees of exactly the shapes of `Permutations`. */
  method Permute(root: TreeVertex, dp: DescendantPermutations, ghost region: set<TreeVertex>, ghost t: Vertex)
    returns (perms: seq<TreeVertex>, ghost region': set<TreeVertex>)
    requires Models(Snap(region), root, t) && Tabulates(Snap(region), dp, root, t)
    ensures region <= region' && fresh(region' - region)
    ensures AllShow(Snap(region'), perms, Permutations(t))
  {
    hide Shows, Choices, Expanded, Without, Find, Tabulates, AllListed;
    ghost var store := Snap(region);
    ModelsShows(store, root, t);
    perms, region' := [root], region;
    ghost var shapes := [ShapeOf(t)];
    var queue := [root];
    ghost var values := [t];
    while queue != []
      invariant region <= region' && fresh(region' - region) && Snap(region) == store
      invariant QueueModels(store, dp, queue, values)
      invariant AllShow(Snap(region'), perms, shapes)
      invariant Process(values, shapes) == Permutations(t)
      decreases SizeOf(values)
    {
      var v := queue[0];
      ghost var tv := values[0];
      QueueAdvances(store, dp, queue, values);
      QueueShrinks(values);
      ghost var step := if tv.kids == [] then shapes else Without(shapes, tv.id) + Expanded(shapes, tv.id, Choices(tv));
      assert Process(values, shapes) == Process(values[1..] + tv.kids, step);
      queue, values := queue[1..] + v.descendants, values[1..] + tv.kids;
      if |v.descendants| == 0 { continue; }
      assert Extends(store, Snap(region'));
      AllListedExtends(store, Snap(region'), dp[v], Choices(tv));
      perms, region' := ExpandAt(perms, v.id, dp[v], region', shapes, Choices(tv));
      shapes := step;
    }
  }

  lemma AllListedExtends(m: Store, m': Store, lists: seq<seq<TreeVertex>>, choices: seq<seq<Shape>>)
    requires AllListed(m, lists, choices) && Extends(m, m')
    ensures AllListed(m', lists, choices)
  {
    forall i | 0 <= i < |lists|
      ensures AllShow(m', lists[i], choices[i])
    {
      AllShowExtends(m, m', lists[i], choices[i]);
    }
  }

  /** The body of the loop for an inner vertex. */
  method ExpandAt(perms: seq<TreeVertex>, id: string, lists: seq<seq<TreeVertex>>,
                  ghost region: set<TreeVertex>, ghost shapes: seq<Shape>, ghost choices: seq<seq<Shape>>)
    returns (result: seq<TreeVertex>, ghost region': set<TreeVertex>)
    requires AllShow(Snap(region), perms, shapes) && AllListed(Snap(region), lists, choices)
    ensures region <= region' && fresh(region' - region)
    ensures AllShow(Snap(region'), result, Without(shapes, id) + Expanded(shapes, id, choices))
  {
    hide Shows, Expanded, Without, With, Find;
    var with, without := Separate(perms, id, region, shapes);
    ExpandedOfWith(shapes, id, choices);
    result, region' := ExpandAll(with, id, lists, without, region, With(shapes, id), choices, Without(shapes, id));
  }

  // ----- The first phase: pruning in place -----

  /** What pruning makes of a tree. */
  ghost predicate PrunedFrom(p: Vertex, t: Vertex, bound: int) {
    && p.id == t.id && p.data == t.data && p.threshold == t.threshold
    && if t.kids == [] then p.kids == []
       else exists at :: KeepsSome(p, t, at, bound) && forall j | 0 <= j < |at| ::
         PrunedFrom(p.kids[j], t.kids[at[j]], bound)
  }

  /** A vertex keeps the descendants at these positions, as many as the bound allows. */
  ghost predicate KeepsSome(p: Vertex, t: Vertex, at: seq<nat>, bound: int) {
    Increasing(at, 0, |t.kids|) && |p.kids| == |at| && PrunedLength(|t.kids|, |at|, t.threshold, bound)
  }

  lemma {:induction false} PrunedIsUnique(p: Vertex, t: Vertex, bound: int)
    requires PrunedFrom(p, t, bound) && Unique(t)
    ensures Unique(p) && Ids(p) <= Ids(t)
    decreases t
  {
    if t.kids != [] {
      var at :| KeepsSome(p, t, at, bound) && forall j | 0 <= j < |at| :: PrunedFrom(p.kids[j], t.kids[at[j]], bound);
      forall j | 0 <= j < |at|
        ensures Unique(p.kids[j]) && Ids(p.kids[j]) <= Ids(t.kids[at[j]])
      {
        PrunedIsUnique(p.kids[j], t.kids[at[j]], bound);
      }
    }
  }

  /** A vertex may lose descendants and change in no other way. */
  ghost predicate Thinned(n: Node, n': Node) {
    n' == n.(kids := n'.kids) && Subsequence(n'.kids, n.kids)
  }

  function SelectAll<T>(s: seq<T>, groups: seq<seq<nat>>): (r: seq<seq<T>>)
    requires forall i | 0 <= i < |groups| :: Increasing(groups[i], 0, |s|)
    ensures |r| == |groups|
  {
    seq(|groups|, i requires 0 <= i < |groups| && Increasing(groups[i], 0, |s|) => Select(s, groups[i]))
  }

  /** The choices of a list of descendants. */
  function AllChoices<T>(kids: seq<T>, k: nat): (r: seq<seq<T>>)
  {
    var groups := Groups(|kids|, k, 0, []);
    assert forall i | 0 <= i < |groups| :: Increasing(groups[i], 0, |kids|) by { GroupsIncrease(|kids|, k); }
    SelectAll(kids, groups)
  }

  lemma GroupsIncrease(n: nat, k: nat)
    ensures forall i | 0 <= i < |Groups(n, k, 0, [])| ::
              Increasing(Groups(n, k, 0, [])[i], 0, n) && |Groups(n, k, 0, [])[i]| == k
  {
    var groups := Groups(n, k, 0, []);
    forall i | 0 <= i < |groups|
      ensures Increasing(groups[i], 0, n) && |groups[i]| == k
    {
      GroupsExact(n, k, 0, [], groups[i]);
      assert groups[i][0..] == groups[i];
    }
  }

  /** A visited vertex is pruned as far as needed, and an inner one has its choices listed. */
  ghost predicate Visited(n: Node, n': Node, dp: DescendantPermutations, v: TreeVertex, bound: int) {
    if n.kids == [] then n' == n
    else
      && Thinned(n, n') && PrunedLength(|n.kids|, |n'.kids|, n.threshold, bound)
      && v in dp && dp[v] == AllChoices(n'.kids, n.threshold)
  }

  /** Exactly the vertices whose ids are done have been visited. */
  ghost predicate PrunedUpTo(m0: Store, m: Store, dp: DescendantPermutations, v: TreeVertex, t: Vertex,
                             done: set<string>, bound: int)
    requires Models(m0, v, t)
    decreases t
  {
    && v in m
    && (if t.id in done then Visited(m0[v], m[v], dp, v, bound) else m[v] == m0[v])
    && forall i | 0 <= i < |t.kids| :: PrunedUpTo(m0, m, dp, m0[v].kids[i], t.kids[i], done, bound)
  }

  /** No two vertices of the store have the same id. */
  ghost predicate UniqueIds(m: Store) {
    forall v, w | v in m && w in m && m[v].id == m[w].id :: v == w
  }

  lemma {:induction false} PrunedStart(m0: Store, v: TreeVertex, t: Vertex, bound: int)
    requires Models(m0, v, t)
    ensures PrunedUpTo(m0, m0, map[], v, t, {}, bound)
    decreases t
  {
    forall i | 0 <= i < |t.kids|
      ensures PrunedUpTo(m0, m0, map[], m0[v].kids[i], t.kids[i], {}, bound)
    {
      PrunedStart(m0, m0[v].kids[i], t.kids[i], bound);
    }
  }

  /** Visiting one more vertex leaves all others as they are. */
  lemma {:induction false} PrunedVisit(m0: Store, m: Store, m': Store, dp: DescendantPermutations,
                                       dp': DescendantPermutations,
                                       v: TreeVertex, t: Vertex, done: set<string>, bound: int, w: TreeVertex)
    requires Models(m0, v, t) && UniqueIds(m0) && w in m0
    requires PrunedUpTo(m0, m, dp, v, t, done, bound)
    requires m'.Keys == m.Keys && (forall x | x in m && x != w :: m'[x] == m[x])
    requires forall x | x in dp && x != w :: x in dp' && dp'[x] == dp[x]
    requires w in m' && Visited(m0[w], m'[w], dp', w, bound)
    ensures PrunedUpTo(m0, m', dp', v, t, done + {m0[w].id}, bound)
    decreases t
  {
    forall i | 0 <= i < |t.kids|
      ensures PrunedUpTo(m0, m', dp', m0[v].kids[i], t.kids[i], done + {m0[w].id}, bound)
    {
      PrunedVisit(m0, m, m', dp, dp', m0[v].kids[i], t.kids[i], done, bound, w);
    }
  }

  /** When all is done the store holds the pruned tree with its choices listed. */
  lemma {:induction false} PrunedResult(m0: Store, m: Store, dp: DescendantPermutations, v: TreeVertex, t: Vertex,
                                        done: set<string>, bound: int) returns (p: Vertex)
    requires Models(m0, v, t) && PrunedUpTo(m0, m, dp, v, t, done, bound) && Ids(t) <= done
    ensures PrunedFrom(p, t, bound) && Models(m, v, p) && Tabulates(m, dp, v, p)
    decreases t
  {
    if t.kids == [] {
      p := t;
    } else {
      var at :| Increasing(at, 0, |t.kids|) && m[v].kids == Select(m0[v].kids, at);
      var kids := PrunedResults(m0, m, dp, v, t, done, bound, at, |at|);
      p := Vertex(t.id, t.data, t.threshold, kids);
      assert KeepsSome(p, t, at, bound);
      assert Models(m, v, p);
      if p.kids != [] { ChoicesListed(m, v, p); }
    }
  }

  lemma {:induction false} PrunedResults(m0: Store, m: Store, dp: DescendantPermutations, v: TreeVertex, t: Vertex,
                                         done: set<string>, bound: int, at: seq<nat>,
                                         n: nat) returns (kids: seq<Vertex>)
    requires Models(m0, v, t) && PrunedUpTo(m0, m, dp, v, t, done, bound) && Ids(t) <= done
    requires Increasing(at, 0, |t.kids|) && n <= |at|
    ensures |kids| == n
    ensures forall j | 0 <= j < n ::
              && PrunedFrom(kids[j], t.kids[at[j]], bound)
              && Models(m, m0[v].kids[at[j]], kids[j]) && Tabulates(m, dp, m0[v].kids[at[j]], kids[j])
    decreases t, n
  {
    hide PrunedFrom, Tabulates;
    if n == 0 {
      kids := [];
    } else {
      kids := PrunedResults(m0, m, dp, v, t, done, bound, at, n - 1);
      var i := at[n - 1];
      var kid := PrunedResult(m0, m, dp, m0[v].kids[i], t.kids[i], done, bound);
      kids := kids + [kid];
    }
  }

  /** The choices among the vertex objects show the choices among the values. */
  lemma ChoicesListed(m: Store, v: TreeVertex, p: Vertex)
    requires Models(m, v, p)
    ensures AllListed(m, AllChoices(m[v].kids, p.threshold), Choices(p))
  {
    hide Groups, Shows;
    var groups := Groups(|p.kids|, p.threshold, 0, []);
    GroupsIncrease(|p.kids|, p.threshold);
    var lists, choices := AllChoices(m[v].kids, p.threshold), Choices(p);
    forall i | 0 <= i < |groups|
      ensures AllShow(m, lists[i], choices[i])
    {
      ChoicesAt(p, i);
      var at := groups[i];
      forall j | 0 <= j < |at|
        ensures Shows(m, lists[i][j], choices[i][j])
      {
        ModelsShows(m, m[v].kids[at[j]], p.kids[at[j]]);
      }
    }
  }

  /** Nothing in the store changes but that vertices may lose descendants. */
  ghost predicate OnlyPrunes(m: Store, m': Store) {
    m.Keys == m'.Keys && forall v | v in m :: Thinned(m[v], m'[v])
  }

  lemma ThinnedReflexive(n: Node)
    ensures Thinned(n, n)
  {
    var at: seq<nat> := seq(|n.kids|, i => i);
    assert n.kids == Select(n.kids, at);
    assert Increasing(at, 0, |n.kids|);
  }

  /** The body of the first loop for one vertex: prune it and list its choices. */
  method VisitVertex(v: TreeVertex, dp: DescendantPermutations, bound: int, ghost region: set<TreeVertex>)
    returns (dp': DescendantPermutations, ok: bool)
    requires v in region
    modifies v
    ensures ok <==> |old(v.descendants)| == 0 || old(v.threshold) > 0 || bound >= 1
    ensures ok ==> Visited(old(Snap(region))[v], Snap(region)[v], dp', v, bound)
    ensures forall x | x in dp && x != v :: x in dp' && dp'[x] == dp[x]
    ensures Thinned(old(Snap(region))[v], Snap(region)[v])
  {
    hide Groups, Select, Increasing, PrunedLength, AllChoices;
    dp', ok := dp, true;
    ThinnedReflexive(Snap(region)[v]);
    if |v.descendants| == 0 { return; }
    var left := Prune(v.descendants, v.threshold, bound);
    if left.None? {
      ok := false;
      return;
    }
    v.descendants := left.value;
    var lists := ListChoices(v.descendants, v.threshold);
    dp' := dp[v := lists];
  }

  /** `selectDescendants`. */
  method SelectDescendants(kids: seq<TreeVertex>, indices: seq<nat>) returns (r: seq<TreeVertex>)
    requires Increasing(indices, 0, |kids|)
    ensures r == Select(kids, indices)
  {
    r := [];
    for i := 0 to |indices|
      invariant |r| == i && forall j | 0 <= j < i :: r[j] == kids[indices[j]]
    {
      r := r + [kids[indices[i]]];
    }
  }

  /** The loop over the options of selecting the threshold out of the descendants. */
  method ListChoices(kids: seq<TreeVertex>, k: nat) returns (lists: seq<seq<TreeVertex>>)
    ensures lists == AllChoices(kids, k)
  {
    hide Groups, Select;
    var groups := ChooseKoutOfN(|kids|, k);
    GroupsIncrease(|kids|, k);
    lists := [];
    for i := 0 to |groups|
      invariant |lists| == i && forall j | 0 <= j < i :: lists[j] == Select(kids, groups[j])
    {
      var selected := SelectDescendants(kids, groups[i]);
      lists := lists + [selected];
    }
  }

  /** `computeDescendantPermutations`: visits every vertex of the tree in breadth-first order, those
      that are pruned away included. It panics exactly when the bound is below one and some inner
      vertex has threshold zero. */
  method ComputeDescendantPermutations(root: TreeVertex, bound: int, ghost region: set<TreeVertex>, ghost t: Vertex)
    returns (dp: DescendantPermutations, ok: bool, ghost p: Vertex)
    requires Models(Snap(region), root, t) && Unique(t) && UniqueIds(Snap(region))
    modifies region
    ensures OnlyPrunes(old(Snap(region)), Snap(region))
    ensures ok <==> bound >= 1 || !ZeroGate(t)
    ensures ok ==> PrunedFrom(p, t, bound) && Models(Snap(region), root, p) && Tabulates(Snap(region), dp, root, p)
  {
    hide Unique, Thinned, Visited, PrunedUpTo, Tabulates, PrunedFrom, ZeroGate, QueueOk, Size, SizeOf, Ready;
    dp, ok, p := map[], true, t;
    ghost var store := Snap(region);
    ghost var done: set<string> := {};
    var queue := [root];
    ghost var values := [t];
    StartOfVisit(store, root, t, bound);
    while queue != []
      invariant OnlyPrunes(store, Snap(region))
      invariant |queue| == |values| && forall i | 0 <= i < |queue| :: Models(store, queue[i], values[i])
      invariant QueueOk(t, done, values)
      invariant PrunedUpTo(store, Snap(region), dp, root, t, done, bound)
      invariant forall x | x in region && x.id !in done :: Snap(region)[x] == store[x]
      decreases SizeOf(values)
    {
      var v := queue[0];
      ghost var tv, before, dp0 := values[0], Snap(region), dp;
      QueueStep(t, done, values);
      QueueHeadNotDone(t, done, values);
      QueueShrinks(values);
      assert v in region && before[v] == store[v];
      queue, values := queue[1..] + v.descendants, values[1..] + tv.kids;
      dp, ok := VisitVertex(v, dp, bound, region);
      ghost var after := Snap(region);
      if !ok { return; }
      PrunedVisit(store, before, after, dp0, dp, root, t, done, bound, v);
      done := done + {tv.id};
    }
    AllVisited(t, done);
    if bound < 1 { NoZeroGate(store, Snap(region), dp, root, t, done, bound); }
    p := PrunedResult(store, Snap(region), dp, root, t, done, bound);
  }

  /** Some inner vertex asks for none of its descendants. */
  predicate ZeroGate(t: Vertex) {
    (t.kids != [] && t.threshold == 0) || exists k | 0 <= k < |t.kids| :: ZeroGate(t.kids[k])
  }

  lemma {:induction false} ZeroGateAbove(t: Vertex, done: set<string>, v: Vertex)
    requires v in Frontier(t, done) && ZeroGate(v)
    ensures ZeroGate(t)
  {
    if t.id in done {
      var k :| 0 <= k < |t.kids| && v in Frontier(t.kids[k], done);
      ZeroGateAbove(t.kids[k], done, v);
    }
  }

  /** A pruning that came through with a bound below one met no such vertex. */
  lemma {:induction false} NoZeroGate(m0: Store, m: Store, dp: DescendantPermutations, v: TreeVertex, t: Vertex,
                                      done: set<string>, bound: int)
    requires Models(m0, v, t) && PrunedUpTo(m0, m, dp, v, t, done, bound) && Ids(t) <= done && bound < 1
    ensures !ZeroGate(t)
    decreases t
  {
    forall k | 0 <= k < |t.kids|
      ensures !ZeroGate(t.kids[k])
    {
      NoZeroGate(m0, m, dp, m0[v].kids[k], t.kids[k], done, bound);
    }
    if t.kids != [] {
      assert Visited(m0[v], m[v], dp, v, bound);
      BinomialBounds(|m[v].kids|, 0);
    }
  }

  lemma StartOfVisit(m: Store, v: TreeVertex, t: Vertex, bound: int)
    requires Models(m, v, t) && Unique(t)
    ensures OnlyPrunes(m, m) && QueueOk(t, {}, [t]) && PrunedUpTo(m, m, map[], v, t, {}, bound)
  {
    forall x | x in m ensures Thinned(m[x], m[x]) { ThinnedReflexive(m[x]); }
    WholeFrontier(t, {});
    PrunedStart(m, v, t, bound);
  }

  lemma QueueShrinks(queue: seq<Vertex>)
    requires queue != []
    ensures SizeOf(queue[1..] + queue[0].kids) < SizeOf(queue)
  {
    SizeOfAppend(queue[1..], queue[0].kids);
    assert Size(queue[0]) == 1 + SizeOf(queue[0].kids);
  }

  lemma QueueHeadNotDone(t: Vertex, done: set<string>, queue: seq<Vertex>)
    requires QueueOk(t, done, queue) && queue != []
    ensures queue[0].id !in done
    ensures queue[0].kids != [] && queue[0].threshold == 0 ==> ZeroGate(t)
  {
    assert queue[0] in queue;
    FrontierIds(t, done, queue[0]);
    if ZeroGate(queue[0]) { ZeroGateAbove(t, done, queue[0]); }
  }

  lemma AllVisited(t: Vertex, done: set<string>)
    requires QueueOk(t, done, [])
    ensures Ids(t) <= done
  {
    EmptyFrontier(t, done);
  }

  /** Every inner vertex has few enough choices of its descendants. */
  ghost predicate Fits(t: Vertex, bound: int) {
    && (t.kids == [] || |t.kids| < t.threshold || Binomial(|t.kids|, t.threshold) <= bound)
    && forall i | 0 <= i < |t.kids| :: Fits(t.kids[i], bound)
  }

  /** The only increasing list of all positions is the whole list. */
  lemma {:induction false} AllPositions(at: seq<nat>, n: nat)
    requires Increasing(at, 0, n) && |at| == n
    ensures forall j | 0 <= j < n :: at[j] == j
    decreases n
  {
    if n > 0 {
      var front := at[..n - 1];
      IncreasingFits(front, 0, at[n - 1]);
      assert at[n - 1] == n - 1;
      AllPositions(front, n - 1);
      assert forall j | 0 <= j < n - 1 :: at[j] == front[j];
    }
  }

  lemma KeptPositions(p: Vertex, t: Vertex, bound: int) returns (at: seq<nat>)
    requires PrunedFrom(p, t, bound) && t.kids != []
    ensures p == t.(kids := p.kids) && KeepsSome(p, t, at, bound)
    ensures forall j | 0 <= j < |at| :: PrunedFrom(p.kids[j], t.kids[at[j]], bound)
  {
    at :| KeepsSome(p, t, at, bound) && forall j | 0 <= j < |at| :: PrunedFrom(p.kids[j], t.kids[at[j]], bound);
  }

  lemma FitsUnfolds(t: Vertex, bound: int)
    requires t.kids != []
    ensures Fits(t, bound) <==>
            && (|t.kids| < t.threshold || Binomial(|t.kids|, t.threshold) <= bound)
            && forall i | 0 <= i < |t.kids| :: Fits(t.kids[i], bound)
  {
  }

  /** Pruning leaves a tree as it is exactly when every inner vertex has few enough choices. */
  lemma {:induction false} PrunesNothingExactly(p: Vertex, t: Vertex, bound: int)
    requires PrunedFrom(p, t, bound)
    ensures Fits(t, bound) <==> p == t
    decreases t
  {
    if t.kids != [] {
      var at := KeptPositions(p, t, bound);
      PruningStopsInTime(|t.kids|, |at|, t.threshold, bound);
      FitsUnfolds(t, bound);
      hide Binomial, PrunedFrom, Fits, PrunedLength;
      if |at| == |t.kids| {
        AllPositions(at, |t.kids|);
        forall j | 0 <= j < |at|
          ensures Fits(t.kids[j], bound) <==> p.kids[j] == t.kids[j]
        {
          PrunesNothingExactly(p.kids[j], t.kids[at[j]], bound);
        }
        assert p.kids == t.kids <==> forall j | 0 <= j < |at| :: p.kids[j] == t.kids[j];
      }
    }
  }

  /** `Tree.Permute`: prunes the tree in place, changing nothing else, and returns each tree in which
      every inner vertex reached keeps threshold many of its remaining descendants, once. */
  method PermuteTree(root: TreeVertex, bound: int, ghost region: set<TreeVertex>, ghost t: Vertex)
    returns (perms: seq<TreeVertex>, ok: bool, ghost p: Vertex, ghost shapes: seq<Shape>,
      ghost region': set<TreeVertex>)
    requires Models(Snap(region), root, t) && Unique(t) && UniqueIds(Snap(region))
    modifies region
    ensures OnlyPrunes(old(Snap(region)), Snap(region))
    ensures ok <==> bound >= 1 || !ZeroGate(t)
    ensures ok ==> PrunedFrom(p, t, bound) && Models(Snap(region), root, p) && (p == t <==> Fits(t, bound))
    ensures ok ==> AllShow(Snap(region'), perms, shapes) && NoDuplicates(shapes)
    ensures ok ==> forall s :: s in shapes <==> ThresholdTree(p, s)
  {
    hide Unique, Thinned, Tabulates, PrunedFrom, Permutations, ThresholdTree, Fits;
    var dp;
    perms, shapes, region' := [], [], {};
    dp, ok, p := ComputeDescendantPermutations(root, bound, region, t);
    if ok {
      perms, region' := Permute(root, dp, region, p);
      PrunedIsUnique(p, t, bound);
      PrunesNothingExactly(p, t, bound);
      PermutationsExact(p);
      shapes := Permutations(p);
    }
  }
}
