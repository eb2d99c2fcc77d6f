/** Exactly when adding signers never hurts, for policies of two levels (common/cauthdsl/cauthdsl.go). */
module MonotoneExactly {
  import opened Basics
  import opened SignaturePolicy
  import opened GreedyMonotone

  /** With this membership service, whoever signs in addition, accept stays accept. */
  ghost predicate MonotoneFor(rule: Rule, sat: Satisfies) {
    forall at, ids, more | Embeds(at, ids, more) && Accepts(rule, sat, ids) :: Accepts(rule, sat, more)
  }

  /** Whatever the membership service says. */
  ghost predicate AlwaysMonotone(rule: Rule) {
    forall sat: Satisfies :: MonotoneFor(rule, sat)
  }

  lemma SteadyIsAlwaysMonotone(rule: Rule)
    requires Steady(rule)
    ensures AlwaysMonotone(rule)
  {
    forall sat: Satisfies, at, ids, more | Embeds(at, ids, more) && Accepts(rule, sat, ids)
      ensures Accepts(rule, sat, more)
    {
      SteadyIsMonotone(rule, sat, ids, more, at);
    }
  }

  function Leaves(ps: seq<Principal>): (rules: seq<Rule>)
    ensures |rules| == |ps| && AllLeaves(rules) && forall i | 0 <= i < |ps| :: rules[i] == Leaf(ps[i])
  {
    seq(|ps|, i requires 0 <= i < |ps| => Leaf(ps[i]))
  }

  // ----- Runs in which every leaf has at most one candidate -----

  /** `pos` tells which identity satisfies each principal, if any; nobody satisfies two of them. */
  ghost predicate Points(pos: seq<Option<nat>>, ps: seq<Principal>, sat: Satisfies, ids: seq<Identity>) {
    && |pos| == |ps|
    && (forall j | 0 <= j < |pos| && pos[j].Some? :: pos[j].value < |ids|)
    && (forall j, i | 0 <= j < |ps| && 0 <= i < |ids| :: sat(ids[i], ps[j]) <==> pos[j] == Some(i))
    && (forall j, k | 0 <= j < k < |pos| && pos[j].Some? :: pos[j] != pos[k])
  }

  /** How many of the candidates are free. */
  function Hits(pos: seq<Option<nat>>, used: seq<bool>): nat {
    if pos == [] then 0
    else One(pos[0].Some? && pos[0].value < |used| && !used[pos[0].value]) + Hits(pos[1..], used)
  }

  lemma {:induction false} HitsOthers(pos: seq<Option<nat>>, used: seq<bool>, i: nat)
    requires i < |used| && Some(i) !in pos
    ensures Hits(pos, used[i := true]) == Hits(pos, used)
    decreases |pos|
  {
    if pos != [] { HitsOthers(pos[1..], used, i); }
  }

  lemma {:induction false} HitsBetween(pos: seq<Option<nat>>, used: seq<bool>, lo: nat, hi: nat)
    requires lo <= hi <= |pos|
    requires forall j | 0 <= j < |pos| :: (pos[j].Some? && pos[j].value < |used| && !used[pos[j].value]) <==>
             lo <= j < hi
    ensures Hits(pos, used) == hi - lo
    decreases |pos|
  {
    if pos != [] {
      HitsBetween(pos[1..], used, if lo == 0 then 0 else lo - 1, if hi == 0 then 0 else hi - 1);
    }
  }

  /** Each leaf takes its candidate when that is free. */
  lemma {:induction false} PointedRun(pos: seq<Option<nat>>, ps: seq<Principal>, sat: Satisfies, ids: seq<Identity>,
                                      used: seq<bool>)
    requires Points(pos, ps, sat, ids) && |used| == |ids|
    ensures var r := EvalRules(Leaves(ps), sat, ids, used);
            r.0 == Hits(pos, used) && forall i | 0 <= i < |ids| :: r.1[i] <==> used[i] || Some(i) in pos
    decreases |ps|
  {
    if ps != [] {
      var next := if pos[0].Some? then used[pos[0].value := true] else used;
      FirstLeaf(pos, ps, sat, ids, used);
      assert Leaves(ps)[1..] == Leaves(ps[1..]);
      assert pos == [pos[0]] + pos[1..];
      RulesStep(Leaves(ps), sat, ids, used);
      hide EvalRules, Eval, Leaves;
      assert Points(pos[1..], ps[1..], sat, ids);
      PointedRun(pos[1..], ps[1..], sat, ids, next);
      if pos[0].Some? { HitsOthers(pos[1..], used, pos[0].value); }
    }
  }

  lemma FirstLeaf(pos: seq<Option<nat>>, ps: seq<Principal>, sat: Satisfies, ids: seq<Identity>, used: seq<bool>)
    requires Points(pos, ps, sat, ids) && |used| == |ids| && ps != []
    ensures var e := Eval(Leaf(ps[0]), sat, ids, used);
            && (e.0 <==> pos[0].Some? && !used[pos[0].value])
            && (if e.0 then e.1 else used) == if pos[0].Some? then used[pos[0].value := true] else used
  {
  }

  // ----- Policies of two levels -----

  /** A leaf, or a gate over leaves that asks for one of them at least and for no more than there are. */
  predicate Shallow(rule: Rule) {
    rule.Leaf? || (AllLeaves(rule.rules) && 1 <= rule.n <= |rule.rules|)
  }

  predicate AllShallow(rules: seq<Rule>) { forall r | 0 <= r < |rules| :: Shallow(rules[r]) }

  /** How many principals a rule asks for. */
  function Need(rule: Rule): int { if rule.Leaf? then 1 else rule.n }

  function Principals(rule: Rule): (ps: seq<Principal>)
    requires Shallow(rule)
    ensures |ps| >= Need(rule) >= 1
  {
    if rule.Leaf? then [rule.principal]
    else seq(|rule.rules|, k requires 0 <= k < |rule.rules| => rule.rules[k].principal)
  }

  /** No principal occurs twice. */
  ghost predicate NoRepeats(rules: seq<Rule>)
    requires AllShallow(rules)
  {
    forall r, k, r', k' | 0 <= r < |rules| && 0 <= r' < |rules| && 0 <= k < |Principals(rules[r])| &&
                          0 <= k' < |Principals(rules[r'])| && Principals(rules[r])[k] == Principals(rules[r'])[k'] ::
      r == r' && k == k'
  }

  /** Evaluating such a rule is counting over its principals. */
  lemma ShallowRun(rule: Rule, sat: Satisfies, ids: seq<Identity>, used: seq<bool>)
    requires Shallow(rule) && |used| == |ids|
    ensures var r := EvalRules(Leaves(Principals(rule)), sat, ids, used);
            && (Eval(rule, sat, ids, used).0 <==> r.0 >= Need(rule))
            && After(rule, sat, ids, used) == if r.0 >= Need(rule) then r.1 else used
  {
    var rules := Leaves(Principals(rule));
    if rule.Leaf? {
      assert rules == [rule] && rules[1..] == [];
      RulesStep(rules, sat, ids, used);
    } else {
      assert rules == rule.rules;
    }
  }

  /** The policy asks for at least two rules but not for all, and rule `i`, with two rules after it, for three
      principals at least. */
  ghost predicate Fragile(t: int, rules: seq<Rule>, i: nat) {
    i + 2 < |rules| && Need(rules[i]) >= 3 && 2 <= t < |rules|
  }

  // ----- The signers that show such a policy non-monotone -----

  function Tally(k: nat): (s: string)
    ensures |s| == k
  {
    seq(k, _ => 'a')
  }

  /** The signer meant for principal `k` of rule `r`. */
  function SignerFor(r: nat, k: nat): Identity { Identity(Tally(r), Tally(k)) }

  /** Signers serve the principal of their number; the first principals of the two rules after `i` are served by
      the first two signers of `i` instead. */
  predicate Serves(rules: seq<Rule>, i: nat, id: Identity, p: Principal)
    requires AllShallow(rules)
  {
    var r, k := |id.mspid|, |id.id|;
    || (r < |rules| && k < |Principals(rules[r])| && !((r == i + 1 || r == i + 2) && k == 0) &&
       p == Principals(rules[r])[k])
    || (r == i && k < 2 && i + 1 + k < |rules| && p == Principals(rules[i + 1 + k])[0])
  }

  function ServesIn(rules: seq<Rule>, i: nat): Satisfies
    requires AllShallow(rules)
  {
    (id: Identity, p: Principal) => Serves(rules, i, id, p)
  }

  /** The signers in play. `last` tells whether the last signer that rule `i` needs is among them. */
  datatype Scene = Scene(t: int, rules: seq<Rule>, i: nat, last: bool) {
    ghost predicate Ok() { AllShallow(rules) && NoRepeats(rules) && Fragile(t, rules, i) }

    predicate IsNext(r: nat) { r == i + 1 || r == i + 2 }

    /** The rules beside `i` and the two after it that are met: as many as make up the threshold. */
    predicate Chosen(r: nat) { !IsNext(r) && r != i && (if r < i then r else r - 3) < t - 2 }

    /** Who serves a principal: the first principals of the two next rules share the first two signers of `i`. */
    function Source(r: nat, k: nat): (nat, nat) { if IsNext(r) && k == 0 then (i, r - i - 1) else (r, k) }

    /** The signers of a rule that sign, those of `i` but for the last one. */
    function From(r: nat): nat { if IsNext(r) then 1 else 0 }

    function To(r: nat): nat
      requires r < |rules| && i < |rules| && AllShallow(rules)
    {
      assert |Principals(rules[r])| >= Need(rules[r]) >= 1;
      if r == i then Need(rules[i]) - 1 else if IsNext(r) || Chosen(r) then Need(rules[r]) else 0
    }

    ghost predicate Signs(r: nat, k: nat)
      requires Ok()
    {
      r < |rules| && From(r) <= k < To(r)
    }

    function Few(r: nat): (ids: seq<Identity>)
      requires r <= |rules| && AllShallow(rules) && i < |rules|
    {
      if r == 0 then [] else Few(r - 1) + Of(r - 1)
    }

    /** The signers of one rule. */
    function Of(r: nat): (ids: seq<Identity>)
      requires r < |rules| && AllShallow(rules) && i < |rules|
      ensures |ids| == if From(r) <= To(r) then To(r) - From(r) else 0
      ensures forall k | 0 <= k < |ids| :: ids[k] == SignerFor(r, From(r) + k)
    {
      var size: nat := if From(r) <= To(r) then To(r) - From(r) else 0;
      seq(size, k requires 0 <= k < size => SignerFor(r, From(r) + k))
    }

    function Ids(): seq<Identity>
      requires AllShallow(rules) && i < |rules|
    {
      Few(|rules|) + if last then [SignerFor(i, Need(rules[i]) - 1)] else []
    }

    /** Where a signer stands. */
    ghost function At(r: nat, k: nat): nat
      requires Ok() && Signs(r, k)
    {
      |Few(r)| + (k - From(r))
    }

    /** Which signer serves each principal of a rule. */
    ghost function Pos(r: nat): (pos: seq<Option<nat>>)
      requires Ok() && r < |rules|
    {
      seq(|Principals(rules[r])|, k requires 0 <= k < |Principals(rules[r])| => PosOf(r, k))
    }

    ghost function PosOf(r: nat, k: nat): Option<nat>
      requires Ok() && r < |rules|
    {
      var (a, b) := Source(r, k);
      if Signs(a, b) then Some(At(a, b))
      else if last && a == i && b == Need(rules[i]) - 1 then Some(|Few(|rules|)|)
      else None
    }

    function Sat(): Satisfies
      requires AllShallow(rules)
    {
      ServesIn(rules, i)
    }

    /** Is rule `r` met? */
    predicate Met(r: nat) { if r == i then last else if IsNext(r) then !last else Chosen(r) }

    /** Has the signer been used when the first `r` rules have been evaluated? */
    predicate Gone(r: nat, a: nat, b: nat) {
      if a == i then (if last then r > i else b < 2 && r > i + 1 + b)
      else if IsNext(a) then !last && r > a
      else r > a
    }

    ghost predicate Matches(r: nat, used: seq<bool>)
      requires Ok()
    {
      && |used| == |Ids()|
      && (forall a, b | Signs(a, b) && At(a, b) < |used| :: used[At(a, b)] <==> Gone(r, a, b))
      && (last ==> (used[|Few(|rules|)|] <==> r > i))
    }

    /** How many of the first `r` rules are met. */
    function MetCount(r: nat): nat { if r == 0 then 0 else MetCount(r - 1) + One(Met(r - 1)) }
  }

  lemma {:induction false} FewGrows(c: Scene, r: nat, r': nat)
    requires c.Ok() && r <= r' <= |c.rules|
    ensures c.Few(r) <= c.Few(r')
    decreases r' - r
  {
    if r < r' { FewGrows(c, r, r' - 1); }
  }

  lemma FewStep(c: Scene, r: nat)
    requires c.Ok() && r < |c.rules|
    ensures c.Few(r + 1) == c.Few(r) + c.Of(r)
  {
  }

  lemma SignerIsAt(c: Scene, r: nat, k: nat)
    requires c.Ok() && c.Signs(r, k)
    ensures c.At(r, k) < |c.Few(|c.rules|)| <= |c.Ids()| && c.Ids()[c.At(r, k)] == SignerFor(r, k)
  {
    FewGrows(c, r + 1, |c.rules|);
    FewStep(c, r);
    hide SignerFor, Scene.Few;
    assert c.Of(r)[k - c.From(r)] == SignerFor(r, k);
    assert c.Few(r + 1)[c.At(r, k)] == SignerFor(r, k);
  }

  /** Every place of the list is that of a signer. */
  lemma {:induction false} PlaceOf(c: Scene, r: nat, x: nat) returns (a: nat, b: nat)
    requires c.Ok() && r <= |c.rules| && x < |c.Few(r)|
    ensures a < r && c.Signs(a, b) && c.At(a, b) == x
    decreases r
  {
    if x < |c.Few(r - 1)| {
      a, b := PlaceOf(c, r - 1, x);
    } else {
      a, b := r - 1, c.From(r - 1) + (x - |c.Few(r - 1)|);
    }
  }

  lemma SignersDiffer(r: nat, k: nat, r': nat, k': nat)
    ensures SignerFor(r, k) == SignerFor(r', k') <==> r == r' && k == k'
  {
    assert SignerFor(r, k).mspid == Tally(r) && SignerFor(r, k).id == Tally(k);
  }

  /** A signer serves exactly the principals it is the source of. */
  lemma ServesItsOwn(c: Scene, a: nat, b: nat, r: nat, k: nat)
    requires c.Ok() && a < |c.rules| && b < |Principals(c.rules[a])| && r < |c.rules| && k < |Principals(c.rules[r])|
    requires !(c.IsNext(a) && b == 0)
    ensures Serves(c.rules, c.i, SignerFor(a, b), Principals(c.rules[r])[k]) <==> c.Source(r, k) == (a, b)
  {
    assert forall q | 0 <= q < |c.rules| :: |Principals(c.rules[q])| >= 1;
    hide Principals, Need;
    var id, p := SignerFor(a, b), Principals(c.rules[r])[k];
    assert |id.mspid| == a && |id.id| == b;
  }

  /** The last signer of rule `i` stands at the end. */
  lemma LastSigner(c: Scene)
    requires c.Ok() && c.last
    ensures |c.Ids()| == |c.Few(|c.rules|)| + 1 && c.Ids()[|c.Few(|c.rules|)|] == SignerFor(c.i, Need(c.rules[c.i]) - 1)
  {
    hide SignerFor;
  }

  /** The signer at a place of the list serves a principal exactly when the principal points there. */
  lemma PointsThere(c: Scene, r: nat, k: nat, x: nat)
    requires c.Ok() && r < |c.rules| && k < |Principals(c.rules[r])| && x < |c.Ids()|
    ensures Serves(c.rules, c.i, c.Ids()[x], Principals(c.rules[r])[k]) <==> c.PosOf(r, k) == Some(x)
  {
    hide SignerFor, Serves, Principals, Scene.PosOf, Scene.Few;
    if x < |c.Few(|c.rules|)| {
      PointsWithin(c, r, k, x);
    } else {
      PointsAtEnd(c, r, k);
    }
  }

  lemma PointsAtEnd(c: Scene, r: nat, k: nat)
    requires c.Ok() && c.last && r < |c.rules| && k < |Principals(c.rules[r])|
    ensures var x := |c.Few(|c.rules|)|;
            x < |c.Ids()| && (Serves(c.rules, c.i, c.Ids()[x], Principals(c.rules[r])[k]) <==> c.PosOf(r, k) == Some(x))
  {
    LastSigner(c);
    SignerFitsLast(c);
    ServesItsOwn(c, c.i, Need(c.rules[c.i]) - 1, r, k);
    hide SignerFor, Serves, Principals, Scene.Few;
    var (a, b) := c.Source(r, k);
    if c.Signs(a, b) { SignerIsAt(c, a, b); }
  }

  lemma SignerFitsLast(c: Scene)
    requires c.Ok()
    ensures Need(c.rules[c.i]) - 1 < |Principals(c.rules[c.i])|
  {
  }

  lemma PointsWithin(c: Scene, r: nat, k: nat, x: nat)
    requires c.Ok() && r < |c.rules| && k < |Principals(c.rules[r])| && x < |c.Few(|c.rules|)|
    ensures x < |c.Ids()| && (Serves(c.rules, c.i, c.Ids()[x], Principals(c.rules[r])[k]) <==> c.PosOf(r, k) == Some(x))
  {
    var a, b := PlaceOf(c, |c.rules|, x);
    SignerIsAt(c, a, b);
    SignerFits(c, a, b);
    ServesItsOwn(c, a, b, r, k);
    hide SignerFor, Serves, Principals;
    var (a', b') := c.Source(r, k);
    if c.Signs(a', b') {
      SignerIsAt(c, a', b');
      SignersDiffer(a, b, a', b');
    }
  }

  lemma SignerFits(c: Scene, a: nat, b: nat)
    requires c.Ok() && c.Signs(a, b)
    ensures a < |c.rules| && b < |Principals(c.rules[a])| && !(c.IsNext(a) && b == 0)
  {
    assert |Principals(c.rules[a])| >= Need(c.rules[a]) >= 1;
  }

  lemma PosDiffer(c: Scene, r: nat, j: nat, k: nat)
    requires c.Ok() && r < |c.rules| && j < k && c.PosOf(r, j).Some?
    ensures c.PosOf(r, j) != c.PosOf(r, k) && c.PosOf(r, j).value < |c.Ids()|
  {
    hide SignerFor;
    var (a, b) := c.Source(r, j);
    var (a', b') := c.Source(r, k);
    if c.Signs(a, b) { SignerIsAt(c, a, b); }
    if c.Signs(a', b') { SignerIsAt(c, a', b'); }
    if c.Signs(a, b) && c.Signs(a', b') { SignersDiffer(a, b, a', b'); }
  }

  lemma PosWithin(c: Scene, r: nat, k: nat)
    requires c.Ok() && r < |c.rules| && c.PosOf(r, k).Some?
    ensures c.PosOf(r, k).value < |c.Ids()|
  {
    hide SignerFor;
    var (a, b) := c.Source(r, k);
    if c.Signs(a, b) { SignerIsAt(c, a, b); }
  }

  lemma ScenePoints(c: Scene, r: nat)
    requires c.Ok() && r < |c.rules|
    ensures Points(c.Pos(r), Principals(c.rules[r]), c.Sat(), c.Ids())
  {
    var pos, ps, ids := c.Pos(r), Principals(c.rules[r]), c.Ids();
    hide Principals;
    forall k | 0 <= k < |pos| && pos[k].Some? ensures pos[k].value < |ids| { PosWithin(c, r, k); }
    forall k, x | 0 <= k < |ps| && 0 <= x < |ids|
      ensures c.Sat()(ids[x], ps[k]) <==> pos[k] == Some(x)
    {
      PointsThere(c, r, k, x);
    }
    forall j, k | 0 <= j < k < |pos| && pos[j].Some? ensures pos[j] != pos[k] { PosDiffer(c, r, j, k); }
  }

  // ----- The run over the rules -----

  /** The principals of rule `r` whose signer is there and free. */
  function Lo(c: Scene, r: nat): nat { if c.last && c.IsNext(r) then 1 else 0 }

  function Hi(c: Scene, r: nat): nat
    requires AllShallow(c.rules) && c.i < |c.rules| && r < |c.rules|
  {
    assert |Principals(c.rules[r])| >= Need(c.rules[r]) >= 1;
    if r == c.i && !c.last then Need(c.rules[r]) - 1
    else if r == c.i || c.IsNext(r) || c.Chosen(r) then Need(c.rules[r]) else 0
  }

  lemma FreeSigners(c: Scene, r: nat, used: seq<bool>, k: nat)
    requires c.Ok() && r < |c.rules| && c.Matches(r, used) && k < |Principals(c.rules[r])|
    ensures var pos := c.PosOf(r, k);
            (pos.Some? && pos.value < |used| && !used[pos.value]) <==> Lo(c, r) <= k < Hi(c, r)
  {
    hide SignerFor;
    assert |Principals(c.rules[r])| >= Need(c.rules[r]) >= 1;
    var (a, b) := c.Source(r, k);
    if c.Signs(a, b) { SignerIsAt(c, a, b); }
    if c.last { LastSigner(c); }
  }

  /** Who is used by rule `r` when it is met. */
  lemma TargetsOf(c: Scene, r: nat, a: nat, b: nat)
    requires c.Ok() && r < |c.rules| && c.Signs(a, b)
    ensures Some(c.At(a, b)) in c.Pos(r) <==> (a == r || (c.IsNext(r) && a == c.i && b == r - c.i - 1))
  {
    hide SignerFor;
    SignerFits(c, a, b);
    SignerIsAt(c, a, b);
    if a == r || (c.IsNext(r) && a == c.i && b == r - c.i - 1) {
      var k := if a == r then b else 0;
      assert |Principals(c.rules[r])| >= 1;
      assert c.Source(r, k) == (a, b);
      assert c.Pos(r)[k] == c.PosOf(r, k) == Some(c.At(a, b));
    }
    forall k | 0 <= k < |c.Pos(r)| && c.Pos(r)[k] == Some(c.At(a, b))
      ensures c.Source(r, k) == (a, b)
    {
      var (a', b') := c.Source(r, k);
      if c.Signs(a', b') {
        SignerIsAt(c, a', b');
        SignersDiffer(a, b, a', b');
      }
    }
  }

  lemma LastIsTarget(c: Scene, r: nat)
    requires c.Ok() && c.last && r < |c.rules|
    ensures Some(|c.Few(|c.rules|)|) in c.Pos(r) <==> r == c.i
  {
    hide SignerFor;
    var k := Need(c.rules[c.i]) - 1;
    if r == c.i {
      assert |Principals(c.rules[r])| >= Need(c.rules[r]);
      assert c.Pos(r)[k] == c.PosOf(r, k) == Some(|c.Few(|c.rules|)|);
    }
    forall j | 0 <= j < |c.Pos(r)| && c.Pos(r)[j] == Some(|c.Few(|c.rules|)|)
      ensures r == c.i
    {
      var (a, b) := c.Source(r, j);
      if c.Signs(a, b) { SignerIsAt(c, a, b); }
    }
  }

  /** One rule: it is met or not as the scene says, and uses whom the scene says. */
  lemma SceneStep(c: Scene, r: nat, used: seq<bool>)
    requires c.Ok() && r < |c.rules| && c.Matches(r, used)
    ensures Eval(c.rules[r], c.Sat(), c.Ids(), used).0 <==> c.Met(r)
    ensures c.Matches(r + 1, After(c.rules[r], c.Sat(), c.Ids(), used))
  {
    hide Eval, EvalRules, Leaves, SignerFor, Points, Hits, After;
    var pos, ps, sat, ids := c.Pos(r), Principals(c.rules[r]), c.Sat(), c.Ids();
    ScenePoints(c, r);
    PointedRun(pos, ps, sat, ids, used);
    forall k | 0 <= k < |pos|
      ensures (pos[k].Some? && pos[k].value < |used| && !used[pos[k].value]) <==> Lo(c, r) <= k < Hi(c, r)
    {
      FreeSigners(c, r, used, k);
    }
    CountIsRight(c, r, used);
    ShallowRun(c.rules[r], sat, ids, used);
    UsedIsRight(c, r, used, After(c.rules[r], sat, ids, used));
  }

  lemma CountIsRight(c: Scene, r: nat, used: seq<bool>)
    requires c.Ok() && r < |c.rules|
    requires forall k | 0 <= k < |c.Pos(r)| :: var p := c.Pos(r)[k];
               (p.Some? && p.value < |used| && !used[p.value]) <==> Lo(c, r) <= k < Hi(c, r)
    ensures Hits(c.Pos(r), used) >= Need(c.rules[r]) <==> c.Met(r)
  {
    assert |Principals(c.rules[r])| >= Need(c.rules[r]) >= 1;
    var lo, hi := Lo(c, r), Hi(c, r);
    HitsBetween(c.Pos(r), used, if lo <= hi then lo else hi, hi);
  }

  lemma UsedIsRight(c: Scene, r: nat, used: seq<bool>, next: seq<bool>)
    requires c.Ok() && r < |c.rules| && c.Matches(r, used) && |next| == |used|
    requires forall x | 0 <= x < |used| :: next[x] <==> used[x] || (c.Met(r) && Some(x) in c.Pos(r))
    ensures c.Matches(r + 1, next)
  {
    hide SignerFor;
    forall a, b | c.Signs(a, b) && c.At(a, b) < |next|
      ensures next[c.At(a, b)] <==> c.Gone(r + 1, a, b)
    {
      TargetsOf(c, r, a, b);
    }
    if c.last {
      LastSigner(c);
      LastIsTarget(c, r);
    }
  }

  lemma {:induction false} SceneRun(c: Scene, r: nat)
    requires c.Ok() && r <= |c.rules|
    ensures var e := EvalRules(c.rules[..r], c.Sat(), c.Ids(), Fresh(|c.Ids()|));
            e.0 == c.MetCount(r) && c.Matches(r, e.1)
    decreases r
  {
    hide Eval, EvalRules, SignerFor;
    var sat, ids := c.Sat(), c.Ids();
    if r == 0 {
      assert c.rules[..0] == [];
      NoRules(sat, ids, Fresh(|ids|));
      if c.last { LastSigner(c); }
    } else {
      SceneRun(c, r - 1);
      var used := EvalRules(c.rules[..r - 1], sat, ids, Fresh(|ids|)).1;
      assert c.rules[..r] == c.rules[..r - 1] + [c.rules[r - 1]];
      EvalRulesSnoc(c.rules[..r - 1], c.rules[r - 1], sat, ids, Fresh(|ids|));
      SceneStep(c, r - 1, used);
    }
  }

  /** Two of the next rules are met without the last signer, rule `i` with it. */
  lemma {:induction false} MetCountIs(c: Scene, r: nat)
    requires c.Ok() && r <= |c.rules|
    ensures var others := if r <= c.i then r else if r <= c.i + 3 then c.i else r - 3;
            c.MetCount(r) == (if others < c.t - 2 then others else c.t - 2) +
                             if c.last then One(r > c.i) else One(r > c.i + 1) + One(r > c.i + 2)
    decreases r
  {
    if r > 0 { MetCountIs(c, r - 1); }
  }

  lemma SceneVerdict(c: Scene)
    requires c.Ok()
    ensures Accepts(Gate(c.t, c.rules), c.Sat(), c.Ids()) <==> !c.last
  {
    hide EvalRules;
    SceneRun(c, |c.rules|);
    MetCountIs(c, |c.rules|);
    assert c.rules[..|c.rules|] == c.rules;
  }

  // ----- The exact condition -----

  lemma AddedAtTheEnd(ids: seq<Identity>, id: Identity)
    ensures Embeds(seq(|ids|, i => i), ids, ids + [id])
  {
  }

  lemma {:induction false} SameSigners(c: Scene, d: Scene, r: nat)
    requires c.Ok() && d == c.(last := d.last) && r <= |c.rules|
    ensures c.Few(r) == d.Few(r)
    decreases r
  {
    hide SignerFor;
    if r > 0 {
      SameSigners(c, d, r - 1);
      assert c.Of(r - 1) == d.Of(r - 1);
    }
  }

  lemma FragileIsNotMonotone(t: int, rules: seq<Rule>, i: nat)
    requires AllShallow(rules) && NoRepeats(rules) && Fragile(t, rules, i)
    ensures !AlwaysMonotone(Gate(t, rules))
  {
    hide Eval, SignerFor;
    var few, all := Scene(t, rules, i, false), Scene(t, rules, i, true);
    SceneVerdict(few);
    SceneVerdict(all);
    SameSigners(few, all, |rules|);
    LastSigner(all);
    var id := SignerFor(i, Need(rules[i]) - 1);
    assert all.Ids() == few.Ids() + [id];
    AddedAtTheEnd(few.Ids(), id);
    assert !MonotoneFor(Gate(t, rules), few.Sat());
  }

  lemma ShallowIsFirm(rule: Rule)
    requires Shallow(rule)
    ensures Firm(rule) && Flat(rule) && Steady(rule) && (Need(rule) <= 2 ==> Light(rule))
  {
  }

  lemma SteadyUnlessFragile(t: int, rules: seq<Rule>)
    requires AllShallow(rules) && forall i: nat :: !Fragile(t, rules, i)
    ensures Steady(Gate(t, rules))
  {
    forall r | r in rules
      ensures Firm(r) && Flat(r) && Steady(r) && (Need(r) <= 2 ==> Light(r))
    {
      ShallowIsFirm(r);
    }
    hide Firm, Flat, Light, Need, Shallow;
    if 2 <= t < |rules| {
      var front := rules[..|rules| - 1];
      forall i: nat | i + 2 < |rules|
        ensures Light(rules[i])
      {
        assert !Fragile(t, rules, i);
      }
      assert LightThenFlat(front) by {
        assert forall i | 0 <= i < |front| - 1 :: front[..|front| - 1][i] == rules[i];
      }
    }
    GateIsSteady(t, rules);
  }

  lemma GateIsSteady(t: int, rules: seq<Rule>)
    requires forall r | r in rules :: Firm(r) && Steady(r)
    requires 2 <= t < |rules| ==> LightThenFlat(rules[..|rules| - 1])
    ensures Steady(Gate(t, rules))
  {
  }

  /** A policy of two levels in which no principal occurs twice is monotone, whatever the membership service says,
      exactly when it asks for one rule or for all, or when only its last two rules ask for three principals or
      more. */
  lemma TwoLevelMonotoneExactly(t: int, rules: seq<Rule>)
    requires AllShallow(rules) && NoRepeats(rules)
    ensures AlwaysMonotone(Gate(t, rules)) <==>
            t <= 1 || t >= |rules| || forall i | 0 <= i < |rules| - 2 :: Need(rules[i]) <= 2
  {
    hide NoRepeats, AlwaysMonotone, Steady, Need;
    if i: nat :| Fragile(t, rules, i) {
      FragileIsNotMonotone(t, rules, i);
    } else {
      SteadyUnlessFragile(t, rules);
      SteadyIsAlwaysMonotone(Gate(t, rules));
      forall i: nat | 2 <= t < |rules| && i < |rules| - 2
        ensures Need(rules[i]) <= 2
      {
        assert !Fragile(t, rules, i);
      }
    }
  }
}
