/**
 The causal graph index: a grow-only relation from immutable records to their
 parents, with Baseline causes as virtual roots. `Graph` is the value of the
 index; the class `CausalGraph` below holds it in two maps it updates in place.
 */
module CausalGraphs {
  import opened ByteStrings
  import opened Sorting

  datatype Graph = Graph(parents: map<Identifier, seq<Identifier>>, roots: map<Identifier, Identifier>)

  const EMPTY := Graph(map[], map[])

  // ----- Paths and ancestry -----

  function ParentsOf(g: Graph, id: Identifier): seq<Identifier> {
    if id in g.parents then g.parents[id] else []
  }

  /** Each identifier of `p` after the first is a parent of the one before it. */
  ghost predicate IsPath(g: Graph, p: seq<Identifier>) {
    forall i | 0 < i < |p| :: p[i] in ParentsOf(g, p[i - 1])
  }

  /** A nonempty chain of parent links leads from `from` to `to`. */
  ghost predicate Reaches(g: Graph, from: Identifier, to: Identifier) {
    exists p :: PathBetween(g, p, from, to)
  }

  ghost predicate PathBetween(g: Graph, p: seq<Identifier>, from: Identifier, to: Identifier) {
    |p| >= 2 && p[0] == from && p[|p| - 1] == to && IsPath(g, p)
  }

  /** The record a cause stands for; every other identifier stands for itself. */
  function Target(g: Graph, id: Identifier): Identifier {
    if id in g.roots then g.roots[id] else id
  }

  ghost predicate Ancestor(g: Graph, ancestor: Identifier, descendant: Identifier) {
    && ancestor != descendant
    && (|| (ancestor in g.roots && g.roots[ancestor] == descendant)
        || Reaches(g, descendant, Target(g, ancestor)))
  }

  // ----- Calls -----

  datatype Call = AddRecord(id: Identifier, parents: seq<Identifier>)
                | AddBaseline(id: Identifier, causes: seq<Identifier>)

  ghost predicate Canonical(ids: seq<Identifier>) {
    Increasing(ids)
  }

  /** What `sameIdentifierSet` compares: the lengths, and membership of the right side in the left. */
  predicate SameSet(left: seq<Identifier>, right: seq<Identifier>) {
    |left| == |right| && forall x | x in right :: x in left
  }

  ghost predicate AcceptsRecord(g: Graph, id: Identifier, parents: seq<Identifier>) {
    && Canonical(parents)
    && id !in g.roots
    && if id in g.parents then SameSet(g.parents[id], parents)
       else forall p | p in parents :: p != id && !Ancestor(g, id, p)
  }

  ghost predicate AcceptsCause(g: Graph, id: Identifier, cause: Identifier) {
    cause != id && cause !in g.parents && (cause in g.roots ==> g.roots[cause] == id)
  }

  ghost predicate Accepts(g: Graph, call: Call) {
    match call
    case AddRecord(id, parents) => AcceptsRecord(g, id, parents)
    case AddBaseline(id, causes) =>
      && Canonical(causes)
      && (forall c | c in causes :: AcceptsCause(g, id, c))
      && AcceptsRecord(g, id, [])
  }

  function WithRecord(g: Graph, id: Identifier, parents: seq<Identifier>): Graph {
    if id in g.parents then g else g.(parents := g.parents[id := parents])
  }

  function WithCauses(g: Graph, id: Identifier, causes: seq<Identifier>): Graph {
    g.(roots := map c | c in g.roots.Keys + (set x | x in causes) :: if c in causes then id else g.roots[c])
  }

  function Apply(g: Graph, call: Call): Graph {
    match call
    case AddRecord(id, parents) => WithRecord(g, id, parents)
    case AddBaseline(id, causes) => WithCauses(WithRecord(g, id, []), id, causes)
  }

  ghost function Step(g: Graph, call: Call): Graph {
    if Accepts(g, call) then Apply(g, call) else g
  }

  /** The graph after a sequence of calls, rejected ones included. */
  ghost function Run(calls: seq<Call>): Graph {
    if calls == [] then EMPTY else Step(Run(calls[..|calls| - 1]), calls[|calls| - 1])
  }

  ghost predicate AllAccepted(calls: seq<Call>) {
    calls == [] ||
    (AllAccepted(calls[..|calls| - 1]) && Accepts(Run(calls[..|calls| - 1]), calls[|calls| - 1]))
  }

  // ----- What every reachable graph satisfies -----

  ghost predicate Acyclic(g: Graph) {
    forall x :: !Reaches(g, x, x)
  }

  ghost predicate WellFormed(g: Graph) {
    && (forall r | r in g.parents :: Canonical(g.parents[r]))
    && g.parents.Keys !! g.roots.Keys
    && (forall c | c in g.roots :: g.roots[c] in g.parents && g.parents[g.roots[c]] == [])
    && Acyclic(g)
  }

  lemma ReachesStep(g: Graph, from: Identifier, to: Identifier)
    requires to in ParentsOf(g, from)
    ensures Reaches(g, from, to)
  {
    assert PathBetween(g, [from, to], from, to);
  }

  lemma ParentlessReachesNothing(g: Graph, from: Identifier, to: Identifier)
    requires ParentsOf(g, from) == []
    ensures !Reaches(g, from, to)
  {
    forall p ensures !PathBetween(g, p, from, to) {
      if |p| >= 2 && p[0] == from { assert p[1] !in ParentsOf(g, p[0]); }
    }
  }

  lemma ReachesTransitive(g: Graph, a: Identifier, b: Identifier, c: Identifier)
    requires Reaches(g, a, b) && Reaches(g, b, c)
    ensures Reaches(g, a, c)
  {
    var p :| PathBetween(g, p, a, b);
    var q :| PathBetween(g, q, b, c);
    var r := p + q[1..];
    forall i | 0 < i < |r| ensures r[i] in ParentsOf(g, r[i - 1]) {
      if i > |p| {
        assert r[i] == q[i - |p| + 1] && r[i - 1] == q[i - |p|];
      } else if i == |p| {
        assert r[i] == q[1] && r[i - 1] == q[0];
      }
    }
    assert PathBetween(g, r, a, c);
  }

  /** A set closed under parents that holds every parent of `from` holds whatever `from` reaches. */
  lemma ClosedUnderParents(g: Graph, closed: set<Identifier>, from: Identifier, to: Identifier)
    requires forall x | x in ParentsOf(g, from) :: x in closed
    requires forall x, y | x in closed && y in ParentsOf(g, x) :: y in closed
    requires Reaches(g, from, to)
    ensures to in closed
  {
    var p :| PathBetween(g, p, from, to);
    var i := 1;
    assert p[1] in ParentsOf(g, p[0]);
    while i < |p| - 1
      invariant 1 <= i < |p| && p[i] in closed
    {
      assert p[i + 1] in ParentsOf(g, p[i]);
      i := i + 1;
    }
  }

  /** Paths that never leave an identifier carry over when the parent lists along them agree. */
  lemma PathCarries(g: Graph, h: Graph, p: seq<Identifier>)
    requires IsPath(g, p)
    requires forall i | 0 <= i < |p| - 1 :: ParentsOf(g, p[i]) == ParentsOf(h, p[i])
    ensures IsPath(h, p)
  {
    forall i | 0 < i < |p| ensures p[i] in ParentsOf(h, p[i - 1]) {
      assert p[i] in ParentsOf(g, p[i - 1]);
    }
  }

  ghost predicate Extends(g: Graph, h: Graph) {
    && (forall r | r in g.parents :: r in h.parents && h.parents[r] == g.parents[r])
    && (forall c | c in g.roots :: c in h.roots && h.roots[c] == g.roots[c])
  }

  lemma ReachesGrows(g: Graph, h: Graph, from: Identifier, to: Identifier)
    requires forall r | r in g.parents :: r in h.parents && h.parents[r] == g.parents[r]
    requires Reaches(g, from, to)
    ensures Reaches(h, from, to)
  {
    var p :| PathBetween(g, p, from, to);
    forall i | 0 < i < |p| ensures p[i] in ParentsOf(h, p[i - 1]) {
      assert p[i] in ParentsOf(g, p[i - 1]);
    }
    assert PathBetween(h, p, from, to);
  }

  /** A record without parents adds no path. */
  lemma ParentlessAddsNoPath(g: Graph, id: Identifier, from: Identifier, to: Identifier)
    requires ParentsOf(g, id) == []
    ensures Reaches(WithRecord(g, id, []), from, to) <==> Reaches(g, from, to)
  {
    var h := WithRecord(g, id, []);
    forall x ensures ParentsOf(h, x) == ParentsOf(g, x) {}
    if Reaches(g, from, to) {
      var p :| PathBetween(g, p, from, to);
      PathCarries(g, h, p);
      assert PathBetween(h, p, from, to);
    }
    if Reaches(h, from, to) {
      var p :| PathBetween(h, p, from, to);
      PathCarries(h, g, p);
      assert PathBetween(g, p, from, to);
    }
  }

  /** Binding causes changes no parent list. */
  lemma CausesAddNoPath(g: Graph, id: Identifier, causes: seq<Identifier>, from: Identifier, to: Identifier)
    ensures Reaches(WithCauses(g, id, causes), from, to) <==> Reaches(g, from, to)
  {
    var h := WithCauses(g, id, causes);
    if Reaches(g, from, to) { ReachesGrows(g, h, from, to); }
    if Reaches(h, from, to) { ReachesGrows(h, g, from, to); }
  }

  /**
   A path to `id` in the graph grown by `id` has a first arrival at `id`; the part up to
   there uses only links of the old graph, where `id` had no parent list.
   */
  lemma FirstArrival(g: Graph, id: Identifier, parents: seq<Identifier>, p: seq<Identifier>)
    requires id !in g.parents
    requires |p| >= 1 && IsPath(WithRecord(g, id, parents), p) && p[|p| - 1] == id
    ensures p[0] == id || Reaches(g, p[0], id)
    decreases |p|
  {
    var h := WithRecord(g, id, parents);
    if p[0] != id {
      assert p[1] in ParentsOf(h, p[0]);
      assert ParentsOf(h, p[0]) == ParentsOf(g, p[0]);
      ReachesStep(g, p[0], p[1]);
      var q := p[1..];
      forall i | 0 < i < |q| ensures q[i] in ParentsOf(h, q[i - 1]) {
        assert p[i + 1] in ParentsOf(h, p[i]);
      }
      FirstArrival(g, id, parents, q);
      if q[0] != id { ReachesTransitive(g, p[0], q[0], id); }
    }
  }

  /** The cycle check on insertion is enough, although parents may be named before they arrive. */
  lemma InsertKeepsAcyclic(g: Graph, id: Identifier, parents: seq<Identifier>)
    requires Acyclic(g) && id !in g.parents
    requires forall p | p in parents :: p != id && !Reaches(g, p, id)
    ensures Acyclic(WithRecord(g, id, parents))
  {
    var h := WithRecord(g, id, parents);
    forall x ensures !Reaches(h, x, x) {
      if Reaches(h, x, x) {
        var p :| PathBetween(h, p, x, x);
        if id in p[..|p| - 1] {
          RotateTo(h, p, id);
          var q :| PathBetween(h, q, id, id);
          var rest := q[1..];
          assert q[1] in ParentsOf(h, q[0]) && ParentsOf(h, id) == parents;
          forall i | 0 < i < |rest| ensures rest[i] in ParentsOf(h, rest[i - 1]) {
            assert q[i + 1] in ParentsOf(h, q[i]);
          }
          FirstArrival(g, id, parents, rest);
        } else {
          forall i | 0 <= i < |p| - 1 ensures ParentsOf(h, p[i]) == ParentsOf(g, p[i]) {
            assert p[i] in p[..|p| - 1];
          }
          PathCarries(h, g, p);
          assert PathBetween(g, p, x, x);
          assert Reaches(g, x, x);
        }
        assert false;
      }
    }
  }

  /** A cycle through `id` can be walked starting at `id`. */
  lemma RotateTo(g: Graph, p: seq<Identifier>, id: Identifier)
    requires |p| >= 2 && IsPath(g, p) && p[0] == p[|p| - 1] && id in p[..|p| - 1]
    ensures Reaches(g, id, id)
  {
    var k :| 0 <= k < |p| - 1 && p[k] == id;
    var tail := p[k..];
    forall i | 0 < i < |tail| ensures tail[i] in ParentsOf(g, tail[i - 1]) {
      assert p[k + i] in ParentsOf(g, p[k + i - 1]);
    }
    assert PathBetween(g, tail, id, p[0]);
    if k > 0 {
      var head := p[..k + 1];
      assert PathBetween(g, head, p[0], id);
      ReachesTransitive(g, id, p[0], id);
    }
  }

  lemma EmptyWellFormed()
    ensures WellFormed(EMPTY)
  {
    forall x ensures !Reaches(EMPTY, x, x) { ParentlessReachesNothing(EMPTY, x, x); }
  }

  lemma WithRecordWellFormed(g: Graph, id: Identifier, parents: seq<Identifier>)
    requires WellFormed(g) && AcceptsRecord(g, id, parents)
    ensures WellFormed(WithRecord(g, id, parents))
  {
    if id !in g.parents {
      forall p | p in parents ensures p != id && !Reaches(g, p, id) {
        assert !Ancestor(g, id, p);
      }
      InsertKeepsAcyclic(g, id, parents);
    }
  }

  lemma StepWellFormed(g: Graph, call: Call)
    requires WellFormed(g)
    ensures WellFormed(Step(g, call))
  {
    if Accepts(g, call) {
      match call
      case AddRecord(id, parents) => WithRecordWellFormed(g, id, parents);
      case AddBaseline(id, causes) =>
        WithRecordWellFormed(g, id, []);
        var h := WithRecord(g, id, []);
        var k := WithCauses(h, id, causes);
        if id in g.parents { assert g.parents[id] == []; }
        forall x ensures !Reaches(k, x, x) { CausesAddNoPath(h, id, causes, x, x); }
        forall c | c in k.roots ensures k.roots[c] in k.parents && k.parents[k.roots[c]] == [] {}
        forall c | c in k.roots ensures c !in k.parents {
          if c in causes { assert AcceptsCause(g, id, c); }
        }
        assert k.parents.Keys !! k.roots.Keys;
    }
  }

  /** Every reachable graph is acyclic, keeps records and causes apart, and roots its causes in parentless records. */
  lemma {:induction false} ReachableWellFormed(calls: seq<Call>)
    ensures WellFormed(Run(calls))
  {
    if calls == [] {
      EmptyWellFormed();
    } else {
      ReachableWellFormed(calls[..|calls| - 1]);
      StepWellFormed(Run(calls[..|calls| - 1]), calls[|calls| - 1]);
    }
  }

  /** The identifiers a call introduces. */
  predicate Names(call: Call, id: Identifier) {
    call.id == id || (call.AddBaseline? && id in call.causes)
  }

  /** What `Has` answers. */
  predicate Known(g: Graph, id: Identifier) {
    id in g.parents || id in g.roots
  }

  lemma KnownAfter(g: Graph, call: Call, id: Identifier)
    ensures Known(Step(g, call), id) <==> Known(g, id) || (Accepts(g, call) && Names(call, id))
  {}

  /** The call at position `i` was accepted and named `id`. */
  ghost predicate NamedAt(calls: seq<Call>, i: nat, id: Identifier)
    requires i < |calls|
  {
    Accepts(Run(calls[..i]), calls[i]) && Names(calls[i], id)
  }

  /** An identifier is known exactly when some accepted call named it; being named as a parent is not enough. */
  lemma {:induction false} KnownIffNamed(calls: seq<Call>, id: Identifier)
    ensures Known(Run(calls), id) <==> exists i | 0 <= i < |calls| :: NamedAt(calls, i, id)
  {
    if calls != [] {
      var n := |calls| - 1;
      var before := calls[..n];
      KnownIffNamed(before, id);
      KnownAfter(Run(before), calls[n], id);
      forall i | 0 <= i < n ensures NamedAt(before, i, id) <==> NamedAt(calls, i, id) {
        assert before[..i] == calls[..i];
      }
      assert NamedAt(calls, n, id) <==> Accepts(Run(before), calls[n]) && Names(calls[n], id);
    }
  }

  // ----- Ancestry is a strict partial order -----

  lemma CauseHasNoAncestors(g: Graph, cause: Identifier, ancestor: Identifier)
    requires WellFormed(g) && cause in g.roots
    ensures !Ancestor(g, ancestor, cause)
  {
    ParentlessReachesNothing(g, cause, Target(g, ancestor));
  }

  /** On reachable graphs ancestry is irreflexive, transitive and hence asymmetric. */
  lemma AncestryStrictPartialOrder(calls: seq<Call>, a: Identifier, b: Identifier, c: Identifier)
    ensures var g := Run(calls);
      && !Ancestor(g, a, a)
      && (Ancestor(g, a, b) && Ancestor(g, b, c) ==> Ancestor(g, a, c))
      && (Ancestor(g, a, b) ==> !Ancestor(g, b, a))
  {
    ReachableWellFormed(calls);
    AncestryTransitive(Run(calls), a, b, c);
    AncestryTransitive(Run(calls), a, b, a);
  }

  lemma AncestryTransitive(g: Graph, a: Identifier, b: Identifier, c: Identifier)
    requires WellFormed(g)
    ensures Ancestor(g, a, b) && Ancestor(g, b, c) ==> Ancestor(g, a, c)
  {
    if Ancestor(g, a, b) && Ancestor(g, b, c) {
      if b in g.roots { CauseHasNoAncestors(g, b, a); }
      if c in g.roots { CauseHasNoAncestors(g, c, b); }
      assert Reaches(g, c, b);
      if Reaches(g, b, Target(g, a)) { ReachesTransitive(g, c, b, Target(g, a)); }
      assert Reaches(g, c, Target(g, a));
    }
  }

  // ----- How answers change as the graph grows -----

  /** A true answer survives every later `Add`. */
  lemma AncestrySurvivesAdd(g: Graph, id: Identifier, parents: seq<Identifier>, a: Identifier, d: Identifier)
    requires Ancestor(g, a, d)
    ensures Ancestor(Step(g, AddRecord(id, parents)), a, d)
  {
    var h := Step(g, AddRecord(id, parents));
    if Reaches(g, d, Target(g, a)) { ReachesGrows(g, h, d, Target(g, a)); }
  }

  /**
   The answers after an accepted `AddBaseline`: an identifier that is not one of its causes keeps
   its answers, and a cause has exactly the answers of the Baseline, plus the Baseline itself.
   */
  lemma AncestryAfterBaseline(g: Graph, id: Identifier, causes: seq<Identifier>, a: Identifier, d: Identifier)
    requires WellFormed(g) && Accepts(g, AddBaseline(id, causes))
    ensures var h := Step(g, AddBaseline(id, causes));
      Ancestor(h, a, d) <==>
        if a in causes then a != d && (d == id || Ancestor(g, id, d)) else Ancestor(g, a, d)
  {
    var k := WithRecord(g, id, []);
    var h := WithCauses(k, id, causes);
    if id in g.parents { assert g.parents[id] == []; }
    assert h == Step(g, AddBaseline(id, causes));
    CausesAddNoPath(k, id, causes, d, Target(h, a));
    ParentlessAddsNoPath(g, id, d, Target(h, a));
    if a in causes {
      assert Target(h, a) == id && AcceptsCause(g, id, a);
    } else {
      assert Target(h, a) == Target(g, a);
    }
  }

  /** A rebound cause can lose a true answer: a record that named it as a parent is not below the Baseline. */
  lemma BaselineCanRetract(cause: Identifier, child: Identifier, baseline: Identifier)
    requires cause != child && child != baseline && baseline != cause
    ensures var calls := [AddRecord(child, [cause])];
      && Ancestor(Run(calls), cause, child)
      && Accepts(Run(calls), AddBaseline(baseline, [cause]))
      && !Ancestor(Run(calls + [AddBaseline(baseline, [cause])]), cause, child)
  {
    var calls := [AddRecord(child, [cause])];
    var g := Graph(map[child := [cause]], map[]);
    assert calls[..0] == [];
    EmptyWellFormed();
    ParentlessReachesNothing(EMPTY, cause, child);
    assert Run([]) == EMPTY;
    assert Run(calls) == Step(EMPTY, calls[0]) == g;
    ReachesStep(g, child, cause);
    assert AcceptsRecord(g, baseline, []);
    ReachableWellFormed(calls);
    AncestryAfterBaseline(g, baseline, [cause], cause, child);
    var more := calls + [AddBaseline(baseline, [cause])];
    assert more[..1] == calls;
    assert !Ancestor(g, baseline, child) by {
      if Reaches(g, child, baseline) { ClosedUnderParents(g, {cause}, child, baseline); }
    }
  }

  // ----- Convergence -----

  /** What an accepted call asserts about the graph for good. */
  ghost predicate Holds(g: Graph, call: Call) {
    match call
    case AddRecord(id, parents) => id in g.parents && g.parents[id] == parents
    case AddBaseline(id, causes) =>
      && Canonical(causes)
      && id in g.parents && g.parents[id] == []
      && forall c | c in causes :: c in g.roots && g.roots[c] == id
  }

  lemma SameSetOfCanonical(left: seq<Identifier>, right: seq<Identifier>)
    requires Canonical(left) && Canonical(right)
    ensures SameSet(left, right) <==> left == right
  {
    if SameSet(left, right) {
      IncreasingIffAscending(left);
      IncreasingIffAscending(right);
      BytesOrdered(Elements<Bytes>(left));
      BytesOrdered(Elements<Bytes>(right));
      AscendingDistinct<Bytes>(Less, left);
      AscendingDistinct<Bytes>(Less, right);
      DistinctSize<Bytes>(left);
      DistinctSize<Bytes>(right);
      SubsetOfSameSize(Elements<Bytes>(right), Elements<Bytes>(left));
      AscendingUnique<Bytes>(Less, left, right);
    }
  }

  lemma SubsetOfSameSize<T>(a: set<T>, b: set<T>)
    requires a <= b && |a| == |b|
    ensures a == b
  {
    assert b == a + (b - a);
    assert |b| == |a| + |b - a|;
  }

  /** An accepted call holds afterwards, and nothing that was in the graph changes. */
  lemma AcceptedHolds(g: Graph, call: Call)
    requires WellFormed(g) && Accepts(g, call)
    ensures Extends(g, Step(g, call)) && Holds(Step(g, call), call)
  {
    match call
    case AddRecord(id, parents) =>
      if id in g.parents { SameSetOfCanonical(g.parents[id], parents); }
    case AddBaseline(id, causes) =>
      if id in g.parents { assert g.parents[id] == []; }
      forall c | c in g.roots ensures c in causes ==> g.roots[c] == id {
        if c in causes { assert AcceptsCause(g, id, c); }
      }
  }

  lemma {:induction false} AllHold(calls: seq<Call>)
    requires AllAccepted(calls)
    ensures forall c | c in calls :: Holds(Run(calls), c)
  {
    if calls != [] {
      var before, last := calls[..|calls| - 1], calls[|calls| - 1];
      AllHold(before);
      ReachableWellFormed(before);
      AcceptedHolds(Run(before), last);
      forall c | c in calls ensures Holds(Run(calls), c) {
        if c in before { assert Holds(Run(before), c); } else { assert c == last; }
      }
    }
  }

  /** A call that holds in a well-formed graph is accepted by every smaller graph, and keeps it smaller. */
  lemma HeldIsAccepted(g: Graph, whole: Graph, call: Call)
    requires WellFormed(g) && WellFormed(whole) && Extends(g, whole) && Holds(whole, call)
    ensures Accepts(g, call) && Extends(Step(g, call), whole)
  {
    var parents := if call.AddRecord? then call.parents else [];
    assert whole.parents[call.id] == parents;
    if call.id !in g.parents {
      forall p | p in parents ensures p != call.id && !Ancestor(g, call.id, p) {
        ReachesStep(whole, call.id, p);
        if Reaches(g, p, call.id) {
          ReachesGrows(g, whole, p, call.id);
          ReachesTransitive(whole, p, call.id, p);
        }
      }
    } else {
      assert SameSet(g.parents[call.id], parents);
    }
    assert AcceptsRecord(g, call.id, parents);
    if call.AddBaseline? {
      forall c | c in call.causes ensures AcceptsCause(g, call.id, c) {}
    }
  }

  lemma {:induction false} HeldAreAccepted(calls: seq<Call>, whole: Graph)
    requires WellFormed(whole) && forall c | c in calls :: Holds(whole, c)
    ensures AllAccepted(calls) && Extends(Run(calls), whole)
  {
    if calls != [] {
      var before, last := calls[..|calls| - 1], calls[|calls| - 1];
      HeldAreAccepted(before, whole);
      ReachableWellFormed(before);
      HeldIsAccepted(Run(before), whole, last);
    }
  }

  /**
   A sequence of calls is accepted in full exactly when some well-formed graph satisfies every
   one of them: the order of the calls does not enter.
   */
  lemma AcceptedIffSatisfiable(calls: seq<Call>)
    ensures AllAccepted(calls) <==>
      exists g :: WellFormed(g) && forall c | c in calls :: Holds(g, c)
  {
    if AllAccepted(calls) {
      ReachableWellFormed(calls);
      AllHold(calls);
    }
    if g :| WellFormed(g) && forall c | c in calls :: Holds(g, c) {
      HeldAreAccepted(calls, g);
    }
  }

  /**
   If one order of some calls is accepted in full, then so is any sequence drawn from them, in any
   order and with any repetition, and it builds a part of the same graph.
   */
  lemma AcceptedDownward(calls: seq<Call>, drawn: seq<Call>)
    requires AllAccepted(calls) && forall c | c in drawn :: c in calls
    ensures AllAccepted(drawn) && Extends(Run(drawn), Run(calls))
  {
    ReachableWellFormed(calls);
    AllHold(calls);
    HeldAreAccepted(drawn, Run(calls));
  }

  /** Convergence: every order of the same calls is accepted, and ends with the same graph and the same answers. */
  lemma Convergence(calls: seq<Call>, reordered: seq<Call>, a: Identifier, d: Identifier)
    requires AllAccepted(calls)
    requires forall c :: c in calls <==> c in reordered
    ensures AllAccepted(reordered)
    ensures Run(reordered) == Run(calls)
    ensures Ancestor(Run(reordered), a, d) <==> Ancestor(Run(calls), a, d)
  {
    AcceptedDownward(calls, reordered);
    AcceptedDownward(reordered, calls);
    var g, h := Run(calls), Run(reordered);
    assert g.parents == h.parents && g.roots == h.roots;
  }

  lemma PermutationsConverge(calls: seq<Call>, reordered: seq<Call>)
    requires AllAccepted(calls) && multiset(calls) == multiset(reordered)
    ensures AllAccepted(reordered) && Run(reordered) == Run(calls)
  {
    forall c ensures c in calls <==> c in reordered {
      assert c in calls <==> c in multiset(calls);
      assert c in reordered <==> c in multiset(reordered);
    }
    var any: Identifier := seq(32, _ => 0);
    Convergence(calls, reordered, any, any);
  }

  // ----- The index itself -----

  /** A duplicate is reported before the order is looked at; a list without one may still be out of order. */
  method ValidateIdentifierSet(values: seq<Identifier>) returns (ok: bool)
    ensures ok <==> Canonical(values)
  {
    IncreasingIffAscending(values);
    ok := NoRepeat<Bytes>(values);
    if !ok {
      BytesOrdered(Elements<Bytes>(values));
      if Canonical(values) { AscendingDistinct<Bytes>(Less, values); }
      return;
    }
    ok := InOrder(values);
  }

  method SameIdentifierSet(left: seq<Identifier>, right: seq<Identifier>) returns (same: bool)
    ensures same <==> SameSet(left, right)
  {
    if |left| != |right| {
      return false;
    }
    var seen: set<Identifier> := {};
    for index := 0 to |left|
      invariant forall x :: x in seen <==> x in left[..index]
    {
      seen := seen + {left[index]};
    }
    assert left[..|left|] == left;
    for index := 0 to |right|
      invariant forall i | 0 <= i < index :: right[i] in left
    {
      if right[index] !in seen {
        return false;
      }
    }
    return true;
  }

  lemma OneMoreCause(g: Graph, id: Identifier, causes: seq<Identifier>, i: nat)
    requires i < |causes|
    ensures WithCauses(g, id, causes[..i + 1]).roots == WithCauses(g, id, causes[..i]).roots[causes[i] := id]
  {
    assert causes[..i + 1] == causes[..i] + [causes[i]];
  }

  ghost function Universe(g: Graph): set<Identifier> {
    set r, p | r in g.parents && p in g.parents[r] :: p
  }

  class CausalGraph {
    var parents: map<Identifier, seq<Identifier>>
    var baselineRootByCause: map<Identifier, Identifier>

    ghost function Value(): Graph
      reads this
    {
      Graph(parents, baselineRootByCause)
    }

    constructor ()
      ensures Value() == EMPTY
    {
      parents, baselineRootByCause := map[], map[];
    }

    method AddBaseline(baselineId: Identifier, causeIds: seq<Identifier>) returns (ok: bool)
      modifies this
      ensures ok <==> Accepts(old(Value()), Call.AddBaseline(baselineId, causeIds))
      ensures Value() == Step(old(Value()), Call.AddBaseline(baselineId, causeIds))
    {
      var canonical := ValidateIdentifierSet(causeIds);
      if !canonical {
        return false;
      }
      var free := CausesFree(baselineId, causeIds);
      if !free {
        return false;
      }
      ok := Add(baselineId, []);
      if ok {
        BindCauses(baselineId, causeIds);
      }
    }

    /** The first loop of `AddBaseline`: no cause collides with another identity. */
    method CausesFree(baselineId: Identifier, causeIds: seq<Identifier>) returns (free: bool)
      ensures free <==> forall c | c in causeIds :: AcceptsCause(Value(), baselineId, c)
    {
      for index := 0 to |causeIds|
        invariant forall i | 0 <= i < index :: AcceptsCause(Value(), baselineId, causeIds[i])
      {
        var causeId := causeIds[index];
        if causeId == baselineId || causeId in parents {
          assert !AcceptsCause(Value(), baselineId, causeId);
          return false;
        }
        if causeId in baselineRootByCause && baselineRootByCause[causeId] != baselineId {
          assert !AcceptsCause(Value(), baselineId, causeId);
          return false;
        }
      }
      return true;
    }

    /** The second loop of `AddBaseline`: each cause is bound to the Baseline. */
    method BindCauses(baselineId: Identifier, causeIds: seq<Identifier>)
      modifies this`baselineRootByCause
      ensures Value() == WithCauses(old(Value()), baselineId, causeIds)
    {
      for index := 0 to |causeIds|
        invariant baselineRootByCause == WithCauses(old(Value()), baselineId, causeIds[..index]).roots
      {
        OneMoreCause(old(Value()), baselineId, causeIds, index);
        baselineRootByCause := baselineRootByCause[causeIds[index] := baselineId];
      }
      assert causeIds[..|causeIds|] == causeIds;
    }

    method Add(recordId: Identifier, parentRecordIds: seq<Identifier>) returns (ok: bool)
      modifies this`parents
      ensures ok <==> AcceptsRecord(old(Value()), recordId, parentRecordIds)
      ensures Value() == Step(old(Value()), AddRecord(recordId, parentRecordIds))
    {
      var canonical := ValidateIdentifierSet(parentRecordIds);
      if !canonical {
        return false;
      }
      if recordId in baselineRootByCause {
        return false;
      }
      if recordId in parents {
        ok := SameIdentifierSet(parents[recordId], parentRecordIds);
        return;
      }
      for index := 0 to |parentRecordIds|
        invariant Value() == old(Value())
        invariant forall i | 0 <= i < index ::
          parentRecordIds[i] != recordId && !Ancestor(Value(), recordId, parentRecordIds[i])
      {
        var parentId := parentRecordIds[index];
        var cycle := IsAncestor(recordId, parentId);
        if parentId == recordId || cycle {
          return false;
        }
      }
      parents := parents[recordId := parentRecordIds];
      return true;
    }

    method Has(recordId: Identifier) returns (has: bool)
      ensures has <==> Known(Value(), recordId)
    {
      return recordId in parents || recordId in baselineRootByCause;
    }

    /** The explicit-stack search: it terminates on every graph and decides ancestry. */
    method IsAncestor(ancestorId: Identifier, descendantId: Identifier) returns (found: bool)
      ensures found <==> Ancestor(Value(), ancestorId, descendantId)
    {
      if ancestorId == descendantId {
        return false;
      }
      var target := ancestorId;
      if ancestorId in baselineRootByCause {
        target := baselineRootByCause[ancestorId];
        if target == descendantId {
          return true;
        }
      }
      ghost var g := Value();
      var pending := if descendantId in parents then parents[descendantId] else [];
      assert pending == ParentsOf(g, descendantId);
      forall x | x in pending ensures Reaches(g, descendantId, x) { ReachesStep(g, descendantId, x); }
      var visited: set<Identifier> := {};
      while |pending| > 0
        invariant forall x | x in pending :: x in Universe(g) && Reaches(g, descendantId, x)
        invariant forall x | x in visited :: x in Universe(g) && Reaches(g, descendantId, x)
        invariant target !in visited
        invariant forall x | x in ParentsOf(g, descendantId) :: x in visited || x in pending
        invariant forall x, y | x in visited && y in ParentsOf(g, x) :: y in visited || y in pending
        decreases Universe(g) - visited, |pending|
      {
        var last := |pending| - 1;
        var current := pending[last];
        ghost var before := pending;
        pending := pending[..last];
        assert before == pending + [current];
        if current == target {
          return true;
        }
        if current in visited {
          continue;
        }
        visited := visited + {current};
        assert current in before;
        var more := if current in parents then parents[current] else [];
        forall x | x in more ensures x in Universe(g) && Reaches(g, descendantId, x) {
          ReachesStep(g, current, x);
          ReachesTransitive(g, descendantId, current, x);
        }
        pending := pending + more;
      }
      if Reaches(g, descendantId, target) {
        ClosedUnderParents(g, visited, descendantId, target);
        assert false;
      }
      return false;
    }
  }
}
