// src/audit_pipeline/layer25_triage.py, cluster_strong_fires: greedy clustering
// of the STRONG fires by root cause, and the representatives that triage_cycle
// sends on to Kani.
module Clustering {
  import opened Bytes

  /** A fire after `strip().lower()` of its labels; the claim is its lower-case tokens. */
  datatype Fire = Fire(id: string, bugClass: string, engineFunction: string, targetFile: string, claim: seq<string>)

  /** One entry of `clusters` with its entry of `cluster_meta`; dictionaries keep insertion order. */
  datatype Cluster = Cluster(id: string, members: seq<Fire>)

  const SHINGLE := 3

  function Window(tokens: seq<string>, i: nat): seq<string>
    requires i + SHINGLE <= |tokens|
  {
    tokens[i..i + SHINGLE]
  }

  function Shingles(tokens: seq<string>): set<seq<string>> {
    set i: nat | i + SHINGLE <= |tokens| :: Window(tokens, i)
  }

  function Jaccard<T>(a: set<T>, b: set<T>): (r: real) {
    if a == {} || b == {} then 0.0
    else NonEmptyUnion(a, b); |a * b| as real / |a + b| as real
  }

  lemma NonEmptyUnion<T>(a: set<T>, b: set<T>)
    requires a != {}
    ensures |a + b| != 0
  {
    assert a <= a + b;
  }

  lemma Ratio(m: nat, n: nat)
    requires m <= n && n != 0
    ensures 0.0 <= m as real / n as real <= 1.0
    ensures m as real / n as real == 0.0 <==> m == 0
    ensures m as real / n as real == 1.0 <==> m == n
  {
    var q := m as real / n as real;
    assert q * n as real == m as real;
  }

  lemma SubsetCount<T>(a: set<T>, b: set<T>)
    requires a <= b
    ensures |a| <= |b| && (|a| == |b| <==> a == b)
  {
    assert b == a + (b - a) && |b| == |a| + |b - a|;
    assert |b - a| == 0 <==> b - a == {};
  }

  /** A similarity between 0 and 1, the same in both directions: 0 for nothing in common, 1 for equal sets. */
  lemma JaccardMeaning<T>(a: set<T>, b: set<T>)
    ensures Jaccard(a, b) == Jaccard(b, a) && 0.0 <= Jaccard(a, b) <= 1.0
    ensures Jaccard(a, b) == 0.0 <==> a * b == {}
    ensures Jaccard(a, b) == 1.0 <==> a == b && a != {}
  {
    assert a * b == b * a && a + b == b + a;
    if a != {} && b != {} {
      NonEmptyUnion(a, b);
      SubsetCount(a * b, a + b);
      Ratio(|a * b|, |a + b|);
      assert a * b == a + b <==> a == b;
    }
  }

  // ---- the three rules, for two fires --------------------------------------

  predicate SameClassAndFunction(f: Fire, m: Fire) {
    f.bugClass != "" && f.engineFunction != "" && m.bugClass == f.bugClass && m.engineFunction == f.engineFunction
  }

  predicate SameFunctionAndFile(f: Fire, m: Fire) {
    f.engineFunction != "" && f.targetFile != "" &&
    m.engineFunction == f.engineFunction && m.targetFile == f.targetFile
  }

  predicate Compatible(f: Fire, m: Fire) {
    f.engineFunction == "" || m.engineFunction == "" || m.engineFunction == f.engineFunction
  }

  predicate Similar(f: Fire, m: Fire, threshold: real) {
    m.bugClass == f.bugClass && Jaccard(Shingles(f.claim), Shingles(m.claim)) >= threshold
  }

  /** Two fires match under one of the rules, taken by themselves. */
  predicate Pair(f: Fire, m: Fire, threshold: real) {
    SameClassAndFunction(f, m) || SameFunctionAndFile(f, m) || (Compatible(f, m) && Similar(f, m, threshold))
  }

  /** What one member of a cluster gives a fire that joins it. */
  predicate Link(f: Fire, m: Fire, threshold: real) {
    SameClassAndFunction(f, m) || SameFunctionAndFile(f, m) || Similar(f, m, threshold)
  }

  // ---- a fire against a cluster --------------------------------------------

  predicate Rule1(c: Cluster, f: Fire) {
    exists m :: m in c.members && SameClassAndFunction(f, m)
  }

  predicate Rule2(c: Cluster, f: Fire) {
    exists m :: m in c.members && SameFunctionAndFile(f, m)
  }

  /** The compatible member and the similar member need not be the same. */
  predicate Rule3(c: Cluster, f: Fire, threshold: real) {
    (f.engineFunction == "" || exists m :: m in c.members && Compatible(f, m)) &&
    exists m :: m in c.members && Similar(f, m, threshold)
  }

  predicate Matches(c: Cluster, f: Fire, threshold: real) {
    Rule1(c, f) || Rule2(c, f) || Rule3(c, f, threshold)
  }

  function FirstMatch(cs: seq<Cluster>, f: Fire, threshold: real, k: nat): (r: nat)
    requires k <= |cs|
    ensures k <= r <= |cs|
    ensures r < |cs| ==> Matches(cs[r], f, threshold)
    ensures forall i :: k <= i < r ==> !Matches(cs[i], f, threshold)
    decreases |cs| - k
  {
    if k == |cs| || Matches(cs[k], f, threshold) then k else FirstMatch(cs, f, threshold, k + 1)
  }

  /** Assigning to a dictionary: an existing key keeps its place. */
  function Put(cs: seq<Cluster>, c: Cluster): seq<Cluster> {
    if cs == [] then [c]
    else if cs[0].id == c.id then [c] + cs[1..]
    else [cs[0]] + Put(cs[1..], c)
  }

  function Join(cs: seq<Cluster>, k: nat, f: Fire): seq<Cluster>
    requires k < |cs|
  {
    cs[k := cs[k].(members := cs[k].members + [f])]
  }

  function Add(cs: seq<Cluster>, f: Fire, threshold: real): seq<Cluster> {
    var k := FirstMatch(cs, f, threshold, 0);
    if k < |cs| then Join(cs, k, f) else Put(cs, Cluster(f.id, [f]))
  }

  function Clusters(fires: seq<Fire>, threshold: real): seq<Cluster> {
    if fires == [] then [] else Add(Clusters(fires[..|fires| - 1], threshold), fires[|fires| - 1], threshold)
  }

  lemma ClustersStep(fires: seq<Fire>, n: nat, threshold: real)
    requires n < |fires|
    ensures Clusters(fires[..n + 1], threshold) == Add(Clusters(fires[..n], threshold), fires[n], threshold)
  {
    assert fires[..n + 1][..n] == fires[..n];
  }

  method ClusterStrongFires(strong: seq<Fire>, threshold: real) returns (clusters: seq<Cluster>)
    ensures clusters == Clusters(strong, threshold)
  {
    clusters := [];
    for n := 0 to |strong|
      invariant clusters == Clusters(strong[..n], threshold)
    {
      var f := strong[n];
      var matched: Option<nat> := None;
      var k := 0;
      while k < |clusters|
        invariant k <= |clusters|
        invariant matched == None && FirstMatch(clusters, f, threshold, 0) == FirstMatch(clusters, f, threshold, k)
      {
        var c := clusters[k];
        if f.bugClass != "" && f.engineFunction != "" {
          if Rule1(c, f) {
            matched := Some(k);
            break;
          }
        }
        if f.engineFunction != "" && f.targetFile != "" {
          if Rule2(c, f) {
            matched := Some(k);
            break;
          }
        }
        if Rule3(c, f, threshold) {
          matched := Some(k);
          break;
        }
        k := k + 1;
      }
      ClustersStep(strong, n, threshold);
      match matched {
        case None => clusters := Put(clusters, Cluster(f.id, [f]));
        case Some(at) => clusters := Join(clusters, at, f);
      }
    }
    assert strong[..|strong|] == strong;
  }

  // ---- what every run keeps ------------------------------------------------

  ghost predicate DistinctIds(fires: seq<Fire>) {
    forall i, j :: 0 <= i < j < |fires| ==> fires[i].id != fires[j].id
  }

  function Members(cs: seq<Cluster>): seq<Fire> {
    if cs == [] then [] else cs[0].members + Members(cs[1..])
  }

  ghost predicate WellFormed(cs: seq<Cluster>) {
    forall i :: 0 <= i < |cs| ==> cs[i].members != [] && cs[i].id == cs[i].members[0].id
  }

  lemma {:induction false} InMembers(cs: seq<Cluster>, f: Fire)
    ensures f in Members(cs) <==> exists i :: 0 <= i < |cs| && f in cs[i].members
  {
    if cs != [] {
      InMembers(cs[1..], f);
      if i :| 0 <= i < |cs| && f in cs[i].members && i > 0 {
        assert f in cs[1..][i - 1].members;
      }
      if f in Members(cs[1..]) {
        var i :| 0 <= i < |cs[1..]| && f in cs[1..][i].members;
        assert f in cs[i + 1].members;
      }
    }
  }

  lemma MembersCons(c: Cluster, rest: seq<Cluster>)
    ensures multiset(Members([c] + rest)) == multiset(c.members) + multiset(Members(rest))
  {
    assert ([c] + rest)[1..] == rest;
  }

  lemma {:induction false} JoinMembers(cs: seq<Cluster>, k: nat, f: Fire)
    requires k < |cs|
    ensures multiset(Members(Join(cs, k, f))) == multiset(Members(cs)) + multiset{f}
  {
    assert cs == [cs[0]] + cs[1..];
    MembersCons(cs[0], cs[1..]);
    if k == 0 {
      assert Join(cs, 0, f) == [Cluster(cs[0].id, cs[0].members + [f])] + cs[1..];
      MembersCons(Cluster(cs[0].id, cs[0].members + [f]), cs[1..]);
    } else {
      JoinMembers(cs[1..], k - 1, f);
      assert Join(cs, k, f) == [cs[0]] + Join(cs[1..], k - 1, f);
      MembersCons(cs[0], Join(cs[1..], k - 1, f));
    }
  }

  lemma {:induction false} PutMembers(cs: seq<Cluster>, f: Fire)
    requires forall i :: 0 <= i < |cs| ==> cs[i].id != f.id
    ensures Put(cs, Cluster(f.id, [f])) == cs + [Cluster(f.id, [f])]
    ensures multiset(Members(Put(cs, Cluster(f.id, [f])))) == multiset(Members(cs)) + multiset{f}
  {
    if cs != [] {
      PutMembers(cs[1..], f);
      assert cs == [cs[0]] + cs[1..];
      MembersCons(cs[0], cs[1..]);
      MembersCons(cs[0], Put(cs[1..], Cluster(f.id, [f])));
    }
  }

  /** No member of `cs` has the id of `f`. */
  ghost predicate Fresh(cs: seq<Cluster>, f: Fire) {
    forall m :: m in Members(cs) ==> m.id != f.id
  }

  lemma MemberOf(cs: seq<Cluster>, i: nat, f: Fire)
    requires i < |cs| && f in cs[i].members
    ensures f in Members(cs)
  {
    InMembers(cs, f);
  }

  lemma FreshIds(cs: seq<Cluster>, f: Fire)
    requires WellFormed(cs) && Fresh(cs, f)
    ensures forall i :: 0 <= i < |cs| ==> cs[i].id != f.id
  {
    forall i | 0 <= i < |cs|
      ensures cs[i].id != f.id
    {
      MemberOf(cs, i, cs[i].members[0]);
    }
  }

  lemma AddMembers(cs: seq<Cluster>, f: Fire, threshold: real)
    requires WellFormed(cs) && Fresh(cs, f)
    ensures FirstMatch(cs, f, threshold, 0) == |cs| ==> Add(cs, f, threshold) == cs + [Cluster(f.id, [f])]
    ensures multiset(Members(Add(cs, f, threshold))) == multiset(Members(cs)) + multiset{f}
  {
    FreshIds(cs, f);
    PutMembers(cs, f);
    var k := FirstMatch(cs, f, threshold, 0);
    if k < |cs| {
      JoinMembers(cs, k, f);
    }
  }

  lemma JoinWellFormed(cs: seq<Cluster>, k: nat, f: Fire)
    requires WellFormed(cs) && k < |cs|
    ensures WellFormed(Join(cs, k, f))
  {
    assert (cs[k].members + [f])[0] == cs[k].members[0];
  }

  lemma AddFresh(cs: seq<Cluster>, f: Fire, threshold: real)
    requires WellFormed(cs) && Fresh(cs, f)
    ensures FirstMatch(cs, f, threshold, 0) == |cs| ==> Add(cs, f, threshold) == cs + [Cluster(f.id, [f])]
    ensures WellFormed(Add(cs, f, threshold))
    ensures multiset(Members(Add(cs, f, threshold))) == multiset(Members(cs)) + multiset{f}
  {
    AddMembers(cs, f, threshold);
    var k := FirstMatch(cs, f, threshold, 0);
    if k < |cs| {
      JoinWellFormed(cs, k, f);
    }
  }

  lemma InElements(fires: seq<Fire>, members: seq<Fire>, m: Fire)
    requires multiset(members) == multiset(fires)
    ensures m in members <==> m in fires
  {
    assert m in members <==> m in multiset(members);
    assert m in fires <==> m in multiset(fires);
  }

  lemma NextIsFresh(fires: seq<Fire>, n: nat, cs: seq<Cluster>)
    requires n < |fires| && DistinctIds(fires) && multiset(Members(cs)) == multiset(fires[..n])
    ensures Fresh(cs, fires[n])
  {
    forall m | m in Members(cs)
      ensures m.id != fires[n].id
    {
      InElements(fires[..n], Members(cs), m);
    }
  }

  lemma LastApart(fires: seq<Fire>)
    requires fires != []
    ensures fires == fires[..|fires| - 1] + [fires[|fires| - 1]]
    ensures multiset(fires) == multiset(fires[..|fires| - 1]) + multiset{fires[|fires| - 1]}
  {
    assert fires == fires[..|fires| - 1] + [fires[|fires| - 1]];
  }

  /** Every fire is in exactly one cluster, once; clusters are named after their first member. */
  lemma {:induction false} Partition(fires: seq<Fire>, threshold: real)
    requires DistinctIds(fires)
    ensures WellFormed(Clusters(fires, threshold))
    ensures multiset(Members(Clusters(fires, threshold))) == multiset(fires)
  {
    if fires != [] {
      var n := |fires| - 1;
      var cs := Clusters(fires[..n], threshold);
      Partition(fires[..n], threshold);
      NextIsFresh(fires, n, cs);
      AddFresh(cs, fires[n], threshold);
      LastApart(fires);
    }
  }

  // ---- representatives are new ---------------------------------------------

  /** The fire at `i` matches no earlier fire under any of the three rules. */
  ghost predicate MatchesNothingBefore(fires: seq<Fire>, i: nat, threshold: real)
    requires i < |fires|
  {
    forall j :: 0 <= j < i ==> !Pair(fires[i], fires[j], threshold)
  }

  ghost predicate FirstOfItsKind(fires: seq<Fire>, f: Fire, threshold: real) {
    exists i :: 0 <= i < |fires| && fires[i] == f && MatchesNothingBefore(fires, i, threshold)
  }

  lemma PairMatches(c: Cluster, f: Fire, m: Fire, threshold: real)
    requires m in c.members && Pair(f, m, threshold)
    ensures Matches(c, f, threshold)
  {
  }

  lemma UnmatchedIsNew(fires: seq<Fire>, n: nat, cs: seq<Cluster>, threshold: real)
    requires n < |fires| && multiset(Members(cs)) == multiset(fires[..n])
    requires FirstMatch(cs, fires[n], threshold, 0) == |cs|
    ensures MatchesNothingBefore(fires, n, threshold)
  {
    forall j | 0 <= j < n
      ensures !Pair(fires[n], fires[j], threshold)
    {
      assert fires[j] == fires[..n][j];
      InElements(fires[..n], Members(cs), fires[j]);
      InMembers(cs, fires[j]);
      var i :| 0 <= i < |cs| && fires[j] in cs[i].members;
      assert !Matches(cs[i], fires[n], threshold);
      if Pair(fires[n], fires[j], threshold) {
        PairMatches(cs[i], fires[n], fires[j], threshold);
      }
    }
  }

  lemma StaysFirst(fires: seq<Fire>, n: nat, f: Fire, threshold: real)
    requires n < |fires| && FirstOfItsKind(fires[..n], f, threshold)
    ensures FirstOfItsKind(fires, f, threshold)
  {
    var i :| 0 <= i < n && fires[..n][i] == f && MatchesNothingBefore(fires[..n], i, threshold);
    assert fires[i] == f;
    forall j | 0 <= j < i
      ensures !Pair(fires[i], fires[j], threshold)
    {
      assert fires[..n][j] == fires[j];
    }
    assert MatchesNothingBefore(fires, i, threshold);
  }

  /** No representative matches any earlier fire, whatever cluster that one is in. */
  lemma {:induction false} RepresentativesAreNew(fires: seq<Fire>, threshold: real, i: nat)
    requires DistinctIds(fires) && i < |Clusters(fires, threshold)|
    ensures WellFormed(Clusters(fires, threshold))
    ensures FirstOfItsKind(fires, Clusters(fires, threshold)[i].members[0], threshold)
    decreases |fires|
  {
    Partition(fires, threshold);
    var n := |fires| - 1;
    var cs := Clusters(fires[..n], threshold);
    Partition(fires[..n], threshold);
    NextIsFresh(fires, n, cs);
    AddFresh(cs, fires[n], threshold);
    if i < |cs| {
      RepresentativesAreNew(fires[..n], threshold, i);
      StaysFirst(fires, n, cs[i].members[0], threshold);
    } else {
      UnmatchedIsNew(fires, n, cs, threshold);
    }
  }

  // ---- every other fire is linked to its representative --------------------

  ghost predicate HasLink(members: seq<Fire>, k: nat, threshold: real)
    requires k < |members|
  {
    exists l :: 0 <= l < k && Link(members[k], members[l], threshold)
  }

  /** Each member but the first is linked to an earlier member of the same cluster. */
  ghost predicate Linked(members: seq<Fire>, threshold: real) {
    forall k :: 0 < k < |members| ==> HasLink(members, k, threshold)
  }

  lemma KeepsLink(members: seq<Fire>, f: Fire, k: nat, threshold: real)
    requires k < |members| && HasLink(members, k, threshold)
    ensures HasLink(members + [f], k, threshold)
  {
    var l :| 0 <= l < k && Link(members[k], members[l], threshold);
    assert Link((members + [f])[k], (members + [f])[l], threshold);
  }

  lemma MatchLinks(c: Cluster, f: Fire, threshold: real)
    requires Matches(c, f, threshold)
    ensures HasLink(c.members + [f], |c.members|, threshold)
  {
    var m :| m in c.members && Link(f, m, threshold);
    var l :| 0 <= l < |c.members| && c.members[l] == m;
    assert Link((c.members + [f])[|c.members|], (c.members + [f])[l], threshold);
  }

  lemma JoinLinked(c: Cluster, f: Fire, threshold: real)
    requires Matches(c, f, threshold) && Linked(c.members, threshold)
    ensures Linked(c.members + [f], threshold)
  {
    MatchLinks(c, f, threshold);
    forall k | 0 < k < |c.members|
      ensures HasLink(c.members + [f], k, threshold)
    {
      KeepsLink(c.members, f, k, threshold);
    }
  }

  lemma {:induction false} MembersAreLinked(fires: seq<Fire>, threshold: real, i: nat)
    requires DistinctIds(fires) && i < |Clusters(fires, threshold)|
    ensures Linked(Clusters(fires, threshold)[i].members, threshold)
    decreases |fires|
  {
    var n := |fires| - 1;
    var cs := Clusters(fires[..n], threshold);
    Partition(fires[..n], threshold);
    NextIsFresh(fires, n, cs);
    AddFresh(cs, fires[n], threshold);
    if i < |cs| {
      MembersAreLinked(fires[..n], threshold, i);
      if i == FirstMatch(cs, fires[n], threshold, 0) {
        JoinLinked(cs[i], fires[n], threshold);
      }
    }
  }

  /** Positions in a cluster, each linked to the next, which is an earlier member. */
  ghost predicate Chain(members: seq<Fire>, path: seq<nat>, threshold: real) {
    path != [] && path[0] < |members| &&
    (|path| > 1 ==>
       path[1] < path[0] && Link(members[path[0]], members[path[1]], threshold) && Chain(members, path[1..], threshold))
  }

  lemma {:induction false} LinkedChain(members: seq<Fire>, k: nat, threshold: real) returns (path: seq<nat>)
    requires k < |members| && Linked(members, threshold)
    ensures Chain(members, path, threshold) && path[0] == k && path[|path| - 1] == 0
    decreases k
  {
    path := [k];
    if k > 0 {
      assert HasLink(members, k, threshold);
      var l :| 0 <= l < k && Link(members[k], members[l], threshold);
      var rest := LinkedChain(members, l, threshold);
      path := [k] + rest;
      assert path[1..] == rest;
    }
  }

  /** From every member a chain of matches to earlier members leads to the representative. */
  lemma ChainToRepresentative(fires: seq<Fire>, threshold: real, i: nat, k: nat) returns (path: seq<nat>)
    requires DistinctIds(fires) && i < |Clusters(fires, threshold)|
    requires k < |Clusters(fires, threshold)[i].members|
    ensures Chain(Clusters(fires, threshold)[i].members, path, threshold)
    ensures path[0] == k && path[|path| - 1] == 0
  {
    MembersAreLinked(fires, threshold, i);
    path := LinkedChain(Clusters(fires, threshold)[i].members, k, threshold);
  }

  // ---- members stay in order -----------------------------------------------

  ghost predicate InOrder(some: seq<Fire>, fires: seq<Fire>) {
    some == [] ||
    (fires != [] &&
     if some[|some| - 1] == fires[|fires| - 1] then InOrder(some[..|some| - 1], fires[..|fires| - 1])
     else InOrder(some, fires[..|fires| - 1]))
  }

  lemma OrderGrows(some: seq<Fire>, fires: seq<Fire>, f: Fire)
    requires InOrder(some, fires)
    ensures InOrder(some + [f], fires + [f])
    ensures some != [] && some[|some| - 1] != f ==> InOrder(some, fires + [f])
  {
    assert (fires + [f])[..|fires|] == fires && (some + [f])[..|some|] == some;
  }

  lemma AddInOrder(cs: seq<Cluster>, before: seq<Fire>, f: Fire, threshold: real, i: nat)
    requires WellFormed(cs) && Fresh(cs, f) && i < |Add(cs, f, threshold)|
    requires i < |cs| ==> InOrder(cs[i].members, before)
    ensures InOrder(Add(cs, f, threshold)[i].members, before + [f])
  {
    AddFresh(cs, f, threshold);
    if i < |cs| {
      var members := cs[i].members;
      OrderGrows(members, before, f);
      MemberOf(cs, i, members[|members| - 1]);
    } else {
      OrderGrows([], before, f);
      assert [] + [f] == [f];
    }
  }

  /** The members of a cluster are in the order in which the fires came. */
  lemma {:induction false} MembersInOrder(fires: seq<Fire>, threshold: real, i: nat)
    requires DistinctIds(fires) && i < |Clusters(fires, threshold)|
    ensures InOrder(Clusters(fires, threshold)[i].members, fires)
    decreases |fires|
  {
    var n := |fires| - 1;
    var cs := Clusters(fires[..n], threshold);
    Partition(fires[..n], threshold);
    NextIsFresh(fires, n, cs);
    if i < |cs| {
      MembersInOrder(fires[..n], threshold, i);
    }
    LastApart(fires);
    AddInOrder(cs, fires[..n], fires[n], threshold, i);
  }

  // ---- the dispatch set of triage_cycle ------------------------------------

  ghost predicate Apart(c: Cluster, d: Cluster) {
    forall x, y :: x in c.members && y in d.members ==> x.id != y.id
  }

  /** No two clusters share a hypothesis id. */
  ghost predicate Disjoint(cs: seq<Cluster>) {
    forall i, j :: 0 <= i < j < |cs| ==> Apart(cs[i], cs[j])
  }

  /** A member of a cluster is the new fire, or was in that cluster before. */
  lemma Origin(cs: seq<Cluster>, f: Fire, threshold: real, i: nat, x: Fire)
    requires WellFormed(cs) && Fresh(cs, f) && i < |Add(cs, f, threshold)| && x in Add(cs, f, threshold)[i].members
    ensures if x.id == f.id then i == FirstMatch(cs, f, threshold, 0) else i < |cs| && x in cs[i].members
  {
    AddFresh(cs, f, threshold);
    assert i < |cs| && x in cs[i].members ==> x.id != f.id by {
      if i < |cs| && x in cs[i].members {
        MemberOf(cs, i, x);
      }
    }
  }

  lemma AddDisjoint(cs: seq<Cluster>, f: Fire, threshold: real)
    requires WellFormed(cs) && Fresh(cs, f) && Disjoint(cs)
    ensures Disjoint(Add(cs, f, threshold))
  {
    var after := Add(cs, f, threshold);
    forall i, j | 0 <= i < j < |after|
      ensures Apart(after[i], after[j])
    {
      forall x, y | x in after[i].members && y in after[j].members
        ensures x.id != y.id
      {
        Origin(cs, f, threshold, i, x);
        Origin(cs, f, threshold, j, y);
        assert i < |cs| && j < |cs| ==> Apart(cs[i], cs[j]);
      }
    }
  }

  lemma {:induction false} ClustersDisjoint(fires: seq<Fire>, threshold: real)
    requires DistinctIds(fires)
    ensures Disjoint(Clusters(fires, threshold))
  {
    if fires != [] {
      var n := |fires| - 1;
      var cs := Clusters(fires[..n], threshold);
      Partition(fires[..n], threshold);
      NextIsFresh(fires, n, cs);
      ClustersDisjoint(fires[..n], threshold);
      AddDisjoint(cs, fires[n], threshold);
    }
  }

  function Enter(lookup: map<string, string>, members: seq<Fire>, id: string): map<string, string> {
    if members == [] then lookup
    else Enter(lookup, members[..|members| - 1], id)[members[|members| - 1].id := id]
  }

  /** `cluster_lookup`: the cluster of every member. */
  function Lookup(cs: seq<Cluster>): map<string, string> {
    if cs == [] then map[]
    else Enter(Lookup(cs[..|cs| - 1]), cs[|cs| - 1].members, cs[|cs| - 1].id)
  }

  predicate Representative(lookup: map<string, string>, f: Fire) {
    f.id in lookup && lookup[f.id] == f.id
  }

  function Dispatch(fires: seq<Fire>, lookup: map<string, string>): seq<string> {
    if fires == [] then []
    else
      var n := |fires| - 1;
      Dispatch(fires[..n], lookup) + if Representative(lookup, fires[n]) then [fires[n].id] else []
  }

  method DispatchSet(fires: seq<Fire>, clusters: seq<Cluster>) returns (dispatch: seq<string>)
    ensures dispatch == Dispatch(fires, Lookup(clusters))
  {
    var lookup: map<string, string> := map[];
    for i := 0 to |clusters|
      invariant lookup == Lookup(clusters[..i])
    {
      var members := clusters[i].members;
      for k := 0 to |members|
        invariant lookup == Enter(Lookup(clusters[..i]), members[..k], clusters[i].id)
      {
        assert members[..k + 1][..k] == members[..k];
        lookup := lookup[members[k].id := clusters[i].id];
      }
      assert members[..|members|] == members && clusters[..i + 1][..i] == clusters[..i];
    }
    assert clusters[..|clusters|] == clusters;
    dispatch := [];
    for n := 0 to |fires|
      invariant dispatch == Dispatch(fires[..n], lookup)
    {
      assert fires[..n + 1][..n] == fires[..n];
      if Representative(lookup, fires[n]) {
        dispatch := dispatch + [fires[n].id];
      }
    }
    assert fires[..|fires|] == fires;
  }

  lemma {:induction false} EnterFinds(lookup: map<string, string>, members: seq<Fire>, id: string, f: Fire)
    ensures f in members ==> f.id in Enter(lookup, members, id) && Enter(lookup, members, id)[f.id] == id
    ensures f.id in lookup && (forall m :: m in members ==> m.id != f.id) ==>
              f.id in Enter(lookup, members, id) && Enter(lookup, members, id)[f.id] == lookup[f.id]
  {
    if members != [] {
      EnterFinds(lookup, members[..|members| - 1], id, f);
    }
  }

  /** With disjoint clusters the lookup finds the cluster of every member. */
  lemma {:induction false} LookupFindsHome(cs: seq<Cluster>, i: nat, f: Fire)
    requires Disjoint(cs) && i < |cs| && f in cs[i].members
    ensures f.id in Lookup(cs) && Lookup(cs)[f.id] == cs[i].id
  {
    var last := |cs| - 1;
    EnterFinds(Lookup(cs[..last]), cs[last].members, cs[last].id, f);
    if i < last {
      LookupFindsHome(cs[..last], i, f);
      assert Apart(cs[i], cs[last]);
    }
  }

  function Ids(cs: seq<Cluster>): seq<string> {
    seq(|cs|, i requires 0 <= i < |cs| => cs[i].id)
  }

  lemma HomeIsUnique(cs: seq<Cluster>, i: nat, j: nat, x: Fire, y: Fire)
    requires Disjoint(cs) && i < |cs| && j < |cs| && x in cs[i].members && y in cs[j].members
    ensures x.id == y.id ==> i == j
  {
    assert i < j ==> Apart(cs[i], cs[j]);
    assert j < i ==> Apart(cs[j], cs[i]);
  }

  lemma RepresentativeIffClusterId(cs: seq<Cluster>, f: Fire)
    requires WellFormed(cs) && Disjoint(cs) && f in Members(cs)
    ensures Representative(Lookup(cs), f) <==> f.id in Ids(cs)
  {
    InMembers(cs, f);
    var i :| 0 <= i < |cs| && f in cs[i].members;
    LookupFindsHome(cs, i, f);
    assert Ids(cs)[i] == cs[i].id;
    if f.id in Ids(cs) {
      var j :| 0 <= j < |cs| && Ids(cs)[j] == f.id;
      HomeIsUnique(cs, i, j, f, cs[j].members[0]);
    }
  }

  /** The ids, in order, of the fires that a cluster is named after. */
  function Named(fires: seq<Fire>, ids: seq<string>): seq<string> {
    if fires == [] then []
    else
      var n := |fires| - 1;
      Named(fires[..n], ids) + if fires[n].id in ids then [fires[n].id] else []
  }

  lemma {:induction false} NamedWithout(fires: seq<Fire>, ids: seq<string>, id: string)
    requires forall f :: f in fires ==> f.id != id
    ensures Named(fires, ids + [id]) == Named(fires, ids)
  {
    if fires != [] {
      NamedWithout(fires[..|fires| - 1], ids, id);
    }
  }

  lemma AddIds(cs: seq<Cluster>, f: Fire, threshold: real)
    requires WellFormed(cs) && Fresh(cs, f)
    ensures f.id !in Ids(cs)
    ensures Ids(Add(cs, f, threshold)) == Ids(cs) || Ids(Add(cs, f, threshold)) == Ids(cs) + [f.id]
  {
    FreshIds(cs, f);
    AddFresh(cs, f, threshold);
    assert forall i :: 0 <= i < |cs| ==> Ids(cs)[i] != f.id;
  }

  lemma {:induction false} NamedAreTheIds(fires: seq<Fire>, threshold: real)
    requires DistinctIds(fires)
    ensures Named(fires, Ids(Clusters(fires, threshold))) == Ids(Clusters(fires, threshold))
  {
    if fires != [] {
      var n := |fires| - 1;
      var cs := Clusters(fires[..n], threshold);
      Partition(fires[..n], threshold);
      NextIsFresh(fires, n, cs);
      AddIds(cs, fires[n], threshold);
      NamedAreTheIds(fires[..n], threshold);
      NamedWithout(fires[..n], Ids(cs), fires[n].id);
    }
  }

  lemma {:induction false} DispatchIsNamed(fires: seq<Fire>, cs: seq<Cluster>)
    requires WellFormed(cs) && Disjoint(cs) && forall f :: f in fires ==> f in Members(cs)
    ensures Dispatch(fires, Lookup(cs)) == Named(fires, Ids(cs))
  {
    if fires != [] {
      DispatchIsNamed(fires[..|fires| - 1], cs);
      RepresentativeIffClusterId(cs, fires[|fires| - 1]);
    }
  }

  /** What is sent to Kani are exactly the cluster ids, one per cluster, in order. */
  lemma DispatchIsTheClusterIds(fires: seq<Fire>, threshold: real)
    requires DistinctIds(fires)
    ensures Dispatch(fires, Lookup(Clusters(fires, threshold))) == Ids(Clusters(fires, threshold))
  {
    var cs := Clusters(fires, threshold);
    Partition(fires, threshold);
    ClustersDisjoint(fires, threshold);
    forall f | f in fires
      ensures f in Members(cs)
    {
      InElements(fires, Members(cs), f);
    }
    DispatchIsNamed(fires, cs);
    NamedAreTheIds(fires, threshold);
  }

  // ---- when the engine function is known -----------------------------------

  ghost predicate AllNamed(fires: seq<Fire>) {
    forall m :: m in fires ==> m.engineFunction != ""
  }

  ghost predicate OneFunction(c: Cluster) {
    forall x, y :: x in c.members && y in c.members ==> x.engineFunction == y.engineFunction != ""
  }

  lemma NamedMatchIsPair(c: Cluster, f: Fire, threshold: real) returns (m: Fire)
    requires f.engineFunction != "" && OneFunction(c) && Matches(c, f, threshold)
    ensures m in c.members && Pair(f, m, threshold) && m.engineFunction == f.engineFunction
  {
    var n :| n in c.members && n.engineFunction == f.engineFunction;
    m :| m in c.members && (SameClassAndFunction(f, m) || SameFunctionAndFile(f, m) || Similar(f, m, threshold));
    assert m.engineFunction == n.engineFunction;
  }

  lemma JoinOneFunction(c: Cluster, m: Fire, f: Fire)
    requires OneFunction(c) && m in c.members && m.engineFunction == f.engineFunction
    ensures OneFunction(Cluster(c.id, c.members + [f]))
  {
    assert forall x :: x in c.members ==> x.engineFunction == m.engineFunction != "";
    assert forall x :: x in c.members + [f] ==> x in c.members || x == f;
  }

  /** When every fire names its engine function, no cluster mixes two functions. */
  lemma {:induction false} ClustersKeepFunctionsApart(fires: seq<Fire>, threshold: real, i: nat)
    requires DistinctIds(fires) && AllNamed(fires) && i < |Clusters(fires, threshold)|
    ensures OneFunction(Clusters(fires, threshold)[i])
    decreases |fires|
  {
    var n := |fires| - 1;
    var f := fires[n];
    var cs := Clusters(fires[..n], threshold);
    Partition(fires[..n], threshold);
    NextIsFresh(fires, n, cs);
    AddFresh(cs, f, threshold);
    if i < |cs| {
      ClustersKeepFunctionsApart(fires[..n], threshold, i);
      if i == FirstMatch(cs, f, threshold, 0) {
        var m := NamedMatchIsPair(cs[i], f, threshold);
        JoinOneFunction(cs[i], m, f);
      }
    }
  }

  lemma NewIffUnmatched(fires: seq<Fire>, n: nat, threshold: real)
    requires DistinctIds(fires) && AllNamed(fires) && n < |fires|
    ensures FirstMatch(Clusters(fires[..n], threshold), fires[n], threshold, 0) == |Clusters(fires[..n], threshold)|
            <==> MatchesNothingBefore(fires, n, threshold)
  {
    var cs := Clusters(fires[..n], threshold);
    var k := FirstMatch(cs, fires[n], threshold, 0);
    Partition(fires[..n], threshold);
    if k == |cs| {
      UnmatchedIsNew(fires, n, cs, threshold);
    } else {
      ClustersKeepFunctionsApart(fires[..n], threshold, k);
      var m := NamedMatchIsPair(cs[k], fires[n], threshold);
      MemberOf(cs, k, m);
      InElements(fires[..n], Members(cs), m);
      var j :| 0 <= j < n && fires[..n][j] == m;
      assert Pair(fires[n], fires[j], threshold);
    }
  }

  lemma InSnoc<T>(s: seq<T>, y: T, x: T)
    requires x != y
    ensures x in s + [y] <==> x in s
  {
  }

  lemma AddKeepsOthers(cs: seq<Cluster>, f: Fire, threshold: real, id: string)
    requires WellFormed(cs) && Fresh(cs, f) && id != f.id
    ensures id in Ids(Add(cs, f, threshold)) <==> id in Ids(cs)
  {
    AddIds(cs, f, threshold);
    InSnoc(Ids(cs), f.id, id);
  }

  lemma StaysNamed(fires: seq<Fire>, threshold: real, i: nat)
    requires DistinctIds(fires) && i < |fires| - 1
    ensures fires[i].id in Ids(Clusters(fires, threshold))
            <==> fires[i].id in Ids(Clusters(fires[..|fires| - 1], threshold))
  {
    var n := |fires| - 1;
    Partition(fires[..n], threshold);
    NextIsFresh(fires, n, Clusters(fires[..n], threshold));
    AddKeepsOthers(Clusters(fires[..n], threshold), fires[n], threshold, fires[i].id);
  }

  /** No cluster there is at its turn takes the fire. */
  ghost predicate Unmatched(fires: seq<Fire>, i: nat, threshold: real)
    requires i < |fires|
  {
    var cs := Clusters(fires[..i], threshold);
    FirstMatch(cs, fires[i], threshold, 0) == |cs|
  }

  lemma LastDispatchedIff(fires: seq<Fire>, threshold: real)
    requires DistinctIds(fires) && fires != []
    ensures fires[|fires| - 1].id in Ids(Clusters(fires, threshold)) <==> Unmatched(fires, |fires| - 1, threshold)
  {
    var n := |fires| - 1;
    var cs := Clusters(fires[..n], threshold);
    Partition(fires[..n], threshold);
    NextIsFresh(fires, n, cs);
    AddFresh(cs, fires[n], threshold);
    AddIds(cs, fires[n], threshold);
    var after := Add(cs, fires[n], threshold);
    if FirstMatch(cs, fires[n], threshold, 0) == |cs| {
      assert Ids(after)[|cs|] == fires[n].id;
    } else {
      assert Ids(after) == Ids(cs);
    }
  }

  lemma {:induction false} DispatchedIffUnmatched(fires: seq<Fire>, threshold: real, i: nat)
    requires DistinctIds(fires) && i < |fires|
    ensures fires[i].id in Ids(Clusters(fires, threshold)) <==> Unmatched(fires, i, threshold)
    decreases |fires|
  {
    var n := |fires| - 1;
    if i == n {
      LastDispatchedIff(fires, threshold);
    } else {
      DispatchedIffUnmatched(fires[..n], threshold, i);
      StaysNamed(fires, threshold, i);
      assert fires[..n][..i] == fires[..i];
    }
  }

  /** When every fire names its engine function, dispatched are exactly the fires that match nothing earlier. */
  lemma DispatchedIffNew(fires: seq<Fire>, threshold: real, i: nat)
    requires DistinctIds(fires) && AllNamed(fires) && i < |fires|
    ensures fires[i].id in Ids(Clusters(fires, threshold)) <==> MatchesNothingBefore(fires, i, threshold)
  {
    DispatchedIffUnmatched(fires, threshold, i);
    NewIffUnmatched(fires, i, threshold);
  }

  // ---- and when it is not --------------------------------------------------

  /** Two fires, or one twice, that take a fire into their cluster. */
  predicate Draws(x: Fire, y: Fire, f: Fire, threshold: real) {
    SameClassAndFunction(f, x) || SameFunctionAndFile(f, x) || (Compatible(f, x) && Similar(f, y, threshold))
  }

  ghost predicate Together(cs: seq<Cluster>, x: Fire, y: Fire) {
    exists i :: 0 <= i < |cs| && x in cs[i].members && y in cs[i].members
  }

  lemma MatchesIff(c: Cluster, f: Fire, threshold: real)
    ensures Matches(c, f, threshold) <==> exists x, y :: x in c.members && y in c.members && Draws(x, y, f, threshold)
  {
    if m :| m in c.members && (SameClassAndFunction(f, m) || SameFunctionAndFile(f, m)) {
      assert Draws(m, m, f, threshold);
    }
    if Rule3(c, f, threshold) {
      var y :| y in c.members && Similar(f, y, threshold);
      var x :| x in c.members && Compatible(f, x);
      assert Draws(x, y, f, threshold);
    }
  }

  lemma UnmatchedIff(cs: seq<Cluster>, f: Fire, threshold: real)
    ensures FirstMatch(cs, f, threshold, 0) == |cs| <==>
            forall x, y :: Together(cs, x, y) ==> !Draws(x, y, f, threshold)
  {
    var k := FirstMatch(cs, f, threshold, 0);
    if k == |cs| {
      forall x, y | Together(cs, x, y)
        ensures !Draws(x, y, f, threshold)
      {
        var i :| 0 <= i < |cs| && x in cs[i].members && y in cs[i].members;
        assert !Matches(cs[i], f, threshold);
        MatchesIff(cs[i], f, threshold);
      }
    } else {
      MatchesIff(cs[k], f, threshold);
      var x, y :| x in cs[k].members && y in cs[k].members && Draws(x, y, f, threshold);
      assert Together(cs, x, y);
    }
  }

  /** On every input: dispatched are exactly the fires that no two earlier fires of one cluster draw in. */
  lemma DispatchedIff(fires: seq<Fire>, threshold: real, i: nat)
    requires DistinctIds(fires) && i < |fires|
    ensures fires[i].id in Ids(Clusters(fires, threshold)) <==>
            forall x, y :: Together(Clusters(fires[..i], threshold), x, y) ==> !Draws(x, y, fires[i], threshold)
  {
    DispatchedIffUnmatched(fires, threshold, i);
    UnmatchedIff(Clusters(fires[..i], threshold), fires[i], threshold);
  }

  // ---- exactly when a cluster mixes two functions --------------------------

  /** Both fires name an engine function, and not the same. */
  predicate Differ(x: Fire, y: Fire) {
    x.engineFunction != "" && y.engineFunction != "" && x.engineFunction != y.engineFunction
  }

  ghost predicate Mixed(c: Cluster) {
    exists x, y :: x in c.members && y in c.members && Differ(x, y)
  }

  ghost predicate NamesOnly(c: Cluster, g: string) {
    forall m :: m in c.members ==> m.engineFunction == "" || m.engineFunction == g
  }

  ghost predicate HasUnnamed(c: Cluster) {
    exists m :: m in c.members && m.engineFunction == ""
  }

  ghost predicate HasSimilar(c: Cluster, f: Fire, threshold: real) {
    exists m :: m in c.members && Similar(f, m, threshold)
  }

  /** A fire of another function gets past the guard of rule 3 exactly through a member without a function. */
  lemma GuardOpensIff(c: Cluster, f: Fire, g: string, threshold: real)
    requires NamesOnly(c, g) && f.engineFunction != "" && f.engineFunction != g
    ensures Matches(c, f, threshold) <==> HasUnnamed(c) && HasSimilar(c, f, threshold)
  {
    assert forall m :: m in c.members ==> (Compatible(f, m) <==> m.engineFunction == "");
    assert !Rule1(c, f) && !Rule2(c, f);
    assert Rule3(c, f, threshold) <==> HasUnnamed(c) && HasSimilar(c, f, threshold);
  }

  /** The cluster is of one function; the fire is of another and is similar to some member, and some member has none. */
  ghost predicate Mixes(c: Cluster, f: Fire, threshold: real) {
    !Mixed(c) && HasUnnamed(c) && HasSimilar(c, f, threshold) &&
    exists m :: m in c.members && Differ(m, f)
  }

  lemma JoinMixedIff(c: Cluster, f: Fire, threshold: real)
    requires Matches(c, f, threshold)
    ensures Mixed(Cluster(c.id, c.members + [f])) <==> Mixed(c) || Mixes(c, f, threshold)
  {
    var after := c.members + [f];
    assert f in after && forall m :: m in after <==> m in c.members || m == f;
    if m :| m in c.members && Differ(m, f) {
      assert m in after;
      if !Mixed(c) {
        GuardOpensIff(c, f, m.engineFunction, threshold);
      }
    }
  }

  /** The fire at `n` comes to the cluster at `i`, and that cluster is of one function but gets a second one. */
  ghost predicate MixingJoin(fires: seq<Fire>, n: nat, i: nat, threshold: real)
    requires n < |fires|
  {
    var cs := Clusters(fires[..n], threshold);
    i < |cs| && Mixes(cs[i], fires[n], threshold) && forall k :: 0 <= k < i ==> !Matches(cs[k], fires[n], threshold)
  }

  lemma MixesMatches(c: Cluster, f: Fire, threshold: real)
    requires Mixes(c, f, threshold)
    ensures Matches(c, f, threshold)
  {
    var m :| m in c.members && Differ(m, f);
    GuardOpensIff(c, f, m.engineFunction, threshold);
  }

  lemma MixingJoinIsTheStep(fires: seq<Fire>, n: nat, i: nat, threshold: real)
    requires n < |fires|
    ensures var cs := Clusters(fires[..n], threshold);
            MixingJoin(fires, n, i, threshold) <==>
              i < |cs| && i == FirstMatch(cs, fires[n], threshold, 0) && Mixes(cs[i], fires[n], threshold)
  {
    var cs := Clusters(fires[..n], threshold);
    if MixingJoin(fires, n, i, threshold) {
      MixesMatches(cs[i], fires[n], threshold);
    }
  }

  ghost predicate SomeMixingJoin(fires: seq<Fire>, i: nat, threshold: real) {
    exists n :: 0 <= n < |fires| && MixingJoin(fires, n, i, threshold)
  }

  lemma SomeMixingJoinStep(fires: seq<Fire>, i: nat, threshold: real)
    requires fires != []
    ensures SomeMixingJoin(fires, i, threshold) <==>
              SomeMixingJoin(fires[..|fires| - 1], i, threshold) || MixingJoin(fires, |fires| - 1, i, threshold)
  {
    var last := |fires| - 1;
    forall n | 0 <= n < last
      ensures MixingJoin(fires[..last], n, i, threshold) <==> MixingJoin(fires, n, i, threshold)
    {
      assert fires[..last][..n] == fires[..n];
    }
  }

  lemma NewClusterIsPure(f: Fire)
    ensures !Mixed(Cluster(f.id, [f]))
  {
  }

  lemma {:induction false} NoJoinYet(fires: seq<Fire>, i: nat, threshold: real)
    requires DistinctIds(fires) && i >= |Clusters(fires, threshold)|
    ensures !SomeMixingJoin(fires, i, threshold)
    decreases |fires|
  {
    if fires != [] {
      var n := |fires| - 1;
      var cs := Clusters(fires[..n], threshold);
      Partition(fires[..n], threshold);
      NextIsFresh(fires, n, cs);
      AddFresh(cs, fires[n], threshold);
      NoJoinYet(fires[..n], i, threshold);
      SomeMixingJoinStep(fires, i, threshold);
    }
  }

  /** In every run a cluster mixes two functions exactly when one of the joins got past the guard that way. */
  lemma {:induction false} MixedIffMixingJoin(fires: seq<Fire>, threshold: real, i: nat)
    requires DistinctIds(fires) && i < |Clusters(fires, threshold)|
    ensures Mixed(Clusters(fires, threshold)[i]) <==> SomeMixingJoin(fires, i, threshold)
    decreases |fires|
  {
    var n := |fires| - 1;
    var f := fires[n];
    var cs := Clusters(fires[..n], threshold);
    Partition(fires[..n], threshold);
    NextIsFresh(fires, n, cs);
    AddFresh(cs, f, threshold);
    SomeMixingJoinStep(fires, i, threshold);
    MixingJoinIsTheStep(fires, n, i, threshold);
    if i < |cs| {
      MixedIffMixingJoin(fires[..n], threshold, i);
      if i == FirstMatch(cs, f, threshold, 0) {
        JoinMixedIff(cs[i], f, threshold);
      }
    } else {
      NewClusterIsPure(f);
      NoJoinYet(fires[..n], i, threshold);
    }
  }

  // ---- two fires -----------------------------------------------------------

  lemma MatchesOneIff(id: string, a: Fire, f: Fire, threshold: real)
    ensures Matches(Cluster(id, [a]), f, threshold) <==> Pair(f, a, threshold)
  {
    assert a in [a] && forall m :: m in [a] ==> m == a;
  }

  /** Of two fires the second joins the first exactly under one of the three rules, spelled out here. */
  lemma TwoFires(a: Fire, b: Fire, threshold: real)
    requires a.id != b.id
    ensures var overlap := Jaccard(Shingles(b.claim), Shingles(a.claim));
            var joins :=
              (b.bugClass != "" && b.engineFunction != "" &&
               a.bugClass == b.bugClass && a.engineFunction == b.engineFunction) ||
              (b.engineFunction != "" && b.targetFile != "" &&
               a.engineFunction == b.engineFunction && a.targetFile == b.targetFile) ||
              ((a.engineFunction == "" || b.engineFunction == "" || a.engineFunction == b.engineFunction) &&
               a.bugClass == b.bugClass && overlap >= threshold);
            Clusters([a, b], threshold) ==
            if joins then [Cluster(a.id, [a, b])] else [Cluster(a.id, [a]), Cluster(b.id, [b])]
  {
    var c := Cluster(a.id, [a]);
    assert [a, b][..1] == [a] && [a][..0] == [];
    assert Clusters([a], threshold) == [c];
    assert Clusters([a, b], threshold) == Add([c], b, threshold);
    MatchesOneIff(a.id, a, b, threshold);
    AddToOne(c, b, threshold);
    assert FirstMatch([c], b, threshold, 0) == if Matches(c, b, threshold) then 0 else 1;
    assert Put([c], Cluster(b.id, [b])) == [c] + Put([], Cluster(b.id, [b]));
    assert [a] + [b] == [a, b] && [c] + [Cluster(b.id, [b])] == [c, Cluster(b.id, [b])];
  }

  /** One function in two files under two bug classes: two clusters. */
  lemma OtherFileStaysApart(a: Fire, b: Fire, threshold: real)
    requires a.id != b.id && a.engineFunction == b.engineFunction
    requires a.targetFile != b.targetFile && a.bugClass != b.bugClass
    ensures Clusters([a, b], threshold) == [Cluster(a.id, [a]), Cluster(b.id, [b])]
  {
    TwoFires(a, b, threshold);
  }

  /** A shingle is three tokens in a row. */
  lemma ShinglesSpelled(tokens: seq<string>, window: seq<string>)
    ensures window in Shingles(tokens) <==>
            exists i, j :: 0 <= i && j == i + 3 && j <= |tokens| && tokens[i..j] == window
  {
    if i, j :| 0 <= i && j == i + 3 && j <= |tokens| && tokens[i..j] == window {
      assert Window(tokens, i) == window;
    }
    if window in Shingles(tokens) {
      var i: nat :| i + SHINGLE <= |tokens| && Window(tokens, i) == window;
      assert tokens[i..i + 3] == window;
    }
  }

  // ---- two runs that show what is not promised -----------------------------

  const CLAIM_ABCD := ["a", "b", "c", "d"]
  const CLAIM_ABC := ["a", "b", "c"]
  const CLAIM_BCD := ["b", "c", "d"]

  lemma ExampleShingles()
    ensures Shingles(CLAIM_ABC) == {CLAIM_ABC} && Shingles(CLAIM_BCD) == {CLAIM_BCD}
    ensures Shingles(CLAIM_ABCD) == {CLAIM_ABC, CLAIM_BCD} && CLAIM_ABC != CLAIM_BCD
  {
    assert Window(CLAIM_ABC, 0) == CLAIM_ABC && Window(CLAIM_BCD, 0) == CLAIM_BCD;
    assert Window(CLAIM_ABCD, 0) == CLAIM_ABC && Window(CLAIM_ABCD, 1) == CLAIM_BCD;
    assert CLAIM_ABC[0] == "a" && CLAIM_BCD[0] == "b";
  }

  lemma ExampleJaccard(x: seq<string>, y: seq<string>)
    requires x != y
    ensures Jaccard({x}, {x, y}) == 0.5 && Jaccard({x, y}, {x}) == 0.5 && Jaccard({x}, {y}) == 0.0
  {
    assert {x} * {x, y} == {x} && {x} + {x, y} == {x, y} && {x, y} * {x} == {x} && {x, y} + {x} == {x, y};
    assert {x} * {y} == {} && {x} + {y} == {x, y};
  }

  lemma ExampleSimilarity()
    ensures Jaccard(Shingles(CLAIM_ABC), Shingles(CLAIM_ABCD)) == 0.5
    ensures Jaccard(Shingles(CLAIM_BCD), Shingles(CLAIM_ABCD)) == 0.5
    ensures Jaccard(Shingles(CLAIM_BCD), Shingles(CLAIM_ABC)) == 0.0
  {
    ExampleShingles();
    ExampleJaccard(CLAIM_ABC, CLAIM_BCD);
    ExampleJaccard(CLAIM_BCD, CLAIM_ABC);
    assert {CLAIM_ABC, CLAIM_BCD} == {CLAIM_BCD, CLAIM_ABC};
  }

  lemma AddToOne(c: Cluster, f: Fire, threshold: real)
    ensures Matches(c, f, threshold) ==> Add([c], f, threshold) == [Cluster(c.id, c.members + [f])]
    ensures !Matches(c, f, threshold) && c.id == f.id ==> Add([c], f, threshold) == [Cluster(f.id, [f])]
  {
    assert FirstMatch([c], f, threshold, 0) == if Matches(c, f, threshold) then 0 else 1;
  }

  lemma ThreeFires(a: Fire, b: Fire, c: Fire, threshold: real)
    requires Matches(Cluster(a.id, [a]), b, threshold)
    ensures Clusters([a, b, c], threshold) == Add([Cluster(a.id, [a, b])], c, threshold)
  {
    assert [a, b, c][..2] == [a, b] && [a, b][..1] == [a] && [a][..0] == [];
    assert Clusters([a], threshold) == [Cluster(a.id, [a])];
    AddToOne(Cluster(a.id, [a]), b, threshold);
    assert [a] + [b] == [a, b];
  }

  /** The third rule takes its two halves from different members: one similar, one compatible. */
  lemma SplitEvidenceJoins(a: Fire, b: Fire, c: Fire, threshold: real)
    requires Similar(b, a, threshold) && Compatible(b, a)
    requires Similar(c, a, threshold) && Compatible(c, b)
    ensures Clusters([a, b, c], threshold) == [Cluster(a.id, [a, b, c])]
  {
    assert a in [a];
    ThreeFires(a, b, c, threshold);
    assert a in [a, b] && b in [a, b];
    AddToOne(Cluster(a.id, [a, b]), c, threshold);
    assert [a, b] + [c] == [a, b, c];
  }

  /**
   * Without the function name, a fire can join a cluster in which it matches no single member,
   * and a cluster can hold two different engine functions.
   */
  lemma JoinsWithoutAPair(a: Fire, b: Fire, c: Fire)
    requires a.claim == CLAIM_ABCD && b.claim == CLAIM_ABC && c.claim == CLAIM_BCD
    requires a.bugClass == b.bugClass == c.bugClass
    requires b.engineFunction == "" && a.engineFunction != "" && c.engineFunction != ""
    requires a.engineFunction != c.engineFunction
    ensures Clusters([a, b, c], 0.25) == [Cluster(a.id, [a, b, c])]
    ensures MatchesNothingBefore([a, b, c], 2, 0.25)
  {
    ExampleSimilarity();
    SplitEvidenceJoins(a, b, c, 0.25);
    assert !Pair(c, a, 0.25) && !Pair(c, b, 0.25);
  }

  /** With a repeated id the later fire replaces a cluster, and another fire is in none. */
  lemma RepeatedIdLosesAFire(a: Fire, b: Fire, c: Fire, threshold: real)
    requires SameClassAndFunction(b, a) && c.id == a.id && c != b
    requires !Pair(c, a, threshold) && !Pair(c, b, threshold) && c.engineFunction != ""
    ensures Clusters([a, b, c], threshold) == [Cluster(a.id, [c])]
    ensures b !in Members(Clusters([a, b, c], threshold))
  {
    assert a in [a] && SameClassAndFunction(b, a);
    ThreeFires(a, b, c, threshold);
    var ab := Cluster(a.id, [a, b]);
    assert forall m :: m in ab.members ==> m == a || m == b;
    AddToOne(ab, c, threshold);
    assert Members([Cluster(a.id, [c])]) == [c] + Members([]);
  }
}
