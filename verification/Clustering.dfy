/** The worklist loop of NonMaxSuppression, on values and over any nearness relation
    between box indices, against the declarative greedy specification. */
module Clustering {

  type Relation = (nat, nat) -> bool

  // --------------------------------------------------- the loop, on values

  /** The entries of the worklist that are near the leader, or those that are not. */
  function Pick(near: Relation, work: seq<nat>, lead: nat, keep: bool): (r: seq<nat>)
    ensures |r| <= |work|
    ensures forall m :: m in r <==> m in work && near(m, lead) == keep
  {
    if work == [] then []
    else
      var rest := Pick(near, work[1..], lead, keep);
      if near(work[0], lead) == keep then [work[0]] + rest else rest
  }

  datatype Cluster = Cluster(leader: nat, members: seq<nat>)

  /** The clusters the loop forms, in order, with its early break. */
  ghost function Clusters(near: Relation, work: seq<nat>): (cs: seq<Cluster>)
    decreases |work|
  {
    if work == [] then []
    else
      var remained := Pick(near, work, work[0], false);
      [Cluster(work[0], Pick(near, work, work[0], true))] +
      if |remained| == |work| then [] else Clusters(near, remained)
  }

  // ------------------------------------------------ the greedy specification

  /** Position k of the ranking leads a cluster iff no earlier leader is near it. */
  ghost predicate Leads(near: Relation, order: seq<nat>, k: nat)
    requires k < |order|
    decreases k
  {
    forall j :: 0 <= j < k && Leads(near, order, j) ==> !near(order[k], order[j])
  }

  /** The leaders among the first k positions. */
  ghost function Leaders(near: Relation, order: seq<nat>, k: nat): (ls: seq<nat>)
    requires k <= |order|
  {
    if k == 0 then []
    else Leaders(near, order, k - 1) + if Leads(near, order, k - 1) then [order[k - 1]] else []
  }

  /** The same clusters without the early break. */
  ghost function Greedy(near: Relation, work: seq<nat>): (cs: seq<Cluster>)
    decreases |work|
  {
    if work == [] then []
    else [Cluster(work[0], Pick(near, work, work[0], true))] + Greedy(near, Rest(near, work))
  }

  /** What is left of the worklist once its leader and everything near it are gone. */
  ghost function Rest(near: Relation, work: seq<nat>): (r: seq<nat>)
    requires work != []
    ensures |r| < |work|
    ensures forall m :: m in r <==> m in work[1..] && !near(m, work[0])
  {
    Pick(near, work[1..], work[0], false)
  }

  ghost function LeadersOf(cs: seq<Cluster>): (ls: seq<nat>)
    ensures |ls| == |cs|
  {
    if cs == [] then [] else [cs[0].leader] + LeadersOf(cs[1..])
  }

  lemma {:induction false} LeadersOfAt(cs: seq<Cluster>, c: nat)
    requires c < |cs|
    ensures LeadersOf(cs)[c] == cs[c].leader
  {
    if c > 0 { LeadersOfAt(cs[1..], c - 1); }
  }

  // ---------------------------------------------------------- greedy leaders

  lemma {:induction false} LeadersAreThose(near: Relation, order: seq<nat>, k: nat)
    requires k <= |order|
    ensures forall j :: 0 <= j < k && Leads(near, order, j) ==> order[j] in Leaders(near, order, k)
    ensures forall l :: l in Leaders(near, order, k) ==>
              exists j :: 0 <= j < k && Leads(near, order, j) && order[j] == l
  {
    if k > 0 {
      LeadersAreThose(near, order, k - 1);
    }
  }

  /** No entry of ls is near m. */
  ghost predicate FarFrom(near: Relation, m: nat, ls: seq<nat>) {
    forall l :: l in ls ==> !near(m, l)
  }

  lemma LeadsIffFar(near: Relation, order: seq<nat>, k: nat)
    requires k < |order|
    ensures Leads(near, order, k) <==> FarFrom(near, order[k], Leaders(near, order, k))
  {
    LeadersAreThose(near, order, k);
    if Leads(near, order, k) {
      forall l | l in Leaders(near, order, k)
        ensures !near(order[k], l)
      {
        var j :| 0 <= j < k && Leads(near, order, j) && order[j] == l;
      }
    }
  }

  /** The worklist entries that are far from every leader of ls. */
  ghost function Free(near: Relation, work: seq<nat>, ls: seq<nat>): (r: seq<nat>) {
    if work == [] then []
    else
      var rest := Free(near, work[1..], ls);
      if FarFrom(near, work[0], ls) then [work[0]] + rest else rest
  }

  lemma {:induction false} FreeSnoc(near: Relation, work: seq<nat>, ls: seq<nat>, o: nat)
    ensures Free(near, work, ls + [o]) == Pick(near, Free(near, work, ls), o, false)
  {
    if work != [] {
      FreeSnoc(near, work[1..], ls, o);
      var rest := Free(near, work[1..], ls);
      assert ([work[0]] + rest)[1..] == rest;
      assert FarFrom(near, work[0], ls + [o]) <==> FarFrom(near, work[0], ls) && !near(work[0], o) by {
        assert forall l :: l in ls ==> l in ls + [o];
        assert o in ls + [o];
      }
    }
  }

  lemma {:induction false} FreeOfNothing(near: Relation, work: seq<nat>)
    ensures Free(near, work, []) == work
  {
    if work != [] { FreeOfNothing(near, work[1..]); }
  }

  /** The leaders once ls have been chosen and tail is still to be scanned. */
  ghost function Scan(near: Relation, ls: seq<nat>, tail: seq<nat>): (r: seq<nat>) {
    ls + LeadersOf(Greedy(near, Free(near, tail, ls)))
  }

  lemma ScanStep(near: Relation, ls: seq<nat>, o: nat, tail: seq<nat>)
    ensures Scan(near, ls, [o] + tail) == Scan(near, if FarFrom(near, o, ls) then ls + [o] else ls, tail)
  {
    var free := Free(near, tail, ls);
    assert ([o] + tail)[1..] == tail;
    if FarFrom(near, o, ls) {
      FreeSnoc(near, tail, ls, o);
      GreedyCons(near, o, free);
      var later := LeadersOf(Greedy(near, Pick(near, free, o, false)));
      assert (ls + [o]) + later == ls + ([o] + later);
    }
  }

  lemma {:induction false} GreedyLeadersFrom(near: Relation, order: seq<nat>, k: nat)
    requires k <= |order|
    ensures Leaders(near, order, |order|) == Scan(near, Leaders(near, order, k), order[k..])
    decreases |order| - k
  {
    if k < |order| {
      var ls := Leaders(near, order, k);
      GreedyLeadersFrom(near, order, k + 1);
      LeadsIffFar(near, order, k);
      assert order[k..] == [order[k]] + order[k + 1..];
      ScanStep(near, ls, order[k], order[k + 1..]);
      assert Leaders(near, order, k + 1) == if FarFrom(near, order[k], ls) then ls + [order[k]] else ls;
    }
  }

  lemma GreedyCons(near: Relation, o: nat, rest: seq<nat>)
    ensures LeadersOf(Greedy(near, [o] + rest)) == [o] + LeadersOf(Greedy(near, Pick(near, rest, o, false)))
  {
    var work := [o] + rest;
    assert work[1..] == rest;
    assert Greedy(near, work)[1..] == Greedy(near, Pick(near, rest, o, false));
  }

  /** The loop without its break leads exactly the clusters the specification leads. */
  lemma GreedyLeaders(near: Relation, order: seq<nat>)
    ensures LeadersOf(Greedy(near, order)) == Leaders(near, order, |order|)
  {
    GreedyLeadersFrom(near, order, 0);
    FreeOfNothing(near, order);
    assert order[0..] == order;
  }

  // --------------------------------------------------------- the early break

  /** Indices that are near nothing, themselves included; all others are near themselves. */
  ghost predicate Isolates(near: Relation, flat: nat -> bool) {
    && (forall i, j :: flat(i) || flat(j) ==> !near(i, j))
    && (forall i :: !flat(i) ==> near(i, i))
  }

  /** Everything up to and including the first cluster with a flat leader. */
  ghost function UpToFlat(flat: nat -> bool, cs: seq<Cluster>): (r: seq<Cluster>) {
    if cs == [] then []
    else [cs[0]] + if flat(cs[0].leader) then [] else UpToFlat(flat, cs[1..])
  }

  lemma {:induction false} PickAll(near: Relation, work: seq<nat>, lead: nat)
    requires forall i :: !near(i, lead)
    ensures Pick(near, work, lead, false) == work
  {
    if work != [] { PickAll(near, work[1..], lead); }
  }

  /** The worklist stops shrinking exactly when its leader is flat. */
  lemma BreakIffFlat(near: Relation, flat: nat -> bool, work: seq<nat>)
    requires Isolates(near, flat) && work != []
    ensures |Pick(near, work, work[0], false)| == |work| <==> flat(work[0])
    ensures !flat(work[0]) ==> Pick(near, work, work[0], false) == Rest(near, work)
  {
    if flat(work[0]) {
      PickAll(near, work, work[0]);
    }
  }

  /** The loop computes the greedy clusters, cut after the first flat leader. */
  lemma {:induction false} StopsAtFlat(near: Relation, flat: nat -> bool, work: seq<nat>)
    requires Isolates(near, flat)
    ensures Clusters(near, work) == UpToFlat(flat, Greedy(near, work))
    decreases |work|
  {
    if work != [] {
      BreakIffFlat(near, flat, work);
      assert Greedy(near, work)[1..] == Greedy(near, Rest(near, work));
      if !flat(work[0]) {
        StopsAtFlat(near, flat, Rest(near, work));
      }
    }
  }

  lemma {:induction false} UpToFlatIsPrefix(flat: nat -> bool, cs: seq<Cluster>)
    ensures UpToFlat(flat, cs) <= cs
    ensures |UpToFlat(flat, cs)| == |cs| <==> forall c :: 0 <= c < |cs| - 1 ==> !flat(cs[c].leader)
  {
    if |cs| > 1 {
      var rest := cs[1..];
      UpToFlatIsPrefix(flat, rest);
      assert forall c :: 0 <= c < |rest| ==> rest[c] == cs[c + 1];
      assert forall c :: 1 <= c < |cs| ==> cs[c] == rest[c - 1];
      if flat(cs[0].leader) {
        assert 0 <= 0 < |cs| - 1;
      }
    }
  }

  /** The loop's clusters are a prefix of the greedy ones, and all of them exactly
      when no leader before the last one is flat. */
  lemma RefinesGreedy(near: Relation, flat: nat -> bool, order: seq<nat>)
    requires Isolates(near, flat)
    ensures Clusters(near, order) <= Greedy(near, order)
    ensures var leaders := Leaders(near, order, |order|);
            Clusters(near, order) == Greedy(near, order) <==>
            forall c :: 0 <= c < |leaders| - 1 ==> !flat(leaders[c])
  {
    var cs := Greedy(near, order);
    StopsAtFlat(near, flat, order);
    UpToFlatIsPrefix(flat, cs);
    GreedyLeaders(near, order);
    forall c | 0 <= c < |cs|
      ensures LeadersOf(cs)[c] == cs[c].leader
    {
      LeadersOfAt(cs, c);
    }
  }

  // ------------------------------------------------------ cluster membership

  /** A box belongs to the cluster of the first leader that is near it. */
  lemma {:induction false} MemberOfFirst(near: Relation, flat: nat -> bool, work: seq<nat>, c: nat, m: nat)
    requires Isolates(near, flat) && c < |Greedy(near, work)|
    ensures var cs := Greedy(near, work);
            m in cs[c].members <==> m in work && near(m, cs[c].leader) && FarFromFirst(near, m, cs, c)
    decreases |work|
  {
    if c > 0 {
      var cs, ds := Greedy(near, work), Greedy(near, Rest(near, work));
      assert cs[1..] == ds;
      MemberOfFirst(near, flat, Rest(near, work), c - 1, m);
      assert cs[c] == ds[c - 1];
      FarFromStep(near, m, cs, c);
      assert m in work <==> m == work[0] || m in work[1..];
    }
  }

  /** No leader of the first c clusters is near m. */
  ghost predicate FarFromFirst(near: Relation, m: nat, cs: seq<Cluster>, c: nat)
    requires c <= |cs|
  {
    forall e :: 0 <= e < c ==> !near(m, cs[e].leader)
  }

  lemma FarFromStep(near: Relation, m: nat, cs: seq<Cluster>, c: nat)
    requires 0 < c <= |cs|
    ensures FarFromFirst(near, m, cs, c) <==> !near(m, cs[0].leader) && FarFromFirst(near, m, cs[1..], c - 1)
  {
    var ds := cs[1..];
    assert forall e :: 1 <= e < c ==> cs[e] == ds[e - 1];
    assert forall e :: 0 <= e < c - 1 ==> ds[e] == cs[e + 1];
  }

  /** No proper box is lost. */
  lemma {:induction false} EveryBoxAssigned(near: Relation, work: seq<nat>, m: nat) returns (c: nat)
    requires m in work && near(m, m)
    ensures c < |Greedy(near, work)| && m in Greedy(near, work)[c].members
    decreases |work|
  {
    c := 0;
    if !near(m, work[0]) {
      c := EveryBoxAssigned(near, Rest(near, work), m);
      c := c + 1;
    }
  }

  ghost predicate OnlyCluster(cs: seq<Cluster>, c: nat, m: nat) {
    c < |cs| && forall d :: 0 <= d < |cs| ==> (m in cs[d].members <==> d == c)
  }

  lemma OneClusterEach(near: Relation, flat: nat -> bool, work: seq<nat>, m: nat) returns (c: nat)
    requires Isolates(near, flat) && m in work && !flat(m)
    ensures OnlyCluster(Greedy(near, work), c, m)
  {
    c := EveryBoxAssigned(near, work, m);
    var cs := Greedy(near, work);
    MemberOfFirst(near, flat, work, c, m);
    forall d | 0 <= d < |cs|
      ensures m in cs[d].members <==> d == c
    {
      MemberOfFirst(near, flat, work, d, m);
    }
  }

  lemma {:induction false} LeadersApart(near: Relation, work: seq<nat>, c: nat, d: nat)
    requires c < d < |Greedy(near, work)|
    ensures !near(Greedy(near, work)[d].leader, Greedy(near, work)[c].leader)
    decreases |work|
  {
    var rest := Rest(near, work);
    assert Greedy(near, work)[1..] == Greedy(near, rest);
    if c == 0 {
      LeaderInWork(near, rest, d - 1);
    } else {
      LeadersApart(near, rest, c - 1, d - 1);
    }
  }

  lemma {:induction false} LeaderInWork(near: Relation, work: seq<nat>, c: nat)
    requires c < |Greedy(near, work)|
    ensures Greedy(near, work)[c].leader in work
    decreases |work|
  {
    if c > 0 {
      assert Greedy(near, work)[1..] == Greedy(near, Rest(near, work));
      LeaderInWork(near, Rest(near, work), c - 1);
    }
  }

  // ------------------------------------------------------------------ scores

  ghost predicate Descending(score: nat -> real, work: seq<nat>) {
    forall j, k :: 0 <= j < k < |work| ==> score(work[j]) >= score(work[k])
  }

  lemma HeadIsTop(score: nat -> real, work: seq<nat>, m: nat)
    requires Descending(score, work) && m in work
    ensures score(work[0]) >= score(m)
  {
  }

  lemma {:induction false} PickDescending(near: Relation, score: nat -> real, work: seq<nat>, lead: nat, keep: bool)
    requires Descending(score, work)
    ensures Descending(score, Pick(near, work, lead, keep))
  {
    if work != [] {
      var rest := Pick(near, work[1..], lead, keep);
      PickDescending(near, score, work[1..], lead, keep);
      forall k | 0 <= k < |rest|
        ensures score(work[0]) >= score(rest[k])
      {
        assert rest[k] in work[1..];
        HeadIsTop(score, work, rest[k]);
      }
    }
  }

  /** No member of its cluster and no later leader outscores a leader. */
  lemma {:induction false} LeaderOutscores(near: Relation, score: nat -> real, work: seq<nat>, c: nat)
    requires Descending(score, work) && c < |Greedy(near, work)|
    ensures var cs := Greedy(near, work);
            && (forall d :: c <= d < |cs| ==> score(cs[c].leader) >= score(cs[d].leader))
            && (forall m :: m in cs[c].members ==> score(cs[c].leader) >= score(m))
    decreases |work|
  {
    var cs := Greedy(near, work);
    if c == 0 {
      forall d | 0 <= d < |cs| ensures score(cs[0].leader) >= score(cs[d].leader) {
        LeaderInWork(near, work, d);
        HeadIsTop(score, work, cs[d].leader);
      }
      forall m | m in cs[0].members ensures score(cs[0].leader) >= score(m) {
        HeadIsTop(score, work, m);
      }
    } else {
      var rest := Rest(near, work);
      assert cs[1..] == Greedy(near, rest);
      PickDescending(near, score, work[1..], work[0], false);
      LeaderOutscores(near, score, rest, c - 1);
      forall d | c <= d < |cs| ensures score(cs[c].leader) >= score(cs[d].leader) {
        assert cs[d] == Greedy(near, rest)[d - 1];
      }
    }
  }
}
