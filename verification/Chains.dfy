/** The allocation table as a set of cluster chains. */
module Chains {
  import opened Types
  import opened Layout

  type Fat = f: seq<u16> | |f| == 16128 witness seq<u16>(16128, i => 0)

  // ---------- following links in an arbitrary table ----------

  /** A value the source either does not follow or finds inside the data area. */
  predicate LinkOk(c: int) { Followable(c) ==> DataCluster(c) }

  ghost predicate LinksInRange(fat: Fat) {
    forall c | DataCluster(c) :: LinkOk(fat[c])
  }

  function CountFree(fat: Fat, n: nat): nat
    requires n <= CLUSTER_LIMIT
  {
    if n <= FIRST_CLUSTER then 0
    else CountFree(fat, n - 1) + if fat[n - 1] == CLUSTER_FREE then 1 else 0
  }

  /** The number `fs_debug_stats` reports. */
  function FreeCount(fat: Fat): nat { CountFree(fat, CLUSTER_LIMIT) }

  lemma {:induction false} CountFreeUpdate(fat: Fat, c: nat, v: u16, n: nat)
    requires DataCluster(c) && n <= CLUSTER_LIMIT
    ensures CountFree(fat[c := v], n) ==
            CountFree(fat, n) + if c < n then (if v == 0 then 1 else 0) - (if fat[c] == 0 then 1 else 0) else 0
  {
    if n > FIRST_CLUSTER { CountFreeUpdate(fat, c, v, n - 1); }
  }

  lemma {:induction n} CountFreeBound(fat: Fat, n: nat)
    requires FIRST_CLUSTER <= n <= CLUSTER_LIMIT
    ensures CountFree(fat, n) <= n - FIRST_CLUSTER
    ensures CountFree(fat, n) == n - FIRST_CLUSTER <==> forall c | FIRST_CLUSTER <= c < n :: fat[c] == CLUSTER_FREE
    ensures CountFree(fat, n) == 0 <==> forall c | FIRST_CLUSTER <= c < n :: fat[c] != CLUSTER_FREE
  {
  }

  /** What the loop of `fat_free_chain` does to the table when it starts at cluster `c`. */
  function FreeFrom(fat: Fat, c: nat): Fat
    requires LinksInRange(fat) && LinkOk(c)
    decreases CLUSTER_LIMIT - FreeCount(fat), if Followable(c) then 1 else 0
  {
    if Followable(c) then
      CountFreeUpdate(fat, c, CLUSTER_FREE, CLUSTER_LIMIT);
      CountFreeBound(fat, CLUSTER_LIMIT);
      FreeFrom(fat[c := CLUSTER_FREE], fat[c])
    else fat
  }

  /** The cluster reached after `n` links, 0 once the walk has stopped. */
  function Nth(fat: Fat, c: nat, n: nat): nat
    decreases n
  {
    if n == 0 then c
    else if DataCluster(c) then Nth(fat, fat[c], n - 1)
    else 0
  }

  ghost predicate Reaches(fat: Fat, first: nat, c: nat) {
    DataCluster(c) && exists n: nat :: Nth(fat, first, n) == c
  }

  lemma {:induction n} NthOfZero(fat: Fat, n: nat)
    ensures Nth(fat, 0, n) == 0
  {
  }

  lemma {:induction false} NthSplit(fat: Fat, c: nat, m: nat, n: nat)
    ensures Nth(fat, c, m + n) == Nth(fat, Nth(fat, c, m), n)
    decreases m
  {
    if m > 0 {
      if DataCluster(c) {
        NthSplit(fat, fat[c], m - 1, n);
      } else {
        NthOfZero(fat, n);
        NthOfZero(fat, m - 1);
      }
    }
  }

  /** Clearing a cell does not matter to a walk that has not passed it ... */
  lemma {:induction false} NthAvoiding(fat: Fat, f: nat, c: nat, n: nat)
    requires DataCluster(f)
    requires forall m: nat | m < n :: Nth(fat, c, m) != f
    ensures Nth(fat[f := 0], c, n) == Nth(fat, c, n)
    decreases n
  {
    if n > 0 && DataCluster(c) {
      assert Nth(fat, c, 0) == c;
      forall m: nat | m < n - 1
        ensures Nth(fat, fat[c], m) != f
      {
        assert Nth(fat, c, m + 1) != f;
      }
      NthAvoiding(fat, f, fat[c], n - 1);
    }
  }

  /** ... and a walk in the cleared table that gets anywhere has not passed it. */
  lemma {:induction false} NthCleared(fat: Fat, f: nat, c: nat, n: nat)
    requires DataCluster(f) && DataCluster(Nth(fat[f := 0], c, n))
    ensures Nth(fat[f := 0], c, n) == Nth(fat, c, n)
    decreases n
  {
    if n > 0 {
      NthOfZero(fat[f := 0], n - 1);
      NthCleared(fat, f, fat[f := 0][c], n - 1);
    }
  }

  lemma ReachesStep(fat: Fat, first: nat, c: nat)
    requires DataCluster(first)
    ensures Reaches(fat, first, c) <==> c == first || Reaches(fat[first := 0], fat[first], c)
  {
    var cleared := fat[first := 0];
    if Reaches(cleared, fat[first], c) {
      var n: nat :| Nth(cleared, fat[first], n) == c;
      NthCleared(fat, first, fat[first], n);
      assert Nth(fat, first, n + 1) == c;
    }
    if c == first {
      assert Nth(fat, first, 0) == c;
    } else if Reaches(fat, first, c) {
      var n := ShortestWalk(fat, first, c);
      forall m: nat | m < n - 1
        ensures Nth(fat, fat[first], m) != first
      {
        if Nth(fat, first, m + 1) == first {
          NthSplit(fat, first, m + 1, n - m - 1);
          assert Nth(fat, first, n - m - 1) == c;
        }
      }
      NthAvoiding(fat, first, fat[first], n - 1);
      assert Nth(cleared, fat[first], n - 1) == c;
    }
  }

  lemma ShortestWalk(fat: Fat, first: nat, c: nat) returns (n: nat)
    requires Reaches(fat, first, c)
    ensures Nth(fat, first, n) == c
    ensures forall m | 0 <= m < n :: Nth(fat, first, m) != c
  {
    var k: nat :| Nth(fat, first, k) == c;
    n := 0;
    while Nth(fat, first, n) != c
      invariant n <= k
      decreases k - n
      invariant forall m | 0 <= m < n :: Nth(fat, first, m) != c
    {
      n := n + 1;
    }
  }

  /** On any table whose links stay in range, cyclic or shared chains included, `fat_free_chain`
      stops, clears exactly the clusters that can be reached from its start, and keeps the rest. */
  lemma {:induction false} FreeFromClearsReachable(fat: Fat, first: nat)
    requires LinksInRange(fat) && LinkOk(first)
    ensures forall c | 0 <= c < |fat| ::
              FreeFrom(fat, first)[c] == if Reaches(fat, first, c) then CLUSTER_FREE else fat[c]
    decreases CLUSTER_LIMIT - FreeCount(fat), if Followable(first) then 1 else 0
  {
    if Followable(first) {
      CountFreeUpdate(fat, first, CLUSTER_FREE, CLUSTER_LIMIT);
      CountFreeBound(fat, CLUSTER_LIMIT);
      FreeFromClearsReachable(fat[first := CLUSTER_FREE], fat[first]);
      forall c | 0 <= c < |fat|
        ensures Reaches(fat, first, c) <==> c == first || Reaches(fat[first := 0], fat[first], c)
      {
        ReachesStep(fat, first, c);
      }
    } else {
      forall n: nat, c | Nth(fat, first, n) == c
        ensures !DataCluster(c)
      {
        if n > 0 { assert Nth(fat, first, n) == 0; }
      }
    }
  }

  // ---------- a table that holds disjoint chains ----------

  datatype Place = Place(head: nat, at: nat)

  /** `ch` maps the first cluster of every chain to the whole chain; `place` says where on which
      chain a cluster in use lies. */
  datatype Chains = Chains(ch: map<nat, seq<nat>>, place: map<nat, Place>) {

    function Started(c: nat): Chains {
      Chains(ch[c := [c]], place[c := Place(c, 0)])
    }

    /** The one-cluster chain `c` moved to the end of chain `h`. */
    function Linked(h: nat, c: nat): Chains
      requires h in ch
    {
      Chains((ch - {c})[h := ch[h] + [c]], place[c := Place(h, |ch[h]|)])
    }

    function Freed(h: nat): Chains
      requires h in ch
    {
      Chains(ch - {h}, map c | c in place && place[c].head != h :: place[c])
    }
  }

  function LinkAfter(s: seq<nat>, i: nat): nat
    requires i < |s|
  {
    if i + 1 < |s| then s[i + 1] else CLUSTER_EOC
  }

  predicate LinkedAt(fat: Fat, s: seq<nat>, i: nat)
    requires i < |s| && DataCluster(s[i])
  {
    fat[s[i]] == LinkAfter(s, i)
  }

  /** Every cluster with a place lies on exactly one chain, at exactly one position. */
  ghost predicate Placed(x: Chains) {
    && (forall h {:trigger h in x.ch} | h in x.ch :: |x.ch[h]| > 0 && x.ch[h][0] == h)
    && (forall h, i {:trigger x.ch[h][i]} | h in x.ch && 0 <= i < |x.ch[h]| ::
          x.ch[h][i] in x.place && x.place[x.ch[h][i]] == Place(h, i) && DataCluster(x.ch[h][i]))
    && (forall c {:trigger x.place[c]} | c in x.place ::
          && x.place[c].head in x.ch
          && x.place[c].at < |x.ch[x.place[c].head]|
          && x.ch[x.place[c].head][x.place[c].at] == c)
  }

  /** The table holds the chains: each cluster links to the next one, the last is marked. */
  ghost predicate Links(fat: Fat, x: Chains)
    requires Placed(x)
  {
    forall h, i {:trigger LinkedAt(fat, x.ch[h], i)} | h in x.ch && 0 <= i < |x.ch[h]| :: LinkedAt(fat, x.ch[h], i)
  }

  /** The clusters in use are those that have a place. */
  ghost predicate Uses(fat: Fat, x: Chains) {
    forall c | DataCluster(c) :: fat[c] != CLUSTER_FREE <==> c in x.place
  }

  /** The non-free clusters of the table are partitioned into the chains of `x`. */
  ghost predicate Inv(fat: Fat, x: Chains) {
    Placed(x) && Links(fat, x) && Uses(fat, x)
  }

  lemma InvLinksInRange(fat: Fat, x: Chains)
    requires Inv(fat, x)
    ensures LinksInRange(fat)
    ensures forall h | h in x.ch :: DataCluster(h)
  {
    forall c | DataCluster(c)
      ensures LinkOk(fat[c])
    {
      if c in x.place {
        var p := x.place[c];
        assert LinkedAt(fat, x.ch[p.head], p.at);
      }
    }
    forall h | h in x.ch
      ensures DataCluster(h)
    {
      assert DataCluster(x.ch[h][0]);
    }
  }

  lemma PlaceOf(x: Chains, h: nat, i: nat)
    requires Placed(x) && h in x.ch && i < |x.ch[h]|
    ensures x.ch[h][i] in x.place && x.place[x.ch[h][i]] == Place(h, i) && DataCluster(x.ch[h][i])
  {
  }

  lemma PlacedStarted(x: Chains, c: nat)
    requires Placed(x) && DataCluster(c) && c !in x.place
    ensures c !in x.ch && Placed(x.Started(c))
  {
    forall h | h in x.ch
      ensures h in x.place
    {
      assert x.ch[h][0] == h;
    }
  }

  lemma LinksStarted(fat: Fat, x: Chains, c: nat)
    requires Placed(x) && Links(fat, x) && DataCluster(c) && c !in x.place
    requires Placed(x.Started(c))
    ensures Links(fat[c := CLUSTER_EOC], x.Started(c))
  {
    hide Placed;
    var y := x.Started(c);
    forall h, i {:trigger LinkedAt(fat[c := CLUSTER_EOC], y.ch[h], i)} | h in y.ch && 0 <= i < |y.ch[h]|
      ensures DataCluster(y.ch[h][i]) && LinkedAt(fat[c := CLUSTER_EOC], y.ch[h], i)
    {
      PlaceOf(y, h, i);
      if h != c {
        PlaceOf(x, h, i);
        assert LinkedAt(fat, x.ch[h], i);
      }
    }
  }

  lemma InvStarted(fat: Fat, x: Chains, c: nat)
    requires Inv(fat, x) && DataCluster(c) && fat[c] == CLUSTER_FREE
    ensures c !in x.ch
    ensures Inv(fat[c := CLUSTER_EOC], x.Started(c))
    ensures FreeCount(fat[c := CLUSTER_EOC]) == FreeCount(fat) - 1
  {
    CountFreeUpdate(fat, c, CLUSTER_EOC, CLUSTER_LIMIT);
    PlacedStarted(x, c);
    LinksStarted(fat, x, c);
    hide Placed, Links, CountFree;
  }

  lemma PlacedLinked(x: Chains, h: nat, c: nat)
    requires Placed(x) && h in x.ch && c in x.ch && h != c && |x.ch[c]| == 1
    ensures Placed(x.Linked(h, c))
  {
    var y := x.Linked(h, c);
    assert x.ch[c][0] == c && x.place[c] == Place(c, 0);
    forall k, i | k in y.ch && 0 <= i < |y.ch[k]|
      ensures y.ch[k][i] in y.place && y.place[y.ch[k][i]] == Place(k, i) && DataCluster(y.ch[k][i])
    {
      if k != h || i < |x.ch[h]| { PlaceOf(x, k, i); }
    }
    forall k | k in y.place
      ensures y.place[k].head in y.ch && y.place[k].at < |y.ch[y.place[k].head]| && y.ch[y.place[k].head][y.place[k].at] == k
    {
      if k != c { assert x.place[k].head in x.ch && x.place[k].head != c; }
    }
  }

  lemma LinksLinked(fat: Fat, x: Chains, h: nat, c: nat, last: nat)
    requires Placed(x) && Links(fat, x) && h in x.ch && c in x.ch && h != c && x.ch[c] == [c]
    requires last == x.ch[h][|x.ch[h]| - 1] && last < CLUSTER_LIMIT && DataCluster(c)
    requires Placed(x.Linked(h, c))
    ensures Links(fat[last := c], x.Linked(h, c))
  {
    var n := |x.ch[h]|;
    var y := x.Linked(h, c);
    PlaceOf(x, h, n - 1);
    PlaceOf(x, c, 0);
    assert LinkedAt(fat, x.ch[c], 0);
    hide Placed;
    forall k, i {:trigger LinkedAt(fat[last := c], y.ch[k], i)} | k in y.ch && 0 <= i < |y.ch[k]|
      ensures DataCluster(y.ch[k][i]) && LinkedAt(fat[last := c], y.ch[k], i)
    {
      PlaceOf(y, k, i);
      if k != h || i < n {
        PlaceOf(x, k, i);
        assert LinkedAt(fat, x.ch[k], i);
      }
    }
  }

  lemma InvLinked(fat: Fat, x: Chains, h: nat, c: nat)
    requires Inv(fat, x) && h in x.ch && c in x.ch && h != c && |x.ch[c]| == 1
    ensures DataCluster(c) && DataCluster(x.ch[h][|x.ch[h]| - 1])
    ensures Inv(fat[x.ch[h][|x.ch[h]| - 1] := c], x.Linked(h, c))
    ensures FreeCount(fat[x.ch[h][|x.ch[h]| - 1] := c]) == FreeCount(fat)
  {
    var last := x.ch[h][|x.ch[h]| - 1];
    PlaceOf(x, h, |x.ch[h]| - 1);
    PlaceOf(x, c, 0);
    assert x.ch[c] == [c];
    PlacedLinked(x, h, c);
    LinksLinked(fat, x, h, c, last);
    CountFreeUpdate(fat, last, c, CLUSTER_LIMIT);
    hide Placed, Links, CountFree;
  }

  /** A walk along distinct clusters that ends in the end-of-chain mark. */
  ghost predicate IsPath(fat: Fat, s: seq<nat>) {
    && (forall i | 0 <= i < |s| :: DataCluster(s[i]) && fat[s[i]] == LinkAfter(s, i))
    && (forall i, j | 0 <= i < j < |s| :: s[i] != s[j])
  }

  /** Clearing the first cluster of a path leaves the path behind it. */
  lemma PathTail(fat: Fat, s: seq<nat>)
    requires LinksInRange(fat) && IsPath(fat, s) && |s| > 1
    ensures DataCluster(s[0]) && fat[s[0]] == s[1] && s[0] !in s[1..]
    ensures LinksInRange(fat[s[0] := CLUSTER_FREE]) && IsPath(fat[s[0] := CLUSTER_FREE], s[1..])
  {
    var t := s[1..];
    assert fat[s[0]] == LinkAfter(s, 0);
    forall i | 0 <= i < |t|
      ensures DataCluster(t[i]) && fat[s[0] := CLUSTER_FREE][t[i]] == LinkAfter(t, i)
    {
      assert fat[s[i + 1]] == LinkAfter(s, i + 1);
    }
  }

  lemma {:induction false} FreeFromPath(fat: Fat, s: seq<nat>)
    requires LinksInRange(fat) && IsPath(fat, s) && |s| > 0
    ensures FreeCount(FreeFrom(fat, s[0])) == FreeCount(fat) + |s|
    ensures forall c | 0 <= c < |fat| :: FreeFrom(fat, s[0])[c] == if c in s then CLUSTER_FREE else fat[c]
    decreases |s|
  {
    assert fat[s[0]] == LinkAfter(s, 0);
    CountFreeUpdate(fat, s[0], CLUSTER_FREE, CLUSTER_LIMIT);
    if |s| > 1 {
      PathTail(fat, s);
      hide IsPath, CountFree;
      assert s == [s[0]] + s[1..];
      FreeFromPath(fat[s[0] := CLUSTER_FREE], s[1..]);
    }
  }

  lemma PlacedFreed(x: Chains, h: nat)
    requires Placed(x) && h in x.ch
    ensures Placed(x.Freed(h))
    ensures forall c :: c in x.ch[h] <==> c in x.place && x.place[c].head == h
  {
    forall c | c in x.ch[h]
      ensures c in x.place && x.place[c].head == h
    {
      var i :| 0 <= i < |x.ch[h]| && x.ch[h][i] == c;
      assert x.place[x.ch[h][i]] == Place(h, i);
    }
  }

  lemma ChainIsPath(fat: Fat, x: Chains, h: nat)
    requires Inv(fat, x) && h in x.ch
    ensures IsPath(fat, x.ch[h])
  {
    var s := x.ch[h];
    forall i | 0 <= i < |s|
      ensures DataCluster(s[i]) && fat[s[i]] == LinkAfter(s, i)
    {
      assert LinkedAt(fat, s, i);
    }
    forall i, j | 0 <= i < j < |s|
      ensures s[i] != s[j]
    {
      assert x.place[s[i]] == Place(h, i) && x.place[s[j]] == Place(h, j);
    }
  }

  lemma LinksFreed(fat: Fat, x: Chains, h: nat, freed: Fat)
    requires Placed(x) && Links(fat, x) && h in x.ch && Placed(x.Freed(h))
    requires forall c | DataCluster(c) && c !in x.ch[h] :: freed[c] == fat[c]
    requires forall c :: c in x.ch[h] <==> c in x.place && x.place[c].head == h
    ensures Links(freed, x.Freed(h))
  {
    hide Placed;
    forall k, i {:trigger LinkedAt(freed, x.ch[k], i)} | k in x.Freed(h).ch && 0 <= i < |x.ch[k]|
      ensures DataCluster(x.ch[k][i]) && LinkedAt(freed, x.ch[k], i)
    {
      PlaceOf(x, k, i);
      assert LinkedAt(fat, x.ch[k], i);
    }
  }

  lemma InvFreed(fat: Fat, x: Chains, h: nat)
    requires Inv(fat, x) && h in x.ch
    ensures LinksInRange(fat) && LinkOk(h)
    ensures Inv(FreeFrom(fat, h), x.Freed(h))
    ensures FreeCount(FreeFrom(fat, h)) == FreeCount(fat) + |x.ch[h]|
  {
    InvLinksInRange(fat, x);
    ChainIsPath(fat, x, h);
    assert |x.ch[h]| > 0 && x.ch[h][0] == h;
    FreeFromPath(fat, x.ch[h]);
    PlacedFreed(x, h);
    hide Placed, FreeFrom, CountFree;
    LinksFreed(fat, x, h, FreeFrom(fat, h));
    hide Links;
  }

  // ---------- space ----------

  /** Total length of the sequences stored under keys below `n`. */
  function SumLengths<T>(m: map<nat, seq<T>>, n: nat): nat {
    if n == 0 then 0
    else SumLengths(m, n - 1) + if n - 1 in m then |m[n - 1]| else 0
  }

  function TotalLength<T>(m: map<nat, seq<T>>): nat { SumLengths(m, CLUSTER_LIMIT) }

  lemma {:induction false} SumLengthsWithout<T>(m: map<nat, seq<T>>, k: nat, n: nat)
    requires k in m
    ensures SumLengths(m, n) == SumLengths(m - {k}, n) + if k < n then |m[k]| else 0
  {
    if n > 0 { SumLengthsWithout(m, k, n - 1); }
  }

  lemma TotalLengthWithout<T>(m: map<nat, seq<T>>, k: nat)
    requires k in m && k < CLUSTER_LIMIT
    ensures TotalLength(m) == TotalLength(m - {k}) + |m[k]|
  {
    SumLengthsWithout(m, k, CLUSTER_LIMIT);
  }

  /** No chain, and no chain with all free clusters added, is longer than the data area. */
  lemma ChainFits(fat: Fat, x: Chains, h: nat)
    requires Inv(fat, x) && h in x.ch
    ensures |x.ch[h]| + FreeCount(fat) <= DATA_CLUSTERS
  {
    InvLinksInRange(fat, x);
    SpaceIsConserved(fat, x);
    TotalLengthWithout(x.ch, h);
  }

  lemma FreedIsSmaller(x: Chains, h: nat)
    requires h in x.ch
    ensures x.Freed(h).ch == x.ch - {h} && |x.Freed(h).ch| < |x.ch|
  {
    assert x.Freed(h).ch.Keys == x.ch.Keys - {h};
  }

  lemma {:induction n} SumLengthsEmpty<T>(m: map<nat, seq<T>>, n: nat)
    requires m == map[]
    ensures SumLengths(m, n) == 0
  {
  }

  /** Free clusters and clusters on chains make up the whole data area. */
  lemma {:induction false} SpaceIsConserved(fat: Fat, x: Chains)
    requires Inv(fat, x)
    ensures FreeCount(fat) + TotalLength(x.ch) == DATA_CLUSTERS
    decreases |x.ch|
  {
    InvLinksInRange(fat, x);
    if x.ch == map[] {
      CountFreeBound(fat, CLUSTER_LIMIT);
      SumLengthsEmpty(x.ch, CLUSTER_LIMIT);
    } else {
      hide *;
      var h :| h in x.ch;
      InvFreed(fat, x, h);
      FreedIsSmaller(x, h);
      SpaceIsConserved(FreeFrom(fat, h), x.Freed(h));
      TotalLengthWithout(x.ch, h);
    }
  }

  // ---------- what the chains store ----------

  type DataArea = s: seq<Sector> | |s| == 15949 witness seq<Sector>(15949, i => ZERO_SECTOR)

  function ClusterAt(clusters: DataArea, c: nat): Sector
    requires DataCluster(c)
  {
    clusters[c - FIRST_CLUSTER]
  }

  function WithCluster(clusters: DataArea, c: nat, s: Sector): DataArea
    requires DataCluster(c)
  {
    clusters[c - FIRST_CLUSTER := s]
  }

  type Store = map<nat, seq<Sector>>

  /** `store` holds, for every chain, the sectors of its clusters in chain order. */
  ghost predicate Stores(clusters: DataArea, x: Chains, store: Store)
    requires Placed(x)
  {
    && store.Keys == x.ch.Keys
    && (forall h | h in x.ch :: |store[h]| == |x.ch[h]|)
    && (forall h, i {:trigger store[h][i]} {:trigger x.ch[h][i]} | h in x.ch && 0 <= i < |x.ch[h]| ::
          store[h][i] == ClusterAt(clusters, x.ch[h][i]))
  }

  function WithSector(ss: seq<Sector>, i: nat, s: Sector): seq<Sector>
    requires i < |ss|
  {
    ss[i := s]
  }

  lemma StoresStarted(clusters: DataArea, x: Chains, store: Store, c: nat)
    requires Placed(x) && Stores(clusters, x, store) && DataCluster(c) && c !in x.ch && Placed(x.Started(c))
    ensures Stores(clusters, x.Started(c), store[c := [ClusterAt(clusters, c)]])
  {
  }

  /** Writing one cluster changes one sector of one chain. */
  lemma StoresWritten(clusters: DataArea, x: Chains, store: Store, h: nat, i: nat, s: Sector)
    requires Placed(x) && Stores(clusters, x, store)
    requires h in x.ch && i < |x.ch[h]|
    ensures DataCluster(x.ch[h][i])
    ensures Stores(WithCluster(clusters, x.ch[h][i], s), x, store[h := WithSector(store[h], i, s)])
  {
    PlaceOf(x, h, i);
    forall k, j | k in x.ch && 0 <= j < |x.ch[k]|
      ensures x.ch[k][j] == x.ch[h][i] <==> k == h && j == i
    {
      PlaceOf(x, k, j);
    }
  }

  lemma StoresLinked(clusters: DataArea, x: Chains, store: Store, h: nat, c: nat)
    requires Placed(x) && Stores(clusters, x, store)
    requires h in x.ch && c in x.ch && h != c && x.ch[c] == [c] && Placed(x.Linked(h, c))
    ensures Stores(clusters, x.Linked(h, c), (store - {c})[h := store[h] + store[c]])
  {
    hide Placed;
    var y := x.Linked(h, c);
    var linked := (store - {c})[h := store[h] + store[c]];
    forall k, i | k in y.ch && 0 <= i < |y.ch[k]|
      ensures DataCluster(y.ch[k][i]) && linked[k][i] == ClusterAt(clusters, y.ch[k][i])
    {
      PlaceOf(y, k, i);
      if k != h || i < |x.ch[h]| {
        assert store[k][i] == ClusterAt(clusters, x.ch[k][i]);
      } else {
        assert store[c][0] == ClusterAt(clusters, x.ch[c][0]);
      }
    }
  }

  lemma StoresFreed(clusters: DataArea, x: Chains, store: Store, h: nat)
    requires Placed(x) && Stores(clusters, x, store) && h in x.ch && Placed(x.Freed(h))
    ensures Stores(clusters, x.Freed(h), store - {h})
  {
  }
}
