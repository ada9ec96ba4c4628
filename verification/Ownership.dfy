/** Nothing on a sound volume is leaked, shared or dangling, cluster by cluster. */
module Ownership {
  import opened Layout
  import opened Codec
  import opened Chains
  import opened Volumes
  import opened Images
  import opened Mounts
  import opened Directories
  import opened Keeping

  /** Cluster `c` is the `i`th of the chain that the entry in slot `k` of directory `d` owns. */
  ghost predicate OwnedAt(img: Image, ch: ChainMap, c: nat, d: nat, k: nat, i: nat) {
    && UserSlot(img, d, k) && img.dirs[d][k].first as nat in ch
    && i < |ch[img.dirs[d][k].first]| && ch[img.dirs[d][k].first][i] == c
  }

  /** On a sound volume every data cluster that is not free lies at exactly one place of exactly one
      live entry's chain, and a free one lies on none. */
  lemma ClusterHasOneOwner(dirs: DirStore, c: nat)
    requires dirs.Valid() && Sound(dirs.img) && dirs.vol.Sized() && DataCluster(c)
    ensures dirs.vol.View().fat[c] != CLUSTER_FREE <==>
            exists d: nat, k: nat, i: nat :: OwnedAt(dirs.img, dirs.vol.x.ch, c, d, k, i)
    ensures forall d: nat, k: nat, i: nat, d2: nat, k2: nat, i2: nat ::
              OwnedAt(dirs.img, dirs.vol.x.ch, c, d, k, i) && OwnedAt(dirs.img, dirs.vol.x.ch, c, d2, k2, i2)
              ==> d == d2 && k == k2 && i == i2
  {
    hide Wf, ViewOf, Mirrored, Holds, Mounted;
    var own: map<nat, Loc>, depth: map<nat, nat> :| Wf(dirs.img, own, depth);
    ChainsFacts(dirs, c);
    var x := dirs.vol.x;
    forall d: nat, k: nat, i: nat | OwnedAt(dirs.img, x.ch, c, d, k, i)
      ensures c in x.place && x.place[c] == Place(dirs.img.dirs[d][k].first, i)
      ensures dirs.img.dirs[d][k].first as nat in own && own[dirs.img.dirs[d][k].first] == Loc(d, k)
    {
      PlaceOf(x, dirs.img.dirs[d][k].first, i);
      assert DataCluster(x.ch[dirs.img.dirs[d][k].first][0]);
      OneOwner(dirs.img, own, depth, d, k, dirs.img.dirs[d][k].first);
    }
    if dirs.vol.View().fat[c] != CLUSTER_FREE {
      var p := x.place[c];
      HeadOwner(dirs, own, depth, p.head);
      assert OwnedAt(dirs.img, x.ch, c, own[p.head].dir, own[p.head].slot, p.at);
    }
  }

  lemma ChainsFacts(dirs: DirStore, c: nat)
    requires dirs.Valid() && dirs.vol.Sized() && DataCluster(c)
    ensures Placed(dirs.vol.x)
    ensures dirs.vol.View().fat[c] != CLUSTER_FREE <==> c in dirs.vol.x.place
    ensures dirs.vol.x.ch.Keys == dirs.vol.store.Keys
    ensures forall h | h in dirs.vol.x.ch :: h != 0
  {
    hide ViewOf, Mirrored, Mounted;
    HoldsFacts(dirs.vol.View(), dirs.vol.x, dirs.vol.store);
  }

  lemma HeadOwner(dirs: DirStore, own: map<nat, Loc>, depth: map<nat, nat>, h: nat)
    requires dirs.Valid() && Wf(dirs.img, own, depth) && h in dirs.vol.store
    ensures h in own && UserSlot(dirs.img, own[h].dir, own[h].slot) && dirs.img.dirs[own[h].dir][own[h].slot].first == h
  {
    hide Shape, DotsOk, EntriesOk, DepthOk, NamesUnique, Holds, ViewOf, Mirrored;
    OwnerSlot(dirs.img, own, h);
  }
}
