/**
 * Value-level specifications for `_Colouring` (Colouring.py): partitions of the grid's
 * segments into groups, the greedy first-fit colouring of `groups_colouring`, and the scan
 * order of `merge_colour_groups_with_smallest_intersection`.
 */
module ColouringSpec {
  import opened Segments
  import opened Groups

  /** The 10000000 start value of the smallest-intersection scan. */
  const Sentinel: int := 10000000

  predicate Distinct<T(==)>(s: seq<T>) {
    forall k, l :: 0 <= k < l < |s| ==> s[k] != s[l]
  }

  /*
   * Partitions.
   */

  /** Every segment of some part of `m`. */
  ghost function Union(m: map<Group, set<Segment>>): set<Segment> {
    set g, x | g in m && x in m[g] :: x
  }

  /** The part of `g` holds some segment. */
  ghost predicate KeyFilled(m: map<Group, set<Segment>>, g: Group)
    requires g in m
  {
    m[g] != {}
  }

  /** The parts of `g` and `h` share no segment. */
  ghost predicate KeysApart(m: map<Group, set<Segment>>, g: Group, h: Group)
    requires g in m && h in m
  {
    m[g] !! m[h]
  }

  /** The parts, keyed by their group object, are non-empty, disjoint, and together are `all`. */
  ghost predicate PartitionSets(m: map<Group, set<Segment>>, all: set<Segment>) {
    && (forall g :: g in m ==> KeyFilled(m, g))
    && (forall g, h :: g in m && h in m && g != h ==> KeysApart(m, g, h))
    && Union(m) == all
  }

  /** Merging part `h` into part `g` (one `add_group`) leaves a partition of the same set. */
  lemma PartitionMerge(m: map<Group, set<Segment>>, all: set<Segment>, g: Group, h: Group)
    requires PartitionSets(m, all) && g in m && h in m && g != h
    ensures PartitionSets(m[g := m[g] + m[h]] - {h}, all)
  {
    var m' := m[g := m[g] + m[h]] - {h};
    forall p | p in m' ensures KeyFilled(m', p) {
      assert KeyFilled(m, p);
    }
    forall p, q | p in m' && q in m' && p != q ensures KeysApart(m', p, q) {
      assert KeysApart(m, p, q);
      if p == g {
        assert KeysApart(m, h, q);
      } else if q == g {
        assert KeysApart(m, p, h);
      }
    }
    forall x | x in Union(m) ensures x in Union(m') {
      var p: Group :| p in m && x in m[p];
      if p == h || p == g {
        assert x in m'[g];
      } else {
        assert x in m'[p];
      }
    }
    forall x | x in Union(m') ensures x in Union(m) {
      var p: Group :| p in m' && x in m'[p];
      if p == g && x in m[h] {
        assert x in m[h];
      } else {
        assert x in m[p];
      }
    }
  }

  /** Every segment of some group of the list. */
  ghost function UnionOf(gs: seq<Group>): set<Segment>
    reads gs
  {
    set k, x | 0 <= k < |gs| && x in gs[k].segments :: x
  }

  /** The list `gs` of groups splits `all`: each group is well formed, they are disjoint and together are `all`. */
  ghost predicate GroupPartition(gs: seq<Group>, all: set<Segment>)
    reads gs
  {
    && (forall k :: 0 <= k < |gs| ==> gs[k].WellFormed())
    && (forall k, l :: 0 <= k < l < |gs| ==> GroupsApart(gs, k, l))
    && UnionOf(gs) == all
  }

  /** Groups `k` and `l` of the list share no segment. */
  ghost predicate GroupsApart(gs: seq<Group>, k: int, l: int)
    reads gs
    requires 0 <= k < |gs| && 0 <= l < |gs|
  {
    gs[k].segments !! gs[l].segments
  }

  /** The groups of a partition are different objects (their segment sets are disjoint and non-empty). */
  lemma GroupPartitionDistinct(gs: seq<Group>, all: set<Segment>)
    requires GroupPartition(gs, all)
    ensures Distinct(gs)
  {
    forall k, l | 0 <= k < l < |gs| ensures gs[k] != gs[l] {
      assert gs[k].WellFormed();
      assert gs[k].borderSegments != {};
      var b :| b in gs[k].borderSegments;
      assert b in gs[k].segments;
      assert GroupsApart(gs, k, l);
    }
  }

  /** A list of distinct groups whose contents are the parts of a keyed partition is a partition. */
  lemma BridgePartition(gs: seq<Group>, m: map<Group, set<Segment>>, all: set<Segment>)
    requires Distinct(gs)
    requires forall k :: 0 <= k < |gs| ==> gs[k] in m && gs[k].segments == m[gs[k]] && gs[k].WellFormed()
    requires forall g :: g in m ==> g in gs
    requires PartitionSets(m, all)
    ensures GroupPartition(gs, all)
  {
    forall k, l | 0 <= k < l < |gs| ensures GroupsApart(gs, k, l) {
      assert KeysApart(m, gs[k], gs[l]);
    }
    forall x | x in Union(m) ensures x in UnionOf(gs) {
      var g: Group :| g in m && x in m[g];
      assert g in gs;
      var k :| 0 <= k < |gs| && gs[k] == g;
    }
    forall x | x in UnionOf(gs) ensures x in Union(m) {
      var k :| 0 <= k < |gs| && x in gs[k].segments;
      assert x in m[gs[k]];
    }
  }

  /*
   * The first-fit colouring of `groups_colouring`, on the groups' segment sets in list order.
   */

  /**
   * The colour buckets after some groups have been placed: `contents[k]` is the segments of
   * bucket `k`, `openers[k]` the position of the group that opened it (and that is the bucket
   * object), `assign[i]` the bucket group `i` went into.
   */
  datatype Buckets = Buckets(contents: seq<set<Segment>>, openers: seq<int>, assign: seq<int>)

  /** The first bucket from `k` on that shares no hexagon with `s`, or `|contents|` if none does. */
  ghost function FirstFree(contents: seq<set<Segment>>, s: set<Segment>, k: nat): (r: nat)
    requires k <= |contents|
    ensures k <= r <= |contents|
    ensures r < |contents| ==> Ids(contents[r]) !! Ids(s)
    ensures forall j :: k <= j < r ==> !(Ids(contents[j]) !! Ids(s))
    decreases |contents| - k
  {
    if k == |contents| then k
    else if Ids(contents[k]) !! Ids(s) then k
    else FirstFree(contents, s, k + 1)
  }

  /** Group `i` with segments `s` joins the first free bucket, or opens a new one at the end. */
  ghost function Place(b: Buckets, i: int, s: set<Segment>): Buckets {
    var k := FirstFree(b.contents, s, 0);
    if k < |b.contents| then Buckets(b.contents[k := b.contents[k] + s], b.openers, b.assign + [k])
    else Buckets(b.contents + [s], b.openers + [i], b.assign + [k])
  }

  /** The buckets after placing the groups `groups[0..]` one after the other. */
  ghost function FirstFit(groups: seq<set<Segment>>): Buckets
    decreases |groups|
  {
    if groups == [] then Buckets([], [], [])
    else Place(FirstFit(groups[..|groups| - 1]), |groups| - 1, groups[|groups| - 1])
  }

  /** The segments of the groups assigned to bucket `k`. */
  ghost function Members(groups: seq<set<Segment>>, assign: seq<int>, k: int): set<Segment>
    requires |assign| == |groups|
  {
    set i, x | 0 <= i < |groups| && assign[i] == k && x in groups[i] :: x
  }

  /**
   * The bookkeeping of `b` fits the groups: every group has one bucket, buckets are numbered
   * by their openers' order, and a bucket holds exactly the segments of the groups assigned to it.
   */
  ghost predicate Shaped(groups: seq<set<Segment>>, b: Buckets) {
    && |b.assign| == |groups|
    && |b.contents| == |b.openers| <= |groups|
    && (forall i :: 0 <= i < |groups| ==> 0 <= b.assign[i] < |b.contents|)
    && (forall k :: 0 <= k < |b.openers| ==> 0 <= b.openers[k] < |groups| && b.assign[b.openers[k]] == k)
    && (forall k, j :: 0 <= k < |b.openers| && 0 <= j < b.openers[k] ==> b.assign[j] < k)
    && (forall k :: 0 <= k < |b.contents| ==> b.contents[k] == Members(groups, b.assign, k))
  }

  /** No two groups in the same bucket share a hexagon. */
  ghost predicate Proper(groups: seq<set<Segment>>, b: Buckets)
    requires |b.assign| == |groups|
  {
    forall i, j :: 0 <= i < j < |groups| && b.assign[i] == b.assign[j] ==> Ids(groups[i]) !! Ids(groups[j])
  }

  /** Some group before `i` in bucket `k` shares a hexagon with group `i`. */
  ghost predicate Blocked(groups: seq<set<Segment>>, assign: seq<int>, i: int, k: int)
    requires |assign| == |groups| && 0 <= i < |groups|
  {
    exists j :: 0 <= j < i && assign[j] == k && !(Ids(groups[j]) !! Ids(groups[i]))
  }

  /** Each group skipped every earlier bucket because some group already in it shares a hexagon. */
  ghost predicate FirstFitting(groups: seq<set<Segment>>, b: Buckets)
    requires |b.assign| == |groups|
  {
    forall i, k :: 0 <= i < |groups| && 0 <= k < b.assign[i] ==> Blocked(groups, b.assign, i, k)
  }

  lemma IdsMono(a: set<Segment>, b: set<Segment>)
    requires a <= b
    ensures Ids(a) <= Ids(b)
  {
  }

  lemma MembersPlaced(groups: seq<set<Segment>>, assign: seq<int>, s: set<Segment>, k0: int, k: int)
    requires |assign| == |groups|
    ensures Members(groups + [s], assign + [k0], k) == Members(groups, assign, k) + (if k == k0 then s else {})
  {
    var all := groups + [s];
    var a := assign + [k0];
    var i := |groups|;
    forall x | x in Members(all, a, k) ensures x in Members(groups, assign, k) + (if k == k0 then s else {}) {
      var j :| 0 <= j < |all| && a[j] == k && x in all[j];
      if j < i {
        assert all[j] == groups[j];
      }
    }
    forall x | x in Members(groups, assign, k) ensures x in Members(all, a, k) {
      var j :| 0 <= j < |groups| && assign[j] == k && x in groups[j];
      assert all[j] == groups[j] && a[j] == k;
    }
    if k == k0 {
      forall x | x in s ensures x in Members(all, a, k) {
        assert all[i] == s && a[i] == k;
      }
    }
  }

  lemma MembersNone(groups: seq<set<Segment>>, assign: seq<int>, k: int)
    requires |assign| == |groups|
    requires forall i :: 0 <= i < |groups| ==> assign[i] != k
    ensures Members(groups, assign, k) == {}
  {
  }

  lemma MembersOfGroup(groups: seq<set<Segment>>, assign: seq<int>, i: int)
    requires |assign| == |groups| && 0 <= i < |groups|
    ensures groups[i] <= Members(groups, assign, assign[i])
  {
  }

  lemma PlaceShaped(groups: seq<set<Segment>>, b: Buckets, s: set<Segment>)
    requires Shaped(groups, b)
    ensures Shaped(groups + [s], Place(b, |groups|, s))
  {
    var all := groups + [s];
    var i := |groups|;
    var b' := Place(b, i, s);
    var k0 := FirstFree(b.contents, s, 0);
    forall k | 0 <= k < |b'.contents| ensures b'.contents[k] == Members(all, b'.assign, k) {
      MembersPlaced(groups, b.assign, s, k0, k);
      if k0 == |b.contents| && k == k0 {
        MembersNone(groups, b.assign, k);
      }
    }
  }

  lemma PlaceProper(groups: seq<set<Segment>>, b: Buckets, s: set<Segment>)
    requires Shaped(groups, b) && Proper(groups, b)
    ensures Shaped(groups + [s], Place(b, |groups|, s))
    ensures Proper(groups + [s], Place(b, |groups|, s))
  {
    PlaceShaped(groups, b, s);
    var all := groups + [s];
    var i := |groups|;
    var b' := Place(b, i, s);
    var k0 := FirstFree(b.contents, s, 0);
    forall j | 0 <= j < i && b'.assign[j] == b'.assign[i] ensures Ids(all[j]) !! Ids(all[i]) {
      MembersOfGroup(groups, b.assign, j);
      IdsMono(groups[j], b.contents[k0]);
      assert all[j] == groups[j];
    }
    forall j, l | 0 <= j < l < i && b'.assign[j] == b'.assign[l] ensures Ids(all[j]) !! Ids(all[l]) {
      assert all[j] == groups[j] && all[l] == groups[l];
    }
  }

  lemma PlaceFirstFitting(groups: seq<set<Segment>>, b: Buckets, s: set<Segment>)
    requires Shaped(groups, b) && FirstFitting(groups, b)
    ensures Shaped(groups + [s], Place(b, |groups|, s))
    ensures FirstFitting(groups + [s], Place(b, |groups|, s))
  {
    PlaceShaped(groups, b, s);
    var all := groups + [s];
    var i := |groups|;
    var b' := Place(b, i, s);
    forall k | 0 <= k < b'.assign[i] ensures Blocked(all, b'.assign, i, k) {
      var h :| h in Ids(b.contents[k]) && h in Ids(s);
      var x :| x in b.contents[k] && x.id == h;
      var j :| 0 <= j < |groups| && b.assign[j] == k && x in groups[j];
      assert all[j] == groups[j] && b'.assign[j] == k;
      assert h in Ids(all[j]);
    }
    forall l, k | 0 <= l < i && 0 <= k < b'.assign[l] ensures Blocked(all, b'.assign, l, k) {
      assert Blocked(groups, b.assign, l, k);
      var j :| 0 <= j < l && b.assign[j] == k && !(Ids(groups[j]) !! Ids(groups[l]));
      assert all[j] == groups[j] && all[l] == groups[l] && b'.assign[j] == k;
    }
  }

  /**
   * The first-fit buckets are a proper colouring built first-fit: every group is in one bucket,
   * groups sharing a bucket share no hexagon, each group went to the first bucket it could join,
   * a new bucket is opened (and numbered next) only when none could take it, and there are
   * never more buckets than groups.
   */
  lemma {:induction false} FirstFitCorrect(groups: seq<set<Segment>>)
    ensures Shaped(groups, FirstFit(groups))
    ensures Proper(groups, FirstFit(groups))
    ensures FirstFitting(groups, FirstFit(groups))
    decreases |groups|
  {
    if groups != [] {
      var init := groups[..|groups| - 1];
      assert groups == init + [groups[|groups| - 1]];
      FirstFitCorrect(init);
      PlaceProper(init, FirstFit(init), groups[|groups| - 1]);
      PlaceFirstFitting(init, FirstFit(init), groups[|groups| - 1]);
    }
  }

  /** Every segment of some part of the list. */
  ghost function SeqUnion(parts: seq<set<Segment>>): set<Segment> {
    set k, x | 0 <= k < |parts| && x in parts[k] :: x
  }

  /** Part `k` holds some segment. */
  ghost predicate PartFilled(parts: seq<set<Segment>>, k: int)
    requires 0 <= k < |parts|
  {
    parts[k] != {}
  }

  /** Parts `k` and `l` share no segment. */
  ghost predicate PartsApart(parts: seq<set<Segment>>, k: int, l: int)
    requires 0 <= k < |parts| && 0 <= l < |parts|
  {
    parts[k] !! parts[l]
  }

  /** The parts split `all` into disjoint non-empty sets. */
  ghost predicate SeqPartition(parts: seq<set<Segment>>, all: set<Segment>) {
    && (forall k :: 0 <= k < |parts| ==> PartFilled(parts, k))
    && (forall k, l :: 0 <= k < l < |parts| ==> PartsApart(parts, k, l))
    && SeqUnion(parts) == all
  }

  /** A new segment added to part `k` (`add_segment`) keeps a partition. */
  lemma SeqPartitionGrow(P: seq<set<Segment>>, done: set<Segment>, k: int, s: Segment)
    requires SeqPartition(P, done) && 0 <= k < |P| && s !in done
    ensures SeqPartition(P[k := P[k] + {s}], done + {s})
  {
    var P' := P[k := P[k] + {s}];
    forall i | 0 <= i < |P'| ensures PartFilled(P', i) {
      assert PartFilled(P, i);
    }
    forall i, j | 0 <= i < j < |P'| ensures PartsApart(P', i, j) {
      assert PartsApart(P, i, j);
      assert P[i] <= SeqUnion(P) && P[j] <= SeqUnion(P);
    }
    forall x | x in SeqUnion(P') ensures x in done + {s} {
      var i :| 0 <= i < |P'| && x in P'[i];
      if x != s {
        assert x in P[i];
      }
    }
    forall x | x in done + {s} ensures x in SeqUnion(P') {
      if x == s {
        assert x in P'[k];
      } else {
        var i :| 0 <= i < |P| && x in P[i];
        assert x in P'[i];
      }
    }
  }

  /** A new segment in a new part of its own (`_Group(id, segment)`) keeps a partition. */
  lemma SeqPartitionNew(P: seq<set<Segment>>, done: set<Segment>, s: Segment)
    requires SeqPartition(P, done) && s !in done
    ensures SeqPartition(P + [{s}], done + {s})
  {
    var P' := P + [{s}];
    forall i | 0 <= i < |P'| ensures PartFilled(P', i) {
      if i < |P| {
        assert PartFilled(P, i);
      } else {
        assert s in P'[i];
      }
    }
    forall i, j | 0 <= i < j < |P'| ensures PartsApart(P', i, j) {
      if j < |P| {
        assert P'[i] == P[i] && P'[j] == P[j];
        assert PartsApart(P, i, j);
      } else {
        assert P[i] <= SeqUnion(P);
      }
    }
    forall x | x in SeqUnion(P') ensures x in done + {s} {
      var i :| 0 <= i < |P'| && x in P'[i];
      if i < |P| {
        assert x in P[i];
      }
    }
    forall x | x in done + {s} ensures x in SeqUnion(P') {
      if x == s {
        assert x in P'[|P|];
      } else {
        var i :| 0 <= i < |P| && x in P[i];
        assert x in P'[i];
      }
    }
  }

  /** Groups holding, in order, the parts of a partition, each well formed, split the same set. */
  lemma SeqToGroupPartition(gs: seq<Group>, P: seq<set<Segment>>, all: set<Segment>)
    requires |gs| == |P| && SeqPartition(P, all)
    requires forall k :: 0 <= k < |gs| ==> gs[k].segments == P[k] && gs[k].WellFormed()
    ensures GroupPartition(gs, all)
  {
    forall k, l | 0 <= k < l < |gs| ensures GroupsApart(gs, k, l) {
      assert PartsApart(P, k, l);
    }
    forall x | x in SeqUnion(P) ensures x in UnionOf(gs) {
      var k :| 0 <= k < |P| && x in P[k];
      assert x in gs[k].segments;
    }
    forall x | x in UnionOf(gs) ensures x in SeqUnion(P) {
      var k :| 0 <= k < |gs| && x in gs[k].segments;
      assert x in P[k];
    }
  }

  /** A segment of group `i` lies in no group other than `i`. */
  lemma OnlyGroup(groups: seq<set<Segment>>, all: set<Segment>, i: int, x: Segment)
    requires SeqPartition(groups, all) && 0 <= i < |groups| && x in groups[i]
    ensures forall j :: 0 <= j < |groups| && j != i ==> x !in groups[j]
  {
    forall j | 0 <= j < |groups| && j != i ensures x !in groups[j] {
      if j < i {
        assert PartsApart(groups, j, i);
      } else {
        assert PartsApart(groups, i, j);
      }
    }
  }

  lemma BucketsDisjoint(groups: seq<set<Segment>>, all: set<Segment>, b: Buckets, k: int, l: int)
    requires SeqPartition(groups, all) && Shaped(groups, b)
    requires 0 <= k < |b.contents| && 0 <= l < |b.contents| && k != l
    ensures b.contents[k] !! b.contents[l]
  {
    forall x | x in b.contents[k] ensures x !in b.contents[l] {
      var i :| 0 <= i < |groups| && b.assign[i] == k && x in groups[i];
      OnlyGroup(groups, all, i, x);
      assert forall j :: 0 <= j < |groups| && b.assign[j] == l ==> x !in groups[j];
    }
  }

  /** If the groups partition the segments, so do the first-fit buckets. */
  lemma FirstFitPartition(groups: seq<set<Segment>>, all: set<Segment>)
    requires SeqPartition(groups, all)
    ensures SeqPartition(FirstFit(groups).contents, all)
  {
    var b := FirstFit(groups);
    FirstFitCorrect(groups);
    forall k | 0 <= k < |b.contents| ensures PartFilled(b.contents, k) {
      var o := b.openers[k];
      MembersOfGroup(groups, b.assign, o);
      assert PartFilled(groups, o);
      var x :| x in groups[o];
    }
    forall k, l | 0 <= k < l < |b.contents| ensures PartsApart(b.contents, k, l) {
      BucketsDisjoint(groups, all, b, k, l);
    }
    forall x | x in SeqUnion(b.contents) ensures x in SeqUnion(groups) {
      var k :| 0 <= k < |b.contents| && x in b.contents[k];
      var i :| 0 <= i < |groups| && b.assign[i] == k && x in groups[i];
    }
    forall x | x in SeqUnion(groups) ensures x in SeqUnion(b.contents) {
      var i :| 0 <= i < |groups| && x in groups[i];
      MembersOfGroup(groups, b.assign, i);
      assert x in b.contents[b.assign[i]];
    }
  }

  /** Two segments of one hexagon that share a first-fit bucket come from the same group. */
  lemma SameBucketSameGroup(groups: seq<set<Segment>>, k: int, x: Segment, y: Segment)
    requires 0 <= k < |FirstFit(groups).contents|
    requires x in FirstFit(groups).contents[k] && y in FirstFit(groups).contents[k]
    requires x.id == y.id
    ensures exists i :: 0 <= i < |groups| && x in groups[i] && y in groups[i]
  {
    var b := FirstFit(groups);
    FirstFitCorrect(groups);
    var i :| 0 <= i < |groups| && b.assign[i] == k && x in groups[i];
    var j :| 0 <= j < |groups| && b.assign[j] == k && y in groups[j];
    assert x.id in Ids(groups[i]) && y.id in Ids(groups[j]);
    assert i == j;
  }

  /*
   * Lists of groups and their segment sets.
   */

  /** The entries of a list, as a set. */
  function Elems<T>(s: seq<T>): set<T> {
    set x | x in s
  }

  /** A list without repetitions has as many entries as distinct elements. */
  lemma {:induction false} DistinctCard<T>(s: seq<T>)
    requires Distinct(s)
    ensures |Elems(s)| == |s|
  {
    if s != [] {
      var init := s[..|s| - 1];
      DistinctCard(init);
      assert Elems(s) == Elems(init) + {s[|s| - 1]};
      forall k | 0 <= k < |init| ensures init[k] != s[|s| - 1] {
        assert init[k] == s[k];
      }
    }
  }

  /** The segment sets of a list of groups, in list order. */
  ghost function Contents(gs: seq<Group>): (r: seq<set<Segment>>)
    reads gs
    ensures |r| == |gs|
    ensures forall k {:trigger r[k]} :: 0 <= k < |gs| ==> r[k] == gs[k].segments
  {
    if gs == [] then [] else Contents(gs[..|gs| - 1]) + [gs[|gs| - 1].segments]
  }

  /** The border sets of a list of groups, in list order. */
  ghost function Borders(gs: seq<Group>): (r: seq<set<Segment>>)
    reads gs
    ensures |r| == |gs|
    ensures forall k {:trigger r[k]} :: 0 <= k < |gs| ==> r[k] == gs[k].borderSegments
  {
    if gs == [] then [] else Borders(gs[..|gs| - 1]) + [gs[|gs| - 1].borderSegments]
  }

  /** The segment sets of a list of groups, keyed by group object. */
  ghost function MapOf(gs: seq<Group>): map<Group, set<Segment>>
    reads gs
  {
    map g | g in gs :: g.segments
  }

  lemma PartInUnion(m: map<Group, set<Segment>>, g: Group)
    requires g in m
    ensures m[g] <= Union(m)
  {
  }

  /** A list of groups splitting `all` is, keyed by object, a partition with one part per group. */
  lemma GroupPartitionMap(gs: seq<Group>, all: set<Segment>)
    requires GroupPartition(gs, all)
    ensures PartitionSets(MapOf(gs), all)
    ensures |MapOf(gs)| == |gs|
  {
    var m := MapOf(gs);
    GroupPartitionDistinct(gs, all);
    forall g | g in m ensures KeyFilled(m, g) {
      var k :| 0 <= k < |gs| && gs[k] == g;
      assert g.borderSegments != {};
      var b :| b in g.borderSegments;
      assert b in m[g];
    }
    forall g, h | g in m && h in m && g != h ensures KeysApart(m, g, h) {
      var k :| 0 <= k < |gs| && gs[k] == g;
      var l :| 0 <= l < |gs| && gs[l] == h;
      if k < l {
        assert GroupsApart(gs, k, l);
      } else {
        assert GroupsApart(gs, l, k);
      }
    }
    forall x | x in Union(m) ensures x in UnionOf(gs) {
      var g: Group :| g in m && x in m[g];
      var k :| 0 <= k < |gs| && gs[k] == g;
    }
    forall x | x in UnionOf(gs) ensures x in Union(m) {
      var k :| 0 <= k < |gs| && x in gs[k].segments;
      assert x in m[gs[k]];
    }
    assert m.Keys == Elems(gs);
    DistinctCard(gs);
  }

  /** A list of groups splitting `all` has segment sets that split `all`. */
  lemma GroupPartitionSeq(gs: seq<Group>, all: set<Segment>)
    requires GroupPartition(gs, all)
    ensures SeqPartition(Contents(gs), all)
  {
    var P := Contents(gs);
    forall k | 0 <= k < |P| ensures PartFilled(P, k) {
      assert gs[k].WellFormed();
      assert gs[k].borderSegments != {};
      var b :| b in gs[k].borderSegments;
    }
    forall k, l | 0 <= k < l < |P| ensures PartsApart(P, k, l) {
      assert GroupsApart(gs, k, l);
    }
    forall x | x in SeqUnion(P) ensures x in UnionOf(gs) {
      var k :| 0 <= k < |P| && x in P[k];
    }
    forall x | x in UnionOf(gs) ensures x in SeqUnion(P) {
      var k :| 0 <= k < |gs| && x in gs[k].segments;
      assert x in P[k];
    }
  }

  /*
   * Merging two colour groups and numbering the colours.
   */

  /** The list without its entry at `b` (Python's `list.remove` of that entry). */
  function RemoveAt<T>(s: seq<T>, b: int): (r: seq<T>)
    requires 0 <= b < |s|
    ensures |r| == |s| - 1
    ensures forall k :: 0 <= k < |r| ==> r[k] == if k < b then s[k] else s[k + 1]
  {
    s[..b] + s[b + 1..]
  }

  /** Part `b` is added to part `a` and then dropped from the list. */
  ghost function MergeParts(P: seq<set<Segment>>, a: int, b: int): seq<set<Segment>>
    requires 0 <= a < |P| && 0 <= b < |P| && a != b
  {
    RemoveAt(P[a := P[a] + P[b]], b)
  }

  lemma PartsDisjoint(P: seq<set<Segment>>, all: set<Segment>, i: int, j: int)
    requires SeqPartition(P, all) && 0 <= i < |P| && 0 <= j < |P| && i != j
    ensures P[i] !! P[j]
  {
    if j < i {
      assert PartsApart(P, j, i);
    } else {
      assert PartsApart(P, i, j);
    }
  }

  /**
   * Merging one colour group into another keeps a partition of the same segments, with one
   * part fewer: no segment is lost or duplicated by the reduction step.
   */
  lemma MergePartsPartition(P: seq<set<Segment>>, all: set<Segment>, a: int, b: int)
    requires SeqPartition(P, all)
    requires 0 <= a < |P| && 0 <= b < |P| && a != b
    ensures SeqPartition(MergeParts(P, a, b), all)
    ensures |MergeParts(P, a, b)| == |P| - 1
  {
    var Q := P[a := P[a] + P[b]];
    var R := MergeParts(P, a, b);
    forall k | 0 <= k < |R| ensures PartFilled(R, k) {
      var i := if k < b then k else k + 1;
      assert PartFilled(P, i);
      assert R[k] == Q[i];
      assert P[i] <= Q[i];
    }
    forall k, l | 0 <= k < l < |R| ensures PartsApart(R, k, l) {
      var i := if k < b then k else k + 1;
      var j := if l < b then l else l + 1;
      assert R[k] == Q[i] && R[l] == Q[j];
      if i == a {
        PartsDisjoint(P, all, a, j);
        PartsDisjoint(P, all, b, j);
      } else if j == a {
        PartsDisjoint(P, all, i, a);
        PartsDisjoint(P, all, i, b);
      } else {
        PartsDisjoint(P, all, i, j);
      }
    }
    forall x | x in SeqUnion(R) ensures x in SeqUnion(P) {
      var k :| 0 <= k < |R| && x in R[k];
      var i := if k < b then k else k + 1;
      assert x in Q[i];
      if i == a && x !in P[a] {
        assert x in P[b];
      } else {
        assert x in P[i];
      }
    }
    forall x | x in SeqUnion(P) ensures x in SeqUnion(R) {
      var i :| 0 <= i < |P| && x in P[i];
      var c := if i == b then a else i;
      assert x in Q[c];
      var k := if c < b then c else c - 1;
      assert R[k] == Q[c];
    }
  }

  /** The last part holding `s` (the colour `assign_colour_group` leaves on it), or -1 if none does. */
  ghost function LastIndex(P: seq<set<Segment>>, s: Segment): (r: int)
    ensures -1 <= r < |P|
    ensures 0 <= r ==> s in P[r]
    ensures forall k :: r < k < |P| ==> s !in P[k]
    decreases |P|
  {
    if P == [] then -1
    else if s in P[|P| - 1] then |P| - 1
    else LastIndex(P[..|P| - 1], s)
  }

  /** Over a partition, every segment gets the number of the one part holding it. */
  lemma PartitionColour(P: seq<set<Segment>>, all: set<Segment>, s: Segment)
    requires SeqPartition(P, all) && s in all
    ensures 0 <= LastIndex(P, s) < |P| && s in P[LastIndex(P, s)]
    ensures forall k :: 0 <= k < |P| && s in P[k] ==> k == LastIndex(P, s)
  {
    var i :| 0 <= i < |P| && s in P[i];
    var r := LastIndex(P, s);
    forall k | 0 <= k < r && s in P[k] ensures false {
      PartsDisjoint(P, all, k, r);
    }
  }

  /** The part sizes, the keys `merge_smallest_colour_group` sorts by. */
  ghost function Sizes(P: seq<set<Segment>>): (r: seq<int>)
    ensures |r| == |P|
    ensures forall k :: 0 <= k < |P| ==> r[k] == |P[k]|
  {
    if P == [] then [] else Sizes(P[..|P| - 1]) + [|P[|P| - 1]|]
  }

  /*
   * The smallest-intersection scan.
   */

  /** Pair `(c, d)` comes before pair `(a, b)` in the row-major order of the nested loops. */
  predicate RowMajorBefore(c: int, d: int, a: int, b: int) {
    c < a || (c == a && d < b)
  }

  lemma SubsetCard<T>(a: set<T>, b: set<T>)
    requires a <= b
    ensures |a| <= |b|
  {
    assert b == a + (b - a);
  }

  /** Two subsets of `all` have at most `|all| * |all|` pairs between them. */
  lemma PairsBound(a: set<Segment>, b: set<Segment>, all: set<Segment>)
    requires a <= all && b <= all
    ensures |a| * |b| <= |all| * |all|
  {
    SubsetCard(a, all);
    SubsetCard(b, all);
    MulMono(|a|, |b|, |all|);
  }

  lemma MulMono(x: nat, y: nat, n: nat)
    requires x <= n && y <= n
    ensures x * y <= n * n
  {
    assert x * y <= n * y;
    assert n * y <= n * n;
  }
}
