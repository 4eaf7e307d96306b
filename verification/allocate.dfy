/**
 Random allocation of things (workshop participants, say) to resources (rooms, say).

 Every resource, in input order, draws a random sample of `group size` things from the
 pool of things not yet allocated (fewer when the pool runs short); whatever is left after
 the last draw goes to the last resource. The random sample is a nondeterministic choice:
 every property below holds for every choice.
 */
module Allocate {

  function Min(a: nat, b: nat): nat {
    if a <= b then a else b
  }

  /** Distance between two naturals. */
  function Dist(a: nat, b: nat): nat {
    if a >= b then a - b else b - a
  }

  /** The two multiples of m around n: q*m lies n%m below n, (q+1)*m lies m - n%m above it. */
  lemma DivisionNeighbours(n: nat, m: nat)
    requires m >= 1
    ensures Dist(n, (n / m) * m) == n % m
    ensures Dist(n, (n / m + 1) * m) == m - n % m
  {
    var q, r := n / m, n % m;
    assert q * m + r == n;
    assert (q + 1) * m == q * m + m;
  }

  /**
   `round(n / m)` with Python 3's rounding: to the nearest integer, ties to the even one.
   The result is an integer nearest to n/m; on a tie it is even.
   */
  function GroupSize(n: nat, m: nat): (gs: nat)
    requires m >= 1
    ensures 2 * Dist(n, gs * m) <= m
    ensures 2 * Dist(n, gs * m) == m ==> gs % 2 == 0
  {
    DivisionNeighbours(n, m);
    var q, r := n / m, n % m;
    if 2 * r > m then q + 1
    else if 2 * r < m then q
    else if q % 2 == 0 then q
    else q + 1
  }

  /** Two multiples of m that both lie within m/2 of n are neighbours, and then both lie exactly m/2 away. */
  lemma NearestNeighbours(n: nat, m: nat, a: nat, b: nat)
    requires m >= 1
    requires 2 * Dist(n, a * m) <= m && 2 * Dist(n, b * m) <= m
    requires a < b
    ensures b == a + 1
    ensures 2 * Dist(n, a * m) == m && 2 * Dist(n, b * m) == m
  {
    var d := b - a;
    var am, bm, dm := a * m, b * m, d * m;
    assert bm == am + dm;
    assert dm >= m by {
      assert dm == (d - 1) * m + m;
    }
    assert Dist(n, am) + Dist(n, bm) >= dm;
    if d >= 2 {
      assert false;
    }
  }

  /** The half-to-even rounding of n/m is the only integer with both properties GroupSize promises. */
  lemma {:induction false} RoundHalfEvenUnique(n: nat, m: nat, k: nat)
    requires m >= 1
    requires 2 * Dist(n, k * m) <= m
    requires 2 * Dist(n, k * m) == m ==> k % 2 == 0
    ensures k == GroupSize(n, m)
  {
    var gs := GroupSize(n, m);
    if k < gs {
      NearestNeighbours(n, m, k, gs);
    } else if gs < k {
      NearestNeighbours(n, m, gs, k);
    }
  }

  /** Things still unallocated after the first `i` resources have drawn from a pool of `n`. */
  function Left(n: nat, gs: nat, i: nat): nat {
    if i == 0 then n else Left(n, gs, i - 1) - Min(gs, Left(n, gs, i - 1))
  }

  /** What resource `i` draws from the pool: a full group, or whatever the pool still holds. */
  function Drawn(n: nat, gs: nat, i: nat): nat {
    Min(gs, Left(n, gs, i))
  }

  /** After `i` full draws of `gs`, the pool holds `n - i*gs` things, or none once it ran dry. */
  lemma {:induction false} LeftClosedForm(n: nat, gs: nat, i: nat)
    ensures Left(n, gs, i) == if n >= i * gs then n - i * gs else 0
  {
    if i > 0 {
      LeftClosedForm(n, gs, i - 1);
      assert i * gs == (i - 1) * gs + gs;
    }
  }

  /** Resource `i` draws `min(gs, max(0, n - i*gs))` things. */
  lemma DrawnClosedForm(n: nat, gs: nat, i: nat)
    ensures Drawn(n, gs, i) == Min(gs, if n >= i * gs then n - i * gs else 0)
  {
    LeftClosedForm(n, gs, i);
  }

  /**
   The size of each of `m` groups drawn with group size `gs` from `n` things, in resource
   order: every resource but the last receives what it draws; the last one receives
   everything the others left over.
   */
  function Sizes(n: nat, gs: nat, m: nat): (sizes: seq<nat>)
    requires m >= 1
    ensures |sizes| == m
  {
    seq(m, i requires 0 <= i < m => if i < m - 1 then Drawn(n, gs, i) else Left(n, gs, m - 1))
  }

  /** The group sizes `_random_allocation` produces for `n` things and `m` resources. */
  function GroupSizes(n: nat, m: nat): (sizes: seq<nat>)
    requires m >= 1
    ensures |sizes| == m
  {
    Sizes(n, GroupSize(n, m), m)
  }

  function Sum(s: seq<nat>): nat {
    if |s| == 0 then 0 else Sum(s[..|s| - 1]) + s[|s| - 1]
  }

  /** The union of a sequence of sets. */
  function Union<T>(groups: seq<set<T>>): set<T> {
    set i, t | 0 <= i < |groups| && t in groups[i] :: t
  }

  /** The cardinalities of a sequence of sets. */
  function Cards<T>(groups: seq<set<T>>): (cs: seq<nat>)
    ensures |cs| == |groups|
  {
    seq(|groups|, i requires 0 <= i < |groups| => |groups[i]|)
  }

  ghost predicate PairwiseDisjoint<T>(groups: seq<set<T>>) {
    forall i, j :: 0 <= i < j < |groups| ==> groups[i] !! groups[j]
  }

  /** `groups` split `things` into disjoint parts (some of which may be empty). */
  ghost predicate IsPartition<T>(groups: seq<set<T>>, things: set<T>) {
    PairwiseDisjoint(groups) && Union(groups) == things
  }

  lemma UnionMember<T>(groups: seq<set<T>>, i: nat, t: T)
    requires i < |groups| && t in groups[i]
    ensures t in Union(groups)
  {
  }

  lemma UnionMemberAll<T>(groups: seq<set<T>>, i: nat)
    requires i < |groups|
    ensures groups[i] <= Union(groups)
  {
    forall t | t in groups[i] ensures t in Union(groups) {
      UnionMember(groups, i, t);
    }
  }

  /** Appending a group disjoint from what is partitioned so far partitions the union. */
  lemma PartitionAppend<T>(groups: seq<set<T>>, things: set<T>, chosen: set<T>)
    requires IsPartition(groups, things)
    requires chosen !! things
    ensures IsPartition(groups + [chosen], things + chosen)
  {
    var g := groups + [chosen];
    forall t | t in things + chosen ensures t in Union(g) {
      if t in chosen {
        UnionMember(g, |groups|, t);
      } else {
        var i :| 0 <= i < |groups| && t in groups[i];
        UnionMember(g, i, t);
      }
    }
    forall i | 0 <= i < |groups| ensures groups[i] !! chosen {
      forall t | t in groups[i] ensures t in things {
        UnionMember(groups, i, t);
      }
    }
  }

  /** Adding things outside the partitioned set to the last group keeps it a partition. */
  lemma PartitionGrowLast<T>(groups: seq<set<T>>, things: set<T>, extra: set<T>)
    requires |groups| >= 1
    requires IsPartition(groups, things)
    requires extra !! things
    ensures IsPartition(groups[|groups| - 1 := groups[|groups| - 1] + extra], things + extra)
    ensures |groups[|groups| - 1] + extra| == |groups[|groups| - 1]| + |extra|
  {
    var last := |groups| - 1;
    var g := groups[last := groups[last] + extra];
    forall i | 0 <= i < |groups| ensures groups[i] <= things {
      UnionMemberAll(groups, i);
    }
    assert PairwiseDisjoint(g);
    UnionGrowLast(groups, extra);
  }

  /** Growing the last group grows the union by the same things. */
  lemma UnionGrowLast<T>(groups: seq<set<T>>, extra: set<T>)
    requires |groups| >= 1
    ensures Union(groups[|groups| - 1 := groups[|groups| - 1] + extra]) == Union(groups) + extra
  {
    var last := |groups| - 1;
    var g := groups[last := groups[last] + extra];
    forall t | t in Union(groups) + extra ensures t in Union(g) {
      if t in extra {
        UnionMember(g, last, t);
      } else {
        var i :| 0 <= i < |groups| && t in groups[i];
        UnionMember(g, i, t);
      }
    }
    forall t | t in Union(g) ensures t in Union(groups) + extra {
      var i :| 0 <= i < |g| && t in g[i];
      if t !in extra {
        UnionMember(groups, i, t);
      }
    }
  }

  /** Some subset of `s` has exactly `k` elements; this is what the random sample draws from. */
  lemma PickSubset<T>(s: set<T>, k: nat) returns (c: set<T>)
    requires k <= |s|
    ensures c <= s && |c| == k
  {
    if k == 0 {
      c := {};
    } else {
      var x :| x in s;
      var c' := PickSubset(s - {x}, k - 1);
      c := c' + {x};
    }
  }

  /** `allocated[ts] = r` on a pandas series: every thing of `ts` now maps to `r`, nothing else changes. */
  function Assign<T, R>(allocation: map<T, R>, ts: set<T>, r: R): (a: map<T, R>)
    ensures a.Keys == allocation.Keys + ts
    ensures forall t :: t in ts ==> a[t] == r
    ensures forall t :: t in allocation && t !in ts ==> a[t] == allocation[t]
  {
    allocation + map t | t in ts :: r
  }

  /** Every thing of group `i` maps to resource `i`. */
  ghost predicate Labelled<T, R>(allocation: map<T, R>, groups: seq<set<T>>, resources: seq<R>)
    requires |groups| <= |resources|
  {
    forall i, t :: 0 <= i < |groups| && t in groups[i] ==> t in allocation && allocation[t] == resources[i]
  }

  /** One iteration of the draw loop keeps the groups labelled. */
  lemma LabelledAppend<T, R>(allocation: map<T, R>, groups: seq<set<T>>, resources: seq<R>, chosen: set<T>)
    requires |groups| < |resources|
    requires IsPartition(groups, allocation.Keys)
    requires Labelled(allocation, groups, resources)
    requires chosen !! allocation.Keys
    ensures Labelled(Assign(allocation, chosen, resources[|groups|]), groups + [chosen], resources)
  {
    var a := Assign(allocation, chosen, resources[|groups|]);
    var g := groups + [chosen];
    forall i, t | 0 <= i < |g| && t in g[i] ensures t in a && a[t] == resources[i] {
      if i < |groups| {
        UnionMember(groups, i, t);
      }
    }
  }

  /** The final step, the remainder to the last resource, keeps the groups labelled. */
  lemma LabelledGrowLast<T, R>(allocation: map<T, R>, groups: seq<set<T>>, resources: seq<R>, extra: set<T>)
    requires |groups| == |resources| >= 1
    requires IsPartition(groups, allocation.Keys)
    requires Labelled(allocation, groups, resources)
    requires extra !! allocation.Keys
    ensures Labelled(Assign(allocation, extra, resources[|resources| - 1]),
                     groups[|groups| - 1 := groups[|groups| - 1] + extra], resources)
  {
    var last := |groups| - 1;
    var a := Assign(allocation, extra, resources[last]);
    var g := groups[last := groups[last] + extra];
    forall i, t | 0 <= i < |g| && t in g[i] ensures t in a && a[t] == resources[i] {
      if t !in extra {
        assert t in groups[i];
        UnionMember(groups, i, t);
      }
    }
  }

  /** Group `j` holds what resource `j` draws, for every group so far. */
  ghost predicate DrawSizes<T>(groups: seq<set<T>>, n: nat, gs: nat) {
    forall j :: 0 <= j < |groups| ==> |groups[j]| == Drawn(n, gs, j)
  }

  lemma DrawSizesAppend<T>(groups: seq<set<T>>, n: nat, gs: nat, chosen: set<T>)
    requires DrawSizes(groups, n, gs)
    requires |chosen| == Drawn(n, gs, |groups|)
    ensures DrawSizes(groups + [chosen], n, gs)
  {
  }

  /**
   The state of the draw loop after `i` resources have drawn: the allocated things and the
   pool split `things`, the groups partition the allocated things and carry their resource's
   label, and every group and the pool have the sizes the closed forms give.
   */
  ghost predicate Drawing<T, R>(things: set<T>, resources: seq<R>, gs: nat, i: nat,
                                allocation: map<T, R>, groups: seq<set<T>>, unallocated: set<T>)
  {
    && i <= |resources|
    && |groups| == i
    && allocation.Keys !! unallocated
    && allocation.Keys + unallocated == things
    && IsPartition(groups, allocation.Keys)
    && Labelled(allocation, groups, resources)
    && |unallocated| == Left(|things|, gs, i)
    && DrawSizes(groups, |things|, gs)
  }

  /** One iteration of the draw loop: resource `i` draws `chosen` from the pool. */
  lemma DrawStep<T, R>(things: set<T>, resources: seq<R>, gs: nat, i: nat,
                       allocation: map<T, R>, groups: seq<set<T>>, unallocated: set<T>, chosen: set<T>)
    requires Drawing(things, resources, gs, i, allocation, groups, unallocated)
    requires i < |resources|
    requires chosen <= unallocated && |chosen| == Min(gs, |unallocated|)
    ensures Drawing(things, resources, gs, i + 1, Assign(allocation, chosen, resources[i]),
                    groups + [chosen], unallocated - chosen)
  {
    var next := Assign(allocation, chosen, resources[i]);
    assert next.Keys == allocation.Keys + chosen;
    PartitionAppend(groups, allocation.Keys, chosen);
    LabelledAppend(allocation, groups, resources, chosen);
    assert |chosen| == Drawn(|things|, gs, i);
    DrawSizesAppend(groups, |things|, gs, chosen);
    MovePart(allocation.Keys, unallocated, chosen, things);
    assert |unallocated - chosen| == Left(|things|, gs, i + 1);
  }

  /** Moving part of the pool to the allocated side keeps the two complementary. */
  lemma MovePart<T>(taken: set<T>, pool: set<T>, chosen: set<T>, things: set<T>)
    requires taken !! pool && taken + pool == things
    requires chosen <= pool
    ensures (taken + chosen) !! (pool - chosen)
    ensures (taken + chosen) + (pool - chosen) == things
    ensures |pool - chosen| == |pool| - |chosen|
  {
  }

  /** After the draw loop, handing the remainder to the last resource completes the allocation. */
  lemma RemainderToLast<T, R>(things: set<T>, resources: seq<R>, gs: nat, allocation: map<T, R>, drawn: seq<set<T>>,
                              unallocated: set<T>)
    requires |resources| >= 1
    requires Drawing(things, resources, gs, |resources|, allocation, drawn, unallocated)
    ensures Assign(allocation, unallocated, resources[|resources| - 1]).Keys == things
    ensures IsPartition(drawn[|drawn| - 1 := drawn[|drawn| - 1] + unallocated], things)
    ensures Labelled(Assign(allocation, unallocated, resources[|resources| - 1]),
                     drawn[|drawn| - 1 := drawn[|drawn| - 1] + unallocated], resources)
    ensures Cards(drawn[|drawn| - 1 := drawn[|drawn| - 1] + unallocated]) == Sizes(|things|, gs, |resources|)
  {
    PartitionGrowLast(drawn, allocation.Keys, unallocated);
    LabelledGrowLast(allocation, drawn, resources, unallocated);
    RemainderSizes(drawn, unallocated, |things|, gs);
  }

  /** The sizes part of RemainderToLast: the last group ends up with everything left before its draw. */
  lemma RemainderSizes<T>(drawn: seq<set<T>>, unallocated: set<T>, n: nat, gs: nat)
    requires |drawn| >= 1
    requires DrawSizes(drawn, n, gs)
    requires |unallocated| == Left(n, gs, |drawn|)
    requires |drawn[|drawn| - 1] + unallocated| == |drawn[|drawn| - 1]| + |unallocated|
    ensures Cards(drawn[|drawn| - 1 := drawn[|drawn| - 1] + unallocated]) == Sizes(n, gs, |drawn|)
  {
    var m := |drawn|;
    var groups := drawn[m - 1 := drawn[m - 1] + unallocated];
    assert |groups[m - 1]| == Left(n, gs, m - 1) by {
      assert Left(n, gs, m) == Left(n, gs, m - 1) - Drawn(n, gs, m - 1);
    }
    forall j | 0 <= j < m ensures Cards(groups)[j] == Sizes(n, gs, m)[j] {
      if j < m - 1 {
        assert groups[j] == drawn[j];
      }
    }
  }

  /**
   What `_random_allocation` returns, with `groups[i]` the things resource `i` received:
   a total map on `things`, the groups partition `things`, each group's things map to its
   resource, and each group has the size GroupSizes prescribes.
   */
  ghost predicate IsRandomAllocation<T, R>(things: set<T>, resources: seq<R>, allocation: map<T, R>, groups: seq<set<T>>)
    requires |resources| >= 1
  {
    && allocation.Keys == things
    && |groups| == |resources|
    && IsPartition(groups, things)
    && Labelled(allocation, groups, resources)
    && Cards(groups) == GroupSizes(|things|, |resources|)
  }

  /**
   `_random_allocation`: `allocation` is the returned series (thing to resource), `groups`
   records what each resource received, in resource order.
   */
  method RandomAllocation<T, R>(things: set<T>, resources: seq<R>) returns (allocation: map<T, R>, groups: seq<set<T>>)
    requires |resources| >= 1
    ensures IsRandomAllocation(things, resources, allocation, groups)
  {
    var n, m := |things|, |resources|;
    var gs := GroupSize(n, m);
    var unallocated := things;
    allocation := map[];
    groups := [];
    for i := 0 to m
      invariant Drawing(things, resources, gs, i, allocation, groups, unallocated)
    {
      var k := Min(gs, |unallocated|);
      // a subset of that size exists; `chosen` below is any such subset
      var sample := PickSubset(unallocated, k);
      var chosen :| chosen <= unallocated && |chosen| == k;
      DrawStep(things, resources, gs, i, allocation, groups, unallocated, chosen);
      allocation := Assign(allocation, chosen, resources[i]);
      groups := groups + [chosen];
      unallocated := unallocated - chosen;
    }
    // `if unallocated is not {}` in `_random_allocation` is always true; an empty remainder adds nothing
    RemainderToLast(things, resources, gs, allocation, groups, unallocated);
    allocation := Assign(allocation, unallocated, resources[|resources| - 1]);
    groups := groups[|groups| - 1 := groups[|groups| - 1] + unallocated];
  }

  /** The cardinality of a union of pairwise disjoint sets is the sum of their cardinalities. */
  lemma {:induction false} DisjointUnionSize<T>(groups: seq<set<T>>)
    requires PairwiseDisjoint(groups)
    ensures |Union(groups)| == Sum(Cards(groups))
  {
    if |groups| > 0 {
      var init, last := groups[..|groups| - 1], groups[|groups| - 1];
      assert Cards(groups)[..|groups| - 1] == Cards(init);
      DisjointUnionSize(init);
      assert Union(groups) == Union(init) + last by {
        forall t | t in Union(groups) ensures t in Union(init) + last {
          var i :| 0 <= i < |groups| && t in groups[i];
          if i < |groups| - 1 {
            UnionMember(init, i, t);
          }
        }
        forall t | t in Union(init) ensures t in Union(groups) {
          var i :| 0 <= i < |init| && t in init[i];
          UnionMember(groups, i, t);
        }
      }
      assert Union(init) !! last by {
        forall t | t in Union(init) ensures t !in last {
          var i :| 0 <= i < |init| && t in init[i];
          assert groups[i] !! groups[|groups| - 1];
        }
      }
    }
  }

  /** The resources' groups together hold every thing exactly once: their sizes add up to |things|. */
  lemma AllocationSizesAddUp<T, R>(things: set<T>, resources: seq<R>, allocation: map<T, R>, groups: seq<set<T>>)
    requires |resources| >= 1
    requires IsRandomAllocation(things, resources, allocation, groups)
    ensures Sum(Cards(groups)) == |things|
  {
    DisjointUnionSize(groups);
  }

  /** Every thing is allocated to one of the given resources. */
  lemma AllocatedToAResource<T, R>(things: set<T>, resources: seq<R>, allocation: map<T, R>, groups: seq<set<T>>)
    requires |resources| >= 1
    requires IsRandomAllocation(things, resources, allocation, groups)
    ensures forall t :: t in allocation ==> allocation[t] in resources
  {
    forall t | t in allocation ensures allocation[t] in resources {
      var i :| 0 <= i < |groups| && t in groups[i];
    }
  }

  /** The things allocated to resource `r`. */
  function ResourceGroup<T, R(==)>(allocation: map<T, R>, r: R): set<T> {
    set t | t in allocation && allocation[t] == r
  }

  /**
   With distinct resource labels, what the series maps to resource `i` is exactly group `i`,
   so the group sizes are the sizes of the returned allocation's groups.
   */
  lemma ResourceGroupsAreGroups<T, R>(things: set<T>, resources: seq<R>, allocation: map<T, R>, groups: seq<set<T>>)
    requires |resources| >= 1
    requires forall i, j :: 0 <= i < j < |resources| ==> resources[i] != resources[j]
    requires IsRandomAllocation(things, resources, allocation, groups)
    ensures forall i :: 0 <= i < |resources| ==> ResourceGroup(allocation, resources[i]) == groups[i]
    ensures forall i :: 0 <= i < |resources| ==> |ResourceGroup(allocation, resources[i])| == GroupSizes(|things|, |resources|)[i]
  {
    forall i | 0 <= i < |resources| ensures ResourceGroup(allocation, resources[i]) == groups[i] {
      forall t | t in ResourceGroup(allocation, resources[i]) ensures t in groups[i] {
        var j :| 0 <= j < |groups| && t in groups[j];
      }
    }
    forall i | 0 <= i < |resources| ensures |ResourceGroup(allocation, resources[i])| == GroupSizes(|things|, |resources|)[i] {
      assert Cards(groups)[i] == |groups[i]|;
    }
  }

  /** With a single resource, every thing goes to it. */
  lemma SingleResourceGetsAll<T, R>(things: set<T>, resources: seq<R>, allocation: map<T, R>, groups: seq<set<T>>)
    requires |resources| == 1
    requires IsRandomAllocation(things, resources, allocation, groups)
    ensures groups == [things]
    ensures forall t :: t in things ==> allocation[t] == resources[0]
  {
    forall t | t in things ensures t in groups[0] {
      var i :| 0 <= i < |groups| && t in groups[i];
    }
    UnionMemberAll(groups, 0);
    assert groups[0] == things;
    assert groups == [groups[0]];
  }

  /** With no things, the allocation is empty. */
  lemma NoThingsNoAllocation<T, R>(things: set<T>, resources: seq<R>, allocation: map<T, R>, groups: seq<set<T>>)
    requires |resources| >= 1 && things == {}
    requires IsRandomAllocation(things, resources, allocation, groups)
    ensures allocation == map[]
    ensures forall i :: 0 <= i < |groups| ==> groups[i] == {}
  {
    forall i | 0 <= i < |groups| ensures groups[i] == {} {
      UnionMemberAll(groups, i);
    }
  }

  /** What the first `k` resources draw, in total. */
  function DrawnTotal(n: nat, gs: nat, k: nat): nat {
    if k == 0 then 0 else DrawnTotal(n, gs, k - 1) + Drawn(n, gs, k - 1)
  }

  /** What has been drawn and what is left always make up all `n` things. */
  lemma {:induction false} DrawnPlusLeft(n: nat, gs: nat, k: nat)
    ensures DrawnTotal(n, gs, k) + Left(n, gs, k) == n
  {
    if k > 0 {
      DrawnPlusLeft(n, gs, k - 1);
    }
  }

  lemma {:induction false} SizesPrefixSum(n: nat, gs: nat, m: nat, k: nat)
    requires 1 <= m && k <= m - 1
    ensures Sum(Sizes(n, gs, m)[..k]) == DrawnTotal(n, gs, k)
  {
    if k > 0 {
      assert Sizes(n, gs, m)[..k][..k - 1] == Sizes(n, gs, m)[..k - 1];
      SizesPrefixSum(n, gs, m, k - 1);
    }
  }

  /** The group sizes add up to the number of things: nothing is lost, nothing is counted twice. */
  lemma GroupSizesSum(n: nat, m: nat)
    requires m >= 1
    ensures Sum(GroupSizes(n, m)) == n
  {
    var gs := GroupSize(n, m);
    var sizes := GroupSizes(n, m);
    assert sizes[..m - 1] == sizes[..|sizes| - 1];
    SizesPrefixSum(n, gs, m, m - 1);
    DrawnPlusLeft(n, gs, m - 1);
  }

  lemma MulSub(m: nat, i: nat, q: nat)
    requires i <= m
    ensures (m - i) * q == m * q - i * q
    ensures i * q <= m * q
  {
  }

  /** When `m` divides `n`, every resource receives exactly `n / m` things. */
  lemma EvenSplit(n: nat, m: nat)
    requires m >= 1 && n % m == 0
    ensures forall i :: 0 <= i < m ==> GroupSizes(n, m)[i] == n / m
  {
    var q := n / m;
    DivisionNeighbours(n, m);
    assert GroupSize(n, m) == q;
    assert n == m * q;
    forall i | 0 <= i < m ensures GroupSizes(n, m)[i] == q {
      LeftClosedForm(n, q, i);
      MulSub(m, i, q);
      MulSub(m - i, 1, q);
      LeftClosedForm(n, q, m - 1);
      MulSub(m, m - 1, q);
    }
  }

  /** 10 things over 2 resources: groups of 5 and 5. */
  lemma TenOverTwo()
    ensures GroupSizes(10, 2) == [5, 5]
  {
    EvenSplit(10, 2);
  }

  /** 20 things over 3 resources: 7, 7, 6, the last group one short. */
  lemma TwentyOverThree()
    ensures GroupSizes(20, 3) == [7, 7, 6]
  {
    assert GroupSize(20, 3) == 7;
    assert Left(20, 7, 1) == 13 && Left(20, 7, 2) == 6;
  }

  /** 22 things over 3 resources: 7, 7, 8, the last group one over. */
  lemma TwentyTwoOverThree()
    ensures GroupSizes(22, 3) == [7, 7, 8]
  {
    assert GroupSize(22, 3) == 7;
    assert Left(22, 7, 1) == 15 && Left(22, 7, 2) == 8;
  }

  /** 9 things over 6 resources: the pool runs dry before the last resource draws. */
  lemma NineOverSix()
    ensures GroupSizes(9, 6) == [2, 2, 2, 2, 1, 0]
  {
    assert GroupSize(9, 6) == 2;
    assert Left(9, 2, 1) == 7 && Left(9, 2, 2) == 5 && Left(9, 2, 3) == 3;
    assert Left(9, 2, 4) == 1 && Left(9, 2, 5) == 0;
  }

  /** 5 things over 2 resources: 2.5 rounds to the even 2, so the last group gets 3. */
  lemma FiveOverTwo()
    ensures GroupSizes(5, 2) == [2, 3]
  {
    assert GroupSize(5, 2) == 2;
    assert Left(5, 2, 1) == 3;
  }
}
