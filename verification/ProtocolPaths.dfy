// All paths through the protocol graph, and what bounds them.
module ProtocolPaths {
  import opened Options
  import opened ProtocolGraph

  type Path = seq<Proto>

  function PrefixAll(names: Path, paths: seq<Path>): (r: seq<Path>)
    ensures |r| == |paths| && forall i :: 0 <= i < |r| ==> r[i] == names + paths[i]
  {
    seq(|paths|, i requires 0 <= i < |paths| => names + paths[i])
  }

  // Every path from p down to a protocol without a successor, in table order.
  function Paths(p: Proto, c: Counters, w: Constraints): (r: seq<Path>)
    decreases c.trill, Rank(p, c), Depth(p, c), |Succ(p, c, w)| + 1
  {
    if Succ(p, c, w) == [] then [[p]] else PrefixAll([p], ChildPaths(p, c, w, 0))
  }

  // The paths that go on with successor k or a later one.
  function ChildPaths(p: Proto, c: Counters, w: Constraints, k: nat): (r: seq<Path>)
    requires k <= |Succ(p, c, w)|
    decreases c.trill, Rank(p, c), Depth(p, c), |Succ(p, c, w)| - k
  {
    if k == |Succ(p, c, w)| then []
    else
      SuccIs(p, c, w);
      StepDrops(p, Succ(p, c, w)[k], c, w);
      Paths(Succ(p, c, w)[k], After(p, c), w) + ChildPaths(p, c, w, k + 1)
  }

  // ---------------------------------------------------------------- walks

  // A walk takes an open edge at every step and ends where none is open.
  ghost predicate IsWalk(p: Proto, c: Counters, w: Constraints, path: Path)
    decreases |path|
  {
    && path != [] && path[0] == p
    && (if |path| == 1 then (forall q :: !Follows(p, q, c, w))
        else Follows(p, path[1], c, w) && IsWalk(path[1], After(p, c), w, path[1..]))
  }

  // The paths are exactly the walks, each once.
  lemma {:induction false} PathsAreWalks(p: Proto, c: Counters, w: Constraints, path: Path)
    ensures path in Paths(p, c, w) <==> IsWalk(p, c, w, path)
    decreases c.trill, Rank(p, c), Depth(p, c), |Succ(p, c, w)| + 1
  {
    hide Succ, Follows, After;
    SuccIs(p, c, w);
    var s := Succ(p, c, w);
    if s == [] {
      assert forall q :: !Follows(p, q, c, w) by { forall q ensures !Follows(p, q, c, w) { assert q !in s; } }
      assert path in Paths(p, c, w) <==> path == [p];
      if IsWalk(p, c, w, path) { assert path == [p]; }
    } else {
      assert Follows(p, s[0], c, w) by { assert s[0] in s; }
      PrefixedIn(p, ChildPaths(p, c, w, 0), path);
      if path != [] && path[0] == p {
        if |path| > 1 {
          ChildrenAreWalks(p, c, w, 0, path[1..]);
          assert path[1..][0] == path[1];
        } else {
          ChildrenNonempty(p, c, w, 0);
          assert path[1..] == [];
        }
      }
    }
  }

  lemma PrefixedIn(p: Proto, paths: seq<Path>, path: Path)
    ensures path in PrefixAll([p], paths) <==> path != [] && path[0] == p && path[1..] in paths
  {
    var r := PrefixAll([p], paths);
    if path in r {
      var i :| 0 <= i < |r| && r[i] == path;
      assert path[1..] == paths[i];
    }
    if path != [] && path[0] == p && path[1..] in paths {
      var i :| 0 <= i < |paths| && paths[i] == path[1..];
      assert r[i] == path;
    }
  }

  lemma {:induction false} ChildrenAreWalks(p: Proto, c: Counters, w: Constraints, k: nat, path: Path)
    requires k <= |Succ(p, c, w)| && path != []
    ensures path in ChildPaths(p, c, w, k) <==> path[0] in Succ(p, c, w)[k..] && IsWalk(path[0], After(p, c), w, path)
    decreases c.trill, Rank(p, c), Depth(p, c), |Succ(p, c, w)| - k
  {
    hide Succ, Follows, After, Paths, IsWalk;
    var s := Succ(p, c, w);
    if k < |s| {
      SuccIs(p, c, w);
      assert s[k] in s;
      StepDrops(p, s[k], c, w);
      PathsAreWalks(s[k], After(p, c), w, path);
      if IsWalk(s[k], After(p, c), w, path) { WalkStarts(s[k], After(p, c), w, path); }
      ChildrenAreWalks(p, c, w, k + 1, path);
      assert s[k..] == [s[k]] + s[k + 1..];
    }
  }

  lemma WalkStarts(p: Proto, c: Counters, w: Constraints, path: Path)
    requires IsWalk(p, c, w, path)
    ensures path != [] && path[0] == p
  {
  }

  lemma {:induction false} ChildrenNonempty(p: Proto, c: Counters, w: Constraints, k: nat)
    requires k <= |Succ(p, c, w)|
    ensures [] !in ChildPaths(p, c, w, k)
    decreases |Succ(p, c, w)| - k
  {
    hide Succ, Follows, After, Paths, IsWalk;
    if k < |Succ(p, c, w)| {
      SuccIs(p, c, w);
      assert Succ(p, c, w)[k] in Succ(p, c, w);
      StepDrops(p, Succ(p, c, w)[k], c, w);
      PathsNonempty(Succ(p, c, w)[k], After(p, c), w);
      ChildrenNonempty(p, c, w, k + 1);
    }
  }

  lemma PathsNonempty(p: Proto, c: Counters, w: Constraints)
    ensures [] !in Paths(p, c, w)
  {
    hide Succ, After, ChildPaths;
  }

  // ---------------------------------------------------------------- each path once

  lemma {:induction false} PathsDistinct(p: Proto, c: Counters, w: Constraints)
    ensures NoDup(Paths(p, c, w))
    decreases c.trill, Rank(p, c), Depth(p, c), |Succ(p, c, w)| + 1
  {
    hide Succ, After;
    if Succ(p, c, w) != [] {
      ChildrenDistinct(p, c, w, 0);
      var r, cs := Paths(p, c, w), ChildPaths(p, c, w, 0);
      forall i, j | 0 <= i < j < |r|
        ensures r[i] != r[j]
      {
        assert r[i][1..] == cs[i] && r[j][1..] == cs[j];
      }
    }
  }

  lemma {:induction false} ChildrenDistinct(p: Proto, c: Counters, w: Constraints, k: nat)
    requires k <= |Succ(p, c, w)|
    ensures NoDup(ChildPaths(p, c, w, k))
    decreases c.trill, Rank(p, c), Depth(p, c), |Succ(p, c, w)| - k
  {
    hide Succ, Follows, After, Paths, IsWalk, ChildPaths;
    var s := Succ(p, c, w);
    if k < |s| {
      SuccIs(p, c, w);
      assert s[k] in s;
      StepDrops(p, s[k], c, w);
      PathsDistinct(s[k], After(p, c), w);
      ChildrenDistinct(p, c, w, k + 1);
      var here, rest := Paths(s[k], After(p, c), w), ChildPaths(p, c, w, k + 1);
      ChildPathsStep(p, c, w, k);
      forall x | x in here
        ensures x !in rest
      {
        PathsAreWalks(s[k], After(p, c), w, x);
        WalkStarts(s[k], After(p, c), w, x);
        ChildrenAreWalks(p, c, w, k + 1, x);
      }
      Disjoint(here, rest);
    } else {
      NoChildPaths(p, c, w);
    }
  }

  lemma NoChildPaths(p: Proto, c: Counters, w: Constraints)
    ensures ChildPaths(p, c, w, |Succ(p, c, w)|) == []
  {
  }

  lemma ChildPathsStep(p: Proto, c: Counters, w: Constraints, k: nat)
    requires k < |Succ(p, c, w)|
    ensures ChildPaths(p, c, w, k) == Paths(Succ(p, c, w)[k], After(p, c), w) + ChildPaths(p, c, w, k + 1)
  {
    hide Succ, After, Paths;
  }

  lemma Disjoint(a: seq<Path>, b: seq<Path>)
    requires NoDup(a) && NoDup(b) && forall x :: x in a ==> x !in b
    ensures NoDup(a + b)
  {
    var r := a + b;
    forall i, j | 0 <= i < j < |r|
      ensures r[i] != r[j]
    {
      if i < |a| <= j { assert r[i] in a && r[j] in b; }
    }
  }

  // ---------------------------------------------------------------- how many headers

  function Count(q: Proto, path: Path): nat {
    if path == [] then 0 else (if path[0] == q then 1 else 0) + Count(q, path[1..])
  }

  lemma {:induction false} CountBound(q: Proto, p: Proto, c: Counters, w: Constraints, path: Path)
    requires Counted(q) && IsWalk(p, c, w, path)
    ensures Count(q, path) <= Left(q, p, c)
    decreases |path|
  {
    hide Left, Follows, After;
    if |path| == 1 {
      assert path[1..] == [];
      if p == q { LeftHere(q, c); }
    } else {
      LeftDrops(q, p, path[1], c, w);
      CountBound(q, path[1], After(p, c), w, path[1..]);
    }
  }

  // Every packet path respects these bounds; VLAN may exceed its configured depth.
  lemma PathBounds(w: Constraints, c: Counters, path: Path)
    requires path in Paths(ETH, c, w)
    ensures Count(TRILL, path) <= c.trill
    ensures Count(VLAN, path) <= AtLeastOne(c.vlan) + c.trill
    ensures Count(MPLS, path) <= AtLeastOne(c.mpls)
    ensures Count(IPv6Ext, path) <= AtLeastOne(c.ipv6ext)
  {
    hide Paths, IsWalk;
    PathsAreWalks(ETH, c, w, path);
    CountBound(TRILL, ETH, c, w, path);
    CountBound(VLAN, ETH, c, w, path);
    CountBound(MPLS, ETH, c, w, path);
    CountBound(IPv6Ext, ETH, c, w, path);
  }

  // A packet of either generator starts with the default counters or the user's depths: one
  // TRILL header at most, one VLAN beyond its depth, and MPLS and extension headers up to theirs.
  lemma PacketBounds(w: Constraints, path: Path)
    requires path in Paths(ETH, Initial(w), w)
    ensures Count(TRILL, path) <= 1 && Count(IPv6Ext, path) <= 4
    ensures Count(VLAN, path) <= AtLeastOne(if w.vlanMax.Some? then w.vlanMax.value else 4) + 1
    ensures Count(MPLS, path) <= AtLeastOne(if w.mplsMax.Some? then w.mplsMax.value else 4)
  {
    hide Paths, Count;
    PathBounds(w, Initial(w), path);
  }

  // ---------------------------------------------------------------- the bounds are reached

  // No edge is switched off by its weight.
  ghost predicate AllOpen(w: Constraints) {
    forall p, q :: UserWeight(p, q, w) > 0
  }

  // n VLAN headers, then one more TRILL, ETH and VLAN for each TRILL that is left.
  function Deep(n: nat, trill: nat): Path {
    if n > 1 then [VLAN] + Deep(n - 1, trill)
    else if trill == 0 then [VLAN, Empty]
    else [VLAN, TRILL, ETH] + Deep(0, trill - 1)
  }

  lemma EndsInEmpty(c: Counters, w: Constraints)
    ensures IsWalk(Empty, c, w, [Empty])
  {
  }

  lemma StepWalk(p: Proto, c: Counters, w: Constraints, path: Path)
    requires path != [] && Follows(p, path[0], c, w) && IsWalk(path[0], After(p, c), w, path)
    ensures IsWalk(p, c, w, [p] + path)
    ensures forall q :: Count(q, [p] + path) == (if p == q then 1 else 0) + Count(q, path)
  {
    assert ([p] + path)[1..] == path;
  }

  lemma OpenSteps(c: Counters, w: Constraints)
    requires AllOpen(w)
    ensures Follows(ETH, VLAN, c, w) && Follows(VLAN, Empty, c, w) && Follows(TRILL, ETH, c, w)
    ensures c.vlan > 1 ==> Follows(VLAN, VLAN, c, w)
    ensures c.trill > 0 ==> Follows(VLAN, TRILL, c, w)
  {
    hide UserWeight;
    assert forall p, q :: UserWeight(p, q, w) > 0;
  }

  lemma {:induction false} DeepWalk(c: Counters, w: Constraints)
    requires AllOpen(w)
    ensures Deep(c.vlan, c.trill) != [] && Deep(c.vlan, c.trill)[0] == VLAN && IsWalk(VLAN, c, w, Deep(c.vlan, c.trill))
    ensures Count(VLAN, Deep(c.vlan, c.trill)) == AtLeastOne(c.vlan) + c.trill
    decreases c.trill, c.vlan
  {
    hide IsWalk, Count, Follows, Weight;
    var d := After(VLAN, c);
    OpenSteps(c, w);
    if c.vlan > 1 {
      DeepWalk(d, w);
      StepWalk(VLAN, c, w, Deep(d.vlan, c.trill));
    } else if c.trill == 0 {
      EndsInEmpty(d, w);
      EmptyCount();
      StepWalk(VLAN, c, w, [Empty]);
      assert [VLAN] + [Empty] == [VLAN, Empty];
    } else {
      var e := After(TRILL, d);
      OpenSteps(d, w);
      OpenSteps(e, w);
      var rest := Deep(0, e.trill);
      DeepWalk(e, w);
      StepWalk(ETH, e, w, rest);
      StepWalk(TRILL, d, w, [ETH] + rest);
      StepWalk(VLAN, c, w, [TRILL] + ([ETH] + rest));
      assert [VLAN] + ([TRILL] + ([ETH] + rest)) == [VLAN, TRILL, ETH] + rest;
    }
  }

  lemma EmptyCount()
    ensures Count(VLAN, [Empty]) == 0
  {
  }

  // With every weight positive, a path reaches the VLAN bound.
  lemma VlanBoundReached(w: Constraints, c: Counters)
    requires AllOpen(w)
    ensures [ETH] + Deep(c.vlan, c.trill) in Paths(ETH, c, w)
    ensures Count(VLAN, [ETH] + Deep(c.vlan, c.trill)) == AtLeastOne(c.vlan) + c.trill
  {
    hide Paths, IsWalk, Count, Deep, Follows;
    OpenSteps(c, w);
    DeepWalk(c, w);
    StepWalk(ETH, c, w, Deep(c.vlan, c.trill));
    PathsAreWalks(ETH, c, w, [ETH] + Deep(c.vlan, c.trill));
  }

  // As many TRILL, MPLS and extension headers as the counters allow.
  function ExtPart(k: nat): Path {
    if k > 1 then [IPv6Ext] + ExtPart(k - 1) else [IPv6Ext] + [Empty]
  }

  function MplsPart(n: nat, k: nat): Path {
    if n > 1 then [MPLS] + MplsPart(n - 1, k) else [MPLS] + ([IPv6] + ExtPart(k))
  }

  function TrillPart(t: nat, n: nat, k: nat): Path {
    if t > 0 then [ETH] + ([TRILL] + TrillPart(t - 1, n, k)) else [ETH] + MplsPart(n, k)
  }

  lemma OpenEdges(c: Counters, w: Constraints)
    requires AllOpen(w)
    ensures Follows(ETH, MPLS, c, w) && Follows(TRILL, ETH, c, w) && (c.trill > 0 ==> Follows(ETH, TRILL, c, w))
    ensures (c.mpls > 1 ==> Follows(MPLS, MPLS, c, w)) && Follows(MPLS, IPv6, c, w) && Follows(IPv6, IPv6Ext, c, w)
    ensures (c.ipv6ext > 1 ==> Follows(IPv6Ext, IPv6Ext, c, w)) && Follows(IPv6Ext, Empty, c, w)
  {
    hide UserWeight;
    assert forall p, q :: UserWeight(p, q, w) > 0;
  }

  lemma EmptyCounts()
    ensures forall q :: Count(q, [Empty]) == if q == Empty then 1 else 0
  {
  }

  lemma {:induction false} ExtWalk(c: Counters, w: Constraints)
    requires AllOpen(w)
    ensures var path := ExtPart(c.ipv6ext);
      && path != [] && path[0] == IPv6Ext && IsWalk(IPv6Ext, c, w, path)
      && Count(IPv6Ext, path) == AtLeastOne(c.ipv6ext) && Count(MPLS, path) == Count(TRILL, path) == 0
    decreases c.ipv6ext
  {
    hide IsWalk, Count, Follows;
    OpenEdges(c, w);
    if c.ipv6ext > 1 {
      ExtWalk(After(IPv6Ext, c), w);
      StepWalk(IPv6Ext, c, w, ExtPart(c.ipv6ext - 1));
    } else {
      EndsInEmpty(After(IPv6Ext, c), w);
      EmptyCounts();
      StepWalk(IPv6Ext, c, w, [Empty]);
    }
  }

  lemma {:induction false} MplsWalk(c: Counters, w: Constraints)
    requires AllOpen(w)
    ensures var path := MplsPart(c.mpls, c.ipv6ext);
      && path != [] && path[0] == MPLS && IsWalk(MPLS, c, w, path)
      && Count(IPv6Ext, path) == AtLeastOne(c.ipv6ext) && Count(MPLS, path) == AtLeastOne(c.mpls)
      && Count(TRILL, path) == 0
    decreases c.mpls
  {
    hide IsWalk, Count, Follows, ExtPart;
    OpenEdges(c, w);
    if c.mpls > 1 {
      MplsWalk(After(MPLS, c), w);
      StepWalk(MPLS, c, w, MplsPart(c.mpls - 1, c.ipv6ext));
    } else {
      var d := After(MPLS, c);
      OpenEdges(d, w);
      ExtWalk(d, w);
      StepWalk(IPv6, d, w, ExtPart(c.ipv6ext));
      StepWalk(MPLS, c, w, [IPv6] + ExtPart(c.ipv6ext));
    }
  }

  lemma {:induction false} TrillWalk(c: Counters, w: Constraints)
    requires AllOpen(w)
    ensures var path := TrillPart(c.trill, c.mpls, c.ipv6ext);
      && path != [] && path[0] == ETH && IsWalk(ETH, c, w, path)
      && Count(IPv6Ext, path) == AtLeastOne(c.ipv6ext) && Count(MPLS, path) == AtLeastOne(c.mpls)
      && Count(TRILL, path) == c.trill
    decreases c.trill
  {
    hide IsWalk, Count, Follows, MplsPart;
    OpenEdges(c, w);
    if c.trill > 0 {
      TrillWalk(After(TRILL, c), w);
      StepWalk(TRILL, c, w, TrillPart(c.trill - 1, c.mpls, c.ipv6ext));
      StepWalk(ETH, c, w, [TRILL] + TrillPart(c.trill - 1, c.mpls, c.ipv6ext));
    } else {
      MplsWalk(c, w);
      StepWalk(ETH, c, w, MplsPart(c.mpls, c.ipv6ext));
    }
  }

  // With every weight positive, one path reaches the other three bounds at once.
  lemma BoundsReached(w: Constraints, c: Counters) returns (path: Path)
    requires AllOpen(w)
    ensures path in Paths(ETH, c, w)
    ensures Count(TRILL, path) == c.trill && Count(MPLS, path) == AtLeastOne(c.mpls)
    ensures Count(IPv6Ext, path) == AtLeastOne(c.ipv6ext)
  {
    hide Paths, IsWalk, Count;
    path := TrillPart(c.trill, c.mpls, c.ipv6ext);
    TrillWalk(c, w);
    PathsAreWalks(ETH, c, w, path);
  }

  // So the bounds for a packet are reached, too.
  lemma PacketBoundsReached(w: Constraints) returns (path: Path, vlans: Path)
    requires AllOpen(w)
    ensures path in Paths(ETH, Initial(w), w) && vlans in Paths(ETH, Initial(w), w)
    ensures Count(TRILL, path) == 1 && Count(IPv6Ext, path) == 4
    ensures Count(MPLS, path) == AtLeastOne(if w.mplsMax.Some? then w.mplsMax.value else 4)
    ensures Count(VLAN, vlans) == AtLeastOne(if w.vlanMax.Some? then w.vlanMax.value else 4) + 1
  {
    hide Paths, Count;
    path := BoundsReached(w, Initial(w));
    vlans := [ETH] + Deep(Initial(w).vlan, Initial(w).trill);
    VlanBoundReached(w, Initial(w));
  }

  // ---------------------------------------------------------------- every path can be finished

  lemma {:induction false} PathsExist(p: Proto, c: Counters, w: Constraints)
    ensures Paths(p, c, w) != []
    decreases c.trill, Rank(p, c), Depth(p, c)
  {
    hide After;
    var s := Succ(p, c, w);
    if s != [] {
      hide Succ;
      SuccIs(p, c, w);
      assert s[0] in s;
      StepDrops(p, s[0], c, w);
      PathsExist(s[0], After(p, c), w);
    }
  }

  // ---------------------------------------------------------------- what the settings switch off

  // The counters after the first i protocols of a path.
  function Along(path: Path, c: Counters, i: nat): Counters
    requires i <= |path|
  {
    if i == 0 then c else After(path[i - 1], Along(path, c, i - 1))
  }

  lemma {:induction false} AlongTail(path: Path, c: Counters, i: nat)
    requires path != [] && i <= |path| - 1
    ensures Along(path[1..], After(path[0], c), i) == Along(path, c, i + 1)
    decreases i
  {
    hide After;
    if i > 0 { AlongTail(path, c, i - 1); } else { AlongOne(path, c); }
  }

  lemma AlongOne(path: Path, c: Counters)
    requires path != []
    ensures Along(path, c, 1) == After(path[0], c)
  {
    hide After;
    assert Along(path, c, 0) == c;
  }

  // Every step of a walk is an open edge under the counters it has by then.
  lemma {:induction false} WalkStep(p: Proto, c: Counters, w: Constraints, path: Path, i: nat)
    requires IsWalk(p, c, w, path) && i < |path| - 1
    ensures Follows(path[i], path[i + 1], Along(path, c, i), w)
    decreases i
  {
    hide Follows, After;
    if i > 0 {
      WalkStep(path[1], After(p, c), w, path[1..], i - 1);
      AlongTail(path, c, i - 1);
    }
  }

  lemma {:induction false} CountPrefix(q: Proto, path: Path, i: nat)
    requires i < |path|
    ensures Count(q, path[..i + 1]) == Count(q, path[..i]) + if path[i] == q then 1 else 0
    decreases i
  {
    if i == 0 {
      assert path[..1] == [path[0]] && path[..1][1..] == [] && path[..0] == [];
    } else {
      CountPrefix(q, path[1..], i - 1);
      assert path[..i + 1][1..] == path[1..][..i] && path[..i][1..] == path[1..][..i - 1];
    }
  }

  lemma {:induction false} AlongMpls(path: Path, c: Counters, i: nat)
    requires i <= |path|
    ensures Along(path, c, i).mpls == if Count(MPLS, path[..i]) < c.mpls then c.mpls - Count(MPLS, path[..i]) else 0
    decreases i
  {
    if i > 0 {
      AlongMpls(path, c, i - 1);
      CountPrefix(MPLS, path, i - 1);
    } else {
      assert path[..0] == [];
    }
  }

  // No path takes an edge the user weighs 0, but from the last MPLS header to IP.
  lemma ZeroWeightUnused(w: Constraints, c: Counters, path: Path, i: nat)
    requires path in Paths(ETH, c, w) && i < |path| - 1
    requires path[i] != TRILL && Given(w, path[i], path[i + 1]) && w.weights[path[i]][path[i + 1]] == 0
    ensures path[i] == MPLS && path[i + 1] in {IPv4, IPv6} && Count(MPLS, path[..i + 1]) >= c.mpls
  {
    hide Paths, IsWalk;
    PathsAreWalks(ETH, c, w, path);
    WalkStep(ETH, c, w, path, i);
    AlongMpls(path, c, i);
    CountPrefix(MPLS, path, i);
    hide Along, Count, Edges;
  }

  // An input: with VLAN switched off after ETH, that packet is not among the paths.
  lemma SwitchedOffInput()
    ensures var w := Constraints(map[ETH := map[VLAN := 0]], None, None);
      [ETH, VLAN, Empty] !in Paths(ETH, Initial(w), w) && [ETH, IPv4, Payload] in Paths(ETH, Initial(w), w)
  {
    hide Paths;
    var w := Constraints(map[ETH := map[VLAN := 0]], None, None);
    var c := Initial(w);
    if [ETH, VLAN, Empty] in Paths(ETH, c, w) { ZeroWeightUnused(w, c, [ETH, VLAN, Empty], 0); }
    assert Payload in Edges(IPv4) && IPv4 in Edges(ETH);
    assert IsWalk(Payload, c, w, [Payload]);
    StepWalk(IPv4, c, w, [Payload]);
    StepWalk(ETH, c, w, [IPv4, Payload]);
    assert [ETH] + [IPv4, Payload] == [ETH, IPv4, Payload] && [IPv4] + [Payload] == [IPv4, Payload];
    PathsAreWalks(ETH, c, w, [ETH, IPv4, Payload]);
  }
}
