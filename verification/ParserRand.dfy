// The random-walk generator.
module ParserRand {
  import opened Options
  import opened ProtocolGraph
  import opened ProtocolPaths

  // The names in `done` lead from ETH to protocol p with counters c: whatever walk goes on
  // from there makes a walk from ETH.
  ghost predicate LeadsTo(w: Constraints, done: Path, p: Proto, c: Counters) {
    forall t :: IsWalk(p, c, w, t) ==> IsWalk(ETH, Initial(w), w, done + t)
  }

  lemma LeadsNowhereYet(w: Constraints)
    ensures LeadsTo(w, [], ETH, Initial(w))
  {
    hide IsWalk;
    forall t: Path
      ensures [] + t == t
    {
    }
  }

  lemma LeadsOn(w: Constraints, done: Path, p: Proto, c: Counters, q: Proto)
    requires LeadsTo(w, done, p, c) && Follows(p, q, c, w)
    ensures LeadsTo(w, done + [p], q, After(p, c))
  {
    hide IsWalk, After, Follows;
    forall t | IsWalk(q, After(p, c), w, t)
      ensures IsWalk(ETH, Initial(w), w, done + [p] + t)
    {
      WalkStarts(q, After(p, c), w, t);
      StepWalk(p, c, w, t);
      assert done + ([p] + t) == done + [p] + t;
    }
  }

  lemma LeadsToEnd(w: Constraints, done: Path, p: Proto, c: Counters)
    requires LeadsTo(w, done, p, c) && forall q :: !Follows(p, q, c, w)
    ensures done + [p] in Paths(ETH, Initial(w), w)
  {
    hide Follows, Paths;
    assert IsWalk(p, c, w, [p]);
    hide IsWalk;
    PathsAreWalks(ETH, Initial(w), w, done + [p]);
  }

  // The walk came to p with counters c, where edges exist but all of them weigh nothing.
  ghost predicate Stuck(w: Constraints, path: Path, p: Proto, c: Counters) {
    path != [] && path[|path| - 1] == p && Edges(p) != [] && forall q :: q in Edges(p) ==> Weight(p, q, c, w) == 0
  }

  // proto_weight_get: the keys of a table and their weights.
  method ProtoWeightGet(t: Table) returns (proto: seq<Proto>, weight: seq<nat>)
    requires t.Valid()
    ensures proto == t.names && |weight| == |proto| && forall i :: 0 <= i < |proto| ==> weight[i] == t.weight[proto[i]]
  {
    proto, weight := [], [];
    for i := 0 to |t.names|
      invariant proto == t.names[..i] && |weight| == i
      invariant forall j :: 0 <= j < i ==> weight[j] == t.weight[proto[j]]
    {
      proto := proto + [t.names[i]];
      weight := weight + [t.weight[t.names[i]]];
    }
  }

  // random.choices for one element: an error if all weights are zero.
  method Choices(proto: seq<Proto>, weight: seq<nat>) returns (r: Option<Proto>)
    requires |proto| == |weight|
    ensures r.None? <==> forall i :: 0 <= i < |weight| ==> weight[i] == 0
    ensures r.Some? ==> exists i :: 0 <= i < |weight| && weight[i] > 0 && r.value == proto[i]
  {
    if exists i :: 0 <= i < |weight| && weight[i] > 0 {
      var i :| 0 <= i < |weight| && weight[i] > 0;
      r := Some(proto[i]);
    } else {
      r := None;
    }
  }

  class Generator {
    const cfg: Constraints
    const packets: nat
    // The protocol names of each packet written.
    var written: seq<Path>

    constructor (cfg: Constraints, packets: nat)
      ensures this.cfg == cfg && this.packets == packets && written == []
    {
      this.cfg := cfg;
      this.packets := packets;
      written := [];
    }

    // The while loop of gen: one packet. A walk that cannot go on is an error; up to there
    // it is one of the paths, too.
    method Walk() returns (ok: bool, packet: Path, ghost p: Proto, ghost c: Counters)
      requires cfg.Reweights()
      ensures packet in Paths(ETH, Initial(cfg), cfg)
      ensures !ok ==> Stuck(cfg, packet, p, c)
      ensures ok ==> packet != [] && Edges(packet[|packet| - 1]) == []
    {
      hide IsWalk, Paths, Weight, Edges, After, Rank, Depth, LeadsTo, Initial;
      var config := new PacketConfig(cfg);
      var protoAct := Some(ETH);
      packet := [];
      p, c := ETH, config.Depths();
      LeadsNowhereYet(cfg);
      while protoAct.Some?
        invariant protoAct.Some? ==> c == config.Depths() && LeadsTo(cfg, packet, protoAct.value, c)
        invariant protoAct.None? ==>
          packet in Paths(ETH, Initial(cfg), cfg) && packet != [] && Edges(packet[|packet| - 1]) == []
        invariant fresh(config) && config.constraints == cfg
        decreases protoAct.Some?, c.trill, if protoAct.Some? then Rank(protoAct.value, c) else 0,
          if protoAct.Some? then Depth(protoAct.value, c) else 0
      {
        p := protoAct.value;
        c := config.Depths();
        ghost var done := packet;
        packet := packet + [protoAct.value];
        var protoNext := ProtocolNext(protoAct.value, config);
        if |protoNext.names| > 0 {
          var indexes, weights := ProtoWeightGet(protoNext);
          var choice := Choices(indexes, weights);
          if choice.None? {
            StuckHere(p, protoNext, cfg, c, weights);
            LeadsToEnd(cfg, done, p, c);
            return false, packet, p, c;
          }
          ChoiceFollows(p, choice.value, protoNext, cfg, c, weights);
          LeadsOn(cfg, done, p, c, choice.value);
          StepDrops(p, choice.value, c, cfg);
          protoAct := choice;
          c := After(p, c);
        } else {
          LeadsToEnd(cfg, done, p, c);
          protoAct := None;
        }
      }
      ok := true;
    }

    // gen: the given number of packets, each a path; an error ends it early.
    method Gen() returns (ok: bool)
      requires cfg.Reweights()
      modifies this
      ensures old(written) <= written && |written| <= |old(written)| + packets
      ensures ok <==> |written| == |old(written)| + packets
      ensures forall i :: |old(written)| <= i < |written| ==>
        written[i] in Paths(ETH, Initial(cfg), cfg) && written[i] != [] && Edges(written[i][|written[i]| - 1]) == []
      ensures !ok ==> exists path, p, c :: path in Paths(ETH, Initial(cfg), cfg) && Stuck(cfg, path, p, c)
    {
      hide Paths, Stuck, Edges, Initial;
      for x := 0 to packets
        invariant old(written) <= written && |written| == |old(written)| + x
        invariant forall i :: |old(written)| <= i < |written| ==>
          written[i] in Paths(ETH, Initial(cfg), cfg) && written[i] != [] && Edges(written[i][|written[i]| - 1]) == []
      {
        ghost var p, c;
        var packet: Path;
        ok, packet, p, c := Walk();
        if !ok {
          return;
        }
        written := written + [packet];
      }
      ok := true;
    }
  }

  lemma StuckHere(p: Proto, t: Table, w: Constraints, c: Counters, weights: seq<nat>)
    requires t.Valid() && t.names == Edges(p) && t.names != []
    requires forall q :: q in Edges(p) ==> t.weight[q] == Weight(p, q, c, w)
    requires |weights| == |t.names|
    requires forall i :: 0 <= i < |weights| ==> weights[i] == t.weight[t.names[i]] && weights[i] == 0
    ensures forall q :: q in Edges(p) ==> Weight(p, q, c, w) == 0
    ensures forall q :: !Follows(p, q, c, w)
  {
    hide Weight, Edges;
  }

  lemma ChoiceFollows(p: Proto, q: Proto, t: Table, w: Constraints, c: Counters, weights: seq<nat>)
    requires t.Valid() && t.names == Edges(p)
    requires forall q :: q in Edges(p) ==> t.weight[q] == Weight(p, q, c, w)
    requires |weights| == |t.names| && forall i :: 0 <= i < |weights| ==> weights[i] == t.weight[t.names[i]]
    requires exists i :: 0 <= i < |weights| && weights[i] > 0 && q == t.names[i]
    ensures Follows(p, q, c, w)
  {
    hide Weight, Edges;
  }

  // Where a walk cannot get stuck: with all weights positive anywhere, and after TRILL and
  // the last MPLS header whatever the weights.
  lemma NeverStuck(p: Proto, c: Counters, w: Constraints)
    requires Edges(p) != [] && (AllOpen(w) || p == TRILL || (p == MPLS && c.mpls <= 1))
    ensures forall path :: !Stuck(w, path, p, c)
  {
    var q := if p == TRILL then ETH else if p == MPLS then IPv4 else Empty;
    assert q in Edges(p) && Weight(p, q, c, w) > 0 by { assert AllOpen(w) ==> UserWeight(p, q, w) > 0; }
  }
}
