// The protocol graph of the packet generator: which protocol may follow which, and how the
// depth counters of a packet bound the walk through it.
module ProtocolGraph {
  import opened Options

  datatype Proto =
    | ETH | VLAN | TRILL | PPP | MPLS | IPv6 | IPv6Ext | IPv4
    | TCP | UDP | ICMPv6 | ICMPv4 | SCTP | Payload | Empty

  // User settings: weights of edges, and the stack depths for MPLS and VLAN.
  datatype Constraints = Constraints(weights: map<Proto, map<Proto, nat>>, mplsMax: Option<nat>, vlanMax: Option<nat>) {
    // The user changes weights of edges the graph has.
    ghost predicate Reweights() {
      forall p | p in weights :: forall q | q in weights[p] :: q in Edges(p)
    }
  }

  datatype Counters = Counters(trill: nat, vlan: nat, mpls: nat, ipv6ext: nat)

  // A dict of weights: names in insertion order and their weights.
  datatype Table = Table(names: seq<Proto>, weight: map<Proto, nat>) {
    ghost predicate Valid() {
      forall q :: q in names ==> q in weight
    }

    // Setting a key that is present.
    function Put(q: Proto, n: nat): Table {
      Table(names, weight[q := n])
    }
  }

  // The keys of each protocol's table, in order.
  function Edges(p: Proto): seq<Proto> {
    match p
    case ETH => [IPv4, IPv6, VLAN, TRILL, MPLS, Empty, PPP]
    case VLAN => [IPv4, IPv6, VLAN, TRILL, MPLS, Empty, PPP]
    case TRILL => [ETH]
    case PPP => [IPv4, IPv6, MPLS, Empty]
    case MPLS => [IPv4, IPv6, MPLS, Empty]
    case IPv6 => [Payload, Empty, ICMPv4, ICMPv6, UDP, TCP, SCTP, IPv6Ext]
    case IPv6Ext => [Payload, Empty, ICMPv4, ICMPv6, UDP, TCP, SCTP, IPv6Ext]
    case IPv4 => [Payload, Empty, ICMPv4, UDP, TCP, SCTP]
    case UDP => [Empty, Payload]
    case TCP => [Empty, Payload]
    case SCTP => [Empty, Payload]
    case _ => []
  }

  // ---------------------------------------------------------------- what a step does

  function Dec(n: nat): nat {
    if n == 0 then 0 else n - 1
  }

  // The counters a protocol leaves to its successor.
  function After(p: Proto, c: Counters): Counters {
    match p
    case TRILL => c.(trill := Dec(c.trill))
    case VLAN => c.(vlan := Dec(c.vlan))
    case MPLS => c.(mpls := Dec(c.mpls))
    case IPv6Ext => c.(ipv6ext := Dec(c.ipv6ext))
    case _ => c
  }

  // The user's settings name a weight for the edge.
  predicate Given(w: Constraints, p: Proto, q: Proto) {
    p in w.weights && q in w.weights[p]
  }

  // The weight the user gives an edge; TRILL takes no settings.
  function UserWeight(p: Proto, q: Proto, w: Constraints): nat {
    if p != TRILL && Given(w, p, q) then w.weights[p][q] else 1
  }

  // An exhausted counter closes the edge it guards.
  predicate Closed(p: Proto, q: Proto, c: Counters) {
    || (p == VLAN && q == VLAN && c.vlan <= 1)
    || (p == MPLS && q == MPLS && c.mpls <= 1)
    || (p == IPv6Ext && q == IPv6Ext && c.ipv6ext <= 1)
    || (q == TRILL && c.trill == 0)
  }

  // The final weight of the edge from p to q: the last MPLS header favours IP.
  function Weight(p: Proto, q: Proto, c: Counters, w: Constraints): nat {
    if Closed(p, q, c) then 0
    else UserWeight(p, q, w) + if p == MPLS && c.mpls <= 1 && (q == IPv4 || q == IPv6) then 1 else 0
  }

  // The successors a packet can have.
  ghost predicate Follows(p: Proto, q: Proto, c: Counters, w: Constraints) {
    q in Edges(p) && Weight(p, q, c, w) > 0
  }

  // The names of a table with a weight, in order: the loop of dfs_item.__init__.
  function Positive(names: seq<Proto>, weight: map<Proto, nat>): seq<Proto>
    requires forall q :: q in names ==> q in weight
  {
    if names == [] then []
    else Positive(names[..|names| - 1], weight) + if weight[names[|names| - 1]] != 0 then [names[|names| - 1]] else []
  }

  function Weights(p: Proto, c: Counters, w: Constraints): (t: Table)
    ensures t.Valid()
  {
    Table(Edges(p), map q: Proto | q in Edges(p) :: Weight(p, q, c, w))
  }

  function Succ(p: Proto, c: Counters, w: Constraints): seq<Proto> {
    Positive(Edges(p), Weights(p, c, w).weight)
  }

  ghost predicate NoDup<T(!new)>(s: seq<T>) {
    forall i, j :: 0 <= i < j < |s| ==> s[i] != s[j]
  }

  lemma {:induction false} PositiveIs(names: seq<Proto>, weight: map<Proto, nat>)
    requires forall q :: q in names ==> q in weight
    ensures forall q :: q in Positive(names, weight) <==> q in names && weight[q] != 0
    ensures NoDup(names) ==> NoDup(Positive(names, weight))
  {
    if names != [] {
      var n := |names| - 1;
      assert names == names[..n] + [names[n]];
      PositiveIs(names[..n], weight);
    }
  }

  // The names that weigh something keep their order.
  lemma {:induction false} PositiveInOrder(a: seq<Proto>, b: seq<Proto>, weight: map<Proto, nat>)
    requires forall q :: q in a + b ==> q in weight
    ensures Positive(a + b, weight) == Positive(a, weight) + Positive(b, weight)
  {
    if b == [] {
      assert a + b == a;
    } else {
      var n := |b| - 1;
      assert (a + b)[..|a| + n] == a + b[..n];
      PositiveInOrder(a, b[..n], weight);
    }
  }

  lemma PositiveOne(q: Proto, weight: map<Proto, nat>)
    requires q in weight
    ensures Positive([q], weight) == if weight[q] != 0 then [q] else []
  {
    assert [q][..0] == [];
  }

  lemma EdgesDistinct(p: Proto)
    ensures NoDup(Edges(p))
  {
  }

  lemma SuccIs(p: Proto, c: Counters, w: Constraints)
    ensures forall q :: q in Succ(p, c, w) <==> Follows(p, q, c, w)
    ensures NoDup(Succ(p, c, w))
  {
    PositiveIs(Edges(p), Weights(p, c, w).weight);
    EdgesDistinct(p);
  }

  // What an edge weighs: nothing where a counter is spent, and else what the settings say or
  // 1, with 1 more for IP after the last MPLS header. TRILL ignores the settings.
  lemma WeightIs(p: Proto, q: Proto, c: Counters, w: Constraints)
    requires q in Edges(p)
    ensures q == TRILL && c.trill == 0 ==> Weight(p, q, c, w) == 0
    ensures p == q == VLAN && c.vlan <= 1 ==> Weight(p, q, c, w) == 0
    ensures p == q == MPLS && c.mpls <= 1 ==> Weight(p, q, c, w) == 0
    ensures p == q == IPv6Ext && c.ipv6ext <= 1 ==> Weight(p, q, c, w) == 0
    ensures p == TRILL ==> q == ETH && Weight(p, q, c, w) == 1
    ensures p != TRILL && (q == TRILL ==> c.trill > 0) && (p == q ==> Depth(p, c) > 1) ==>
      Weight(p, q, c, w) == (if Given(w, p, q) then w.weights[p][q] else 1)
        + (if p == MPLS && c.mpls <= 1 && q in {IPv4, IPv6} then 1 else 0)
  {
  }

  // The table from the other side: which protocols lead to one.
  function Into(q: Proto): set<Proto> {
    match q
    case ETH => {TRILL}
    case VLAN => {ETH, VLAN}
    case TRILL => {ETH, VLAN}
    case PPP => {ETH, VLAN}
    case MPLS => {ETH, VLAN, PPP, MPLS}
    case IPv4 => {ETH, VLAN, PPP, MPLS}
    case IPv6 => {ETH, VLAN, PPP, MPLS}
    case IPv6Ext => {IPv6, IPv6Ext}
    case ICMPv6 => {IPv6, IPv6Ext}
    case ICMPv4 => {IPv4, IPv6, IPv6Ext}
    case TCP => {IPv4, IPv6, IPv6Ext}
    case UDP => {IPv4, IPv6, IPv6Ext}
    case SCTP => {IPv4, IPv6, IPv6Ext}
    case Payload => {IPv4, IPv6, IPv6Ext, TCP, UDP, SCTP}
    case Empty => {ETH, VLAN, PPP, MPLS, IPv4, IPv6, IPv6Ext, TCP, UDP, SCTP}
  }

  lemma EdgesInto(p: Proto, q: Proto)
    ensures q in Edges(p) <==> p in Into(q)
  {
    if q in Edges(p) { EdgeComes(p, q); }
    if p in Into(q) { EdgeGoes(p, q); }
  }

  // Tables that are alike, in their order, too.
  lemma EdgesAlike()
    ensures Edges(VLAN) == Edges(ETH) && Edges(PPP) == Edges(MPLS) && Edges(TCP) == Edges(UDP) == Edges(SCTP)
    ensures Edges(IPv6Ext) == Edges(IPv6) == Edges(IPv4)[..3] + [ICMPv6] + Edges(IPv4)[3..] + [IPv6Ext]
    ensures Edges(ETH)[..2] + [MPLS, Empty] == Edges(PPP) && Edges(ETH)[2..] == [VLAN, TRILL] + Edges(PPP)[2..] + [PPP]
  {
  }

  lemma EdgeComes(p: Proto, q: Proto)
    requires q in Edges(p)
    ensures p in Into(q)
  {
  }

  lemma EdgeGoes(p: Proto, q: Proto)
    requires p in Into(q)
    ensures q in Edges(p)
  {
  }

  // ---------------------------------------------------------------- termination

  // The order in which protocols appear in a packet; a spent TRILL comes before all.
  function Rank(p: Proto, c: Counters): nat {
    match p
    case TRILL => if c.trill == 0 then 9 else 6
    case ETH => 8
    case VLAN => 7
    case PPP => 5
    case MPLS => 4
    case IPv6 => 3
    case IPv6Ext => 2
    case IPv4 => 2
    case UDP => 1
    case TCP => 1
    case SCTP => 1
    case _ => 0
  }

  // The counter that bounds a protocol following itself.
  function Depth(p: Proto, c: Counters): nat {
    match p
    case VLAN => c.vlan
    case MPLS => c.mpls
    case IPv6Ext => c.ipv6ext
    case _ => 0
  }

  // Lexicographically smaller (trill, rank, depth).
  predicate Lower(q: Proto, d: Counters, p: Proto, c: Counters) {
    || d.trill < c.trill
    || (d.trill == c.trill && Rank(q, d) < Rank(p, c))
    || (d.trill == c.trill && Rank(q, d) == Rank(p, c) && Depth(q, d) < Depth(p, c))
  }

  // Every step makes it smaller, whatever the weights.
  lemma StepDrops(p: Proto, q: Proto, c: Counters, w: Constraints)
    requires Follows(p, q, c, w)
    ensures Lower(q, After(p, c), p, c)
  {
  }

  // ---------------------------------------------------------------- how many headers are left

  function AtLeastOne(n: nat): nat {
    if n == 0 then 1 else n
  }

  // Headers of kind q that can still come from protocol p on.
  function Left(q: Proto, p: Proto, c: Counters): nat {
    match q
    case TRILL => if p == TRILL then AtLeastOne(c.trill) else if p == ETH || p == VLAN then c.trill else 0
    case VLAN =>
      if p == ETH || p == VLAN then AtLeastOne(c.vlan) + c.trill
      else if p == TRILL then AtLeastOne(c.vlan) + Dec(c.trill)
      else 0
    case MPLS => if p in [ETH, VLAN, TRILL, PPP, MPLS] then AtLeastOne(c.mpls) else 0
    case IPv6Ext => if p in [ETH, VLAN, TRILL, PPP, MPLS, IPv6, IPv6Ext] then AtLeastOne(c.ipv6ext) else 0
    case _ => 0
  }

  predicate Counted(q: Proto) {
    q == TRILL || q == VLAN || q == MPLS || q == IPv6Ext
  }

  lemma LeftDrops(q: Proto, p: Proto, r: Proto, c: Counters, w: Constraints)
    requires Counted(q) && Follows(p, r, c, w)
    ensures Left(q, r, After(p, c)) + (if p == q then 1 else 0) <= Left(q, p, c)
  {
    hide *;
    OpenEdge(p, r, c, w);
    match q
    case TRILL => TrillDrops(p, r, c);
    case VLAN => VlanDrops(p, r, c);
    case MPLS => MplsDrops(p, r, c);
    case IPv6Ext => IPv6ExtDrops(p, r, c);
    case _ => CountedIs(q);
  }

  // What may still come covers this header and what may come after it, of every kind.
  ghost predicate Spends(p: Proto, c: Counters, q: Proto, d: Counters) {
    forall k :: Counted(k) ==> Left(k, q, d) + (if p == k then 1 else 0) <= Left(k, p, c)
  }

  lemma CountedIs(q: Proto)
    requires Counted(q)
    ensures q in [TRILL, VLAN, MPLS, IPv6Ext]
  {
  }

  lemma OpenEdge(p: Proto, r: Proto, c: Counters, w: Constraints)
    requires Follows(p, r, c, w)
    ensures r in Edges(p) && !Closed(p, r, c)
  {
    hide Edges, Closed;
  }

  lemma TrillDrops(p: Proto, r: Proto, c: Counters)
    requires r in Edges(p) && !Closed(p, r, c)
    ensures Left(TRILL, r, After(p, c)) + (if p == TRILL then 1 else 0) <= Left(TRILL, p, c)
  {
  }

  lemma VlanDrops(p: Proto, r: Proto, c: Counters)
    requires r in Edges(p) && !Closed(p, r, c)
    ensures Left(VLAN, r, After(p, c)) + (if p == VLAN then 1 else 0) <= Left(VLAN, p, c)
  {
  }

  lemma MplsDrops(p: Proto, r: Proto, c: Counters)
    requires r in Edges(p) && !Closed(p, r, c)
    ensures Left(MPLS, r, After(p, c)) + (if p == MPLS then 1 else 0) <= Left(MPLS, p, c)
  {
  }

  lemma IPv6ExtDrops(p: Proto, r: Proto, c: Counters)
    requires r in Edges(p) && !Closed(p, r, c)
    ensures Left(IPv6Ext, r, After(p, c)) + (if p == IPv6Ext then 1 else 0) <= Left(IPv6Ext, p, c)
  {
  }

  lemma LeftHere(q: Proto, c: Counters)
    requires Counted(q)
    ensures Left(q, q, c) >= 1
  {
  }

  // ---------------------------------------------------------------- the configuration object

  class PacketConfig {
    var trill: nat
    var vlan: nat
    var mpls: nat
    var ipv6ext: nat
    const constraints: Constraints

    function Depths(): Counters
      reads this
    {
      Counters(trill, vlan, mpls, ipv6ext)
    }

    constructor (constraints: Constraints)
      ensures this.constraints == constraints && Depths() == Initial(constraints)
    {
      trill, vlan, mpls, ipv6ext := 1, 4, 4, 4;
      this.constraints := constraints;
      new;
      if constraints.mplsMax.Some? { mpls := constraints.mplsMax.value; }
      if constraints.vlanMax.Some? { vlan := constraints.vlanMax.value; }
    }

    method Copy() returns (ret: PacketConfig)
      ensures fresh(ret) && ret.constraints == constraints && ret.Depths() == Depths()
    {
      ret := new PacketConfig(constraints);
      ret.trill := trill;
      ret.vlan := vlan;
      ret.mpls := mpls;
      ret.ipv6ext := ipv6ext;
    }
  }

  // The counters a packet starts with.
  function Initial(w: Constraints): Counters {
    Counters(1, if w.vlanMax.Some? then w.vlanMax.value else 4, if w.mplsMax.Some? then w.mplsMax.value else 4, 4)
  }

  // ---------------------------------------------------------------- protocol_next

  // The default table, updated with the user's weights.
  method BaseTable(p: Proto, config: PacketConfig) returns (t: Table)
    requires config.constraints.Reweights()
    ensures t.Valid() && t.names == Edges(p)
    ensures forall q :: q in Edges(p) ==> t.weight[q] == UserWeight(p, q, config.constraints)
    ensures forall q :: q in Edges(p) ==>
      t.weight[q] == if p != TRILL && Given(config.constraints, p, q) then config.constraints.weights[p][q] else 1
  {
    t := Table(Edges(p), map q: Proto | q in Edges(p) :: 1);
    if p != TRILL && p in config.constraints.weights {
      t := Table(t.names, t.weight + config.constraints.weights[p]);
    }
  }

  // What protocol_next promises: the table of weights, and the counters moved on.
  ghost predicate Answers(p: Proto, t: Table, w: Constraints, before: Counters, after: Counters) {
    && t.Valid() && t.names == Edges(p)
    && (forall q :: q in Edges(p) ==> t.weight[q] == Weight(p, q, before, w))
    && after == After(p, before)
  }

  method TrillNext(config: PacketConfig) returns (t: Table)
    requires config.constraints.Reweights()
    modifies config
    ensures Answers(TRILL, t, config.constraints, old(config.Depths()), config.Depths())
  {
    if config.trill != 0 { config.trill := config.trill - 1; }
    t := BaseTable(TRILL, config);
  }

  method IPv6ExtNext(config: PacketConfig) returns (t: Table)
    requires config.constraints.Reweights()
    modifies config
    ensures Answers(IPv6Ext, t, config.constraints, old(config.Depths()), config.Depths())
  {
    t := BaseTable(IPv6Ext, config);
    if config.ipv6ext != 0 { config.ipv6ext := config.ipv6ext - 1; }
    if config.ipv6ext == 0 { t := t.Put(IPv6Ext, 0); }
  }

  method MplsNext(config: PacketConfig) returns (t: Table)
    requires config.constraints.Reweights()
    modifies config
    ensures Answers(MPLS, t, config.constraints, old(config.Depths()), config.Depths())
  {
    hide Edges, UserWeight, Weight;
    t := BaseTable(MPLS, config);
    if config.mpls != 0 { config.mpls := config.mpls - 1; }
    if config.mpls == 0 {
      MplsEdges();
      t := t.Put(MPLS, 0);
      t := t.Put(IPv4, t.weight[IPv4] + 1);
      t := t.Put(IPv6, t.weight[IPv6] + 1);
    }
    forall q | q in Edges(MPLS)
      ensures t.weight[q] == Weight(MPLS, q, old(config.Depths()), config.constraints)
    {
      MplsWeight(q, old(config.Depths()), config.constraints);
    }
  }

  lemma MplsEdges()
    ensures IPv4 in Edges(MPLS) && IPv6 in Edges(MPLS)
  {
  }

  lemma MplsWeight(q: Proto, c: Counters, w: Constraints)
    requires q in Edges(MPLS)
    ensures q in [IPv4, IPv6, MPLS, Empty]
    ensures c.mpls > 1 ==> Weight(MPLS, q, c, w) == UserWeight(MPLS, q, w)
    ensures c.mpls <= 1 && q == MPLS ==> Weight(MPLS, q, c, w) == 0
    ensures c.mpls <= 1 && q == Empty ==> Weight(MPLS, q, c, w) == UserWeight(MPLS, q, w)
    ensures c.mpls <= 1 && (q == IPv4 || q == IPv6) ==> Weight(MPLS, q, c, w) == UserWeight(MPLS, q, w) + 1
  {
  }

  method VlanNext(config: PacketConfig) returns (t: Table)
    requires config.constraints.Reweights()
    modifies config
    ensures Answers(VLAN, t, config.constraints, old(config.Depths()), config.Depths())
  {
    t := BaseTable(VLAN, config);
    if config.vlan != 0 { config.vlan := config.vlan - 1; }
    if config.vlan == 0 { t := t.Put(VLAN, 0); }
    if config.trill == 0 { t := t.Put(TRILL, 0); }
  }

  method EthNext(config: PacketConfig) returns (t: Table)
    requires config.constraints.Reweights()
    ensures Answers(ETH, t, config.constraints, config.Depths(), config.Depths())
  {
    t := BaseTable(ETH, config);
    if config.trill == 0 { t := t.Put(TRILL, 0); }
  }

  // protocol_next of whichever node is at hand. Every protocol it allows next is a step towards
  // the end of the packet, and uses up no more headers of a kind than are left.
  method ProtocolNext(p: Proto, config: PacketConfig) returns (t: Table)
    requires config.constraints.Reweights()
    modifies config
    ensures Answers(p, t, config.constraints, old(config.Depths()), config.Depths())
    ensures forall q :: q in t.names && t.weight[q] > 0 ==>
      Lower(q, config.Depths(), p, old(config.Depths())) && Spends(p, old(config.Depths()), q, config.Depths())
    ensures BySettings(p, t, config.constraints, old(config.mpls))
  {
    ghost var before := config.Depths();
    StepsAre(p, before, config.constraints);
    hide BySettings, Lower, Spends, Weight, Edges, After;
    t := NodeNext(p, config);
    AnswersSettings(p, t, config.constraints, before, config.Depths());
  }

  method NodeNext(p: Proto, config: PacketConfig) returns (t: Table)
    requires config.constraints.Reweights()
    modifies config
    ensures Answers(p, t, config.constraints, old(config.Depths()), config.Depths())
  {
    hide Weight, Edges, UserWeight, Given;
    match p {
      case TRILL => t := TrillNext(config);
      case IPv6Ext => t := IPv6ExtNext(config);
      case MPLS => t := MplsNext(config);
      case VLAN => t := VlanNext(config);
      case ETH => t := EthNext(config);
      case _ =>
        t := BaseTable(p, config);
        PlainWeights(p, config.Depths(), config.constraints);
    }
  }

  // The other protocols neither guard nor move a counter.
  lemma PlainWeights(p: Proto, c: Counters, w: Constraints)
    requires p !in [TRILL, IPv6Ext, MPLS, VLAN, ETH]
    ensures After(p, c) == c && forall q :: q in Edges(p) ==> Weight(p, q, c, w) == UserWeight(p, q, w)
  {
    hide UserWeight;
  }

  // Whatever may come next weighs what the settings say or 1, and one more for IP after the last
  // MPLS header.
  ghost predicate BySettings(p: Proto, t: Table, w: Constraints, mpls: nat)
    requires t.Valid()
  {
    forall q :: q in t.names && t.weight[q] > 0 ==>
      t.weight[q] == (if p != TRILL && Given(w, p, q) then w.weights[p][q] else 1)
        + (if p == MPLS && mpls <= 1 && q in {IPv4, IPv6} then 1 else 0)
  }

  lemma AnswersSettings(p: Proto, t: Table, w: Constraints, before: Counters, after: Counters)
    requires Answers(p, t, w, before, after)
    ensures BySettings(p, t, w, before.mpls)
  {
    hide Edges, After;
  }

  lemma StepsAre(p: Proto, c: Counters, w: Constraints)
    ensures forall q :: q in Edges(p) && Weight(p, q, c, w) > 0 ==>
      Lower(q, After(p, c), p, c) && Spends(p, c, q, After(p, c))
  {
    hide Lower, Left, Weight, Edges, After;
    forall q | q in Edges(p) && Weight(p, q, c, w) > 0
      ensures Lower(q, After(p, c), p, c) && Spends(p, c, q, After(p, c))
    {
      StepDrops(p, q, c, w);
      forall k | Counted(k)
        ensures Left(k, q, After(p, c)) + (if p == k then 1 else 0) <= Left(k, p, c)
      {
        LeftDrops(k, p, q, c, w);
      }
    }
  }

  // After the last MPLS header a packet can always go on with IP, and not with MPLS, whatever
  // the weights; before it only a weight of zero rules MPLS out.
  lemma LastMpls(c: Counters, w: Constraints)
    ensures c.mpls <= 1 ==> Follows(MPLS, IPv4, c, w) && Follows(MPLS, IPv6, c, w) && !Follows(MPLS, MPLS, c, w)
    ensures c.mpls > 1 ==> (Follows(MPLS, MPLS, c, w) <==> UserWeight(MPLS, MPLS, w) > 0)
  {
    assert IPv4 in Edges(MPLS) && IPv6 in Edges(MPLS) && MPLS in Edges(MPLS);
  }

  // TRILL is always followed by ETH, with one TRILL header less to come.
  lemma AfterTrill(c: Counters, w: Constraints)
    ensures forall q :: Follows(TRILL, q, c, w) <==> q == ETH
    ensures c.trill > 0 ==> Left(TRILL, ETH, After(TRILL, c)) == Left(TRILL, TRILL, c) - 1
  {
    assert ETH in Edges(TRILL);
  }
}
