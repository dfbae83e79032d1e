// The depth-first generator: an explicit stack of items, each with the index of the
// successor to visit next.
module ParserDfs {
  import opened Options
  import opened ProtocolGraph
  import opened ProtocolPaths

  // What an item stands for: the protocol, the counters it starts from, and how many of its
  // successors were visited.
  datatype Visit = Visit(protocol: Proto, before: Counters, index: nat) {
    ghost predicate Valid(w: Constraints) {
      index <= |Succ(protocol, before, w)|
    }
  }

  // ---------------------------------------------------------------- what a stack still emits

  ghost predicate ValidStack(st: seq<Visit>, w: Constraints) {
    forall i :: 0 <= i < |st| ==> st[i].Valid(w)
  }

  function Names(st: seq<Visit>): (r: Path)
    ensures |r| == |st| && forall i :: 0 <= i < |r| ==> r[i] == st[i].protocol
  {
    seq(|st|, i requires 0 <= i < |st| => st[i].protocol)
  }

  // The paths the top item still gives: itself if it ends a path, else its unvisited successors.
  function Todo(v: Visit, names: Path, w: Constraints): seq<Path>
    requires v.Valid(w)
  {
    if Succ(v.protocol, v.before, w) == [] then [names]
    else PrefixAll(names, ChildPaths(v.protocol, v.before, w, v.index))
  }

  function Remaining(st: seq<Visit>, w: Constraints): seq<Path>
    requires ValidStack(st, w)
  {
    if st == [] then [] else Todo(st[|st| - 1], Names(st), w) + Remaining(st[..|st| - 1], w)
  }

  // Turns of the loop below p, and for the successors from k on.
  function Turns(p: Proto, c: Counters, w: Constraints, k: nat): nat
    requires k <= |Succ(p, c, w)|
    decreases c.trill, Rank(p, c), Depth(p, c), |Succ(p, c, w)| - k
  {
    if k == |Succ(p, c, w)| then 1
    else
      SuccIs(p, c, w);
      StepDrops(p, Succ(p, c, w)[k], c, w);
      1 + Turns(Succ(p, c, w)[k], After(p, c), w, 0) + Turns(p, c, w, k + 1)
  }

  function Work(st: seq<Visit>, w: Constraints): nat
    requires ValidStack(st, w)
  {
    if st == [] then 0
    else Turns(st[|st| - 1].protocol, st[|st| - 1].before, w, st[|st| - 1].index) + Work(st[..|st| - 1], w)
  }

  // The stack after visiting the top item's next successor.
  function Pushed(st: seq<Visit>, w: Constraints): seq<Visit>
    requires ValidStack(st, w) && st != [] && st[|st| - 1].index < |Succ(st[|st| - 1].protocol, st[|st| - 1].before, w)|
  {
    var v := st[|st| - 1];
    st[..|st| - 1]
      + [v.(index := v.index + 1), Visit(Succ(v.protocol, v.before, w)[v.index], After(v.protocol, v.before), 0)]
  }

  lemma PrefixPrefix(names: Path, p: Proto, paths: seq<Path>)
    ensures PrefixAll(names, PrefixAll([p], paths)) == PrefixAll(names + [p], paths)
  {
    forall i | 0 <= i < |paths|
      ensures names + ([p] + paths[i]) == names + [p] + paths[i]
    {
    }
  }

  lemma PrefixSplit(names: Path, a: seq<Path>, b: seq<Path>)
    ensures PrefixAll(names, a + b) == PrefixAll(names, a) + PrefixAll(names, b)
  {
  }

  // A fresh item stands for all paths from its protocol.
  lemma TodoFresh(names: Path, p: Proto, c: Counters, w: Constraints)
    ensures Todo(Visit(p, c, 0), names + [p], w) == PrefixAll(names, Paths(p, c, w))
  {
    hide Succ, ChildPaths;
    if Succ(p, c, w) != [] { PrefixPrefix(names, p, ChildPaths(p, c, w, 0)); }
  }

  lemma PushKeeps(st: seq<Visit>, w: Constraints)
    requires ValidStack(st, w) && st != [] && st[|st| - 1].index < |Succ(st[|st| - 1].protocol, st[|st| - 1].before, w)|
    ensures ValidStack(Pushed(st, w), w)
    ensures Remaining(Pushed(st, w), w) == Remaining(st, w)
    ensures Work(Pushed(st, w), w) < Work(st, w)
  {
    hide Succ, Todo, After, ChildPaths, Paths, PrefixAll;
    var n := |st| - 1;
    var v := st[n];
    var t := Pushed(st, w);
    var q, d := Succ(v.protocol, v.before, w)[v.index], After(v.protocol, v.before);
    var u := t[..n + 1];
    assert u[..n] == st[..n] && u[n] == t[n];
    assert Names(u) == Names(st) && Names(t) == Names(st) + [q];
    TodoFresh(Names(st), q, d, w);
    TodoStep(v, Names(st), w);
    TurnsStep(v.protocol, v.before, w, v.index);
    hide Turns, Names;
    assert Remaining(u, w) == Todo(t[n], Names(st), w) + Remaining(st[..n], w);
    assert Remaining(t, w) == Todo(t[n + 1], Names(t), w) + Remaining(u, w);
    assert Remaining(st, w) == Todo(v, Names(st), w) + Remaining(st[..n], w);
  }

  lemma TodoStep(v: Visit, names: Path, w: Constraints)
    requires v.index < |Succ(v.protocol, v.before, w)|
    ensures Todo(v, names, w)
         == PrefixAll(names, Paths(Succ(v.protocol, v.before, w)[v.index], After(v.protocol, v.before), w))
          + Todo(v.(index := v.index + 1), names, w)
  {
    hide Succ, After, Paths, ChildPaths;
    ChildPathsStep(v.protocol, v.before, w, v.index);
    PrefixSplit(names, Paths(Succ(v.protocol, v.before, w)[v.index], After(v.protocol, v.before), w),
      ChildPaths(v.protocol, v.before, w, v.index + 1));
  }

  lemma TurnsStep(p: Proto, c: Counters, w: Constraints, k: nat)
    requires k < |Succ(p, c, w)|
    ensures Turns(p, c, w, k) == 1 + Turns(Succ(p, c, w)[k], After(p, c), w, 0) + Turns(p, c, w, k + 1)
  {
    hide Succ, After;
  }

  lemma TurnsPositive(p: Proto, c: Counters, w: Constraints, k: nat)
    requires k <= |Succ(p, c, w)|
    ensures Turns(p, c, w, k) > 0
  {
    hide Succ, After;
  }

  // Dropping a top item whose successors were all visited loses nothing; an item that ends
  // a path loses the path of the whole stack.
  lemma PopKeeps(st: seq<Visit>, w: Constraints)
    requires ValidStack(st, w) && st != []
    requires st[|st| - 1].index == |Succ(st[|st| - 1].protocol, st[|st| - 1].before, w)|
    ensures Remaining(st, w) == (if st[|st| - 1].index == 0 then [Names(st)] else []) + Remaining(st[..|st| - 1], w)
    ensures Work(st[..|st| - 1], w) < Work(st, w)
  {
    hide Succ, ChildPaths;
    var v := st[|st| - 1];
    NoChildPaths(v.protocol, v.before, w);
    TurnsPositive(v.protocol, v.before, w, v.index);
  }

  // ---------------------------------------------------------------- the generator

  lemma {:induction false} PositiveSame(names: seq<Proto>, a: map<Proto, nat>, b: map<Proto, nat>)
    requires forall q :: q in names ==> q in a && q in b && a[q] == b[q]
    ensures Positive(names, a) == Positive(names, b)
  {
    if names != [] { PositiveSame(names[..|names| - 1], a, b); }
  }

  lemma AnswersSucc(p: Proto, t: Table, w: Constraints, before: Counters, after: Counters)
    requires Answers(p, t, w, before, after)
    ensures t.Valid() && Positive(t.names, t.weight) == Succ(p, before, w) && after == After(p, before)
  {
    hide Weight, Edges, Positive, After;
    PositiveSame(t.names, t.weight, Weights(p, before, w).weight);
  }

  // The loop that keeps the protocols with a weight.
  method Weighted(t: Table) returns (found: seq<Proto>)
    requires t.Valid()
    ensures found == Positive(t.names, t.weight)
  {
    found := [];
    for i := 0 to |t.names|
      invariant found == Positive(t.names[..i], t.weight)
    {
      assert t.names[..i + 1][..i] == t.names[..i];
      if t.weight[t.names[i]] != 0 {
        found := found + [t.names[i]];
      }
    }
    assert t.names[..|t.names|] == t.names;
  }

  class DfsItem {
    const protocol: Proto
    var index: nat
    const cfg: PacketConfig
    var protocolsNext: seq<Proto>
    // The counters when the item was made.
    ghost const before: Counters

    ghost predicate Valid()
      reads this, cfg
    {
      && cfg.Depths() == After(protocol, before)
      && protocolsNext == Succ(protocol, before, cfg.constraints)
      && index <= |protocolsNext|
    }

    ghost function AsVisit(): Visit
      reads this
    {
      Visit(protocol, before, index)
    }

    // The item stands for visit v under constraints w.
    ghost predicate Stands(v: Visit, w: Constraints)
      reads this, cfg
    {
      cfg.constraints == w && Valid() && AsVisit() == v
    }

    constructor (protocol: Proto, cfg: PacketConfig)
      requires cfg.constraints.Reweights()
      ensures Valid() && fresh(this.cfg) && this.cfg.constraints == cfg.constraints
      ensures AsVisit() == Visit(protocol, cfg.Depths(), 0)
    {
      hide Answers, Positive, Succ, After;
      this.protocol := protocol;
      index := 0;
      ghost var start := cfg.Depths();
      before := start;
      var own := cfg.Copy();
      this.cfg := own;
      var protoNext := ProtocolNext(protocol, own);
      AnswersSucc(protocol, protoNext, cfg.constraints, start, own.Depths());
      var found := Weighted(protoNext);
      protocolsNext := found;
    }

    lemma Shows(v: Visit, w: Constraints)
      requires Stands(v, w)
      ensures cfg.constraints == w && Valid() && AsVisit() == v
    {
    }

    lemma Is(v: Visit, w: Constraints)
      requires cfg.constraints == w && Valid() && AsVisit() == v
      ensures Stands(v, w)
    {
    }

    predicate Last()
      reads this
    {
      |protocolsNext| == 0
    }

    method Next() returns (ret: Option<Proto>)
      requires index <= |protocolsNext|
      modifies this`index
      ensures old(index) < |protocolsNext| ==> ret == Some(protocolsNext[old(index)]) && index == old(index) + 1
      ensures old(index) == |protocolsNext| ==> ret == None && index == old(index)
    {
      if index >= |protocolsNext| {
        return None;
      }
      ret := Some(protocolsNext[index]);
      index := index + 1;
    }
  }

  // The items stand for these visits, and no item is on the stack twice.
  ghost predicate Represents(items: seq<DfsItem>, st: seq<Visit>, w: Constraints)
    reads items, set i | 0 <= i < |items| :: items[i].cfg
  {
    && |items| == |st|
    && (forall i :: 0 <= i < |items| ==> items[i].Stands(st[i], w))
    && forall i, j :: 0 <= i < j < |items| ==> items[i] != items[j]
  }

  class Generator {
    const cfg: Constraints
    // The protocol names of each packet written.
    var written: seq<Path>

    constructor (cfg: Constraints)
      ensures this.cfg == cfg && written == []
    {
      this.cfg := cfg;
      written := [];
    }

    // gen: writes all paths from ETH, in order, each once.
    method Gen()
      requires cfg.Reweights()
      modifies this
      ensures written == old(written) + Paths(ETH, Initial(cfg), cfg)
    {
      hide Succ, Remaining, Work, Paths, After, Initial;
      var cfgAct := new PacketConfig(cfg);
      var item := new DfsItem(ETH, cfgAct);
      var nextItems := [item];
      ghost var st := [item.AsVisit()];
      StartStack(cfg, st);
      while |nextItems| > 0
        invariant Represents(nextItems, st, cfg) && ValidStack(st, cfg)
        invariant forall i :: 0 <= i < |nextItems| ==> fresh(nextItems[i]) && fresh(nextItems[i].cfg)
        invariant written + Remaining(st, cfg) == old(written) + Paths(ETH, Initial(cfg), cfg)
        decreases Work(st, cfg)
      {
        var packet: Option<Path>;
        nextItems, packet, st := Turn(nextItems, st);
        if packet.Some? {
          written := written + [packet.value];
        }
      }
      NothingLeft(cfg);
    }

    // One turn of gen's loop: push the next successor, or drop the top item, whose stack is
    // a packet if no protocol follows it.
    method Turn(items: seq<DfsItem>, ghost st: seq<Visit>)
      returns (nextItems: seq<DfsItem>, packet: Option<Path>, ghost after: seq<Visit>)
      requires cfg.Reweights() && |items| > 0 && Represents(items, st, cfg) && ValidStack(st, cfg)
      modifies items[|items| - 1]
      ensures Represents(nextItems, after, cfg) && ValidStack(after, cfg)
      ensures forall i :: 0 <= i < |nextItems| ==>
        (i < |items| && nextItems[i] == items[i]) || (fresh(nextItems[i]) && fresh(nextItems[i].cfg))
      ensures Remaining(st, cfg) == (if packet.Some? then [packet.value] else []) + Remaining(after, cfg)
      ensures Work(after, cfg) < Work(st, cfg)
    {
      hide Succ, Remaining, Work, Pushed, After, DfsItem.Stands;
      var n := |items| - 1;
      var item := items[n];
      item.Shows(st[n], cfg);
      forall i | 0 <= i < |items|
        ensures items[i].protocol == st[i].protocol
      {
        items[i].Shows(st[i], cfg);
      }
      var protoNext := item.Next();
      packet := None;
      if !item.Last() {
        if protoNext.Some? {
          var itemNext := new DfsItem(protoNext.value, item.cfg);
          PushKeeps(st, cfg);
          PushedIs(st, cfg);
          nextItems := items + [itemNext];
          after := Pushed(st, cfg);
          item.Is(after[n], cfg);
          itemNext.Is(after[n + 1], cfg);
        } else {
          PopKeeps(st, cfg);
          nextItems := items[..n];
          after := st[..n];
        }
      } else {
        var names := PacketNames(items, st);
        packet := Some(names);
        PopKeeps(st, cfg);
        nextItems := items[..n];
        after := st[..n];
      }
    }

    // The loop that stacks the protocols of all items.
    method PacketNames(items: seq<DfsItem>, ghost st: seq<Visit>) returns (packet: Path)
      requires |items| == |st| && forall i :: 0 <= i < |items| ==> items[i].protocol == st[i].protocol
      ensures packet == Names(st)
    {
      packet := [];
      for i := 0 to |items|
        invariant packet == Names(st)[..i]
      {
        packet := packet + [items[i].protocol];
      }
    }
  }

  lemma StartStack(w: Constraints, st: seq<Visit>)
    requires st == [Visit(ETH, Initial(w), 0)]
    ensures ValidStack(st, w) && Remaining(st, w) == Paths(ETH, Initial(w), w)
  {
    hide Succ, Paths, Todo;
    assert Names(st) == [] + [ETH] && Remaining(st[..0], w) == [];
    TodoFresh([], ETH, Initial(w), w);
    var paths := Paths(ETH, Initial(w), w);
    forall i | 0 <= i < |paths|
      ensures [] + paths[i] == paths[i]
    {
    }
    assert PrefixAll([], paths) == paths;
  }

  lemma PushedIs(st: seq<Visit>, w: Constraints)
    requires ValidStack(st, w) && st != [] && st[|st| - 1].index < |Succ(st[|st| - 1].protocol, st[|st| - 1].before, w)|
    ensures |Pushed(st, w)| == |st| + 1 && Pushed(st, w)[..|st| - 1] == st[..|st| - 1]
    ensures var v := st[|st| - 1];
      && Pushed(st, w)[|st| - 1] == v.(index := v.index + 1)
      && Pushed(st, w)[|st|] == Visit(Succ(v.protocol, v.before, w)[v.index], After(v.protocol, v.before), 0)
  {
    hide Succ, After;
  }

  lemma NothingLeft(w: Constraints)
    ensures Remaining([], w) == []
  {
  }
}
