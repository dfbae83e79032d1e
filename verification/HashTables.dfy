// One table of the hash toolkit as a value: the key list, the slots and the record counter
// that its commands must keep in step.
module HashTables {
  import opened Numbers
  import opened HashFunctions

  datatype Kind = ToeplitzTable | XorTable

  // A hash function together with its parameters.
  datatype Hasher = Hasher(kind: Kind, params: HashParams) {
    function Hash(key: nat): (h: nat)
      requires params.SlicesFit()
      ensures h < Pow2(params.hashWidth)
    {
      ToeplitzLinear(params, key, key);
      SimpleXorCollides(params, key, key);
      match kind
      case ToeplitzTable => Toeplitz(params, key)
      case XorTable => SimpleXor(params, key)
    }

    // The bits of a key: the simple hash declares its bit vectors one bit wider.
    function KeyWidth(): nat {
      if kind == ToeplitzTable then params.mvbKeyWidth else params.mvbKeyWidth + 1
    }

    predicate Fits(key: int) {
      FitsBits(key, KeyWidth())
    }

    predicate Valid(capacity: nat) {
      params.SlicesFit() && Pow2(params.hashWidth) <= capacity
    }
  }

  datatype Slot = Slot(valid: bool, data: int)

  datatype Table = Table(keys: seq<nat>, slots: seq<Slot>, used: int)

  // ---------------------------------------------------------------- the invariant

  ghost predicate DistinctHashes(f: Hasher, keys: seq<nat>)
    requires f.params.SlicesFit()
  {
    forall i, j :: 0 <= i < j < |keys| ==> f.Hash(keys[i]) != f.Hash(keys[j])
  }

  ghost predicate Hit(f: Hasher, keys: seq<nat>, p: int)
    requires f.params.SlicesFit()
  {
    exists i :: 0 <= i < |keys| && f.Hash(keys[i]) == p
  }

  ghost predicate AllFit(f: Hasher, keys: seq<nat>) {
    forall i :: 0 <= i < |keys| ==> f.Fits(keys[i])
  }

  // The counter counts the keys, every key can be hashed, no two keys share a slot, and a slot
  // is valid exactly if a key hashes to it.
  ghost predicate Good(f: Hasher, t: Table) {
    && f.Valid(|t.slots|)
    && t.used == |t.keys|
    && AllFit(f, t.keys)
    && DistinctHashes(f, t.keys)
    && forall p :: 0 <= p < |t.slots| ==> (t.slots[p].valid <==> Hit(f, t.keys, p))
  }

  // The finite map a table stands for.
  function View(f: Hasher, t: Table): map<nat, int>
    requires f.Valid(|t.slots|)
  {
    map k | k in t.keys :: t.slots[f.Hash(k)].data
  }

  function EmptyTable(capacity: nat): Table {
    Table([], Repeat(Slot(false, 0), capacity), 0)
  }

  lemma EmptyIsGood(f: Hasher, capacity: nat)
    requires f.Valid(capacity)
    ensures Good(f, EmptyTable(capacity)) && View(f, EmptyTable(capacity)) == map[]
  {
  }

  // ---------------------------------------------------------------- pigeonhole

  function Below(n: nat): (s: set<nat>)
    ensures forall p: nat :: p in s <==> p < n
    ensures |s| == n
  {
    if n == 0 then {} else Below(n - 1) + {n - 1}
  }

  function Positions(f: Hasher, keys: seq<nat>): (s: set<nat>)
    requires f.params.SlicesFit()
    ensures forall p: nat :: p in s <==> Hit(f, keys, p)
  {
    if keys == [] then {}
    else
      assert keys == keys[..|keys| - 1] + [keys[|keys| - 1]];
      assert forall p: nat :: Hit(f, keys, p) <==> Hit(f, keys[..|keys| - 1], p) || f.Hash(keys[|keys| - 1]) == p;
      Positions(f, keys[..|keys| - 1]) + {f.Hash(keys[|keys| - 1])}
  }

  lemma {:induction false} PositionsCount(f: Hasher, keys: seq<nat>)
    requires f.params.SlicesFit() && DistinctHashes(f, keys)
    ensures |Positions(f, keys)| == |keys|
  {
    if keys != [] { PositionsCount(f, keys[..|keys| - 1]); }
  }

  lemma SubsetCount(a: set<nat>, b: set<nat>)
    requires a <= b
    ensures |a| <= |b| && (|a| == |b| ==> a == b)
  {
    assert b == a + (b - a);
  }

  // A table never holds more records than slots; a full one has every slot valid.
  lemma FullTable(f: Hasher, t: Table)
    requires Good(f, t)
    ensures t.used <= |t.slots|
    ensures t.used == |t.slots| ==> forall p :: 0 <= p < |t.slots| ==> t.slots[p].valid
  {
    var ps, all := Positions(f, t.keys), Below(|t.slots|);
    PositionsCount(f, t.keys);
    SubsetCount(ps, all);
    if |ps| == |all| {
      forall p | 0 <= p < |t.slots|
        ensures t.slots[p].valid
      {
        assert p in ps;
      }
    }
  }

  // ---------------------------------------------------------------- adding

  function Added(f: Hasher, t: Table, key: nat, data: int): Table
    requires f.Valid(|t.slots|)
  {
    Table(t.keys + [key], t.slots[f.Hash(key) := Slot(true, data)], t.used + 1)
  }

  // Adding where the slot is free keeps the invariant and changes no other key's record.
  lemma AddKeeps(f: Hasher, t: Table, key: nat, data: int)
    requires Good(f, t) && f.Fits(key) && !t.slots[f.Hash(key)].valid
    ensures key !in t.keys && Good(f, Added(f, t, key, data))
    ensures View(f, Added(f, t, key, data)) == View(f, t)[key := data]
  {
    hide Hasher.Hash;
    var h, u := f.Hash(key), Added(f, t, key, data);
    NotHit(f, t.keys, h);
    HitLast(f, t.keys, key);
  }

  lemma NotHit(f: Hasher, keys: seq<nat>, p: int)
    requires f.params.SlicesFit() && !Hit(f, keys, p)
    ensures forall i :: 0 <= i < |keys| ==> f.Hash(keys[i]) != p
  {
  }

  lemma HitLast(f: Hasher, keys: seq<nat>, key: nat)
    requires f.params.SlicesFit()
    ensures forall p: int :: Hit(f, keys + [key], p) <==> Hit(f, keys, p) || f.Hash(key) == p
  {
    hide Hasher.Hash;
    forall p: int
      ensures Hit(f, keys + [key], p) <==> Hit(f, keys, p) || f.Hash(key) == p
    {
      var ks := keys + [key];
      assert ks[|keys|] == key;
      if Hit(f, keys, p) {
        var i :| 0 <= i < |keys| && f.Hash(keys[i]) == p;
        assert ks[i] == keys[i];
      }
    }
  }

  // ---------------------------------------------------------------- removing

  function Without(keys: seq<nat>, i: nat): seq<nat>
    requires i < |keys|
  {
    keys[..i] + keys[i + 1..]
  }

  function Cleared(slots: seq<Slot>, p: nat): seq<Slot>
    requires p < |slots|
  {
    slots[p := Slot(false, slots[p].data)]
  }

  function Removed(f: Hasher, t: Table, i: nat): Table
    requires f.Valid(|t.slots|) && i < |t.keys|
  {
    Table(Without(t.keys, i), Cleared(t.slots, f.Hash(t.keys[i])), t.used - 1)
  }

  lemma WithoutHits(f: Hasher, keys: seq<nat>, i: nat)
    requires f.params.SlicesFit() && i < |keys| && DistinctHashes(f, keys)
    ensures DistinctHashes(f, Without(keys, i))
    ensures forall p: int :: Hit(f, Without(keys, i), p) <==> Hit(f, keys, p) && p != f.Hash(keys[i])
    ensures forall k :: k in Without(keys, i) <==> k in keys && k != keys[i]
  {
    hide Hasher.Hash;
    var ks := Without(keys, i);
    forall p: int
      ensures Hit(f, ks, p) <==> Hit(f, keys, p) && p != f.Hash(keys[i])
    {
      if Hit(f, ks, p) {
        var j :| 0 <= j < |ks| && f.Hash(ks[j]) == p;
        assert ks[j] == keys[if j < i then j else j + 1];
      }
      if Hit(f, keys, p) && p != f.Hash(keys[i]) {
        var j :| 0 <= j < |keys| && f.Hash(keys[j]) == p;
        assert keys[j] == ks[if j < i then j else j - 1];
      }
    }
    forall k
      ensures k in ks <==> k in keys && k != keys[i]
    {
      if k in keys && k != keys[i] {
        var j :| 0 <= j < |keys| && keys[j] == k;
        assert keys[j] == ks[if j < i then j else j - 1];
      }
    }
  }

  // Removing a record keeps the invariant and every other record.
  lemma RemoveKeeps(f: Hasher, t: Table, i: nat)
    requires Good(f, t) && i < |t.keys|
    ensures Good(f, Removed(f, t, i))
    ensures View(f, Removed(f, t, i)) == View(f, t) - {t.keys[i]}
    ensures forall p :: 0 <= p < |t.slots| ==> Removed(f, t, i).slots[p].data == t.slots[p].data
  {
    hide Hasher.Hash, Without;
    WithoutHits(f, t.keys, i);
    OthersApart(f, t, i);
    WithoutCount(t.keys, i);
    WithoutFits(f, t.keys, i);
  }

  lemma WithoutFits(f: Hasher, keys: seq<nat>, i: nat)
    requires AllFit(f, keys) && i < |keys|
    ensures AllFit(f, Without(keys, i))
  {
    hide Hasher.Fits;
  }

  lemma WithoutCount(keys: seq<nat>, i: nat)
    requires i < |keys|
    ensures |Without(keys, i)| == |keys| - 1
  {
  }

  lemma OthersApart(f: Hasher, t: Table, i: nat)
    requires Good(f, t) && i < |t.keys|
    ensures forall k :: k in t.keys && k != t.keys[i] ==> f.Hash(k) != f.Hash(t.keys[i])
  {
    hide Hasher.Hash;
  }

  // Removing by position: the first key that hashes there goes with it.
  lemma FirstHit(f: Hasher, t: Table, p: nat, i: nat)
    requires Good(f, t) && p < |t.slots| && t.slots[p].valid
    requires i <= |t.keys| && (forall j :: 0 <= j < i ==> f.Hash(t.keys[j]) != p)
    requires (i < |t.keys| ==> f.Hash(t.keys[i]) == p)
    ensures i < |t.keys|
  {
    hide Hasher.Hash;
  }

  // A negative position clears a slot from the end of the list, but no key hashes to it.
  lemma NegativeRemoveBreaks(f: Hasher, t: Table, p: nat)
    requires Good(f, t) && p < |t.slots| && t.slots[p].valid
    ensures !Good(f, Table(t.keys, Cleared(t.slots, p), t.used - 1))
  {
  }

  // Such a table: one record, in the last of two slots, removed by position -1.
  lemma NegativeRemoveInput()
    ensures var f := Hasher(XorTable, HashParams(0, 1, 1, 1));
      && f.Valid(2) && f.Hash(1) == 1
      && Good(f, Added(f, EmptyTable(2), 1, 7))
      && !Good(f, Table([1], Cleared(Added(f, EmptyTable(2), 1, 7).slots, 1), 0))
  {
    var f := Hasher(XorTable, HashParams(0, 1, 1, 1));
    assert Pow2(1) == 2 * Pow2(0);
    assert Low(1, 1) == 1 && Low(0, 1) == 0;
    EmptyIsGood(f, 2);
    AddKeeps(f, EmptyTable(2), 1, 7);
    var t := Added(f, EmptyTable(2), 1, 7);
    NegativeRemoveBreaks(f, t, 1);
    assert t.keys == [1] && t.used == 1;
  }

  // ---------------------------------------------------------------- replacing

  function Inserted(keys: seq<nat>, q: nat, key: nat): seq<nat>
    requires q <= |keys|
  {
    keys[..q] + [key] + keys[q..]
  }

  // Record i goes; the new key enters the list at q.
  function Replaced(f: Hasher, t: Table, i: nat, q: nat, key: nat, data: int): Table
    requires f.Valid(|t.slots|) && i < |t.keys| && q < |t.keys|
  {
    var u := Removed(f, t, i);
    Table(Inserted(u.keys, q, key), u.slots[f.Hash(key) := Slot(true, data)], u.used + 1)
  }

  lemma InsertedHits(f: Hasher, keys: seq<nat>, q: nat, key: nat)
    requires f.params.SlicesFit() && q <= |keys|
    ensures forall p: int :: Hit(f, Inserted(keys, q, key), p) <==> Hit(f, keys, p) || p == f.Hash(key)
    ensures forall k :: k in Inserted(keys, q, key) <==> k in keys || k == key
  {
    hide Hasher.Hash;
    var ks := Inserted(keys, q, key);
    assert ks[q] == key;
    forall p: int
      ensures Hit(f, ks, p) <==> Hit(f, keys, p) || p == f.Hash(key)
    {
      if Hit(f, keys, p) {
        var j :| 0 <= j < |keys| && f.Hash(keys[j]) == p;
        assert keys[j] == ks[if j < q then j else j + 1];
      }
      if Hit(f, ks, p) {
        var j :| 0 <= j < |ks| && f.Hash(ks[j]) == p;
        assert j != q ==> ks[j] == keys[if j < q then j else j - 1];
      }
    }
  }

  lemma InsertedDistinct(f: Hasher, keys: seq<nat>, q: nat, key: nat)
    requires f.params.SlicesFit() && q <= |keys| && DistinctHashes(f, keys)
    ensures DistinctHashes(f, Inserted(keys, q, key)) <==> !Hit(f, keys, f.Hash(key))
  {
    hide Hasher.Hash;
    var ks := Inserted(keys, q, key);
    assert ks[q] == key;
    if Hit(f, keys, f.Hash(key)) {
      var j :| 0 <= j < |keys| && f.Hash(keys[j]) == f.Hash(key);
      assert keys[j] == ks[if j < q then j else j + 1];
    } else {
      NotHit(f, keys, f.Hash(key));
    }
  }

  // Replacing does not look at the new key's slot: it keeps the invariant exactly if no other
  // key hashes there.
  lemma ReplaceKeeps(f: Hasher, t: Table, i: nat, q: nat, key: nat, data: int)
    requires Good(f, t) && i < |t.keys| && q < |t.keys| && f.Fits(key)
    ensures Good(f, Replaced(f, t, i, q, key, data)) <==> !Hit(f, Without(t.keys, i), f.Hash(key))
    ensures !Hit(f, Without(t.keys, i), f.Hash(key)) ==>
      View(f, Replaced(f, t, i, q, key, data)) == (View(f, t) - {t.keys[i]})[key := data]
  {
    hide Hasher.Hash, View, DistinctHashes, Hit, Without;
    var u := Removed(f, t, i);
    RemoveKeeps(f, t, i);
    WithoutCount(t.keys, i);
    InsertedHits(f, u.keys, q, key);
    InsertedDistinct(f, u.keys, q, key);
    var v := Replaced(f, t, i, q, key, data);
    forall p | 0 <= p < |v.slots|
      ensures v.slots[p].valid <==> Hit(f, v.keys, p)
    {
      assert u.slots[p].valid <==> Hit(f, u.keys, p);
    }
    if !Hit(f, u.keys, f.Hash(key)) {
      AddKeeps(f, u, key, data);
      SameView(f, v, Added(f, u, key, data));
    }
  }

  lemma SameView(f: Hasher, t: Table, u: Table)
    requires f.Valid(|t.slots|) && t.slots == u.slots && forall k :: k in t.keys <==> k in u.keys
    ensures View(f, t) == View(f, u)
  {
    hide Hasher.Hash;
  }

  // ---------------------------------------------------------------- saving and loading

  datatype Record = Record(key: nat, data: int)

  function Saved(f: Hasher, t: Table): (rs: seq<Record>)
    requires f.Valid(|t.slots|)
    ensures |rs| == |t.keys|
    ensures forall i :: 0 <= i < |rs| ==> rs[i] == Record(t.keys[i], t.slots[f.Hash(t.keys[i])].data)
  {
    seq(|t.keys|, i requires 0 <= i < |t.keys| => Record(t.keys[i], t.slots[f.Hash(t.keys[i])].data))
  }

  function Loaded(f: Hasher, capacity: nat, rs: seq<Record>): (t: Table)
    requires f.Valid(capacity)
    ensures |t.slots| == capacity
  {
    if rs == [] then EmptyTable(capacity)
    else Added(f, Loaded(f, capacity, rs[..|rs| - 1]), rs[|rs| - 1].key, rs[|rs| - 1].data)
  }

  ghost predicate DistinctRecords(f: Hasher, rs: seq<Record>)
    requires f.params.SlicesFit()
  {
    forall i, j :: 0 <= i < j < |rs| ==> f.Hash(rs[i].key) != f.Hash(rs[j].key)
  }

  // What loading leaves behind, slot by slot.
  lemma {:induction false} LoadedIs(f: Hasher, capacity: nat, rs: seq<Record>)
    requires f.Valid(capacity)
    ensures var t := Loaded(f, capacity, rs);
      && |t.keys| == |rs| && t.used == |rs|
      && (forall i :: 0 <= i < |rs| ==> t.keys[i] == rs[i].key)
      && (forall p :: 0 <= p < capacity && !t.slots[p].valid ==> t.slots[p] == Slot(false, 0))
      && (forall p :: 0 <= p < capacity ==> (t.slots[p].valid <==> Hit(f, t.keys, p)))
    ensures DistinctRecords(f, rs) ==> forall i :: 0 <= i < |rs| ==>
      Loaded(f, capacity, rs).slots[f.Hash(rs[i].key)] == Slot(true, rs[i].data)
  {
    hide Hasher.Hash;
    if rs != [] {
      var n := |rs| - 1;
      LoadedIs(f, capacity, rs[..n]);
      HitLast(f, Loaded(f, capacity, rs[..n]).keys, rs[n].key);
    }
  }

  // The records before the first one whose key cannot be hashed.
  function Fitting(f: Hasher, rs: seq<Record>): (n: nat)
    ensures n <= |rs| && (n < |rs| ==> !f.Fits(rs[n].key))
    ensures forall i :: 0 <= i < n ==> f.Fits(rs[i].key)
  {
    if rs == [] then 0
    else
      var n := Fitting(f, rs[..|rs| - 1]);
      if n == |rs| - 1 && f.Fits(rs[n].key) then |rs| else n
  }

  // Loading does not look for collisions: the invariant holds exactly without any.
  lemma LoadGood(f: Hasher, capacity: nat, rs: seq<Record>)
    requires f.Valid(capacity)
    ensures Good(f, Loaded(f, capacity, rs)) <==> Fitting(f, rs) == |rs| && DistinctRecords(f, rs)
  {
    hide Hasher.Hash, Hasher.Fits, Loaded;
    LoadedIs(f, capacity, rs);
    var t := Loaded(f, capacity, rs);
    if DistinctHashes(f, t.keys) {
      forall i, j | 0 <= i < j < |rs|
        ensures f.Hash(rs[i].key) != f.Hash(rs[j].key)
      {
        assert t.keys[i] == rs[i].key && t.keys[j] == rs[j].key;
      }
    }
  }

  // A table saved and loaded under another hash function: the same keys and counter. It is in
  // step exactly if no keys collide under the new function, and then it stands for the same map.
  lemma LoadSavedUnder(f: Hasher, t: Table, g: Hasher)
    requires Good(f, t) && g.Valid(|t.slots|) && g.KeyWidth() == f.KeyWidth()
    ensures var u := Loaded(g, |t.slots|, Saved(f, t));
      && u.keys == t.keys && u.used == t.used
      && Fitting(g, Saved(f, t)) == |Saved(f, t)|
      && (Good(g, u) <==> DistinctHashes(g, t.keys))
      && (Good(g, u) ==> View(g, u) == View(f, t))
  {
    hide Hasher.Hash, Loaded;
    var rs := Saved(f, t);
    LoadedIs(g, |t.slots|, rs);
    LoadGood(g, |t.slots|, rs);
    assert Loaded(g, |t.slots|, rs).keys == t.keys;
    if DistinctHashes(g, t.keys) {
      forall i, j | 0 <= i < j < |rs|
        ensures g.Hash(rs[i].key) != g.Hash(rs[j].key)
      {
        assert rs[i].key == t.keys[i] && rs[j].key == t.keys[j];
      }
    }
  }

  // Collisions of the simple hash do not depend on the hash key.
  lemma XorDistinct(f: Hasher, g: Hasher, keys: seq<nat>)
    requires f.params.SlicesFit() && g.params.SlicesFit()
    requires f.kind == XorTable && g == f.(params := f.params.(hashKey := g.params.hashKey))
    ensures DistinctHashes(f, keys) <==> DistinctHashes(g, keys)
  {
    hide SimpleXor;
    forall i, j | 0 <= i < j < |keys|
      ensures f.Hash(keys[i]) == f.Hash(keys[j]) <==> g.Hash(keys[i]) == g.Hash(keys[j])
    {
      SimpleXorCollides(f.params, keys[i], keys[j]);
      SimpleXorCollides(g.params, keys[i], keys[j]);
    }
  }

  // With hash key 0 a Toeplitz table holds one key at most.
  lemma ZeroKeyCollides(f: Hasher, keys: seq<nat>)
    requires f.params.SlicesFit() && f.kind == ToeplitzTable && f.params.hashKey == 0
    ensures DistinctHashes(f, keys) <==> |keys| <= 1
  {
    hide Terms;
    forall i | 0 <= i < |keys|
      ensures f.Hash(keys[i]) == 0
    {
      TermsZero(f.params, keys[i], 0);
    }
    if |keys| > 1 { assert f.Hash(keys[0]) == f.Hash(keys[1]); }
  }

  // A replacement and a file that collide: one-bit hashes of the keys 1 and 3.
  lemma CollidingInput()
    ensures var f := Hasher(XorTable, HashParams(0, 1, 1, 1));
      && f.Valid(2) && f.Fits(3) && f.Hash(0) == 0 && f.Hash(1) == f.Hash(3) == 1
      && Good(f, Loaded(f, 2, [Record(0, 5), Record(1, 7)]))
      && !Good(f, Replaced(f, Loaded(f, 2, [Record(0, 5), Record(1, 7)]), 0, 0, 3, 9))
      && !Good(f, Loaded(f, 2, [Record(1, 7), Record(3, 9)]))
  {
    var f := Hasher(XorTable, HashParams(0, 1, 1, 1));
    assert Pow2(1) == 2 && Pow2(2) == 4 by { assert Pow2(2) == 2 * Pow2(1); }
    assert Low(1, 1) == 1 && Low(0, 1) == 0 && Low(3, 1) == 1;
    assert f.Hash(0) == 0 && f.Hash(1) == 1 && f.Hash(3) == 1;
    CollidesFrom(f);
  }

  lemma CollidesFrom(f: Hasher)
    requires f.Valid(2) && f.Fits(0) && f.Fits(1) && f.Fits(3) && f.Hash(0) == 0 && f.Hash(1) == f.Hash(3) == 1
    ensures Good(f, Loaded(f, 2, [Record(0, 5), Record(1, 7)]))
    ensures Loaded(f, 2, [Record(0, 5), Record(1, 7)]).keys == [0, 1]
    ensures !Good(f, Replaced(f, Loaded(f, 2, [Record(0, 5), Record(1, 7)]), 0, 0, 3, 9))
    ensures !Good(f, Loaded(f, 2, [Record(1, 7), Record(3, 9)]))
  {
    hide Hasher.Hash, Loaded, Hasher.Fits, Good, Replaced;
    var rs, ss := [Record(0, 5), Record(1, 7)], [Record(1, 7), Record(3, 9)];
    LoadGood(f, 2, rs);
    LoadedIs(f, 2, rs);
    var t := Loaded(f, 2, rs);
    assert t.keys == [0, 1];
    ReplaceKeeps(f, t, 0, 0, 3, 9);
    assert Without(t.keys, 0) == [1] && Hit(f, [1], 1) by { assert f.Hash([1][0]) == 1; }
    LoadGood(f, 2, ss);
    assert f.Hash(ss[0].key) == f.Hash(ss[1].key);
  }

  // A table that is saved and loaded has the same keys in the same order, the same counter,
  // and the same slots but for the data of invalid ones.
  lemma LoadSaved(f: Hasher, t: Table)
    requires Good(f, t)
    ensures var u := Loaded(f, |t.slots|, Saved(f, t));
      && u.keys == t.keys && u.used == t.used
      && (forall p :: 0 <= p < |t.slots| ==> u.slots[p] == if t.slots[p].valid then t.slots[p] else Slot(false, 0))
      && Good(f, u) && View(f, u) == View(f, t)
  {
    hide Hasher.Hash, Loaded;
    var rs := Saved(f, t);
    var u := Loaded(f, |t.slots|, rs);
    LoadedIs(f, |t.slots|, rs);
    LoadGood(f, |t.slots|, rs);
    assert u.keys == t.keys;
    forall p | 0 <= p < |t.slots|
      ensures u.slots[p] == if t.slots[p].valid then t.slots[p] else Slot(false, 0)
    {
      if t.slots[p].valid {
        var i :| 0 <= i < |t.keys| && f.Hash(t.keys[i]) == p;
        assert rs[i].key == t.keys[i];
      }
    }
  }
}
