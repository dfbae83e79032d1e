// The commands of the hash table toolkit on its two tables.
module HashToolkit {
  import opened Numbers
  import opened Options
  import opened HashFunctions
  import opened HashTables

  // A slot of a table: the list [valid, data].
  class Cell {
    var valid: bool
    var data: int

    constructor (valid: bool, data: int)
      ensures this.valid == valid && this.data == data
    {
      this.valid, this.data := valid, data;
    }
  }

  ghost function Values(cells: seq<Cell>): (s: seq<Slot>)
    reads cells
    ensures |s| == |cells| && forall i :: 0 <= i < |s| ==> s[i] == Slot(cells[i].valid, cells[i].data)
  {
    if cells == [] then [] else Values(cells[..|cells| - 1]) + [Slot(cells[|cells| - 1].valid, cells[|cells| - 1].data)]
  }

  // A Python list index: negative numbers count from the end.
  function ListIndex(num: int, length: nat): Option<nat> {
    if 0 <= num < length then Some(num)
    else if num < 0 <= length + num then Some(length + num)
    else None
  }

  // The hash of a key, or None where computing it raises an error.
  method ComputeHash(f: Hasher, key: int) returns (r: Option<nat>)
    requires f.params.SlicesFit()
    ensures r == if f.Fits(key) then Some(f.Hash(key)) else None
  {
    match f.kind
    case ToeplitzTable => r := ToeplitzHash(key, f.params);
    case XorTable => r := if f.Fits(key) then Some(SimpleXor(f.params, key)) else None;
  }

  class HashTable {
    const kind: Kind
    var keys: seq<nat>
    var slots: seq<Cell>
    var used: int

    ghost function Value(): Table
      reads this, slots
    {
      Table(keys, Values(slots), used)
    }

    lemma KeysAre()
      ensures Value().keys == keys
    {
    }

    // All free slots may be one shared list; a valid slot has its own.
    ghost predicate Owned()
      reads this, slots
    {
      forall i, j :: 0 <= i < j < |slots| && slots[i] == slots[j] ==> !slots[i].valid
    }

    constructor (kind: Kind, capacity: nat)
      ensures this.kind == kind && Value() == EmptyTable(capacity) && Owned() && |slots| == capacity
      ensures forall i :: 0 <= i < |slots| ==> fresh(slots[i])
    {
      this.kind := kind;
      keys, used := [], 0;
      new;
      var cell := new Cell(false, 0);
      slots := Repeat(cell, capacity);
    }

    // The table of comm_clear: a new list, in which all slots are one.
    method Clear(capacity: nat)
      modifies this
      ensures Value() == EmptyTable(capacity) && Owned()
      ensures forall i :: 0 <= i < |slots| ==> fresh(slots[i])
    {
      keys := [];
      var cell := new Cell(false, 0);
      slots := Repeat(cell, capacity);
      used := 0;
    }

    // A record at the end of the key list and in its slot.
    method Append(f: Hasher, h: nat, key: nat, data: int)
      requires f.Valid(|slots|) && Owned() && h == f.Hash(key)
      modifies this
      ensures Value() == Added(f, old(Value()), key, data) && Owned()
      ensures forall i :: 0 <= i < |slots| ==> fresh(slots[i]) || (i < |old(slots)| && slots[i] == old(slots)[i])
    {
      hide Hasher.Hash, Values, Pow2;
      keys := keys + [key];
      var cell := new Cell(true, data);
      slots := slots[h := cell];
      used := used + 1;
      assert Values(slots) == old(Values(slots))[h := Slot(true, data)];
    }

    // The inner loop of comm_save.
    method SaveRecords(f: Hasher) returns (rs: seq<Record>)
      requires f.Valid(|slots|) && used == |keys| && AllFit(f, keys)
      ensures rs == Saved(f, Value())
    {
      rs := [];
      for j := 0 to used
        invariant rs == Saved(f, Value())[..j]
      {
        var h := ComputeHash(f, keys[j]);
        rs := rs + [Record(keys[j], slots[h.value].data)];
      }
    }

    // The inner loop of comm_load, after the table was cleared; a key that cannot be hashed
    // ends it.
    method LoadRecords(f: Hasher, capacity: nat, rs: seq<Record>) returns (ok: bool)
      requires f.Valid(capacity)
      modifies this
      ensures ok <==> Fitting(f, rs) == |rs|
      ensures Value() == Loaded(f, capacity, rs[..Fitting(f, rs)]) && Owned()
      ensures forall i :: 0 <= i < |slots| ==> fresh(slots[i])
    {
      hide Hasher.Hash, Hasher.Fits, Values, Added, EmptyTable, Owned, Fitting;
      Clear(capacity);
      assert rs[..0] == [];
      for j := 0 to |rs|
        invariant Value() == Loaded(f, capacity, rs[..j]) && Owned()
        invariant forall i :: 0 <= i < |slots| ==> fresh(slots[i])
        invariant forall i :: 0 <= i < j ==> f.Fits(rs[i].key)
      {
        var h := ComputeHash(f, rs[j].key);
        if h.None? {
          FittingIs(f, rs, j);
          return false;
        }
        assert rs[..j + 1][..j] == rs[..j];
        Append(f, h.value, rs[j].key, rs[j].data);
      }
      FittingIs(f, rs, |rs|);
      ok := true;
    }

    // keys.insert, and a list of its own for the slot.
    method Insert(f: Hasher, q: nat, h: nat, key: nat, data: int)
      requires f.Valid(|slots|) && Owned() && q <= |keys| && h == f.Hash(key)
      modifies this
      ensures Value() == Table(Inserted(old(keys), q, key), old(Value()).slots[h := Slot(true, data)], old(used) + 1)
      ensures Owned()
      ensures forall i :: 0 <= i < |slots| ==> fresh(slots[i]) || (i < |old(slots)| && slots[i] == old(slots)[i])
    {
      hide Hasher.Hash, Values, Pow2;
      keys := keys[..q] + [key] + keys[q..];
      var cell := new Cell(true, data);
      slots := slots[h := cell];
      used := used + 1;
      assert Values(slots) == old(Values(slots))[h := Slot(true, data)];
    }

    // A slot's own list is marked free in place.
    method Invalidate(p: nat)
      requires p < |slots| && slots[p].valid && Owned()
      modifies slots[p]
      ensures Value() == old(Value()).(slots := Cleared(old(Value()).slots, p)) && Owned()
    {
      slots[p].valid := false;
      assert Values(slots) == Cleared(old(Values(slots)), p);
    }

    // The record branch of comm_remove.
    method RemoveRecord(f: Hasher, num: int) returns (r: Reply)
      requires Good(f, Value()) && Owned()
      modifies this`keys, this`used, slots
      ensures Owned()
      ensures r == match ListIndex(num, old(|keys|))
        case Some(_) => Done
        case None => if num < 0 then Crash else OutOfRange
      ensures match ListIndex(num, old(|keys|))
        case Some(i) => Value() == Removed(f, old(Value()), i)
        case None => Value() == old(Value())
    {
      hide Good, Hasher.Hash;
      GoodShape(f, Value());
      if num >= used {
        return OutOfRange;
      }
      if |keys| + num < 0 {
        return Crash;
      }
      var i := if num < 0 then |keys| + num else num;
      var h := ComputeHash(f, keys[i]);
      HitSlot(f, Value(), i);
      Invalidate(h.value);
      DropKey(i);
      r := Done;
    }

    // del keys[i], and one record less.
    method DropKey(i: nat)
      requires i < |keys| && Owned()
      modifies this`keys, this`used
      ensures Value() == old(Value()).(keys := Without(old(keys), i), used := old(used) - 1) && Owned()
    {
      keys := keys[..i] + keys[i + 1..];
      used := used - 1;
    }

    // The hash branch of comm_remove.
    method RemoveHash(f: Hasher, num: int) returns (r: Reply)
      requires Good(f, Value()) && Owned()
      modifies this`keys, this`used, slots
      ensures Owned()
      ensures r == match ListIndex(num, |slots|)
        case Some(p) => if old(Value()).slots[p].valid then Done else Vacant
        case None => if num < 0 then Crash else OutOfRange
      ensures r != Done ==> Value() == old(Value())
      ensures r == Done && num >= 0 ==>
        exists i :: 0 <= i < |old(keys)| && f.Hash(old(keys)[i]) == num && Value() == Removed(f, old(Value()), i)
      ensures r == Done && num < 0 ==>
        Value() == Table(old(keys), Cleared(old(Value()).slots, |slots| + num), old(used) - 1)
    {
      hide Good, Hasher.Hash, Values, Removed, Cleared, Without, HashParams.SlicesFit;
      GoodShape(f, Value());
      if num >= |slots| {
        return OutOfRange;
      }
      if |slots| + num < 0 {
        return Crash;
      }
      var p := if num < 0 then |slots| + num else num;
      if !slots[p].valid {
        return Vacant;
      }
      ghost var was := Value();
      Invalidate(p);
      ghost var i := DeleteHashing(f, num);
      used := used - 1;
      if num >= 0 {
        FirstHit(f, was, p, i);
        RemovedIs(f, was, i, Value());
      }
      r := Done;
    }

    // The loop that deletes the first key of a position, if there is one.
    method DeleteHashing(f: Hasher, num: int) returns (ghost i: nat)
      requires f.params.SlicesFit() && used == |keys| && AllFit(f, keys)
      modifies this`keys
      ensures i <= |old(keys)| && (forall j :: 0 <= j < i ==> f.Hash(old(keys)[j]) != num)
      ensures i < |old(keys)| ==> f.Hash(old(keys)[i]) == num && keys == Without(old(keys), i)
      ensures i == |old(keys)| ==> keys == old(keys)
    {
      for k := 0 to used
        invariant keys == old(keys) && forall j :: 0 <= j < k ==> f.Hash(keys[j]) != num
      {
        var h := ComputeHash(f, keys[k]);
        if num == h.value {
          keys := keys[..k] + keys[k + 1..];
          return k;
        }
      }
      i := used;
    }
  }

  lemma RemovedIs(f: Hasher, t: Table, i: nat, u: Table)
    requires f.Valid(|t.slots|) && i < |t.keys| && u.keys == Without(t.keys, i) && u.used == t.used - 1
    requires u.slots == Cleared(t.slots, f.Hash(t.keys[i]))
    ensures u == Removed(f, t, i)
  {
  }

  lemma GoodShape(f: Hasher, t: Table)
    requires Good(f, t)
    ensures f.Valid(|t.slots|) && t.used == |t.keys| && AllFit(f, t.keys)
  {
  }

  lemma FittingIs(f: Hasher, rs: seq<Record>, n: nat)
    requires n <= |rs| && (forall i :: 0 <= i < n ==> f.Fits(rs[i].key)) && (n < |rs| ==> !f.Fits(rs[n].key))
    ensures Fitting(f, rs) == n
  {
    hide Hasher.Fits;
  }

  lemma HitSlot(f: Hasher, t: Table, i: nat)
    requires Good(f, t) && i < |t.keys|
    ensures t.slots[f.Hash(t.keys[i])].valid
  {
  }

  // What a command reports; Crash is an exception, which leaves everything as it was.
  datatype Reply =
    | Done | Missing | KeyTooWide | DataTooWide | KeyInUse | NoSuchTable | Occupied | Full
    | OutOfRange | Vacant | NoSuchMode | Aborted | Mismatch | BadRecord | Crash

  // ---------------------------------------------------------------- the pair of tables

  // The map both tables stand for.
  function Union(f: Hasher, t: Table, g: Hasher, x: Table): map<nat, int>
    requires f.Valid(|t.slots|) && g.Valid(|x.slots|)
  {
    View(f, t) + View(g, x)
  }

  ghost predicate NoShared(a: seq<nat>, b: seq<nat>) {
    forall k :: k in a ==> k !in b
  }

  // Both tables satisfy the invariant and no key is in both.
  ghost predicate GoodPair(f: Hasher, t: Table, g: Hasher, x: Table) {
    Good(f, t) && Good(g, x) && NoShared(t.keys, x.keys)
  }

  lemma PairSwap(f: Hasher, t: Table, g: Hasher, x: Table)
    ensures GoodPair(f, t, g, x) <==> GoodPair(g, x, f, t)
    ensures GoodPair(f, t, g, x) ==> Union(f, t, g, x) == Union(g, x, f, t)
  {
    hide Good;
    if GoodPair(f, t, g, x) {
      GoodShape(f, t);
      GoodShape(g, x);
    }
  }

  lemma PairAdd(f: Hasher, t: Table, g: Hasher, x: Table, key: nat, data: int)
    requires GoodPair(f, t, g, x) && f.Fits(key) && !t.slots[f.Hash(key)].valid && key !in x.keys
    ensures GoodPair(f, Added(f, t, key, data), g, x)
    ensures Union(f, Added(f, t, key, data), g, x) == Union(f, t, g, x)[key := data]
  {
    hide Good, Hasher.Hash, View;
    GoodShape(f, t);
    GoodShape(g, x);
    AddKeeps(f, t, key, data);
    ViewKeys(f, t);
    ViewKeys(g, x);
    ViewKeys(f, Added(f, t, key, data));
  }

  lemma ViewKeys(f: Hasher, t: Table)
    requires f.Valid(|t.slots|)
    ensures forall k :: k in View(f, t) <==> k in t.keys
  {
    hide Hasher.Hash;
  }

  lemma PairRemove(f: Hasher, t: Table, g: Hasher, x: Table, i: nat)
    requires GoodPair(f, t, g, x) && i < |t.keys|
    ensures GoodPair(f, Removed(f, t, i), g, x)
    ensures Union(f, Removed(f, t, i), g, x) == Union(f, t, g, x) - {t.keys[i]}
  {
    hide Good, Hasher.Hash, View;
    GoodShape(f, t);
    GoodShape(g, x);
    RemoveKeeps(f, t, i);
    ViewKeys(f, t);
    ViewKeys(g, x);
    ViewKeys(f, Removed(f, t, i));
  }

  lemma PairRemoveAt(f: Hasher, t: Table, g: Hasher, x: Table, p: int, u: Table) returns (key: nat)
    requires GoodPair(f, t, g, x) && f.Valid(|t.slots|)
    requires exists i :: 0 <= i < |t.keys| && f.Hash(t.keys[i]) == p && u == Removed(f, t, i)
    ensures key in t.keys && f.Hash(key) == p && |u.slots| == |t.slots|
    ensures GoodPair(f, u, g, x) && Union(f, u, g, x) == Union(f, t, g, x) - {key}
  {
    hide Good, Hasher.Hash, Union, Removed, GoodPair;
    var i :| 0 <= i < |t.keys| && f.Hash(t.keys[i]) == p && u == Removed(f, t, i);
    RemovedCount(f, t, i);
    PairRemove(f, t, g, x, i);
    key := t.keys[i];
  }

  lemma PairClear(f: Hasher, t: Table, g: Hasher, x: Table, capacity: nat)
    requires GoodPair(f, t, g, x) && f.Valid(capacity)
    ensures GoodPair(f, EmptyTable(capacity), g, x)
    ensures Union(f, EmptyTable(capacity), g, x) == View(g, x)
  {
    hide Good, Hasher.Hash;
    GoodShape(g, x);
    EmptyIsGood(f, capacity);
  }

  lemma PairReplace(f: Hasher, t: Table, g: Hasher, x: Table, i: nat, q: nat, key: nat, data: int)
    requires GoodPair(f, t, g, x) && i < |t.keys| && q < |t.keys| && f.Fits(key)
    ensures GoodPair(f, Replaced(f, t, i, q, key, data), g, x)
      <==> !Hit(f, Without(t.keys, i), f.Hash(key)) && key !in x.keys
    ensures GoodPair(f, Replaced(f, t, i, q, key, data), g, x) ==>
      Union(f, Replaced(f, t, i, q, key, data), g, x) == (Union(f, t, g, x) - {t.keys[i]})[key := data]
  {
    hide Good, Hasher.Hash, View, Hit, Removed, Replaced;
    GoodShape(f, t);
    GoodShape(g, x);
    ReplaceKeeps(f, t, i, q, key, data);
    ReplacedKeys(f, t, i, q, key, data);
    ViewKeys(f, t);
    ViewKeys(g, x);
    ViewKeys(f, Replaced(f, t, i, q, key, data));
  }

  lemma ReplacedKeys(f: Hasher, t: Table, i: nat, q: nat, key: nat, data: int)
    requires Good(f, t) && i < |t.keys| && q < |t.keys|
    ensures |Replaced(f, t, i, q, key, data).slots| == |t.slots|
    ensures forall k :: k in Replaced(f, t, i, q, key, data).keys <==> k == key || (k in t.keys && k != t.keys[i])
  {
    hide Hasher.Hash, Without, Inserted;
    WithoutHits(f, t.keys, i);
    WithoutCount(t.keys, i);
    InsertedHits(f, Without(t.keys, i), q, key);
  }

  // list.insert at a possibly negative index of a list of the given length.
  function InsertIndex(num: int, length: nat): (q: nat)
    ensures q <= length
  {
    if num >= 0 then (if num < length then num else length)
    else if num + length >= 0 then num + length else 0
  }

  // The key list after a replacement: the new key takes the old one's place, but with a number
  // counted from the end the place before it.
  function Renamed(keys: seq<nat>, i: nat, fromEnd: bool, key: nat): seq<nat>
    requires i < |keys|
  {
    if !fromEnd || i == 0 then keys[i := key] else keys[..i - 1] + [key, keys[i - 1]] + keys[i + 1..]
  }

  lemma InsertedIs(keys: seq<nat>, i: nat, num: int, key: nat)
    requires ListIndex(num, |keys|) == Some(i)
    ensures Inserted(Without(keys, i), InsertIndex(num, |keys| - 1), key) == Renamed(keys, i, num < 0, key)
  {
  }

  // value.to_bytes(width // 8, 'little') succeeds.
  predicate FitsBytes(value: int, width: nat) {
    0 <= value < Pow2(8 * (width / 8))
  }

  // So many bytes, low one first, make up the value.
  lemma FitsBytesIs(value: int, width: nat)
    ensures FitsBytes(value, width) <==> exists bytes: seq<byte> :: |bytes| == width / 8 && Pack(8, bytes) == value
  {
    var n := width / 8;
    TimesIs(n, 8);
    if FitsBytes(value, width) {
      PackUnpack(8, value, n);
      Pow2Byte();
      var ds := Unpack(8, value, n);
      var bytes: seq<byte> := seq(n, i requires 0 <= i < n => ds[i]);
      assert bytes == ds;
    }
    if bytes: seq<byte> :| |bytes| == n && Pack(8, bytes) == value {
      Pow2Byte();
      PackBound(8, bytes);
    }
  }

  lemma Pow2Byte()
    ensures Pow2(8) == 256
  {
    assert Pow2(4) == 16;
  }

  // What fits the bytes of a width fits its bits.
  lemma BytesFitBits(value: int, width: nat)
    requires FitsBytes(value, width)
    ensures FitsBits(value, width) && FitsBits(value, width + 1)
  {
    Pow2Monotone(8 * (width / 8), width);
  }

  // A table takes the key: its slot there is free.
  predicate Takes(f: Hasher, t: Table, key: nat)
    requires f.Valid(|t.slots|)
  {
    !t.slots[f.Hash(key)].valid
  }

  lemma TakesRoom(f: Hasher, t: Table, key: nat)
    requires Good(f, t) && Takes(f, t, key)
    ensures t.used < |t.slots|
  {
    FullTable(f, t);
  }

  // The key a remove command means: the one at an index, or the one that hashes to a position.
  ghost predicate Names(mode: string, f: Hasher, keys: seq<nat>, num: int, key: nat)
    requires f.params.SlicesFit()
  {
    if mode == "record" then ListIndex(num, |keys|).Some? && key == keys[ListIndex(num, |keys|).value]
    else key in keys && f.Hash(key) == num
  }

  // The file of comm_save: the component's parameters and the records of each saved table.
  datatype Config = Config(params: HashParams, dataOutWidth: nat, capacity: nat, numOfTables: nat,
    tables: seq<seq<Record>>) {
    ghost predicate Valid() {
      params.SlicesFit() && Pow2(params.hashWidth) <= capacity && 1 <= numOfTables <= 2 && |tables| == numOfTables
    }

    // Every key of table i can be hashed.
    predicate Whole(i: nat)
      requires i < |tables|
    {
      Fitting(Hasher(if i == 0 then ToeplitzTable else XorTable, params), tables[i]) == |tables[i]|
    }

    // The records of table i that are read: those before a key that cannot be hashed.
    function Read(i: nat): (rs: seq<Record>)
      requires i < |tables|
      ensures Whole(i) ==> rs == tables[i]
    {
      tables[i][..Fitting(Hasher(if i == 0 then ToeplitzTable else XorTable, params), tables[i])]
    }
  }

  // What save writes for the first table, and for the second if there are two.
  function SavedTables(f: Hasher, t: Table, g: Hasher, x: Table, n: nat): seq<seq<Record>>
    requires f.Valid(|t.slots|) && g.Valid(|x.slots|)
  {
    if n == 1 then [Saved(f, t)] else [Saved(f, t), Saved(g, x)]
  }

  class Toolkit {
    const t: HashTable
    const x: HashTable
    const connected: bool
    // hash_func_params, and the toolkit's own copy of the hash key.
    var params: HashParams
    var hashKey: nat
    var dataOutWidth: nat
    var capacity: nat
    var numOfTables: nat

    function F(h: HashTable): Hasher
      reads this
    {
      Hasher(h.kind, params)
    }

    // The two tables share no list.
    ghost predicate Apart()
      reads this, t, x, t.slots, x.slots
    {
      && t.kind == ToeplitzTable && x.kind == XorTable && t != x && t.Owned() && x.Owned()
      && forall i, j :: 0 <= i < |t.slots| && 0 <= j < |x.slots| ==> t.slots[i] != x.slots[j]
    }

    ghost predicate Shaped()
      reads this, t, x, t.slots, x.slots
    {
      Apart() && 1 <= numOfTables <= 2 && |t.slots| == capacity && |x.slots| == capacity
    }

    ghost predicate Valid()
      reads this, t, x, t.slots, x.slots
    {
      Shaped() && GoodPair(F(t), t.Value(), F(x), x.Value())
    }

    ghost function Contents(): map<nat, int>
      reads this, t, x, t.slots, x.slots
      requires F(t).Valid(|t.slots|) && F(x).Valid(|x.slots|)
    {
      Union(F(t), t.Value(), F(x), x.Value())
    }

    constructor (params: HashParams, dataOutWidth: nat, capacity: nat, numOfTables: nat, connected: bool)
      requires params.SlicesFit() && Pow2(params.hashWidth) <= capacity && 1 <= numOfTables <= 2
      ensures Valid() && Contents() == map[]
      ensures this.params == params && hashKey == params.hashKey && this.capacity == capacity
      ensures this.numOfTables == numOfTables && this.connected == connected
    {
      hide GoodPair, Union, Hasher.Valid, Values;
      hide EmptyTable, Pow2, HashParams.SlicesFit, HashTable.Owned, HashTable.Value;
      this.params, this.dataOutWidth, this.capacity, this.numOfTables := params, dataOutWidth, capacity, numOfTables;
      this.connected, hashKey := connected, params.hashKey;
      t := new HashTable(ToeplitzTable, capacity);
      x := new HashTable(XorTable, capacity);
      new;
      HasherValid(F(t), capacity);
      HasherValid(F(x), capacity);
      EmptyPair(F(t), F(x), capacity);
    }

    // get_params
    function GetParams(table: string): Option<HashTable> {
      if table == "toeplitz" then Some(t) else if table == "xor" then Some(x) else None
    }

    // The names of the two tables; no other name is known.
    lemma NamesAre(table: string)
      requires Apart()
      ensures GetParams(table).Some? <==> table in {"toeplitz", "xor"}
      ensures GetParams("toeplitz").value.kind == ToeplitzTable && GetParams("xor").value.kind == XorTable
      ensures forall h :: h == t || h == x ==> {h, Other(h)} == {t, x} && h != Other(h)
    {
    }

    function Other(h: HashTable): HashTable {
      if h == t then x else t
    }

    // The table that ends up with a new key: the one asked for, or else the second one.
    ghost function Taker(key: nat, h: HashTable, recurse: bool): Option<HashTable>
      reads this, t, x, t.slots, x.slots
      requires h == t || h == x
      requires F(t).Valid(|t.slots|) && F(x).Valid(|x.slots|)
    {
      if Takes(F(h), h.Value(), key) then Some(h)
      else if h.used < capacity && !recurse && numOfTables != 1 && Takes(F(Other(h)), Other(h).Value(), key)
      then Some(Other(h))
      else None
    }

    ghost predicate InUse(key: int)
      reads this, t, x
    {
      key in t.keys || key in x.keys
    }

    // What comm_add reports.
    ghost function AddReply(key: Option<int>, data: Option<int>, table: string, recurse: bool): Reply
      reads this, t, x, t.slots, x.slots
      requires F(t).Valid(|t.slots|) && F(x).Valid(|x.slots|)
    {
      if key.None? || data.None? then Missing
      else if !FitsBytes(key.value, params.mvbKeyWidth) then KeyTooWide
      else if !FitsBytes(data.value, dataOutWidth) then DataTooWide
      else if InUse(key.value) then KeyInUse
      else if GetParams(table).None? then NoSuchTable
      else
        var h := GetParams(table).value;
        if Taker(key.value, h, recurse).Some? then Done
        else if h.used >= capacity then Full
        else if recurse || numOfTables == 1 || Other(h).used < capacity then Occupied
        else Full
    }

    // When an add succeeds, and which table takes the key: the one named if its slot there is
    // free, and else, if that table is not full and there are two, the other one, unless
    // the command called itself.
    lemma AddIs(key: int, data: int, table: string, recurse: bool)
      requires Valid()
      ensures AddReply(Some(key), Some(data), table, recurse) == Done <==> (
        && FitsBytes(key, params.mvbKeyWidth) && FitsBytes(data, dataOutWidth)
        && key !in t.keys && key !in x.keys && table in {"toeplitz", "xor"}
        && var h, g := if table == "toeplitz" then t else x, if table == "toeplitz" then x else t;
          !h.slots[F(h).Hash(key)].valid
            || (!recurse && h.used < |h.slots| && numOfTables == 2 && !g.slots[F(g).Hash(key)].valid))
      ensures AddReply(Some(key), Some(data), table, recurse) == Done ==>
        var h, g := if table == "toeplitz" then t else x, if table == "toeplitz" then x else t;
        Taker(key, h, recurse) == Some(if !h.slots[F(h).Hash(key)].valid then h else g)
      ensures var r := AddReply(Some(key), Some(data), table, recurse);
        && (r == KeyTooWide <==> !FitsBytes(key, params.mvbKeyWidth))
        && (r == DataTooWide <==> FitsBytes(key, params.mvbKeyWidth) && !FitsBytes(data, dataOutWidth))
        && (r == NoSuchTable ==> table !in {"toeplitz", "xor"}) && (r == KeyInUse ==> key in t.keys + x.keys)
        && (r == Occupied || r == Full ==> table in {"toeplitz", "xor"} && key !in t.keys + x.keys)
    {
      hide Good, Hasher.Hash, View;
      PairShape(F(t), t.Value(), F(x), x.Value());
    }

    // The branch of comm_add that stores the record.
    method Store(h: HashTable, p: nat, key: nat, data: int)
      requires Valid() && (h == t || h == x) && !InUse(key) && Takes(F(h), h.Value(), key)
      requires F(h).Fits(key) && p == F(h).Hash(key)
      modifies h
      ensures Valid() && Contents() == old(Contents())[key := data]
      ensures h.Value() == Added(F(h), old(h.Value()), key, data) && Other(h).Value() == old(Other(h).Value())
    {
      hide Good, Hasher.Hash, Values, Union, GoodPair, Added;
      PairShape(F(t), t.Value(), F(x), x.Value());
      if h == t {
        PairAdd(F(t), t.Value(), F(x), x.Value(), key, data);
      } else {
        PairSwap(F(t), t.Value(), F(x), x.Value());
        PairAdd(F(x), x.Value(), F(t), t.Value(), key, data);
        PairSwap(F(x), Added(F(x), x.Value(), key, data), F(t), t.Value());
      }
      AddedCount(F(h), h.Value(), key, data);
      h.Append(F(h), p, key, data);
    }

    // comm_add
    method CommAdd(key: Option<int>, data: Option<int>, table: string, recurse: bool) returns (r: Reply)
      requires Valid()
      modifies t, x
      ensures Valid()
      ensures r == old(AddReply(key, data, table, recurse))
      ensures r == Done ==> Contents() == old(Contents())[key.value := data.value]
      ensures r == Done ==>
        var h := old(Taker(key.value, GetParams(table).value, recurse)).value;
        if h == t then t.Value() == Added(F(t), old(t.Value()), key.value, data.value) && x.Value() == old(x.Value())
        else x.Value() == Added(F(x), old(x.Value()), key.value, data.value) && t.Value() == old(t.Value())
      ensures r != Done ==> t.Value() == old(t.Value()) && x.Value() == old(x.Value())
      decreases !recurse
    {
      hide Good, Hasher.Hash, Values, Union, GoodPair, Added, Apart, Pow2;
      PairShape(F(t), t.Value(), F(x), x.Value());
      if key.None? || data.None? {
        return Missing;
      }
      if !FitsBytes(key.value, params.mvbKeyWidth) {
        return KeyTooWide;
      }
      if !FitsBytes(data.value, dataOutWidth) {
        return DataTooWide;
      }
      if key.value in t.keys || key.value in x.keys {
        return KeyInUse;
      }
      var chosen := GetParams(table);
      if chosen.None? {
        return NoSuchTable;
      }
      var h := chosen.value;
      if Takes(F(h), h.Value(), key.value) {
        PairRoom(F(t), t.Value(), F(x), x.Value(), key.value);
      }
      if h.used < capacity {
        BytesFitBits(key.value, params.mvbKeyWidth);
        var p := ComputeHash(F(h), key.value);
        if !h.slots[p.value].valid {
          Store(h, p.value, key.value, data.value);
          return Done;
        }
        if numOfTables == 1 || recurse {
          return Occupied;
        }
        r := CommAdd(key, data, if table == "toeplitz" then "xor" else "toeplitz", true);
      } else {
        r := Full;
      }
    }

    // A negative position that names a valid slot from the end of the list.
    ghost predicate NegativeHit(mode: string, h: HashTable, num: int)
      reads this, t, x, t.slots, x.slots
      requires h == t || h == x
    {
      mode == "hash" && num < 0 <= |h.slots| + num && h.slots[|h.slots| + num].valid
    }

    // What comm_remove reports.
    ghost function RemoveReply(mode: Option<string>, table: Option<string>, num: Option<int>): Reply
      reads this, t, x, t.slots, x.slots
    {
      if table.None? || mode.None? || num.None? then Missing
      else if GetParams(table.value).None? then NoSuchTable
      else
        var h := GetParams(table.value).value;
        var i := if mode.value == "record" then ListIndex(num.value, |h.keys|) else ListIndex(num.value, |h.slots|);
        if mode.value != "record" && mode.value != "hash" then NoSuchMode
        else if i.None? then (if num.value < 0 then Crash else OutOfRange)
        else if mode.value == "hash" && !h.slots[i.value].valid then Vacant
        else Done
    }

    // When a remove succeeds: a record number of the table, or the position of a valid slot,
    // both possibly counted from the end.
    lemma RemoveIs(mode: string, table: string, num: int)
      requires Valid()
      ensures RemoveReply(Some(mode), Some(table), Some(num)) == Done <==> (
        && table in {"toeplitz", "xor"}
        && var h := if table == "toeplitz" then t else x;
          || (mode == "record" && -|h.keys| <= num < |h.keys|)
          || (mode == "hash" && -|h.slots| <= num < |h.slots|
            && h.slots[if num < 0 then |h.slots| + num else num].valid))
    {
      hide Good, Hasher.Hash, Values;
    }

    // comm_remove: everything stays in step, unless a negative position hits a valid slot.
    method CommRemove(mode: Option<string>, table: Option<string>, num: Option<int>) returns (r: Reply)
      requires Valid()
      modifies t, x, t.slots, x.slots
      ensures r == old(RemoveReply(mode, table, num))
      ensures r != Done ==> Valid() && t.Value() == old(t.Value()) && x.Value() == old(x.Value())
      ensures r == Done ==>
        Other(GetParams(table.value).value).Value() == old(Other(GetParams(table.value).value).Value())
      ensures r == Done ==> (Valid() <==> !old(NegativeHit(mode.value, GetParams(table.value).value, num.value)))
      ensures r == Done && Valid() ==> exists key ::
        && Names(mode.value, F(GetParams(table.value).value), old(GetParams(table.value).value.keys), num.value, key)
        && Contents() == old(Contents()) - {key}
    {
      hide Good, Hasher.Hash, Values, Union, GoodPair, Removed, Cleared, Pow2;
      PairShape(F(t), t.Value(), F(x), x.Value());
      if table.None? || mode.None? || num.None? {
        return Missing;
      }
      var chosen := GetParams(table.value);
      if chosen.None? {
        return NoSuchTable;
      }
      if mode.value == "record" {
        r := RecordGone(chosen.value, num.value);
      } else if mode.value == "hash" {
        r := PositionGone(chosen.value, num.value);
      } else {
        r := NoSuchMode;
      }
    }

    // Both tables in the order the command sees them: its own first.
    lemma Ordered(h: HashTable)
      requires h == t || h == x
      ensures GoodPair(F(t), t.Value(), F(x), x.Value()) <==> GoodPair(F(h), h.Value(), F(Other(h)), Other(h).Value())
      ensures GoodPair(F(t), t.Value(), F(x), x.Value()) ==>
        Union(F(t), t.Value(), F(x), x.Value()) == Union(F(h), h.Value(), F(Other(h)), Other(h).Value())
      ensures GoodPair(F(h), h.Value(), F(Other(h)), Other(h).Value()) ==>
        Good(F(h), h.Value()) && F(h).Valid(|h.slots|)
    {
      hide Hasher.Hash, Values, Union;
      PairSwap(F(t), t.Value(), F(x), x.Value());
    }

    method RecordGone(h: HashTable, num: int) returns (r: Reply)
      requires Valid() && (h == t || h == x)
      modifies h`keys, h`used, h.slots
      ensures Valid()
      ensures r == match ListIndex(num, old(|h.keys|))
        case Some(_) => Done
        case None => if num < 0 then Crash else OutOfRange
      ensures Other(h).Value() == old(Other(h).Value())
      ensures match ListIndex(num, old(|h.keys|))
        case Some(i) => h.Value() == Removed(F(h), old(h.Value()), i)
          && Contents() == old(Contents()) - {old(h.keys)[i]}
        case None => h.Value() == old(h.Value())
    {
      hide Good, Hasher.Hash, Values, Union, GoodPair, Removed, Pow2;
      PairShape(F(t), t.Value(), F(x), x.Value());
      Ordered(h);
      ghost var was, other := h.Value(), Other(h).Value();
      r := h.RemoveRecord(F(h), num);
      assert Shaped() && Other(h).Value() == other;
      hide Shaped, HashTable.Value;
      if r == Done {
        ghost var i := ListIndex(num, |was.keys|).value;
        RemovedCount(F(h), was, i);
        PairRemove(F(h), was, F(Other(h)), other, i);
        Ordered(h);
      }
    }

    method PositionGone(h: HashTable, num: int) returns (r: Reply)
      requires Valid() && (h == t || h == x)
      modifies h`keys, h`used, h.slots
      ensures r == match ListIndex(num, |old(h.slots)|)
        case Some(p) => if old(h.slots[p].valid) then Done else Vacant
        case None => if num < 0 then Crash else OutOfRange
      ensures Other(h).Value() == old(Other(h).Value())
      ensures r != Done ==> Valid() && h.Value() == old(h.Value())
      ensures r == Done ==> (Valid() <==> num >= 0)
      ensures r == Done <==> old(ListIndex(num, |h.slots|).Some? && h.slots[ListIndex(num, |h.slots|).value].valid)
      ensures r == Done && num >= 0 ==>
        exists key :: key in old(h.keys) && F(h).Hash(key) == num && Contents() == old(Contents()) - {key}
    {
      hide Good, Hasher.Hash, Values, Union, GoodPair, Removed, Pow2, Cleared, Hasher.Valid, HashTable.Owned;
      hide AllFit, View, HashParams.SlicesFit, Without, Hasher.KeyWidth;
      PairShape(F(t), t.Value(), F(x), x.Value());
      Ordered(h);
      ghost var was, other := h.Value(), Other(h).Value();
      r := h.RemoveHash(F(h), num);
      assert Shaped() && Other(h).Value() == other;
      hide Shaped, HashTable.Value;
      if r == Done && num >= 0 {
        ghost var key := PairRemoveAt(F(h), was, F(Other(h)), other, num, h.Value());
        Ordered(h);
      } else if r == Done {
        NegativePair(F(h), was, F(Other(h)), other, |h.slots| + num);
        Ordered(h);
      }
    }

    // comm_replace: the old record goes, and the new key takes its place without a look at
    // its slot or at the other table. A key that cannot be hashed raises an error first.
    method CommReplace(table: Option<string>, recordNum: Option<int>, key: Option<int>, data: Option<int>)
      returns (r: Reply)
      requires Valid()
      modifies t, x, t.slots, x.slots
      ensures r != Done ==> Valid() && t.Value() == old(t.Value()) && x.Value() == old(x.Value())
      ensures r == if table.None? || recordNum.None? || key.None? || data.None? then Missing
        else if GetParams(table.value).None? then NoSuchTable
        else if recordNum.value >= |old(GetParams(table.value).value.keys)| then OutOfRange
        else if !(0 <= key.value < Pow2(params.mvbKeyWidth + if table.value == "xor" then 1 else 0)) then Crash
        else if ListIndex(recordNum.value, |old(GetParams(table.value).value.keys)|).None? then Crash
        else Done
      ensures r == Done ==>
        Other(GetParams(table.value).value).Value() == old(Other(GetParams(table.value).value).Value())
      ensures r == Done ==>
        var h, was := GetParams(table.value).value, old(GetParams(table.value).value.keys);
        var i := ListIndex(recordNum.value, |was|).value;
        && h.keys == Renamed(was, i, recordNum.value < 0, key.value)
        && (Valid() <==> !Hit(F(h), Without(was, i), F(h).Hash(key.value)) && key.value !in old(Other(h).keys))
        && (Valid() ==> Contents() == (old(Contents()) - {was[i]})[key.value := data.value])
    {
      hide Good, Hasher.Hash, Values, Union, GoodPair, Removed, Pow2, Apart, Hit, Without;
      PairShape(F(t), t.Value(), F(x), x.Value());
      if table.None? || recordNum.None? || key.None? || data.None? {
        return Missing;
      }
      var chosen := GetParams(table.value);
      if chosen.None? {
        return NoSuchTable;
      }
      FitsIs(table.value, key.value);
      r := RecordReplaced(chosen.value, recordNum.value, key.value, data.value);
    }

    // The bits a key may have: one more for the simple hash.
    lemma FitsIs(table: string, key: int)
      requires Apart() && GetParams(table).Some?
      ensures F(GetParams(table).value).Fits(key)
        <==> 0 <= key < Pow2(params.mvbKeyWidth + if table == "xor" then 1 else 0)
    {
    }

    method RecordReplaced(h: HashTable, num: int, key: int, data: int) returns (r: Reply)
      requires Valid() && (h == t || h == x)
      modifies h, h.slots
      ensures r == if num >= old(|h.keys|) then OutOfRange
        else if !F(h).Fits(key) || ListIndex(num, old(|h.keys|)).None? then Crash
        else Done
      ensures r != Done ==> Valid() && h.Value() == old(h.Value())
      ensures Other(h).Value() == old(Other(h).Value())
      ensures r == Done ==>
        var i := ListIndex(num, old(|h.keys|)).value;
        && h.keys == Renamed(old(h.keys), i, num < 0, key)
        && (Valid() <==> !Hit(F(h), Without(old(h.keys), i), F(h).Hash(key)) && key !in old(Other(h).keys))
        && (Valid() ==> Contents() == (old(Contents()) - {old(h.keys)[i]})[key := data])
    {
      hide Good, Hasher.Hash, Values, Union, GoodPair, Removed, Pow2, Hit, Without, Cleared;
      hide Renamed, View, AllFit, HashParams.SlicesFit, Hasher.KeyWidth;
      PairShape(F(t), t.Value(), F(x), x.Value());
      Ordered(h);
      if num >= h.used {
        return OutOfRange;
      }
      ghost var was, other := h.Value(), Other(h).Value();
      var hash := ComputeHash(F(h), key);
      if hash.None? {
        return Crash;
      }
      r := RecordGone(h, num);
      if r == Crash {
        return;
      }
      ghost var i := ListIndex(num, |was.keys|).value;
      RemovedCount(F(h), was, i);
      var q := InsertIndex(num, |h.keys|);
      hide Shaped, HashTable.Value;
      PutBack(h, q, hash.value, key, data);
      RemovedShape(F(h), was, i);
      InsertedIs(was.keys, i, num, key);
      PairReplace(F(h), was, F(Other(h)), other, i, q, key, data);
      ReplacedKeys(F(h), was, i, q, key, data);
      ReplacedIs(F(h), was, i, q, key, data, h.Value());
      h.KeysAre();
      Ordered(h);
      r := Done;
    }

    method PutBack(h: HashTable, q: nat, hash: nat, key: nat, data: int)
      requires Valid() && (h == t || h == x) && q <= |h.keys| && hash == F(h).Hash(key)
      modifies h
      ensures Shaped() && Other(h).Value() == old(Other(h).Value())
      ensures F(h).Valid(|old(h.Value()).slots|)
      ensures h.Value()
        == Table(Inserted(old(h.Value()).keys, q, key), old(h.Value()).slots[hash := Slot(true, data)],
          old(h.Value()).used + 1)
    {
      hide Hasher.Hash, GoodPair, Values;
      PairShape(F(t), t.Value(), F(x), x.Value());
      h.Insert(F(h), q, hash, key, data);
    }

    // comm_clear, the answer to its question being given.
    method CommClear(table: Option<string>, silent: bool, yes: bool) returns (r: Reply)
      requires Valid()
      modifies t, x
      ensures Valid()
      ensures r == Done <==> table.Some? && GetParams(table.value).Some? && (silent || yes)
      ensures r == Done ==>
        var h := GetParams(table.value).value;
        h.Value() == EmptyTable(capacity) && Other(h).Value() == old(Other(h).Value())
          && Contents() == View(F(Other(h)), old(Other(h).Value()))
      ensures r != Done ==> t.Value() == old(t.Value()) && x.Value() == old(x.Value())
    {
      hide Good, Hasher.Hash, Values, Union, GoodPair, Pow2, EmptyTable, View;
      PairShape(F(t), t.Value(), F(x), x.Value());
      if table.None? {
        return Missing;
      }
      var chosen := GetParams(table.value);
      if chosen.None? {
        return NoSuchTable;
      }
      var h := chosen.value;
      if !silent && !yes {
        return Aborted;
      }
      Ordered(h);
      EmptyPair(F(h), F(h), capacity);
      PairClear(F(h), h.Value(), F(Other(h)), Other(h).Value(), capacity);
      h.Clear(capacity);
      Ordered(h);
      r := Done;
    }

    // comm_save: the parameters, with the toolkit's own hash key, and the records in order.
    method CommSave() returns (c: Config)
      requires Valid()
      ensures c == Config(params.(hashKey := hashKey), dataOutWidth, capacity, numOfTables,
                     SavedTables(F(t), t.Value(), F(x), x.Value(), numOfTables))
    {
      hide Good, Hasher.Hash, Values, GoodPair, Apart, Pow2, Saved;
      PairShape(F(t), t.Value(), F(x), x.Value());
      var tables := [];
      var first := t.SaveRecords(F(t));
      tables := [first];
      if numOfTables > 1 {
        var second := x.SaveRecords(F(x));
        tables := [first, second];
      }
      c := Config(params.(hashKey := hashKey), dataOutWidth, capacity, numOfTables, tables);
    }

    // The parameters a connected component has to share with the file; the hash key is free.
    predicate Matches(c: Config)
      reads this
    {
      && c.params == params.(hashKey := c.params.hashKey)
      && c.dataOutWidth == dataOutWidth && c.capacity == capacity && c.numOfTables == numOfTables
    }

    lemma MatchesIs(c: Config)
      ensures Matches(c) <==> (
        && c.params.mvbKeyWidth == params.mvbKeyWidth && c.params.hashWidth == params.hashWidth
        && c.params.hashKeyWidth == params.hashKeyWidth && c.dataOutWidth == dataOutWidth
        && c.capacity == capacity && c.numOfTables == numOfTables)
    {
    }

    // comm_load of a well-formed file, the answer to its question being given. With one
    // table in the file the second one stays as it was, under the new parameters. A refused
    // file still leaves its hash key behind; a key that cannot be hashed ends the load with
    // the records read so far.
    method CommLoad(c: Config, silent: bool, yes: bool) returns (r: Reply)
      requires Valid() && c.Valid()
      modifies this, t, x
      ensures r == Aborted <==> !(silent || yes || old(|t.keys| + |x.keys|) == 0)
      ensures r == Mismatch <==> (silent || yes || old(|t.keys| + |x.keys|) == 0) && connected && !old(Matches(c))
      ensures r == Aborted || r == Mismatch || r == Done || r == BadRecord
      ensures r == Aborted || r == Mismatch ==>
        t.Value() == old(t.Value()) && x.Value() == old(x.Value()) && params == old(params)
      ensures r == Aborted || r == Mismatch ==> (
        && Valid() && dataOutWidth == old(dataOutWidth)
        && capacity == old(capacity) && numOfTables == old(numOfTables))
      ensures r == Aborted ==> hashKey == old(hashKey)
      ensures r == Mismatch ==> hashKey == c.params.hashKey
      ensures r == Done || r == BadRecord ==>
        && params == c.params && hashKey == c.params.hashKey && dataOutWidth == c.dataOutWidth
        && capacity == c.capacity && numOfTables == c.numOfTables && F(t).Valid(capacity) && F(x).Valid(capacity)
      ensures r == Done ==> c.Whole(0) && (numOfTables == 2 ==> c.Whole(1))
      ensures r == BadRecord ==> !c.Whole(0) || (numOfTables == 2 && !c.Whole(1))
      ensures r == Done || r == BadRecord ==> t.Value() == Loaded(F(t), capacity, c.Read(0))
      ensures r == Done || r == BadRecord ==>
        x.Value() == if numOfTables == 2 && c.Whole(0) then Loaded(F(x), capacity, c.Read(1)) else old(x.Value())
      ensures r == Done && numOfTables == 2 ==>
        (Valid() <==> GoodPair(F(t), Loaded(F(t), capacity, c.tables[0]), F(x), Loaded(F(x), capacity, c.tables[1])))
    {
      hide Good, Hasher.Hash, Values, GoodPair, Loaded;
      hide Pow2, HashParams.SlicesFit, HashTable.Owned, DistinctRecords, Hasher.Valid, Fitting, Union;
      if |t.keys| + |x.keys| > 0 && !silent && !yes {
        return Aborted;
      }
      hashKey := c.params.hashKey;
      if connected && !Matches(c) {
        return Mismatch;
      }
      dataOutWidth, capacity, numOfTables := c.dataOutWidth, c.capacity, c.numOfTables;
      params := c.params;
      var ok := LoadTables(c);
      r := if ok then Done else BadRecord;
    }

    // The loop of comm_load over the tables of the file.
    method LoadTables(c: Config) returns (ok: bool)
      requires c.Valid() && Apart() && params == c.params && capacity == c.capacity && numOfTables == c.numOfTables
      modifies t, x
      ensures F(t).Valid(capacity) && F(x).Valid(capacity)
      ensures ok <==> c.Whole(0) && (numOfTables == 2 ==> c.Whole(1))
      ensures t.Value() == Loaded(F(t), capacity, c.Read(0))
      ensures x.Value() == if numOfTables == 2 && c.Whole(0) then Loaded(F(x), capacity, c.Read(1)) else old(x.Value())
      ensures ok && numOfTables == 2 ==> Shaped()
    {
      hide Hasher.Hash, Values, Loaded, Pow2, HashParams.SlicesFit, HashTable.Owned, Hasher.Valid, Fitting;
      HasherValid(F(t), capacity);
      HasherValid(F(x), capacity);
      ok := t.LoadRecords(F(t), capacity, c.tables[0]);
      if ok && numOfTables > 1 {
        ok := x.LoadRecords(F(x), capacity, c.tables[1]);
      }
    }
  }

  // A hash function after the hash key was changed.
  function Rekeyed(f: Hasher, k: nat): Hasher {
    f.(params := f.params.(hashKey := k))
  }

  // A toolkit saved and loaded into another one that is not connected. The key lists and the
  // counters come back. The records are put where the hash key that was saved puts them, which
  // after a refused load is not the one the tables were hashed with: the pair is in step, and
  // then stands for the same map, exactly if no two keys of the Toeplitz table collide under it.
  // With one table the records put into the second one are not saved.
  method SaveAndLoad(a: Toolkit, b: Toolkit)
    requires a.Valid() && b.Valid() && a != b && !b.connected && Rekeyed(a.F(a.t), a.hashKey).params.SlicesFit()
    requires {a.t, a.x} !! {b.t, b.x}
    modifies b, b.t, b.x
    ensures a.Valid() && b.F(b.t) == Rekeyed(a.F(a.t), a.hashKey) && b.F(b.t).Valid(|b.t.slots|)
    ensures b.t.keys == a.t.keys && b.t.used == a.t.used
    ensures Good(b.F(b.t), b.t.Value()) <==> DistinctHashes(b.F(b.t), a.t.keys)
    ensures Good(b.F(b.t), b.t.Value()) ==> View(b.F(b.t), b.t.Value()) == View(a.F(a.t), a.t.Value())
    ensures a.numOfTables == 1 ==> b.x.Value() == old(b.x.Value())
    ensures a.numOfTables == 2 ==> b.x.keys == a.x.keys && b.x.used == a.x.used
    ensures a.numOfTables == 2 ==> (b.Valid() <==> DistinctHashes(b.F(b.t), a.t.keys))
    ensures a.numOfTables == 2 && b.Valid() ==> b.Contents() == a.Contents()
  {
    hide Good, Hasher.Hash, Values, Union, GoodPair, Loaded, Saved, Pow2, HashParams.SlicesFit, View, DistinctHashes;
    hide Fitting, Hasher.KeyWidth;
    PairShape(a.F(a.t), a.t.Value(), a.F(a.x), a.x.Value());
    SaveLoadUnder(a.F(a.t), a.t.Value(), a.F(a.x), a.x.Value(), a.capacity, a.hashKey);
    var c := a.CommSave();
    var r := b.CommLoad(c, true, true);
  }

  // With the hash key in use, the pair comes back in step.
  lemma SameKeyInStep(f: Hasher, t: Table)
    requires Good(f, t)
    ensures Rekeyed(f, f.params.hashKey) == f && DistinctHashes(f, t.keys)
  {
  }

  // A refused file with hash key 0, and then a save: the file cannot be loaded in step.
  method RefusedLoadThenSave(a: Toolkit, refused: Config, b: Toolkit)
    requires a.Valid() && b.Valid() && a != b && !b.connected && {a.t, a.x} !! {b.t, b.x}
    requires a.connected && a.numOfTables == 2 && |a.t.keys| >= 2
    requires refused.Valid() && refused.params.hashKey == 0 && !a.Matches(refused)
    modifies a, a.t, a.x, b, b.t, b.x
    ensures a.Valid() && a.Contents() == old(a.Contents())
    ensures b.t.keys == a.t.keys && b.x.keys == a.x.keys && !b.Valid()
  {
    hide Good, Hasher.Hash, Values, Union, GoodPair, Loaded, Saved, Pow2, View, DistinctHashes, HashParams.SlicesFit;
    hide Fitting, Hasher.KeyWidth;
    PairShape(a.F(a.t), a.t.Value(), a.F(a.x), a.x.Value());
    var r := a.CommLoad(refused, true, true);
    ZeroKeyFits(a.params);
    SaveAndLoad(a, b);
    ZeroKeyCollides(b.F(b.t), b.t.keys);
  }

  lemma ZeroKeyFits(p: HashParams)
    requires p.SlicesFit()
    ensures p.(hashKey := 0).SlicesFit()
  {
  }

  // The same under another hash key.
  lemma SaveLoadUnder(f: Hasher, t: Table, g: Hasher, x: Table, capacity: nat, k: nat)
    requires GoodPair(f, t, g, x) && |t.slots| == capacity && |x.slots| == capacity
    requires f.kind == ToeplitzTable && g == f.(kind := XorTable) && Rekeyed(f, k).params.SlicesFit()
    ensures Rekeyed(f, k).Valid(capacity) && Rekeyed(g, k).Valid(capacity)
    ensures var u := Loaded(Rekeyed(f, k), capacity, Saved(f, t));
      && u.keys == t.keys && u.used == t.used && |u.slots| == capacity
      && Fitting(Rekeyed(f, k), Saved(f, t)) == |Saved(f, t)|
      && (Good(Rekeyed(f, k), u) <==> DistinctHashes(Rekeyed(f, k), t.keys))
      && (Good(Rekeyed(f, k), u) ==> View(Rekeyed(f, k), u) == View(f, t))
    ensures var u, y := Loaded(Rekeyed(f, k), capacity, Saved(f, t)), Loaded(Rekeyed(g, k), capacity, Saved(g, x));
      && y.keys == x.keys && y.used == x.used && |y.slots| == capacity
      && Fitting(Rekeyed(g, k), Saved(g, x)) == |Saved(g, x)|
      && (GoodPair(Rekeyed(f, k), u, Rekeyed(g, k), y) <==> DistinctHashes(Rekeyed(f, k), t.keys))
      && (GoodPair(Rekeyed(f, k), u, Rekeyed(g, k), y) ==>
        Union(Rekeyed(f, k), u, Rekeyed(g, k), y) == Union(f, t, g, x))
  {
    hide Good, Loaded, View, Saved, Hasher.Hash, Pow2, Fitting, DistinctHashes;
    GoodShape(f, t);
    GoodShape(g, x);
    LoadSavedUnder(f, t, Rekeyed(f, k));
    LoadSavedUnder(g, x, Rekeyed(g, k));
    XorDistinct(g, Rekeyed(g, k), x.keys);
    SameKeyInStep(g, x);
  }

  // Loading what was saved from a pair in step gives back the same pair.
  lemma SaveLoad(f: Hasher, t: Table, g: Hasher, x: Table, capacity: nat)
    requires GoodPair(f, t, g, x) && |t.slots| == capacity && |x.slots| == capacity
    ensures var tables := SavedTables(f, t, g, x, 2);
      var u, y := Loaded(f, capacity, tables[0]), Loaded(g, capacity, tables[1]);
      && GoodPair(f, u, g, y) && Union(f, u, g, y) == Union(f, t, g, x)
      && u.keys == t.keys && u.used == t.used && y.keys == x.keys && y.used == x.used
      && (forall p :: 0 <= p < capacity && t.slots[p].valid ==> u.slots[p] == t.slots[p])
      && (forall p :: 0 <= p < capacity && x.slots[p].valid ==> y.slots[p] == x.slots[p])
      && (forall p :: 0 <= p < capacity ==>
        u.slots[p].valid == t.slots[p].valid && y.slots[p].valid == x.slots[p].valid)
  {
    hide Good, Loaded, View, Saved;
    GoodShape(f, t);
    GoodShape(g, x);
    LoadSaved(f, t);
    LoadSaved(g, x);
  }

  // Loading a file does not look for collisions or shared keys.
  lemma LoadPair(f: Hasher, g: Hasher, capacity: nat, rs: seq<Record>, ss: seq<Record>)
    requires f.Valid(capacity) && g.Valid(capacity)
    ensures GoodPair(f, Loaded(f, capacity, rs), g, Loaded(g, capacity, ss)) <==> (
      && Fitting(f, rs) == |rs| && Fitting(g, ss) == |ss| && DistinctRecords(f, rs) && DistinctRecords(g, ss)
      && NoShared(Loaded(f, capacity, rs).keys, Loaded(g, capacity, ss).keys))
  {
    hide Good, Loaded;
    LoadGood(f, capacity, rs);
    LoadGood(g, capacity, ss);
  }

  lemma RemovedShape(f: Hasher, t: Table, i: nat)
    requires f.Valid(|t.slots|) && i < |t.keys|
    ensures |Removed(f, t, i).keys| == |t.keys| - 1 && Removed(f, t, i).keys == Without(t.keys, i)
  {
  }

  lemma ReplacedIs(f: Hasher, t: Table, i: nat, q: nat, key: nat, data: int, u: Table)
    requires f.Valid(|t.slots|) && i < |t.keys| && q < |t.keys|
    requires |Removed(f, t, i).keys| == |t.keys| - 1
    requires u.keys == Inserted(Removed(f, t, i).keys, q, key) && u.used == Removed(f, t, i).used + 1
    requires u.slots == Removed(f, t, i).slots[f.Hash(key) := Slot(true, data)]
    ensures u == Replaced(f, t, i, q, key, data)
  {
  }

  lemma NegativePair(f: Hasher, t: Table, g: Hasher, x: Table, p: nat)
    requires Good(f, t) && p < |t.slots| && t.slots[p].valid
    ensures !GoodPair(f, Table(t.keys, Cleared(t.slots, p), t.used - 1), g, x)
  {
    hide Good;
    NegativeRemoveBreaks(f, t, p);
  }

  lemma RemovedCount(f: Hasher, t: Table, i: nat)
    requires f.Valid(|t.slots|) && i < |t.keys|
    ensures |Removed(f, t, i).slots| == |t.slots|
  {
  }

  lemma PairShape(f: Hasher, t: Table, g: Hasher, x: Table)
    requires GoodPair(f, t, g, x)
    ensures f.Valid(|t.slots|) && g.Valid(|x.slots|) && t.used == |t.keys| && x.used == |x.keys|
    ensures AllFit(f, t.keys) && AllFit(g, x.keys)
  {
  }

  lemma PairRoom(f: Hasher, t: Table, g: Hasher, x: Table, key: nat)
    requires GoodPair(f, t, g, x)
    ensures Takes(f, t, key) ==> t.used < |t.slots|
    ensures Takes(g, x, key) ==> x.used < |x.slots|
  {
    hide Good, Takes;
    PairShape(f, t, g, x);
    if Takes(f, t, key) { TakesRoom(f, t, key); }
    if Takes(g, x, key) { TakesRoom(g, x, key); }
  }

  lemma AddedCount(f: Hasher, t: Table, key: nat, data: int)
    requires f.Valid(|t.slots|)
    ensures |Added(f, t, key, data).slots| == |t.slots|
  {
  }

  lemma HasherValid(f: Hasher, capacity: nat)
    requires f.params.SlicesFit() && Pow2(f.params.hashWidth) <= capacity
    ensures f.Valid(capacity)
  {
  }

  lemma EmptyPair(f: Hasher, g: Hasher, capacity: nat)
    requires f.Valid(capacity) && g.Valid(capacity)
    ensures |EmptyTable(capacity).slots| == capacity
    ensures GoodPair(f, EmptyTable(capacity), g, EmptyTable(capacity))
    ensures Union(f, EmptyTable(capacity), g, EmptyTable(capacity)) == map[]
  {
    EmptyIsGood(f, capacity);
    EmptyIsGood(g, capacity);
  }
}
