// Expansion of settings into combinations: choice lists after a common prefix, and the
// product of tables of settings.
module CombinationExpansion {
  import opened Numbers
  import opened Options

  // ---------------------------------------------------------------- choice lists

  // An entry of a combination: a setting name, or a list of names to choose from.
  datatype Entry = Name(name: string) | Choice(names: seq<string>)

  function Strip(v: seq<string>): seq<string> {
    if v == [] then [] else Strip(v[..|v| - 1]) + if v[|v| - 1] != "" then [v[|v| - 1]] else []
  }

  function Prefix(entries: seq<Entry>): seq<string> {
    if entries == [] then []
    else Prefix(entries[..|entries| - 1]) + if entries[|entries| - 1].Name? then [entries[|entries| - 1].name] else []
  }

  function Lists(entries: seq<Entry>): seq<seq<string>> {
    if entries == [] then []
    else Lists(entries[..|entries| - 1]) + if entries[|entries| - 1].Choice? then [entries[|entries| - 1].names] else []
  }

  // Names and choice lists keep their order: each entry adds itself behind what was there.
  lemma {:induction false} EntriesInOrder(a: seq<Entry>, b: seq<Entry>)
    ensures Prefix(a + b) == Prefix(a) + Prefix(b) && Lists(a + b) == Lists(a) + Lists(b)
  {
    if b == [] {
      assert a + b == a;
    } else {
      assert (a + b)[..|a| + |b| - 1] == a + b[..|b| - 1];
      EntriesInOrder(a, b[..|b| - 1]);
    }
  }

  lemma OneEntry(e: Entry)
    ensures Prefix([e]) == match e case Name(name) => [name] case Choice(_) => []
    ensures Lists([e]) == match e case Name(_) => [] case Choice(names) => [names]
  {
    assert [e][..0] == [];
  }

  // Stripping keeps the non-empty names in order.
  lemma StripIs(v: seq<string>, s: string)
    ensures Strip([]) == [] && Strip(v + [s]) == if s == "" then Strip(v) else Strip(v) + [s]
  {
    assert (v + [s])[..|v|] == v;
  }

  // A name from each of the first lists.
  ghost predicate Picks(lists: seq<seq<string>>, cs: seq<string>) {
    |cs| <= |lists| && forall i :: 0 <= i < |cs| ==> cs[i] in lists[i]
  }

  // The stripped prefix stays non-empty after every choice.
  ghost predicate StaysNonempty(prefix: seq<string>, cs: seq<string>) {
    forall k :: 1 <= k <= |cs| ==> Strip(prefix + cs[..k]) != []
  }

  // v is the stripped prefix and choice vector of some selection from the first n lists.
  ghost predicate Expansion(prefix: seq<string>, lists: seq<seq<string>>, n: nat, v: seq<string>) {
    exists cs :: |cs| == n && Picks(lists, cs) && StaysNonempty(prefix, cs) && v == Strip(prefix + cs)
  }

  lemma {:induction false} StripAppend(a: seq<string>, b: seq<string>)
    ensures Strip(a + b) == Strip(a) + Strip(b)
  {
    if b == [] {
      assert a + b == a;
    } else {
      assert (a + b)[..|a| + |b| - 1] == a + b[..|b| - 1];
      StripAppend(a, b[..|b| - 1]);
    }
  }

  lemma {:induction false} StripTwice(v: seq<string>)
    ensures Strip(Strip(v)) == Strip(v)
  {
    if v != [] {
      StripTwice(v[..|v| - 1]);
      var last := if v[|v| - 1] != "" then [v[|v| - 1]] else [];
      StripAppend(Strip(v[..|v| - 1]), last);
      StripOne(v[|v| - 1]);
    }
  }

  lemma StripOne(s: string)
    ensures Strip([s]) == (if s != "" then [s] else []) && Strip([]) == []
  {
    assert [s][..0] == [];
  }

  // Choosing from a stripped vector is choosing from the vector.
  lemma StripChoice(v: seq<string>, c: string)
    ensures Strip(Strip(v) + [c]) == Strip(v + [c])
  {
    StripAppend(Strip(v), [c]);
    StripAppend(v, [c]);
    StripTwice(v);
  }

  // One more list: a step from an earlier vector, kept if anything is left of it.
  lemma ExpansionStep(prefix: seq<string>, lists: seq<seq<string>>, n: nat, v: seq<string>)
    requires n < |lists|
    ensures Expansion(prefix, lists, n + 1, v) <==>
      v != [] && exists u, c :: Expansion(prefix, lists, n, u) && c in lists[n] && v == Strip(u + [c])
  {
    hide Strip;
    if Expansion(prefix, lists, n + 1, v) {
      var cs :| |cs| == n + 1 && Picks(lists, cs) && StaysNonempty(prefix, cs) && v == Strip(prefix + cs);
      ExpansionDown(prefix, lists, n, cs);
    }
    if v != [] && exists u, c :: Expansion(prefix, lists, n, u) && c in lists[n] && v == Strip(u + [c]) {
      var u, c :| Expansion(prefix, lists, n, u) && c in lists[n] && v == Strip(u + [c]);
      ExpansionUp(prefix, lists, n, u, c);
    }
  }

  lemma ExpansionDown(prefix: seq<string>, lists: seq<seq<string>>, n: nat, cs: seq<string>)
    requires n < |lists| && |cs| == n + 1 && Picks(lists, cs) && StaysNonempty(prefix, cs)
    ensures Strip(prefix + cs) != [] && cs[n] in lists[n]
    ensures exists u :: Expansion(prefix, lists, n, u) && Strip(prefix + cs) == Strip(u + [cs[n]])
  {
    hide Strip;
    var ds := cs[..n];
    assert cs[..n + 1] == cs && ds + [cs[n]] == cs;
    assert prefix + cs == prefix + ds + [cs[n]];
    StripChoice(prefix + ds, cs[n]);
    assert StaysNonempty(prefix, ds) by {
      forall k | 1 <= k <= n
        ensures Strip(prefix + ds[..k]) != []
      {
        assert ds[..k] == cs[..k];
      }
    }
    assert Expansion(prefix, lists, n, Strip(prefix + ds));
  }

  lemma ExpansionUp(prefix: seq<string>, lists: seq<seq<string>>, n: nat, u: seq<string>, c: string)
    requires n < |lists| && Expansion(prefix, lists, n, u) && c in lists[n] && Strip(u + [c]) != []
    ensures Expansion(prefix, lists, n + 1, Strip(u + [c]))
  {
    hide Strip;
    var ds :| |ds| == n && Picks(lists, ds) && StaysNonempty(prefix, ds) && u == Strip(prefix + ds);
    var cs := ds + [c];
    assert prefix + cs == prefix + ds + [c];
    StripChoice(prefix + ds, c);
    assert StaysNonempty(prefix, cs) by {
      forall k | 1 <= k <= n + 1
        ensures Strip(prefix + cs[..k]) != []
      {
        if k <= n { assert cs[..k] == ds[..k]; } else { assert cs[..k] == cs; }
      }
    }
  }

  lemma ExpansionNone(prefix: seq<string>, lists: seq<seq<string>>, v: seq<string>)
    ensures Expansion(prefix, lists, 0, v) <==> v == Strip(prefix)
  {
    hide Strip;
    assert prefix + [] == prefix;
    assert Picks(lists, []) && StaysNonempty(prefix, []);
  }

  ghost predicate Distinct<T(!new)>(s: seq<T>) {
    forall i, j :: 0 <= i < j < |s| ==> s[i] != s[j]
  }

  // list(set(s)): each element once, in some order.
  method Unique(s: seq<seq<string>>) returns (r: seq<seq<string>>)
    ensures Distinct(r) && forall v :: v in r <==> v in s && v != []
  {
    r := [];
    for i := 0 to |s|
      invariant Distinct(r) && forall v :: v in r <==> v in s[..i] && v != []
    {
      assert s[..i + 1] == s[..i] + [s[i]];
      if s[i] != [] && s[i] !in r {
        r := r + [s[i]];
      }
    }
    assert s[..|s|] == s;
  }

  // remove_empty_strings
  function StripAll(s: seq<seq<string>>): (r: seq<seq<string>>)
    ensures |r| == |s| && forall i :: 0 <= i < |r| ==> r[i] == Strip(s[i])
  {
    seq(|s|, i requires 0 <= i < |s| => Strip(s[i]))
  }

  ghost predicate Extends(us: seq<seq<string>>, bi: seq<string>, v: seq<string>) {
    exists u, c :: u in us && c in bi && v == u + [c]
  }

  ghost predicate ExtendsOne(u: seq<string>, bi: seq<string>, v: seq<string>) {
    exists c :: c in bi && v == u + [c]
  }

  lemma ExtendsLast(us: seq<seq<string>>, u: seq<string>, bi: seq<string>, v: seq<string>)
    ensures Extends(us + [u], bi, v) <==> Extends(us, bi, v) || ExtendsOne(u, bi, v)
  {
    if Extends(us + [u], bi, v) {
      var w, c :| w in us + [u] && c in bi && v == w + [c];
      assert w in us || w == u;
    }
    if Extends(us, bi, v) {
      var w, c :| w in us && c in bi && v == w + [c];
      assert w in us + [u];
    }
    if ExtendsOne(u, bi, v) {
      var c :| c in bi && v == u + [c];
      assert (us + [u])[|us|] == u && u in us + [u];
    }
  }

  // [a + [b] for a in rwip for b in bi]
  method Extend(rwip: seq<seq<string>>, bi: seq<string>) returns (result: seq<seq<string>>)
    ensures forall v :: v in result <==> Extends(rwip, bi, v)
  {
    result := [];
    for i := 0 to |rwip|
      invariant forall v :: v in result <==> Extends(rwip[..i], bi, v)
    {
      ghost var before := result;
      for j := 0 to |bi|
        invariant forall v :: v in result <==> v in before || ExtendsOne(rwip[i], bi[..j], v)
      {
        assert bi[..j + 1] == bi[..j] + [bi[j]];
        result := result + [rwip[i] + [bi[j]]];
      }
      assert bi[..|bi|] == bi;
      forall v
        ensures v in result <==> Extends(rwip[..i + 1], bi, v)
      {
        assert rwip[..i + 1] == rwip[..i] + [rwip[i]];
        ExtendsLast(rwip[..i], rwip[i], bi, v);
      }
    }
    assert rwip[..|rwip|] == rwip;
  }

  // The vectors on hand after n lists; before the first they still hold the bare prefix.
  ghost predicate OnHand(prefix: seq<string>, lists: seq<seq<string>>, n: nat, rwip: seq<seq<string>>) {
    if n == 0 then rwip == [prefix]
    else Distinct(rwip) && forall v :: v in rwip <==> Expansion(prefix, lists, n, v)
  }

  // One choice list.
  method NextList(prefix: seq<string>, lists: seq<seq<string>>, n: nat, rwip: seq<seq<string>>)
    returns (r: seq<seq<string>>)
    requires n < |lists| && OnHand(prefix, lists, n, rwip)
    ensures OnHand(prefix, lists, n + 1, r)
  {
    hide Expansion, Strip;
    var result := Extend(rwip, lists[n]);
    var stripped := StripAll(result);
    r := Unique(stripped);
    forall v
      ensures v in r <==> Expansion(prefix, lists, n + 1, v)
    {
      Stripped(result, v);
      ExtendedSteps(rwip, lists[n], result, v);
      ExpansionStep(prefix, lists, n, v);
      StepFrom(prefix, lists, n, rwip, v);
    }
  }

  lemma ExtendedSteps(rwip: seq<seq<string>>, bi: seq<string>, result: seq<seq<string>>, v: seq<string>)
    requires forall w :: w in result <==> Extends(rwip, bi, w)
    ensures (exists w :: w in result && v == Strip(w)) <==> exists u, c :: u in rwip && c in bi && v == Strip(u + [c])
  {
    hide Strip;
    if exists w :: w in result && v == Strip(w) {
      var w :| w in result && v == Strip(w);
      var u, c :| u in rwip && c in bi && w == u + [c];
    }
    if exists u, c :: u in rwip && c in bi && v == Strip(u + [c]) {
      var u, c :| u in rwip && c in bi && v == Strip(u + [c]);
      assert Extends(rwip, bi, u + [c]);
    }
  }

  lemma Stripped(s: seq<seq<string>>, v: seq<string>)
    ensures v in StripAll(s) <==> exists w :: w in s && v == Strip(w)
  {
    hide Strip;
    var r := StripAll(s);
    if v in r {
      var i :| 0 <= i < |r| && r[i] == v;
      assert s[i] in s;
    }
    if exists w :: w in s && v == Strip(w) {
      var w :| w in s && v == Strip(w);
      var i :| 0 <= i < |s| && s[i] == w;
      assert r[i] == v;
    }
  }

  // A step from the vectors on hand is a step from the expansions.
  lemma StepFrom(prefix: seq<string>, lists: seq<seq<string>>, n: nat, rwip: seq<seq<string>>, v: seq<string>)
    requires n < |lists| && OnHand(prefix, lists, n, rwip)
    ensures (exists u, c :: u in rwip && c in lists[n] && v == Strip(u + [c]))
      <==> exists u, c :: Expansion(prefix, lists, n, u) && c in lists[n] && v == Strip(u + [c])
  {
    hide Expansion, Strip;
    if n == 0 {
      var p := Strip(prefix);
      ExpansionNone(prefix, lists, p);
      if exists u, c :: u in rwip && c in lists[n] && v == Strip(u + [c]) {
        var u, c :| u in rwip && c in lists[n] && v == Strip(u + [c]);
        StripChoice(prefix, c);
        assert Expansion(prefix, lists, n, p) && v == Strip(p + [c]);
      }
      if exists u, c :: Expansion(prefix, lists, n, u) && c in lists[n] && v == Strip(u + [c]) {
        var u, c :| Expansion(prefix, lists, n, u) && c in lists[n] && v == Strip(u + [c]);
        ExpansionNone(prefix, lists, u);
        StripChoice(prefix, c);
        assert prefix in rwip && v == Strip(prefix + [c]);
      }
    }
  }

  // transform_list: without a name it is an error; otherwise exactly the expansions, each of
  // them once.
  method TransformList(entries: seq<Entry>) returns (r: Option<seq<seq<string>>>)
    ensures r.None? <==> Prefix(entries) == []
    ensures r.Some? ==> forall v :: v in r.value <==> Expansion(Prefix(entries), Lists(entries), |Lists(entries)|, v)
    ensures r.Some? ==> Distinct(r.value)
  {
    hide Expansion, Strip;
    var prefix, toGenerate := [], [];
    for i := 0 to |entries|
      invariant prefix == Prefix(entries[..i]) && toGenerate == Lists(entries[..i])
    {
      assert entries[..i + 1][..i] == entries[..i];
      match entries[i]
      case Name(name) => prefix := prefix + [name];
      case Choice(names) => toGenerate := toGenerate + [names];
    }
    assert entries[..|entries|] == entries;
    if |prefix| == 0 {
      return None;
    }
    var rwip := [prefix];
    for n := 0 to |toGenerate|
      invariant OnHand(prefix, toGenerate, n, rwip)
    {
      rwip := NextList(prefix, toGenerate, n, rwip);
    }
    var all := StripAll(rwip);
    if |toGenerate| == 0 {
      assert all == [Strip(prefix)];
      forall v
        ensures v in all <==> Expansion(prefix, toGenerate, 0, v)
      {
        ExpansionNone(prefix, toGenerate, v);
      }
    } else {
      AlreadyStripped(prefix, toGenerate, |toGenerate|, rwip);
      assert all == rwip;
    }
    r := Some(all);
  }

  lemma AlreadyStripped(prefix: seq<string>, lists: seq<seq<string>>, n: nat, rwip: seq<seq<string>>)
    requires n > 0 && OnHand(prefix, lists, n, rwip)
    ensures forall i :: 0 <= i < |rwip| ==> Strip(rwip[i]) == rwip[i]
  {
    hide Strip;
    forall i | 0 <= i < |rwip|
      ensures Strip(rwip[i]) == rwip[i]
    {
      assert rwip[i] in rwip;
      var cs :| |cs| == n && Picks(lists, cs) && StaysNonempty(prefix, cs) && rwip[i] == Strip(prefix + cs);
      StripTwice(prefix + cs);
    }
  }

  // ---------------------------------------------------------------- products of tables

  type Row = map<string, string>

  const KEY: string := "_key"

  // A table of settings: column names and rows.
  class DataFrame {
    var columns: seq<string>
    var rows: seq<Row>

    constructor (columns: seq<string>, rows: seq<Row>)
      ensures this.columns == columns && this.rows == rows
    {
      this.columns, this.rows := columns, rows;
    }

    // df["_key"] = 1
    method SetKey()
      modifies this
      ensures columns == WithKey(old(columns)) && rows == Keyed(old(rows))
    {
      columns := WithKey(columns);
      rows := Keyed(rows);
    }
  }

  function WithKey(columns: seq<string>): (r: seq<string>)
    ensures columns <= r && forall c :: c in r <==> c in columns || c == "_key"
  {
    if KEY in columns then columns else columns + [KEY]
  }

  function Keyed(rows: seq<Row>): (r: seq<Row>)
    ensures |r| == |rows| && forall i :: 0 <= i < |r| ==> r[i] == rows[i][KEY := "1"]
  {
    seq(|rows|, i requires 0 <= i < |rows| => rows[i][KEY := "1"])
  }

  function Unkeyed(rows: seq<Row>): (r: seq<Row>)
    ensures |r| == |rows| && forall i :: 0 <= i < |r| ==> r[i] == rows[i] - {KEY}
  {
    seq(|rows|, i requires 0 <= i < |rows| => rows[i] - {KEY})
  }

  // A merge on equal keys: every row of a with every row of b, the rows of b varying faster.
  function Cross(a: seq<Row>, b: seq<Row>): (r: seq<Row>)
    ensures |r| == Times(|a|, |b|)
  {
    if a == [] then [] else Cross(a[..|a| - 1], b) + Beside(a[|a| - 1], b)
  }

  function Beside(row: Row, b: seq<Row>): (r: seq<Row>)
    ensures |r| == |b| && forall j :: 0 <= j < |b| ==> r[j] == row + b[j]
  {
    seq(|b|, j requires 0 <= j < |b| => row + b[j])
  }

  lemma {:induction false} CrossAt(a: seq<Row>, b: seq<Row>, i: nat, j: nat)
    requires i < |a| && j < |b|
    ensures Times(i, |b|) + j < |Cross(a, b)| && Cross(a, b)[Times(i, |b|) + j] == a[i] + b[j]
    decreases |a|
  {
    TimesMonotone(i + 1, |a|, |b|);
    if i < |a| - 1 {
      TimesMonotone(i + 1, |a| - 1, |b|);
      CrossAt(a[..|a| - 1], b, i, j);
    }
  }

  // The product of the first n tables.
  function Product(tables: seq<seq<Row>>, n: nat): seq<Row>
    requires 0 < n <= |tables|
  {
    if n == 1 then tables[0] else Cross(Product(tables, n - 1), tables[n - 1])
  }

  function RowCount(tables: seq<seq<Row>>, n: nat): nat
    requires 0 < n <= |tables|
  {
    if n == 1 then |tables[0]| else Times(RowCount(tables, n - 1), |tables[n - 1]|)
  }

  // One row index for each table.
  ghost predicate Digits(tables: seq<seq<Row>>, ds: seq<nat>) {
    0 < |ds| <= |tables| && forall k :: 0 <= k < |ds| ==> ds[k] < |tables[k]|
  }

  // The mixed-radix number of the digits, the last one lowest.
  function Index(tables: seq<seq<Row>>, ds: seq<nat>): nat
    requires 0 < |ds| <= |tables|
  {
    if |ds| == 1 then ds[0] else Times(Index(tables, ds[..|ds| - 1]), |tables[|ds| - 1]|) + ds[|ds| - 1]
  }

  function Merged(tables: seq<seq<Row>>, ds: seq<nat>): Row
    requires Digits(tables, ds)
  {
    if |ds| == 1 then tables[0][ds[0]] else Merged(tables, ds[..|ds| - 1]) + tables[|ds| - 1][ds[|ds| - 1]]
  }

  // The product has as many rows as the counts multiply to, and the row with the given
  // digits merges the rows they select.
  lemma {:induction false} ProductRow(tables: seq<seq<Row>>, ds: seq<nat>)
    requires Digits(tables, ds)
    ensures |Product(tables, |ds|)| == RowCount(tables, |ds|)
    ensures Index(tables, ds) < RowCount(tables, |ds|)
    ensures Product(tables, |ds|)[Index(tables, ds)] == Merged(tables, ds)
    decreases |ds|
  {
    if |ds| > 1 {
      var n := |ds| - 1;
      ProductRow(tables, ds[..n]);
      CrossAt(Product(tables, n), tables[n], Index(tables, ds[..n]), ds[n]);
    }
  }

  lemma {:induction false} ProductCount(tables: seq<seq<Row>>, n: nat)
    requires 0 < n <= |tables|
    ensures |Product(tables, n)| == RowCount(tables, n)
  {
    if n > 1 { ProductCount(tables, n - 1); }
  }

  // Every row of the product has digits.
  lemma {:induction false} RowDigits(tables: seq<seq<Row>>, n: nat, i: nat) returns (ds: seq<nat>)
    requires 0 < n <= |tables| && i < RowCount(tables, n)
    ensures |ds| == n && Digits(tables, ds) && Index(tables, ds) == i
    decreases n
  {
    if n == 1 {
      ds := [i];
    } else {
      var q, r := Divided(i, RowCount(tables, n - 1), |tables[n - 1]|);
      var front := RowDigits(tables, n - 1, q);
      ds := front + [r];
      assert ds[..n - 1] == front;
    }
  }

  lemma {:induction false} Divided(i: nat, count: nat, w: nat) returns (q: nat, r: nat)
    requires i < Times(count, w)
    ensures q < count && r < w && i == Times(q, w) + r
    decreases count
  {
    if i < Times(count - 1, w) {
      q, r := Divided(i, count - 1, w);
    } else {
      q, r := count - 1, i - Times(count - 1, w);
    }
  }

  ghost predicate DisjointColumns(dfs: seq<DataFrame>)
    reads dfs
  {
    forall i, j :: 0 <= i < j < |dfs| ==> forall c :: c in dfs[i].columns ==> c !in dfs[j].columns
  }

  ghost function Tables(dfs: seq<DataFrame>): (t: seq<seq<Row>>)
    reads dfs
    ensures |t| == |dfs| && forall k :: 0 <= k < |t| ==> t[k] == Unkeyed(dfs[k].rows)
  {
    if dfs == [] then [] else Tables(dfs[..|dfs| - 1]) + [Unkeyed(dfs[|dfs| - 1].rows)]
  }

  // The check that no column name occurs twice.
  method ColumnsDisjoint(dfs: seq<DataFrame>) returns (ok: bool)
    ensures ok <==> DisjointColumns(dfs)
  {
    var all: set<string> := {};
    for k := 0 to |dfs|
      invariant DisjointColumns(dfs[..k])
      invariant forall c :: c in all <==> exists i :: 0 <= i < k && c in dfs[i].columns
    {
      if exists c :: c in dfs[k].columns && c in all {
        return false;
      }
      assert dfs[..k + 1][..k] == dfs[..k];
      all := all + set c | c in dfs[k].columns;
    }
    assert dfs[..|dfs|] == dfs;
    ok := true;
  }

  lemma UnkeyedKeyed(rows: seq<Row>)
    ensures Unkeyed(Keyed(rows)) == Unkeyed(rows)
  {
    forall i | 0 <= i < |rows|
      ensures Unkeyed(Keyed(rows))[i] == Unkeyed(rows)[i]
    {
      assert rows[i][KEY := "1"] - {KEY} == rows[i] - {KEY};
    }
  }

  lemma UnkeyedBeside(row: Row, b: seq<Row>)
    ensures Unkeyed(Beside(row, b)) == Beside(row - {KEY}, Unkeyed(b))
  {
    forall j | 0 <= j < |b|
      ensures Unkeyed(Beside(row, b))[j] == Beside(row - {KEY}, Unkeyed(b))[j]
    {
      assert row + b[j] - {KEY} == (row - {KEY}) + (b[j] - {KEY});
    }
  }

  lemma UnkeyedAppend(a: seq<Row>, b: seq<Row>)
    ensures Unkeyed(a + b) == Unkeyed(a) + Unkeyed(b)
  {
  }

  lemma UnkeyedFront(a: seq<Row>)
    requires a != []
    ensures Unkeyed(a)[..|a| - 1] == Unkeyed(a[..|a| - 1])
  {
  }

  lemma {:induction false} UnkeyedCross(a: seq<Row>, b: seq<Row>)
    ensures Unkeyed(Cross(a, b)) == Cross(Unkeyed(a), Unkeyed(b))
  {
    hide Beside, Unkeyed;
    if a != [] {
      var n := |a| - 1;
      UnkeyedCross(a[..n], b);
      UnkeyedFront(a);
      UnkeyedBeside(a[n], b);
      UnkeyedAppend(Cross(a[..n], b), Beside(a[n], b));
    }
  }

  lemma ProductStep(tables: seq<seq<Row>>, k: nat)
    requires 0 < k < |tables|
    ensures Product(tables, k + 1) == Cross(Product(tables, k), tables[k])
  {
  }

  // The table stands in the list after its first place and before place n.
  ghost predicate Joined(dfs: seq<DataFrame>, n: nat, d: DataFrame)
    requires n <= |dfs|
  {
    exists j :: 1 <= j < n && dfs[j] == d
  }

  lemma JoinedNext(dfs: seq<DataFrame>, n: nat)
    requires 1 <= n < |dfs|
    ensures forall d :: Joined(dfs, n + 1, d) <==> Joined(dfs, n, d) || d == dfs[n]
  {
    forall d
      ensures Joined(dfs, n + 1, d) <==> Joined(dfs, n, d) || d == dfs[n]
    {
      if d == dfs[n] { assert 1 <= n < n + 1; }
    }
  }

  lemma NoneJoined(dfs: seq<DataFrame>)
    requires dfs != []
    ensures forall d :: !Joined(dfs, 1, d)
  {
  }

  lemma KeyedTwice(rows: seq<Row>)
    ensures Keyed(Keyed(rows)) == Keyed(rows)
  {
    forall i | 0 <= i < |rows|
      ensures Keyed(Keyed(rows))[i] == Keyed(rows)[i]
    {
      assert rows[i][KEY := "1"][KEY := "1"] == rows[i][KEY := "1"];
    }
  }

  lemma WithKeyTwice(columns: seq<string>)
    ensures WithKey(WithKey(columns)) == WithKey(columns)
  {
  }

  // cartesian_product: no tables, or a shared column name, is an error. The rows are the
  // product's; every table but the first is left with the helper column.
  method CartesianProduct(dfs: seq<DataFrame>) returns (r: Option<seq<Row>>)
    modifies dfs
    ensures r.None? <==> |dfs| == 0 || (|dfs| > 1 && !old(DisjointColumns(dfs)))
    ensures r.Some? && |dfs| == 1 ==> r.value == old(dfs[0].rows) && dfs[0].columns == old(dfs[0].columns)
    ensures r.Some? && |dfs| > 1 ==> r.value == Product(old(Tables(dfs)), |dfs|)
    ensures r.Some? ==> forall k :: 0 <= k < |dfs| ==>
      dfs[k].columns == if Joined(dfs, |dfs|, dfs[k]) then WithKey(old(dfs[k].columns)) else old(dfs[k].columns)
    ensures r.Some? ==> forall k :: 0 <= k < |dfs| ==>
      dfs[k].rows == if Joined(dfs, |dfs|, dfs[k]) then Keyed(old(dfs[k].rows)) else old(dfs[k].rows)
    ensures r.None? ==> unchanged(dfs)
  {
    hide Cross, Keyed, Unkeyed, Product, Joined, WithKey, DisjointColumns;
    if |dfs| == 1 {
      NoneJoined(dfs);
      return Some(dfs[0].rows);
    }
    if |dfs| == 0 {
      return None;
    }
    var ok := ColumnsDisjoint(dfs);
    if !ok {
      return None;
    }
    ghost var tables := Tables(dfs);
    var result := Keyed(dfs[0].rows);
    UnkeyedKeyed(dfs[0].rows);
    ProductOne(tables);
    NoneJoined(dfs);
    for k := 1 to |dfs|
      invariant Unkeyed(result) == Product(tables, k)
      invariant forall j :: 0 <= j < |dfs| ==>
        dfs[j].columns == if Joined(dfs, k, dfs[j]) then WithKey(old(dfs[j].columns)) else old(dfs[j].columns)
      invariant forall j :: 0 <= j < |dfs| ==>
        dfs[j].rows == if Joined(dfs, k, dfs[j]) then Keyed(old(dfs[j].rows)) else old(dfs[j].rows)
    {
      UnkeyedKeyed(old(dfs[k].rows));
      JoinedNext(dfs, k);
      WithKeyTwice(old(dfs[k].columns));
      KeyedTwice(old(dfs[k].rows));
      dfs[k].SetKey();
      assert dfs[k].rows == Keyed(old(dfs[k].rows));
      UnkeyedCross(result, dfs[k].rows);
      ProductStep(tables, k);
      result := Cross(result, dfs[k].rows);
    }
    r := Some(Unkeyed(result));
  }

  lemma ProductOne(tables: seq<seq<Row>>)
    requires tables != []
    ensures Product(tables, 1) == tables[0]
  {
  }

  // Two tables of which only the second one gets the helper column, if it is not the first.
  twostate lemma SharedKey(dfs: seq<DataFrame>)
    requires |dfs| >= 2 && old(DisjointColumns(dfs))
    requires forall k :: 0 <= k < |dfs| ==>
      dfs[k].columns == if Joined(dfs, |dfs|, dfs[k]) then WithKey(old(dfs[k].columns)) else old(dfs[k].columns)
    ensures DisjointColumns(dfs) <==> |dfs| == 2 && dfs[0] != dfs[1] && KEY !in old(dfs[0].columns)
  {
    assert Joined(dfs, |dfs|, dfs[1]);
    assert KEY in dfs[1].columns;
    if |dfs| >= 3 {
      assert Joined(dfs, |dfs|, dfs[2]);
      assert KEY in dfs[2].columns;
    }
  }

  // Because of that column a second product over the same tables is refused: always with three
  // or more, and with two if the first one has such a column of its own or is the second one.
  method SecondProduct(dfs: seq<DataFrame>) returns (first: Option<seq<Row>>, second: Option<seq<Row>>)
    modifies dfs
    ensures first.None? <==> |dfs| == 0 || (|dfs| > 1 && !old(DisjointColumns(dfs)))
    ensures first.Some? ==> (second.None? <==>
      |dfs| >= 3 || (|dfs| == 2 && ("_key" in old(dfs[0].columns) || dfs[0] == dfs[1])))
  {
    hide Product, DisjointColumns, Joined, WithKey;
    first := CartesianProduct(dfs);
    if first.Some? && |dfs| > 1 {
      SharedKey(dfs);
    }
    second := CartesianProduct(dfs);
  }
}
