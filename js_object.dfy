/**
 * A plain JavaScript object used as a dictionary (`{}` with string keys that
 * are not integer-like): its own keys in insertion order and their values.
 * Assigning to a present key keeps its place; a new key goes last. `Tally`
 * is the accumulation `acc[k] = (acc[k] || 0) + v` that statistiques.js
 * writes four times.
 */
module JsObject {

  /** No element occurs twice. */
  ghost predicate NoDup<T>(s: seq<T>) {
    forall i, j :: 0 <= i < j < |s| ==> s[i] != s[j]
  }

  datatype Dict<V> = Dict(keys: seq<string>, vals: map<string, V>) {

    /** Keys never repeat and are exactly the keys that have values. */
    ghost predicate Valid() {
      NoDup(keys) && forall k :: k in vals <==> k in keys
    }

    /** `obj[k] || fallback` for a value that is never falsy except by being absent. */
    function GetOr(k: string, fallback: V): V {
      if k in vals then vals[k] else fallback
    }

    /** `obj[k] = v`. */
    function Set(k: string, v: V): Dict<V> {
      if k in vals then Dict(keys, vals[k := v]) else Dict(keys + [k], vals[k := v])
    }

    /** Assignment keeps the object well formed; a new key goes last, a present one keeps its place. */
    lemma SetSpec(k: string, v: V)
      requires Valid()
      ensures Set(k, v).Valid()
      ensures Set(k, v).vals == vals[k := v]
      ensures Set(k, v).keys == if k in vals then keys else keys + [k]
    {
      if k !in vals {
        NoDupSnoc(keys, k);
      }
    }

    /** `Object.entries(obj)`: the (key, value) pairs in key order. */
    function Entries(): (es: seq<(string, V)>)
      requires Valid()
      ensures |es| == |keys|
      ensures forall i :: 0 <= i < |es| ==> es[i].0 == keys[i] && es[i].0 in vals && es[i].1 == vals[es[i].0]
    {
      seq(|keys|, i requires 0 <= i < |keys| => (keys[i], vals[keys[i]]))
    }
  }

  /** An object literal `{k1: v1, k2: v2, ...}`: its properties assigned one after the other. */
  function Literal<V>(ps: seq<(string, V)>): Dict<V> {
    if ps == [] then Empty() else Literal(ps[..|ps| - 1]).Set(ps[|ps| - 1].0, ps[|ps| - 1].1)
  }

  /** The property names an object literal lists, in order. */
  function Names<V>(ps: seq<(string, V)>): (ns: seq<string>)
    ensures |ns| == |ps|
  {
    if ps == [] then [] else Names(ps[..|ps| - 1]) + [ps[|ps| - 1].0]
  }

  /** An object literal is well formed, and its keys are the property names it lists. */
  lemma {:induction false} LiteralValid<V>(ps: seq<(string, V)>)
    ensures Literal(ps).Valid()
    ensures forall k :: k in Literal(ps).vals <==> k in Names(ps)
  {
    if ps != [] {
      var init := ps[..|ps| - 1];
      LiteralValid(init);
      Literal(init).SetSpec(ps[|ps| - 1].0, ps[|ps| - 1].1);
    }
  }

  /** The position of the first occurrence of `k` in `ks`. */
  function IndexOf(ks: seq<string>, k: string): (i: nat)
    requires k in ks
    ensures i < |ks| && ks[i] == k && k !in ks[..i]
  {
    if ks[0] == k then 0
    else
      var i := IndexOf(ks[1..], k) + 1;
      assert ks[..i] == [ks[0]] + ks[1..][..i - 1];
      i
  }

  /** Without repeats, the position of the key at `p` is `p`. */
  lemma IndexOfNoDup(ks: seq<string>, p: int)
    requires NoDup(ks) && 0 <= p < |ks|
    ensures IndexOf(ks, ks[p]) == p
  {
    if p > 0 {
      assert ks[0] != ks[p];
      assert NoDup(ks[1..]) by {
        forall i, j | 0 <= i < j < |ks| - 1 ensures ks[1..][i] != ks[1..][j] {
          assert ks[1..][i] == ks[i + 1] && ks[1..][j] == ks[j + 1];
        }
      }
      IndexOfNoDup(ks[1..], p - 1);
    }
  }

  lemma NoDupSnoc<T>(s: seq<T>, x: T)
    requires NoDup(s) && x !in s
    ensures NoDup(s + [x])
  {
    var t := s + [x];
    forall i, j | 0 <= i < j < |t| ensures t[i] != t[j] {
      if j == |s| {
        assert t[i] == s[i];
      }
    }
  }

  lemma NoDupInit<T>(s: seq<T>)
    requires NoDup(s) && s != []
    ensures NoDup(s[..|s| - 1]) && s[|s| - 1] !in s[..|s| - 1]
  {
  }

  function Empty<V>(): (d: Dict<V>)
    ensures d.Valid() && d.keys == [] && d.vals == map[]
  {
    Dict([], map[])
  }

  function SumOver(ks: seq<string>, m: map<string, real>): real
    requires forall k :: k in ks ==> k in m
  {
    if ks == [] then 0.0 else SumOver(ks[..|ks| - 1], m) + m[ks[|ks| - 1]]
  }

  /** The sum of all values of an object. */
  function SumValues(d: Dict<real>): real
    requires d.Valid()
  {
    SumOver(d.keys, d.vals)
  }

  /** One step of `acc[k] = (acc[k] || 0) + v`. */
  function Add(d: Dict<real>, p: (string, real)): Dict<real> {
    d.Set(p.0, d.GetOr(p.0, 0.0) + p.1)
  }

  /** The accumulation over `ps` in order, starting from `d`. */
  function Tally(d: Dict<real>, ps: seq<(string, real)>): Dict<real> {
    if ps == [] then d else Add(Tally(d, ps[..|ps| - 1]), ps[|ps| - 1])
  }

  /** The sum of the amounts paired with key `k`. */
  function SumFor(ps: seq<(string, real)>, k: string): real {
    if ps == [] then 0.0
    else SumFor(ps[..|ps| - 1], k) + (if ps[|ps| - 1].0 == k then ps[|ps| - 1].1 else 0.0)
  }

  /** The sum of all amounts. */
  function SumAll(ps: seq<(string, real)>): real {
    if ps == [] then 0.0 else SumAll(ps[..|ps| - 1]) + ps[|ps| - 1].1
  }

  /** The keys that occur in `ps`. */
  function KeysOf(ps: seq<(string, real)>): set<string> {
    if ps == [] then {} else KeysOf(ps[..|ps| - 1]) + {ps[|ps| - 1].0}
  }

  lemma TallySnoc(d: Dict<real>, ps: seq<(string, real)>, p: (string, real))
    ensures Tally(d, ps + [p]) == Add(Tally(d, ps), p)
  {
    assert (ps + [p])[..|ps|] == ps;
  }

  lemma {:induction false} SumOverUpdateAbsent(ks: seq<string>, m: map<string, real>, k: string, x: real)
    requires forall j :: j in ks ==> j in m
    requires k !in ks
    ensures SumOver(ks, m[k := x]) == SumOver(ks, m)
  {
    if ks != [] {
      SumOverUpdateAbsent(ks[..|ks| - 1], m, k, x);
    }
  }

  lemma {:induction false} SumOverUpdate(ks: seq<string>, m: map<string, real>, k: string, x: real)
    requires forall j :: j in ks ==> j in m
    requires NoDup(ks) && k in ks
    ensures SumOver(ks, m[k := x]) == SumOver(ks, m) - m[k] + x
  {
    var init := ks[..|ks| - 1];
    NoDupInit(ks);
    if ks[|ks| - 1] == k {
      SumOverUpdateAbsent(init, m, k, x);
    } else {
      assert ks == init + [ks[|ks| - 1]];
      SumOverUpdate(init, m, k, x);
    }
  }

  /** One accumulation step keeps the object well formed; a new key goes last. */
  lemma AddKeys(d: Dict<real>, p: (string, real))
    requires d.Valid()
    ensures Add(d, p).Valid()
    ensures Add(d, p).vals.Keys == d.vals.Keys + {p.0}
    ensures Add(d, p).keys == if p.0 in d.vals then d.keys else d.keys + [p.0]
  {
    d.SetSpec(p.0, d.GetOr(p.0, 0.0) + p.1);
  }

  /** One accumulation step adds the amount to its own key and to no other. */
  lemma AddValue(d: Dict<real>, p: (string, real), k: string)
    ensures Add(d, p).GetOr(k, 0.0) == d.GetOr(k, 0.0) + (if k == p.0 then p.1 else 0.0)
  {
  }

  /** Adding to a key that is present raises the sum by the amount. */
  lemma SumUpdatePresent(d: Dict<real>, k: string, x: real)
    requires d.Valid() && k in d.vals
    ensures Dict(d.keys, d.vals[k := x]).Valid()
    ensures SumValues(Dict(d.keys, d.vals[k := x])) == SumValues(d) - d.vals[k] + x
  {
    SumOverUpdate(d.keys, d.vals, k, x);
  }

  /** Adding a new key raises the sum by its value. */
  lemma SumUpdateAbsent(d: Dict<real>, k: string, x: real)
    requires d.Valid() && k !in d.vals
    ensures Dict(d.keys + [k], d.vals[k := x]).Valid()
    ensures SumValues(Dict(d.keys + [k], d.vals[k := x])) == SumValues(d) + x
  {
    d.SetSpec(k, x);
    var ks := d.keys + [k];
    assert ks[..|ks| - 1] == d.keys;
    SumOverUpdateAbsent(d.keys, d.vals, k, x);
  }

  /** One accumulation step raises the sum of the values by the amount. */
  lemma AddSum(d: Dict<real>, p: (string, real))
    requires d.Valid()
    ensures Add(d, p).Valid()
    ensures SumValues(Add(d, p)) == SumValues(d) + p.1
  {
    if p.0 in d.vals {
      SumUpdatePresent(d, p.0, d.vals[p.0] + p.1);
    } else {
      SumUpdateAbsent(d, p.0, p.1);
    }
  }

  /** What the accumulation produces: a valid object whose key set gains the keys of `ps`. */
  lemma {:induction false} TallyKeys(d: Dict<real>, ps: seq<(string, real)>)
    requires d.Valid()
    ensures Tally(d, ps).Valid()
    ensures Tally(d, ps).vals.Keys == d.vals.Keys + KeysOf(ps)
  {
    if ps != [] {
      var init := ps[..|ps| - 1];
      TallyKeys(d, init);
      AddKeys(Tally(d, init), ps[|ps| - 1]);
    }
  }

  /** The keys already present keep their order in front; new keys follow. */
  lemma {:induction false} TallyOrder(d: Dict<real>, ps: seq<(string, real)>)
    ensures |d.keys| <= |Tally(d, ps).keys| && Tally(d, ps).keys[..|d.keys|] == d.keys
  {
    if ps != [] {
      var t := Tally(d, ps[..|ps| - 1]);
      TallyOrder(d, ps[..|ps| - 1]);
      PrefixSnoc(t.keys, ps[|ps| - 1].0, |d.keys|);
    }
  }

  lemma PrefixSnoc(s: seq<string>, x: string, n: nat)
    requires n <= |s|
    ensures (s + [x])[..n] == s[..n]
  {
  }

  /** When `ps` brings no new key, the key order is unchanged. */
  lemma {:induction false} TallyNoNewKeys(d: Dict<real>, ps: seq<(string, real)>)
    requires d.Valid() && KeysOf(ps) <= d.vals.Keys
    ensures Tally(d, ps).keys == d.keys
  {
    if ps != [] {
      var init := ps[..|ps| - 1];
      TallyNoNewKeys(d, init);
      TallyKeys(d, init);
      AddKeys(Tally(d, init), ps[|ps| - 1]);
    }
  }

  /** The value at each key is the starting value plus every amount paired with that key. */
  lemma {:induction false} TallyValue(d: Dict<real>, ps: seq<(string, real)>, k: string)
    requires d.Valid()
    ensures Tally(d, ps).GetOr(k, 0.0) == d.GetOr(k, 0.0) + SumFor(ps, k)
  {
    if ps != [] {
      var init := ps[..|ps| - 1];
      TallyValue(d, init, k);
      AddValue(Tally(d, init), ps[|ps| - 1], k);
    }
  }

  /** Accumulation conserves the total: the values grow by exactly the sum of the amounts. */
  lemma {:induction false} TallySum(d: Dict<real>, ps: seq<(string, real)>)
    requires d.Valid()
    ensures Tally(d, ps).Valid()
    ensures SumValues(Tally(d, ps)) == SumValues(d) + SumAll(ps)
  {
    if ps != [] {
      var init := ps[..|ps| - 1];
      TallySum(d, init);
      AddSum(Tally(d, init), ps[|ps| - 1]);
    }
  }

  /** An object whose values are all zero sums to zero. */
  lemma {:induction false} SumOverZero(ks: seq<string>, m: map<string, real>)
    requires forall k :: k in ks ==> k in m && m[k] == 0.0
    ensures SumOver(ks, m) == 0.0
  {
    if ks != [] {
      SumOverZero(ks[..|ks| - 1], m);
    }
  }

  /** The sums and key sets of a concatenation are those of its parts. */
  lemma {:induction false} ConcatSums(a: seq<(string, real)>, b: seq<(string, real)>, k: string)
    ensures SumAll(a + b) == SumAll(a) + SumAll(b)
    ensures SumFor(a + b, k) == SumFor(a, k) + SumFor(b, k)
    ensures KeysOf(a + b) == KeysOf(a) + KeysOf(b)
  {
    if b == [] {
      assert a + b == a;
    } else {
      ConcatSums(a, b[..|b| - 1], k);
      assert (a + b)[..|a + b| - 1] == a + b[..|b| - 1];
    }
  }

  /**
   * What one row adds in `rows.forEach(r => { if (counts(r)) acc[key(r)] = (acc[key(r)] || 0) + amount(r) })`:
   * its key and amount when the row counts, nothing otherwise.
   */
  function Contribution<T>(r: T, key: T -> string, amount: T -> real, counts: T -> bool): seq<(string, real)> {
    if counts(r) then [(key(r), amount(r))] else []
  }

  /** The pairs the whole pass accumulates, in row order. */
  function Contributions<T>(rows: seq<T>, key: T -> string, amount: T -> real, counts: T -> bool): seq<(string, real)> {
    if rows == [] then []
    else Contributions(rows[..|rows| - 1], key, amount, counts) + Contribution(rows[|rows| - 1], key, amount, counts)
  }

  /** Passing over one more row extends the pairs by that row's own. */
  lemma ContributionsPrefix<T>(rows: seq<T>, i: int, key: T -> string, amount: T -> real, counts: T -> bool)
    requires 0 <= i < |rows|
    ensures Contributions(rows[..i + 1], key, amount, counts)
      == Contributions(rows[..i], key, amount, counts) + Contribution(rows[i], key, amount, counts)
  {
    assert rows[..i + 1][..i] == rows[..i];
  }

  /** The step a pass takes for row `i`, with `t'` the object after it. */
  lemma TallyRowsSet<T>(d: Dict<real>, rows: seq<T>, i: int, key: T -> string, amount: T -> real, counts: T -> bool, t: Dict<real>, t': Dict<real>)
    requires 0 <= i < |rows| && t == Tally(d, Contributions(rows[..i], key, amount, counts))
    requires t' == if counts(rows[i]) then t.Set(key(rows[i]), t.GetOr(key(rows[i]), 0.0) + amount(rows[i])) else t
    ensures t' == Tally(d, Contributions(rows[..i + 1], key, amount, counts))
  {
    var ps := Contributions(rows[..i], key, amount, counts);
    ContributionsPrefix(rows, i, key, amount, counts);
    if counts(rows[i]) {
      TallySnoc(d, ps, (key(rows[i]), amount(rows[i])));
    } else {
      assert ps + Contribution(rows[i], key, amount, counts) == ps;
    }
  }

  /** Before the first row, a pass holds its starting object. */
  lemma TallyRowsStart<T>(d: Dict<real>, rows: seq<T>, key: T -> string, amount: T -> real, counts: T -> bool)
    ensures Tally(d, Contributions(rows[..0], key, amount, counts)) == d
  {
    assert rows[..0] == [];
  }

  /** After the last row, a pass holds the accumulation over all rows. */
  lemma TallyRowsEnd<T>(d: Dict<real>, rows: seq<T>, i: int, key: T -> string, amount: T -> real, counts: T -> bool, t: Dict<real>)
    requires i == |rows| && t == Tally(d, Contributions(rows[..i], key, amount, counts))
    ensures t == Tally(d, Contributions(rows, key, amount, counts))
  {
    assert rows[..i] == rows;
  }

  /**
   * The pass itself, from `init`:
   * `rows.forEach(r => { if (counts(r)) acc[key(r)] = (acc[key(r)] || 0) + amount(r) })`.
   */
  method Accumulate<T>(init: Dict<real>, rows: seq<T>, key: T -> string, amount: T -> real, counts: T -> bool)
    returns (acc: Dict<real>)
    ensures acc == Tally(init, Contributions(rows, key, amount, counts))
  {
    acc := init;
    TallyRowsStart(init, rows, key, amount, counts);
    var i := 0;
    while i < |rows|
      invariant 0 <= i <= |rows|
      invariant acc == Tally(init, Contributions(rows[..i], key, amount, counts))
    {
      var r := rows[i];
      ghost var prev := acc;
      if counts(r) {
        var k := key(r);
        acc := acc.Set(k, acc.GetOr(k, 0.0) + amount(r));
      }
      TallyRowsSet(init, rows, i, key, amount, counts, prev, acc);
      i := i + 1;
    }
    TallyRowsEnd(init, rows, i, key, amount, counts, acc);
  }

  /** The keys accumulated are the keys of the rows that count. */
  lemma {:induction false} ContributionsKeys<T>(rows: seq<T>, key: T -> string, amount: T -> real, counts: T -> bool)
    ensures KeysOf(Contributions(rows, key, amount, counts)) == set r | r in rows && counts(r) :: key(r)
  {
    if rows != [] {
      var init := rows[..|rows| - 1];
      var last := rows[|rows| - 1];
      ContributionsKeys(init, key, amount, counts);
      ConcatSums(Contributions(init, key, amount, counts), Contribution(last, key, amount, counts), "");
      assert KeysOf(Contribution(last, key, amount, counts)) == if counts(last) then {key(last)} else {};
      assert rows == init + [last];
      var all := set r | r in rows && counts(r) :: key(r);
      var before := set r | r in init && counts(r) :: key(r);
      var here := if counts(last) then {key(last)} else {};
      forall k | k in all ensures k in before + here {
        var r :| r in rows && counts(r) && key(r) == k;
        if r != last {
          assert r in init;
        }
      }
      assert before + here <= all;
    }
  }

  /** The keys of `ps` in order, repeats included. */
  function PairKeys(ps: seq<(string, real)>): seq<string> {
    if ps == [] then [] else PairKeys(ps[..|ps| - 1]) + [ps[|ps| - 1].0]
  }

  /** `ks` with every key kept at its first occurrence only. */
  function FirstSeen(ks: seq<string>): seq<string> {
    if ks == [] then []
    else
      var r := FirstSeen(ks[..|ks| - 1]);
      if ks[|ks| - 1] in r then r else r + [ks[|ks| - 1]]
  }

  /** The first-seen list holds each key of `ks` exactly once. */
  lemma {:induction false} FirstSeenSpec(ks: seq<string>)
    ensures NoDup(FirstSeen(ks))
    ensures forall k :: k in FirstSeen(ks) <==> k in ks
  {
    if ks != [] {
      var init := ks[..|ks| - 1];
      FirstSeenSpec(init);
      assert ks == init + [ks[|ks| - 1]];
      if ks[|ks| - 1] !in FirstSeen(init) {
        NoDupSnoc(FirstSeen(init), ks[|ks| - 1]);
      }
    }
  }

  /**
   * First-seen order: of two keys of the list, the earlier one occurs in some
   * prefix of `ks` in which the later one does not occur yet.
   */
  lemma {:induction false} FirstSeenOrder(ks: seq<string>, i: int, j: int)
    requires 0 <= i < j < |FirstSeen(ks)|
    ensures exists n :: 0 <= n <= |ks| && FirstSeen(ks)[i] in ks[..n] && FirstSeen(ks)[j] !in ks[..n]
  {
    var init := ks[..|ks| - 1];
    var r := FirstSeen(init);
    FirstSeenSpec(init);
    if j < |r| {
      FirstSeenOrder(init, i, j);
      var n :| 0 <= n <= |init| && r[i] in init[..n] && r[j] !in init[..n];
      assert init[..n] == ks[..n];
    } else {
      assert FirstSeen(ks)[j] == ks[|ks| - 1] && ks[|ks| - 1] !in r;
      assert ks[..|ks| - 1] == init;
    }
  }

  /** A tally from the empty object lists its keys in first-seen order. */
  lemma {:induction false} TallyFirstSeen(ps: seq<(string, real)>)
    ensures Tally(Empty(), ps).Valid()
    ensures Tally(Empty(), ps).keys == FirstSeen(PairKeys(ps))
  {
    if ps != [] {
      var init := ps[..|ps| - 1];
      var ks := PairKeys(ps);
      TallyFirstSeen(init);
      AddKeys(Tally(Empty(), init), ps[|ps| - 1]);
      assert ks[..|ks| - 1] == PairKeys(init);
    }
  }

  /** The keys a row-by-row pass in which every row counts, in row order. */
  function RowKeys<T>(rows: seq<T>, key: T -> string): (ks: seq<string>)
    ensures |ks| == |rows|
  {
    if rows == [] then [] else RowKeys(rows[..|rows| - 1], key) + [key(rows[|rows| - 1])]
  }

  /** When every row counts, the pairs carry the rows' keys in row order. */
  lemma {:induction false} ContributionsKeyOrder<T>(rows: seq<T>, key: T -> string, amount: T -> real, counts: T -> bool)
    requires forall r :: r in rows ==> counts(r)
    ensures PairKeys(Contributions(rows, key, amount, counts)) == RowKeys(rows, key)
  {
    if rows != [] {
      var init := rows[..|rows| - 1];
      var last := rows[|rows| - 1];
      var ps := Contributions(rows, key, amount, counts);
      assert forall r :: r in init ==> r in rows;
      ContributionsKeyOrder(init, key, amount, counts);
      assert last in rows;
      assert ps == Contributions(init, key, amount, counts) + [(key(last), amount(last))];
      assert ps[..|ps| - 1] == Contributions(init, key, amount, counts);
    }
  }
}
