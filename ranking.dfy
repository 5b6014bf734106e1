/**
 * The ranking of `fetchStats` (statistiques.js:238-240):
 * `Object.entries(spendingByClient).sort((a, b) => b[1] - a[1]).slice(0, 10)`.
 *
 * `Array.prototype.sort` is stable, so sorting by descending spend puts an
 * entry before another exactly when it spends more, or spends the same and
 * stood earlier in `Object.entries`. The sort is modelled as an insertion
 * sort of the entry positions under that strict total order.
 */
module Ranking {

  import opened JsObject

  /** Whether every position of `s` indexes `es`. */
  ghost predicate InRange(es: seq<(string, real)>, s: seq<nat>) {
    forall i :: 0 <= i < |s| ==> s[i] < |es|
  }

  /** The order of the stable descending sort on the positions of `es`. */
  predicate Before(es: seq<(string, real)>, a: nat, b: nat)
    requires a < |es| && b < |es|
  {
    es[a].1 > es[b].1 || (es[a].1 == es[b].1 && a < b)
  }

  /** The positions of `s` are strictly ordered by `Before`. */
  ghost predicate Ordered(es: seq<(string, real)>, s: seq<nat>)
    requires InRange(es, s)
  {
    forall i, j :: 0 <= i < j < |s| ==> Before(es, s[i], s[j])
  }

  /** Position `p` inserted into the ordered positions `s`. */
  function Insert(es: seq<(string, real)>, p: nat, s: seq<nat>): (r: seq<nat>)
    requires p < |es| && InRange(es, s)
    ensures |r| == |s| + 1 && InRange(es, r)
  {
    if s == [] then [p]
    else if Before(es, p, s[0]) then [p] + s
    else [s[0]] + Insert(es, p, s[1..])
  }

  /** Positions `0 .. n - 1` of `es`, sorted. */
  function SortPositions(es: seq<(string, real)>, n: nat): (r: seq<nat>)
    requires n <= |es|
    ensures |r| == n && InRange(es, r)
  {
    if n == 0 then [] else Insert(es, n - 1, SortPositions(es, n - 1))
  }

  /** Insertion keeps the positions in range, adds exactly `p` and keeps the order. */
  lemma {:induction false} InsertSpec(es: seq<(string, real)>, p: nat, s: seq<nat>)
    requires p < |es| && InRange(es, s) && Ordered(es, s) && p !in s
    ensures |Insert(es, p, s)| == |s| + 1
    ensures InRange(es, Insert(es, p, s))
    ensures forall x :: x in Insert(es, p, s) <==> x == p || x in s
    ensures Ordered(es, Insert(es, p, s))
  {
    if s != [] && !Before(es, p, s[0]) {
      var tail := s[1..];
      assert forall x :: x in s <==> x == s[0] || x in tail;
      InsertSpec(es, p, tail);
      var r := Insert(es, p, s);
      var rt := Insert(es, p, tail);
      assert r == [s[0]] + rt;
      forall i, j | 0 <= i < j < |r| ensures Before(es, r[i], r[j]) {
        if i == 0 {
          assert r[j] in rt;
          if r[j] != p {
            var k :| 0 <= k < |tail| && tail[k] == r[j];
            assert Before(es, s[0], s[k + 1]);
          }
        } else {
          assert r[i] == rt[i - 1] && r[j] == rt[j - 1];
        }
      }
    }
  }

  /** The sorted positions are `0 .. n - 1`. */
  lemma {:induction false} SortPositionsElements(es: seq<(string, real)>, n: nat)
    requires n <= |es|
    ensures forall x :: x in SortPositions(es, n) <==> 0 <= x < n
  {
    if n > 0 {
      var prev := SortPositions(es, n - 1);
      SortPositionsElements(es, n - 1);
      SortPositionsOrdered(es, n - 1);
      InsertSpec(es, n - 1, prev);
    }
  }

  /** The sorted positions are in `Before` order, so each occurs once. */
  lemma {:induction false} SortPositionsOrdered(es: seq<(string, real)>, n: nat)
    requires n <= |es|
    ensures Ordered(es, SortPositions(es, n))
  {
    if n > 0 {
      var prev := SortPositions(es, n - 1);
      SortPositionsElements(es, n - 1);
      SortPositionsOrdered(es, n - 1);
      InsertSpec(es, n - 1, prev);
    }
  }

  /** The sorted positions are `0 .. n - 1`, each once, in `Before` order. */
  lemma SortPositionsSpec(es: seq<(string, real)>, n: nat)
    requires n <= |es|
    ensures |SortPositions(es, n)| == n
    ensures InRange(es, SortPositions(es, n))
    ensures forall x :: x in SortPositions(es, n) <==> 0 <= x < n
    ensures Ordered(es, SortPositions(es, n))
  {
    SortPositionsElements(es, n);
    SortPositionsOrdered(es, n);
  }

  /** The entries `.sort((a, b) => b[1] - a[1])` leaves, in order. */
  function SortedEntries(es: seq<(string, real)>): seq<(string, real)> {
    var r := SortPositions(es, |es|);
    SortPositionsSpec(es, |es|);
    seq(|es|, i requires 0 <= i < |es| => es[r[i]])
  }

  /** `.slice(0, n)`: the first `n` elements, or all of them when there are fewer. */
  function Slice<T>(s: seq<T>, n: nat): seq<T> {
    if |s| <= n then s else s[..n]
  }

  /** `topClients` (statistiques.js:238-240). */
  function TopClients(spending: Dict<real>): seq<(string, real)>
    requires spending.Valid()
  {
    Slice(SortedEntries(spending.Entries()), 10)
  }

  /** Entry `i` of `topClients` is the entry at sorted position `i` of the object. */
  lemma TopClientsAt(spending: Dict<real>)
    requires spending.Valid()
    ensures |TopClients(spending)| <= |spending.keys|
    ensures forall i :: 0 <= i < |TopClients(spending)| ==>
      SortPositions(spending.Entries(), |spending.keys|)[i] < |spending.keys|
      && TopClients(spending)[i] == spending.Entries()[SortPositions(spending.Entries(), |spending.keys|)[i]]
  {
  }

  /** `topClients` keeps ten clients, or all of them when there are fewer. */
  lemma TopClientsLength(spending: Dict<real>)
    requires spending.Valid()
    ensures |TopClients(spending)| == if |spending.keys| < 10 then |spending.keys| else 10
  {
  }

  /** Each entry of `topClients` is a client of the object with its own spend, and no client appears twice. */
  lemma TopClientsGenuine(spending: Dict<real>)
    requires spending.Valid()
    ensures forall i :: 0 <= i < |TopClients(spending)| ==>
      TopClients(spending)[i].0 in spending.vals && TopClients(spending)[i].1 == spending.vals[TopClients(spending)[i].0]
    ensures forall i, j :: 0 <= i < j < |TopClients(spending)| ==> TopClients(spending)[i].0 != TopClients(spending)[j].0
  {
    var es := spending.Entries();
    var r := SortPositions(es, |es|);
    SortPositionsSpec(es, |es|);
    TopClientsAt(spending);
    var top := TopClients(spending);
    forall i, j | 0 <= i < j < |top| ensures top[i].0 != top[j].0 {
      assert Before(es, r[i], r[j]);
      assert top[i].0 == spending.keys[r[i]] && top[j].0 == spending.keys[r[j]];
    }
  }

  /** `topClients` is non-increasing in spend. */
  lemma TopClientsDescending(spending: Dict<real>)
    requires spending.Valid()
    ensures forall i, j :: 0 <= i < j < |TopClients(spending)| ==> TopClients(spending)[i].1 >= TopClients(spending)[j].1
  {
    var es := spending.Entries();
    var r := SortPositions(es, |es|);
    SortPositionsSpec(es, |es|);
    TopClientsAt(spending);
    var top := TopClients(spending);
    forall i, j | 0 <= i < j < |top| ensures top[i].1 >= top[j].1 {
      assert Before(es, r[i], r[j]);
    }
  }

  /** No client left out of `topClients` spends more than a client kept in it. */
  lemma TopClientsComplete(spending: Dict<real>, k: string)
    requires spending.Valid() && k in spending.vals
    requires forall i :: 0 <= i < |TopClients(spending)| ==> TopClients(spending)[i].0 != k
    ensures forall i :: 0 <= i < |TopClients(spending)| ==> spending.vals[k] <= TopClients(spending)[i].1
  {
    var es := spending.Entries();
    var r := SortPositions(es, |es|);
    SortPositionsSpec(es, |es|);
    TopClientsAt(spending);
    var top := TopClients(spending);
    var q :| 0 <= q < |spending.keys| && spending.keys[q] == k;
    assert q in r;
    var m :| 0 <= m < |r| && r[m] == q;
    forall i | 0 <= i < |top| ensures r[i] != q {
      assert top[i].0 == spending.keys[r[i]];
    }
    assert |top| <= m;
    forall i | 0 <= i < |top| ensures spending.vals[k] <= top[i].1 {
      assert Before(es, r[i], r[m]);
    }
  }

  /** Clients with equal spend keep the order of the object's keys. */
  lemma TopClientsTies(spending: Dict<real>)
    requires spending.Valid()
    ensures forall i :: 0 <= i < |TopClients(spending)| ==> TopClients(spending)[i].0 in spending.keys
    ensures forall i, j :: 0 <= i < j < |TopClients(spending)| && TopClients(spending)[i].1 == TopClients(spending)[j].1 ==>
      IndexOf(spending.keys, TopClients(spending)[i].0) < IndexOf(spending.keys, TopClients(spending)[j].0)
  {
    var es := spending.Entries();
    var r := SortPositions(es, |es|);
    SortPositionsSpec(es, |es|);
    TopClientsAt(spending);
    var top := TopClients(spending);
    forall i | 0 <= i < |top| ensures top[i].0 in spending.keys && IndexOf(spending.keys, top[i].0) == r[i] {
      assert top[i].0 == spending.keys[r[i]];
      IndexOfNoDup(spending.keys, r[i]);
    }
    forall i, j | 0 <= i < j < |top| && top[i].1 == top[j].1
      ensures IndexOf(spending.keys, top[i].0) < IndexOf(spending.keys, top[j].0)
    {
      assert Before(es, r[i], r[j]);
    }
  }
}
