/**
 * The aggregates `fetchStats` computes over the event rows of a date range
 * (statistiques.js:227-236): the total of `Prix`, the number of events per
 * employee (`Ajouté_pour`) and the spend per client (`Nom`).
 */
module ClientStats {

  import opened JsObject
  import opened Ranking

  /** A row as `fetchStats` selects it: `Nom`, `Prix` and `Ajouté_pour`. */
  datatype StatRow = StatRow(nom: string, prix: real, ajoutePour: string)

  /** `row.Nom`, the key of `spendingByClient`. */
  function Client(r: StatRow): string {
    r.nom
  }

  /** `row.Ajouté_pour`, the key of `eventsByPerson`. */
  function Person(r: StatRow): string {
    r.ajoutePour
  }

  /** `row.Prix`. */
  function Price(r: StatRow): real {
    r.prix
  }

  /** Each row counts once in `eventsByPerson`. */
  function One(r: StatRow): real {
    1.0
  }

  /** Both reductions take every row. */
  predicate EveryRow(r: StatRow) {
    true
  }

  /** `totalAmount` (statistiques.js:227): `data.reduce((sum, row) => sum + row.Prix, 0)`. */
  function TotalAmount(data: seq<StatRow>): real {
    if data == [] then 0.0 else TotalAmount(data[..|data| - 1]) + data[|data| - 1].prix
  }

  /** Reference: the number of rows added for `person`. */
  function EventCount(data: seq<StatRow>, person: string): nat {
    if data == [] then 0
    else EventCount(data[..|data| - 1], person) + (if data[|data| - 1].ajoutePour == person then 1 else 0)
  }

  /** Reference: the total `Prix` of the rows of `client`. */
  function ClientSpend(data: seq<StatRow>, client: string): real {
    if data == [] then 0.0
    else ClientSpend(data[..|data| - 1], client) + (if data[|data| - 1].nom == client then data[|data| - 1].prix else 0.0)
  }

  /** The pairs the `eventsByPerson` reduction adds, in row order. */
  function PersonPairs(data: seq<StatRow>): seq<(string, real)> {
    Contributions(data, Person, One, EveryRow)
  }

  /** The pairs the `spendingByClient` reduction adds, in row order. */
  function ClientPairs(data: seq<StatRow>): seq<(string, real)> {
    Contributions(data, Client, Price, EveryRow)
  }

  /** The object `eventsByPerson` (statistiques.js:228-231). */
  function PersonTable(data: seq<StatRow>): (t: Dict<real>)
    ensures t.Valid()
  {
    TallyKeys(Empty(), PersonPairs(data));
    Tally(Empty(), PersonPairs(data))
  }

  /** The object `spendingByClient` (statistiques.js:233-236). */
  function SpendTable(data: seq<StatRow>): (t: Dict<real>)
    ensures t.Valid()
  {
    TallyKeys(Empty(), ClientPairs(data));
    Tally(Empty(), ClientPairs(data))
  }

  /** The count pairs add up to the number of rows. */
  lemma {:induction false} PersonPairsSum(data: seq<StatRow>)
    ensures SumAll(PersonPairs(data)) == |data| as real
  {
    if data != [] {
      var init := data[..|data| - 1];
      PersonPairsSum(init);
      ConcatSums(PersonPairs(init), Contribution(data[|data| - 1], Person, One, EveryRow), "");
      assert SumAll([(Person(data[|data| - 1]), 1.0)]) == SumAll([]) + 1.0;
    }
  }

  /** The spend pairs add up to the total amount. */
  lemma {:induction false} ClientPairsSum(data: seq<StatRow>)
    ensures SumAll(ClientPairs(data)) == TotalAmount(data)
  {
    if data != [] {
      var init := data[..|data| - 1];
      var last := data[|data| - 1];
      ClientPairsSum(init);
      ConcatSums(ClientPairs(init), Contribution(last, Client, Price, EveryRow), "");
      assert SumAll([(Client(last), last.prix)]) == SumAll([]) + last.prix;
    }
  }

  /** A person's count pairs add up to the person's number of rows. */
  lemma {:induction false} PersonPairsFor(data: seq<StatRow>, person: string)
    ensures SumFor(PersonPairs(data), person) == EventCount(data, person) as real
  {
    if data != [] {
      var init := data[..|data| - 1];
      var last := data[|data| - 1];
      PersonPairsFor(init, person);
      ConcatSums(PersonPairs(init), Contribution(last, Person, One, EveryRow), person);
      assert SumFor([(Person(last), 1.0)], person) == SumFor([], person) + (if last.ajoutePour == person then 1.0 else 0.0);
    }
  }

  /** A client's spend pairs add up to the client's spend. */
  lemma {:induction false} ClientPairsFor(data: seq<StatRow>, client: string)
    ensures SumFor(ClientPairs(data), client) == ClientSpend(data, client)
  {
    if data != [] {
      var init := data[..|data| - 1];
      var last := data[|data| - 1];
      ClientPairsFor(init, client);
      ConcatSums(ClientPairs(init), Contribution(last, Client, Price, EveryRow), client);
      assert SumFor([(Client(last), last.prix)], client) == SumFor([], client) + (if last.nom == client then last.prix else 0.0);
    }
  }

  /**
   * `eventsByPerson` has one key per employee named in the rows, in the order
   * the employees first appear, and each key counts that employee's rows.
   */
  lemma EventsByPersonSpec(data: seq<StatRow>)
    ensures PersonTable(data).Valid()
    ensures PersonTable(data).vals.Keys == set r | r in data :: r.ajoutePour
    ensures PersonTable(data).keys == FirstSeen(RowKeys(data, Person))
    ensures forall p :: PersonTable(data).GetOr(p, 0.0) == EventCount(data, p) as real
  {
    var none: Dict<real> := Empty();
    TallyKeys(none, PersonPairs(data));
    ContributionsKeys(data, Person, One, EveryRow);
    TallyFirstSeen(PersonPairs(data));
    ContributionsKeyOrder(data, Person, One, EveryRow);
    forall p ensures PersonTable(data).GetOr(p, 0.0) == EventCount(data, p) as real {
      TallyValue(none, PersonPairs(data), p);
      PersonPairsFor(data, p);
    }
  }

  /** The counts of `eventsByPerson` add up to the number of rows. */
  lemma EventCountsSumToRows(data: seq<StatRow>)
    ensures PersonTable(data).Valid()
    ensures SumValues(PersonTable(data)) == |data| as real
  {
    var none: Dict<real> := Empty();
    TallySum(none, PersonPairs(data));
    PersonPairsSum(data);
    assert SumValues(none) == 0.0;
  }

  /**
   * `spendingByClient` has one key per client named in the rows, in the order
   * the clients first appear, and each key holds that client's total `Prix`.
   */
  lemma SpendingByClientSpec(data: seq<StatRow>)
    ensures SpendTable(data).Valid()
    ensures SpendTable(data).vals.Keys == set r | r in data :: r.nom
    ensures SpendTable(data).keys == FirstSeen(RowKeys(data, Client))
    ensures forall c :: SpendTable(data).GetOr(c, 0.0) == ClientSpend(data, c)
  {
    var none: Dict<real> := Empty();
    TallyKeys(none, ClientPairs(data));
    ContributionsKeys(data, Client, Price, EveryRow);
    TallyFirstSeen(ClientPairs(data));
    ContributionsKeyOrder(data, Client, Price, EveryRow);
    forall c ensures SpendTable(data).GetOr(c, 0.0) == ClientSpend(data, c) {
      TallyValue(none, ClientPairs(data), c);
      ClientPairsFor(data, c);
    }
  }

  /** Sum conservation: `totalAmount` is the sum of the `spendingByClient` values. */
  lemma TotalIsSpendingSum(data: seq<StatRow>)
    ensures SpendTable(data).Valid()
    ensures SumValues(SpendTable(data)) == TotalAmount(data)
  {
    var none: Dict<real> := Empty();
    TallySum(none, ClientPairs(data));
    ClientPairsSum(data);
    assert SumValues(none) == 0.0;
  }

  /** Each entry of `topClients` is a client of the rows, paired with that client's total `Prix`. */
  lemma TopClientsFromRows(data: seq<StatRow>)
    ensures SpendTable(data).Valid()
    ensures forall i :: 0 <= i < |TopClients(SpendTable(data))| ==>
      (exists r :: r in data && r.nom == TopClients(SpendTable(data))[i].0)
      && TopClients(SpendTable(data))[i].1 == ClientSpend(data, TopClients(SpendTable(data))[i].0)
  {
    SpendingByClientSpec(data);
    TopClientsGenuine(SpendTable(data));
    var top := TopClients(SpendTable(data));
    forall i | 0 <= i < |top| ensures top[i].1 == ClientSpend(data, top[i].0) {
      assert SpendTable(data).GetOr(top[i].0, 0.0) == ClientSpend(data, top[i].0);
    }
  }

  /**
   * Ties in `topClients` keep first-seen order: of two clients with the same
   * spend, the one listed first appears in the rows before the other does.
   */
  lemma TopClientsTiesFirstSeen(data: seq<StatRow>, i: int, j: int)
    requires 0 <= i < j < |TopClients(SpendTable(data))|
    requires TopClients(SpendTable(data))[i].1 == TopClients(SpendTable(data))[j].1
    ensures exists n :: (0 <= n <= |data|
      && TopClients(SpendTable(data))[i].0 in RowKeys(data, Client)[..n]
      && TopClients(SpendTable(data))[j].0 !in RowKeys(data, Client)[..n])
  {
    var spending := SpendTable(data);
    var top := TopClients(spending);
    SpendingByClientSpec(data);
    TopClientsTies(spending);
    FirstSeenOrder(RowKeys(data, Client), IndexOf(spending.keys, top[i].0), IndexOf(spending.keys, top[j].0));
  }

  /**
   * `eventsByPerson` (statistiques.js:228-231): the reduction that bumps
   * `acc[row.Ajouté_pour]` by one for every row.
   */
  method EventsByPerson(data: seq<StatRow>) returns (acc: Dict<real>)
    ensures acc == PersonTable(data)
  {
    acc := Accumulate(Empty(), data, Person, One, EveryRow);
  }

  /**
   * `spendingByClient` (statistiques.js:233-236): the reduction that adds
   * `row.Prix` to `acc[row.Nom]` for every row.
   */
  method SpendingByClient(data: seq<StatRow>) returns (acc: Dict<real>)
    ensures acc == SpendTable(data)
  {
    acc := Accumulate(Empty(), data, Client, Price, EveryRow);
  }
}
