/** The content of one SQLite database of the server, the SQL statements that
    `db.cpp` issues on it, and the effect of each public database operation. Rows
    are kept in ascending id order, which is SQLite's scan order; ids are never
    reused (AUTOINCREMENT). */
module Tables {
  import opened Words
  import opened Wrappers
  import opened Floats
  import opened Pricing
  import opened Sequences

  datatype City = City(id: nat, name: string)

  /** Coordinates are the bit patterns of the `float`s given to `addLot`. */
  datatype Lot = Lot(id: nat, city: int32, name: string, lat: uint32, lon: uint32,
                     hourly: bool, price: real, maxDaily: real)

  /** The three columns that are NULL while a session is open. */
  datatype Closing = Closing(endTime: int32, duration: int32, total: real)

  datatype Row = Row(id: nat, lot: int32, customer: int32, start: int32, closing: Option<Closing>)

  datatype Image = Image(cities: seq<City>, lots: seq<Lot>, log: seq<Row>,
                         nextCity: nat, nextLot: nat, nextLog: nat)

  /** A database file whose tables were just created. */
  const EMPTY := Image([], [], [], 1, 1, 1)

  // ---------------------------------------------------------------- statements

  /** INSERT INTO Log. */
  function InsertLog(t: Image, lot: int32, customer: int32, start: int32): Image {
    t.(log := t.log + [Row(t.nextLog, lot, customer, start, None)], nextLog := t.nextLog + 1)
  }

  predicate OpenFor(row: Row, customer: int32) {
    row.customer == customer && row.closing.None?
  }

  /** SELECT ... WHERE customer_id = ? AND end_time IS NULL ORDER BY log_id DESC LIMIT 1,
      as the position of the row. */
  function NewestOpen(log: seq<Row>, customer: int32): (k: Option<nat>)
    ensures k.Some? ==> k.value < |log|
  {
    if log == [] then None
    else if OpenFor(log[|log| - 1], customer) then Some(|log| - 1)
    else NewestOpen(log[..|log| - 1], customer)
  }

  /** UPDATE Log SET end_time, duration_sec, total_price WHERE log_id = ?. */
  function UpdateLog(log: seq<Row>, id: int32, closing: Closing): (r: seq<Row>)
    ensures |r| == |log|
  {
    seq(|log|, i requires 0 <= i < |log| => if log[i].id == id then log[i].(closing := Some(closing)) else log[i])
  }

  /** SELECT ... FROM Lot WHERE lot_id = ?. */
  function FindLot(lots: seq<Lot>, id: int32): Option<Lot> {
    if lots == [] then None
    else if lots[|lots| - 1].id == id then Some(lots[|lots| - 1])
    else FindLot(lots[..|lots| - 1], id)
  }

  function NotLot(id: int32): Lot -> bool { (l: Lot) => l.id != id }

  function NotInCity(city: int32): Lot -> bool { (l: Lot) => l.city != city }

  function NotCity(id: int32): City -> bool { (c: City) => c.id != id }

  /** UPDATE Lot SET price [, max_daily_price] WHERE lot_id = ?. */
  function RepriceAll(lots: seq<Lot>, id: int32, price: real, maxDaily: real): (r: seq<Lot>)
    ensures |r| == |lots|
  {
    seq(|lots|, i requires 0 <= i < |lots| =>
      if lots[i].id != id then lots[i]
      else if maxDaily > 0.0 then lots[i].(price := price, maxDaily := maxDaily)
      else lots[i].(price := price))
  }

  /** UPDATE Lot SET is_hourly WHERE lot_id = ?. */
  function RetypeAll(lots: seq<Lot>, id: int32, hourly: bool): (r: seq<Lot>)
    ensures |r| == |lots|
  {
    seq(|lots|, i requires 0 <= i < |lots| => if lots[i].id == id then lots[i].(hourly := hourly) else lots[i])
  }

  // ---------------------------------------------------------------- operations

  datatype Op =
    | StartParking(lot: uint32, customer: uint32, time: uint32)
    | EndParking(customer: uint32, time: uint32)
    | AddCity(name: string)
    | RemoveCity(city: uint32)
    | AddLot(lotName: string, inCity: uint32, lat: uint32, lon: uint32, hourly: bool, price: real, maxDaily: real)
    | RemoveLot(lot: uint32)
    | UpdateLotPrice(lot: uint32, price: real, maxDaily: real)
    | SetLotType(lot: uint32, hourly: bool)

  /** What SQLite and the file system answer while one request or operation is served:
      whether the nearest-lot scan, the find query, the price query, the preparation and the
      execution of the city purge, the final write, and the copy to disk go without error. */
  datatype Env = Env(scan: bool, find: bool, price: bool, purgePrepared: bool, purged: bool, write: bool, flush: bool)

  datatype Call = Call(op: Op, env: Env)

  datatype Status = PDB_OK | PDB_ERR

  datatype Outcome = Outcome(image: Image, status: Status)

  /** `calculatePrice`: 0 when the query fails or the lot is gone. */
  function CalculatePrice(lots: seq<Lot>, duration: int32, lot: uint32, priced: bool): real {
    if !priced then 0.0
    else
      match FindLot(lots, Int32(lot))
      case None => 0.0
      case Some(l) => Price(l.hourly, l.price, l.maxDaily, duration)
  }

  /** The values `endParking` writes into a row it closes at `time`. */
  function ClosingOf(lots: seq<Lot>, lot: int32, start: int32, time: uint32, priced: bool): Closing {
    var end := Int32(time);
    var duration := Int32(end - start);
    Closing(end, duration, CalculatePrice(lots, duration, Uint32(lot), priced))
  }

  function Apply(t: Image, c: Call): Outcome {
    match c.op
    case StartParking(lot, customer, time) =>
      if c.env.write then Outcome(InsertLog(t, Int32(lot), Int32(customer), Int32(time)), PDB_OK)
      else Outcome(t, PDB_ERR)
    case EndParking(customer, time) =>
      var k := NewestOpen(t.log, Int32(customer));
      if !c.env.find || k.None? || !c.env.write then Outcome(t, PDB_ERR)
      else
        var row := t.log[k.value];
        var closing := ClosingOf(t.lots, row.lot, row.start, time, c.env.price);
        Outcome(t.(log := UpdateLog(t.log, Int32(row.id), closing)), PDB_OK)
    case AddCity(name) =>
      if c.env.write && forall i :: 0 <= i < |t.cities| ==> t.cities[i].name != name then
        Outcome(t.(cities := t.cities + [City(t.nextCity, name)], nextCity := t.nextCity + 1), PDB_OK)
      else Outcome(t, PDB_ERR)
    case RemoveCity(city) =>
      if !c.env.purgePrepared then Outcome(t, PDB_ERR)
      else
        var purged := if c.env.purged then t.(lots := Filter(t.lots, NotInCity(Int32(city)))) else t;
        if c.env.write then Outcome(purged.(cities := Filter(t.cities, NotCity(Int32(city)))), PDB_OK)
        else Outcome(purged, PDB_ERR)
    case AddLot(name, city, lat, lon, hourly, price, maxDaily) =>
      // A NaN coordinate is stored as NULL, which the NOT NULL columns refuse.
      if c.env.write && !FloatOf(lat).NaN? && !FloatOf(lon).NaN? then
        var lot := Lot(t.nextLot, Int32(city), name, lat, lon, hourly, price, maxDaily);
        Outcome(t.(lots := t.lots + [lot], nextLot := t.nextLot + 1), PDB_OK)
      else Outcome(t, PDB_ERR)
    case RemoveLot(lot) =>
      WriteLots(t, Filter(t.lots, NotLot(Int32(lot))), c.env.write)
    case UpdateLotPrice(lot, price, maxDaily) =>
      WriteLots(t, RepriceAll(t.lots, Int32(lot), price, maxDaily), c.env.write)
    case SetLotType(lot, hourly) =>
      WriteLots(t, RetypeAll(t.lots, Int32(lot), hourly), c.env.write)
  }

  function WriteLots(t: Image, lots: seq<Lot>, written: bool): Outcome {
    if written then Outcome(t.(lots := lots), PDB_OK) else Outcome(t, PDB_ERR)
  }

  /** The operations of the price updater leave the log alone. */
  lemma AdminKeepsLog(t: Image, c: Call)
    requires !c.op.StartParking? && !c.op.EndParking?
    ensures Apply(t, c).image.log == t.log && Apply(t, c).image.nextLog == t.nextLog
  {
  }

  /** The database after further calls. */
  function RunFrom(t: Image, h: seq<Call>): Image {
    if h == [] then t else Apply(RunFrom(t, h[..|h| - 1]), h[|h| - 1]).image
  }

  /** The database after a history of calls, starting from freshly created tables. */
  function Run(h: seq<Call>): Image {
    RunFrom(EMPTY, h)
  }

  lemma RunSnoc(h: seq<Call>, c: Call)
    ensures Run(h + [c]) == Apply(Run(h), c).image
  {
    assert (h + [c])[..|h|] == h;
  }

  /** The query returns the last row that is open for the customer, and none only
      when the customer has no open row. */
  lemma {:induction false} NewestOpenIsLast(log: seq<Row>, customer: int32)
    ensures var k := NewestOpen(log, customer);
            match k
            case None => forall i :: 0 <= i < |log| ==> !OpenFor(log[i], customer)
            case Some(n) => OpenFor(log[n], customer) && forall i :: n < i < |log| ==> !OpenFor(log[i], customer)
  {
    if log != [] && !OpenFor(log[|log| - 1], customer) {
      NewestOpenIsLast(log[..|log| - 1], customer);
    }
  }

  /** Ids ascend and stay below the counter of the next one. */
  ghost predicate Ordered(t: Image) {
    && (forall i, j :: 0 <= i < j < |t.log| ==> t.log[i].id < t.log[j].id)
    && (forall i :: 0 <= i < |t.log| ==> t.log[i].id < t.nextLog)
    && Ascending(t.lots, t.nextLot)
  }

  /** Every log id fits the `int` that `endParking` reads it into. */
  ghost predicate Fits(t: Image) {
    t.nextLog <= 0x8000_0000
  }

  ghost predicate Ascending(lots: seq<Lot>, bound: nat) {
    && (forall i, j :: 0 <= i < j < |lots| ==> lots[i].id < lots[j].id)
    && (forall i :: 0 <= i < |lots| ==> lots[i].id < bound)
  }

  lemma {:induction false} FilterKeepsOrder(lots: seq<Lot>, keep: Lot -> bool, bound: nat)
    requires Ascending(lots, bound)
    ensures Ascending(Filter(lots, keep), bound)
    ensures forall l :: l in Filter(lots, keep) ==> l in lots
  {
    if lots != [] {
      var front, last := lots[..|lots| - 1], lots[|lots| - 1];
      assert Ascending(front, last.id);
      FilterKeepsOrder(front, keep, last.id);
      assert Filter(lots, keep) == Filter(front, keep) + if keep(last) then [last] else [];
    }
  }

  lemma LogKeepsOrder(t: Image, c: Call)
    requires Ordered(t) && (c.op.StartParking? || c.op.EndParking?)
    ensures Ordered(Apply(t, c).image)
    ensures t.nextLog <= Apply(t, c).image.nextLog && t.nextLot == Apply(t, c).image.nextLot
  {
  }

  /** A lot is found by its id exactly when it is in the table. */
  lemma {:induction false} FindLotIsLookup(lots: seq<Lot>, bound: nat, id: int32)
    requires Ascending(lots, bound)
    ensures forall l :: FindLot(lots, id) == Some(l) <==> l in lots && l.id == id
    ensures FindLot(lots, id).None? <==> forall l :: l in lots ==> l.id != id
  {
    if lots != [] {
      var front, last := lots[..|lots| - 1], lots[|lots| - 1];
      FindLotIsLookup(front, last.id, id);
      assert forall l :: l in lots <==> l in front || l == last;
    }
  }

  /** Exactly when each operation is acknowledged. */
  lemma AcknowledgedIff(t: Image, c: Call)
    ensures Apply(t, c).status == PDB_OK <==>
            c.env.write &&
            match c.op
            case StartParking(_, _, _) => true
            case EndParking(customer, _) => c.env.find && exists row :: row in t.log && OpenFor(row, Int32(customer))
            case AddCity(name) => forall y :: y in t.cities ==> y.name != name
            case RemoveCity(_) => c.env.purgePrepared
            case AddLot(_, _, lat, lon, _, _, _) => !FloatOf(lat).NaN? && !FloatOf(lon).NaN?
            case RemoveLot(_) => true
            case UpdateLotPrice(_, _, _) => true
            case SetLotType(_, _) => true
  {
    hide FloatOf, NewestOpen, ClosingOf, Filter, UpdateLog;
    if c.op.EndParking? {
      NewestOpenIsLast(t.log, Int32(c.op.customer));
    }
  }

  /** A city that was added is in the table under its new id and name, after all that were there. */
  lemma AddedCityIsPresent(t: Image, name: string, env: Env)
    ensures var r := Apply(t, Call(AddCity(name), env));
            && t.cities <= r.image.cities && t.nextCity <= r.image.nextCity
            && forall y :: y in r.image.cities <==>
                 y in t.cities || (r.status == PDB_OK && y == City(t.nextCity, name))
  {
  }

  /** A lot that was added is found under its new id with the values given; no other lookup changes. */
  lemma AddedLotIsFound(t: Image, c: Call, id: int32)
    requires Ordered(t) && t.nextLot <= INT_MAX && c.op.AddLot? && Apply(t, c).status == PDB_OK
    ensures var r, op := Apply(t, c).image, c.op;
            FindLot(r.lots, id) ==
              if id == t.nextLot then
                Some(Lot(id, Int32(op.inCity), op.lotName, op.lat, op.lon, op.hourly, op.price, op.maxDaily))
              else FindLot(t.lots, id)
    ensures FindLot(t.lots, t.nextLot) == None
  {
    FindLotIsLookup(t.lots, t.nextLot, t.nextLot);
    assert Apply(t, c).image.lots[..|t.lots|] == t.lots;
  }

  /** No two cities share a name or an id, and the next id is unused. */
  ghost predicate DistinctCities(cities: seq<City>, bound: nat) {
    && (forall i, j :: 0 <= i < j < |cities| ==> cities[i].name != cities[j].name && cities[i].id != cities[j].id)
    && (forall i :: 0 <= i < |cities| ==> cities[i].id < bound)
  }

  lemma {:induction false} FilterKeepsDistinct(cities: seq<City>, keep: City -> bool, bound: nat)
    requires DistinctCities(cities, bound)
    ensures DistinctCities(Filter(cities, keep), bound)
  {
    if cities != [] {
      var front := cities[..|cities| - 1];
      FilterKeepsDistinct(front, keep, bound);
      FilterElements(front, keep);
      assert forall i :: 0 <= i < |Filter(front, keep)| ==> Filter(front, keep)[i] in front;
    }
  }

  /** In every history cities keep distinct names and ids, and adding a city fails exactly when its name is
      taken. */
  lemma {:induction false} CitiesStayDistinct(h: seq<Call>, c: Call)
    ensures DistinctCities(Run(h).cities, Run(h).nextCity)
    ensures c.op.AddCity? && c.env.write ==>
              (Apply(Run(h), c).status == PDB_OK <==> forall y :: y in Run(h).cities ==> y.name != c.op.name)
  {
    hide Apply;
    if h != [] {
      var n := |h| - 1;
      CitiesStayDistinct(h[..n], c);
      ApplyKeepsDistinct(Run(h[..n]), h[n]);
    }
    if c.op.AddCity? && c.env.write {
      NameTaken(Run(h), c);
    }
  }

  lemma NameTaken(t: Image, c: Call)
    requires c.op.AddCity? && c.env.write
    ensures Apply(t, c).status == PDB_OK <==> forall y :: y in t.cities ==> y.name != c.op.name
  {
  }

  lemma ApplyKeepsDistinct(t: Image, c: Call)
    requires DistinctCities(t.cities, t.nextCity)
    ensures DistinctCities(Apply(t, c).image.cities, Apply(t, c).image.nextCity)
  {
    hide Filter, FloatOf, NewestOpen, ClosingOf;
    if c.op.RemoveCity? {
      FilterKeepsDistinct(t.cities, NotCity(Int32(c.op.city)), t.nextCity);
    }
  }

  /** A STOP is charged the price formula on the lot's current row, and nothing if the lot is gone. */
  lemma ChargeFollowsLotTable(t: Image, lot: uint32, duration: int32)
    requires Ordered(t)
    ensures (forall l :: l in t.lots ==> l.id != Int32(lot)) ==> CalculatePrice(t.lots, duration, lot, true) == 0.0
    ensures forall l :: l in t.lots && l.id == Int32(lot) ==>
              CalculatePrice(t.lots, duration, lot, true) == Price(l.hourly, l.price, l.maxDaily, duration)
  {
    FindLotIsLookup(t.lots, t.nextLot, Int32(lot));
  }

  lemma UnreadPriceIsFree(lots: seq<Lot>, duration: int32, lot: uint32)
    ensures CalculatePrice(lots, duration, lot, false) == 0.0
  {
  }

  /** Removing a lot removes the lot with that id and no other; the remaining lots keep their order. */
  lemma LotRemovalIsExact(t: Image, lot: uint32, env: Env)
    requires env.write
    ensures var r := Apply(t, Call(RemoveLot(lot), env));
            && r.status == PDB_OK && r.image.cities == t.cities
            && (forall l :: l in r.image.lots <==> l in t.lots && l.id != Int32(lot))
            && Subsequence(r.image.lots, t.lots)
  {
    hide Subsequence, Filter;
    var keep := NotLot(Int32(lot));
    FilterElements(t.lots, keep);
    FilterIsSubsequence(t.lots, keep);
  }

  predicate InCity(l: Lot, city: uint32) {
    l.city == Int32(city)
  }

  /** What a city's removal leaves, whichever of its statements fail: the lots go exactly if the first deletion is
      executed, the city exactly if the second is. It reports success for the second alone, so after a success
      none of the city's lots is left if and only if the first was executed or there was none. */
  lemma CityRemovalIsExact(t: Image, city: uint32, env: Env)
    ensures var r := Apply(t, Call(RemoveCity(city), env));
            && (r.status == PDB_OK <==> env.purgePrepared && env.write)
            && (forall l :: l in r.image.lots <==>
                  l in t.lots && (env.purgePrepared && env.purged ==> !InCity(l, city)))
            && (forall y :: y in r.image.cities <==> y in t.cities && (r.status == PDB_OK ==> y.id != Int32(city)))
            && Subsequence(r.image.lots, t.lots) && Subsequence(r.image.cities, t.cities)
            && (r.status == PDB_OK ==>
                  ((forall l :: l in r.image.lots ==> !InCity(l, city)) <==>
                   env.purged || forall l :: l in t.lots ==> !InCity(l, city)))
  {
    hide Subsequence, Filter;
    var keepLot, keepCity := NotInCity(Int32(city)), NotCity(Int32(city));
    FilterElements(t.lots, keepLot);
    FilterElements(t.cities, keepCity);
    FilterIsSubsequence(t.lots, keepLot);
    FilterIsSubsequence(t.cities, keepCity);
    SubsequenceReflexive(t.lots);
    SubsequenceReflexive(t.cities);
  }

  /** A removal reported as done that leaves the city's lot, and one reported as failed that took the lot. */
  lemma CityRemovalCanBeHalfDone(lot: Lot, env: Env)
    requires lot.city == 1
    ensures var t, remove := EMPTY.(cities := [City(1, "")], lots := [lot], nextCity := 2), RemoveCity(1);
            && Apply(t, Call(remove, env.(purgePrepared := true, purged := false, write := true)))
               == Outcome(t.(cities := []), PDB_OK)
            && Apply(t, Call(remove, env.(purgePrepared := true, purged := true, write := false)))
               == Outcome(t.(lots := []), PDB_ERR)
  {
    assert Filter([lot], NotInCity(1)) == [] by {
      FilterSnoc([], lot, NotInCity(1));
      assert [] + [lot] == [lot];
    }
    assert Filter([City(1, "")], NotCity(1)) == [] by {
      FilterSnoc([], City(1, ""), NotCity(1));
      assert [] + [City(1, "")] == [City(1, "")];
    }
  }

  /** An operation that reports an error has changed nothing, except a city's removal that had already taken
      some lots. */
  lemma ErrorChangesNothing(t: Image, c: Call)
    requires Apply(t, c).status == PDB_ERR
    ensures Apply(t, c).image == t <==>
            !(c.op.RemoveCity? && c.env.purgePrepared && c.env.purged
              && exists l :: l in t.lots && InCity(l, c.op.city))
  {
    hide Filter;
    if c.op.RemoveCity? {
      var keep := NotInCity(Int32(c.op.city));
      FilterElements(t.lots, keep);
      if forall l :: l in t.lots ==> !InCity(l, c.op.city) {
        FilterAll(t.lots, keep);
      }
    }
  }

  /** A price update touches only the named lot's price, and its cap only when a positive one is given; a type
      change touches only the named lot's type. */
  lemma EditIsExact(t: Image, c: Call)
    requires (c.op.UpdateLotPrice? || c.op.SetLotType?) && c.env.write
    ensures var r := Apply(t, c);
            && r.status == PDB_OK && r.image.cities == t.cities && r.image.nextLot == t.nextLot
            && |r.image.lots| == |t.lots|
            && forall i :: 0 <= i < |t.lots| ==>
                 var l, m := t.lots[i], r.image.lots[i];
                 && m == l.(price := m.price, maxDaily := m.maxDaily, hourly := m.hourly)
                 && m.hourly == (if c.op.SetLotType? && l.id == Int32(c.op.lot) then c.op.hourly else l.hourly)
                 && m.price == (if c.op.UpdateLotPrice? && l.id == Int32(c.op.lot) then c.op.price else l.price)
                 && m.maxDaily == (if c.op.UpdateLotPrice? && l.id == Int32(c.op.lot) && c.op.maxDaily > 0.0
                                   then c.op.maxDaily else l.maxDaily)
  {
  }

  /** Every operation keeps ids ascending and never hands one out twice. */
  lemma ApplyKeepsOrder(t: Image, c: Call)
    requires Ordered(t)
    ensures Ordered(Apply(t, c).image)
    ensures t.nextLog <= Apply(t, c).image.nextLog && t.nextLot <= Apply(t, c).image.nextLot
  {
    if c.op.StartParking? || c.op.EndParking? {
      LogKeepsOrder(t, c);
    } else {
      AdminKeepsLog(t, c);
      LotsKeepOrder(t, c);
    }
  }

  lemma LotsKeepOrder(t: Image, c: Call)
    requires Ascending(t.lots, t.nextLot)
    requires !c.op.StartParking? && !c.op.EndParking?
    ensures Ascending(Apply(t, c).image.lots, Apply(t, c).image.nextLot)
    ensures t.nextLot <= Apply(t, c).image.nextLot
  {
    match c.op
    case RemoveCity(city) => FilterKeepsOrder(t.lots, NotInCity(Int32(city)), t.nextLot);
    case RemoveLot(lot) => FilterKeepsOrder(t.lots, NotLot(Int32(lot)), t.nextLot);
    case _ =>
  }

  /** `endParking` closes the row it selected exactly when that row's id fits an `int`.
      For a larger id it reports success and leaves the selected row open. */
  lemma StopClosesSelectedRow(t: Image, c: Call)
    requires Ordered(t) && c.op.EndParking? && c.env.find && c.env.write
    requires NewestOpen(t.log, Int32(c.op.customer)).Some?
    ensures var k := NewestOpen(t.log, Int32(c.op.customer)).value;
            Apply(t, c).status == PDB_OK &&
            (Apply(t, c).image.log[k].closing.Some? <==> t.log[k].id <= INT_MAX)
  {
    NewestOpenIsLast(t.log, Int32(c.op.customer));
  }

  /** In a table whose ids fit, the update changes the selected row and no other. */
  lemma UpdateHitsOneRow(t: Image, k: nat, closing: Closing)
    requires Ordered(t) && Fits(t) && k < |t.log|
    ensures UpdateLog(t.log, Int32(t.log[k].id), closing) == t.log[k := t.log[k].(closing := Some(closing))]
  {
  }
}
