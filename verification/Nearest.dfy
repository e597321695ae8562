/** The nearest-lot query: what the scan returns, and why later changes of the lot
    table that do not concern the winner leave the answer alone. */
module Nearest {
  import opened Words
  import opened Wrappers
  import opened Floats
  import opened Tables

  /** `a < b`, where None is an infinite or NaN distance: never below anything, and
      above every finite one. */
  predicate Closer(a: Option<real>, b: Option<real>) {
    a.Some? && (b.None? || a.value < b.value)
  }

  /** Position `k` holds the first minimum, and a finite one. */
  ghost predicate FirstMinimum(ds: seq<Option<real>>, k: nat) {
    && k < |ds|
    && ds[k].Some?
    && (forall j :: 0 <= j < k ==> Closer(ds[k], ds[j]))
    && (forall j :: k < j < |ds| ==> !Closer(ds[j], ds[k]))
  }

  /** The result of a left-to-right scan that keeps the first strictly smaller distance. */
  function Least(ds: seq<Option<real>>): (k: Option<nat>)
    ensures k.Some? ==> k.value < |ds|
  {
    if ds == [] then None
    else
      var n := |ds| - 1;
      var best := Least(ds[..n]);
      if Closer(ds[n], if best.Some? then ds[best.value] else None) then Some(n) else best
  }

  /** The scan answers exactly when some distance is finite, and it answers the first minimum;
      no other position qualifies. */
  lemma {:induction false} LeastIsFirstMinimum(ds: seq<Option<real>>)
    ensures Least(ds).None? <==> forall k :: 0 <= k < |ds| ==> ds[k].None?
    ensures forall k: nat :: FirstMinimum(ds, k) <==> Least(ds) == Some(k)
  {
    if ds != [] {
      var n := |ds| - 1;
      var front := ds[..n];
      LeastIsFirstMinimum(front);
      var before := Least(front);
      assert before.Some? ==> FirstMinimum(front, before.value);
      forall k: nat ensures FirstMinimum(ds, k) <==> Least(ds) == Some(k) {
        if k < n {
          assert FirstMinimum(ds, k) <==> FirstMinimum(front, k) && !Closer(ds[n], ds[k]);
        }
      }
    }
  }

  // ---------------------------------------------------------------- lots

  function LotDistance(l: Lot, lat: uint32, lon: uint32): Option<real> {
    Distance(FloatOf(l.lat), FloatOf(l.lon), FloatOf(lat), FloatOf(lon))
  }

  /** No lot is too far for the scan's initial minimum. */
  lemma LotDistanceBelowMax(l: Lot, lat: uint32, lon: uint32)
    ensures LotDistance(l, lat, lon).Some? ==> LotDistance(l, lat, lon).value < DBL_MAX
  {
    hide FloatOf, Distance;
    DistanceBelowMax(l.lat, l.lon, lat, lon);
  }

  function Distances(lots: seq<Lot>, lat: uint32, lon: uint32): (ds: seq<Option<real>>)
    ensures |ds| == |lots|
  {
    seq(|lots|, i requires 0 <= i < |lots| => LotDistance(lots[i], lat, lon))
  }

  /** The position of the lot that `findClosestLot` answers. */
  function Closest(lots: seq<Lot>, lat: uint32, lon: uint32): (k: Option<nat>)
    ensures k.Some? ==> k.value < |lots|
  {
    Least(Distances(lots, lat, lon))
  }

  /** The id it hands back: read through an `int` into a `uint32_t`. */
  function ClosestId(lots: seq<Lot>, lat: uint32, lon: uint32): Option<uint32> {
    var k := Closest(lots, lat, lon);
    if k.None? then None else Some(Uint32(Int32(lots[k.value].id)))
  }

  /** The lot lies at the given place, both known as numbers. */
  predicate LiesAt(l: Lot, lat: uint32, lon: uint32) {
    && FloatOf(lat).Finite? && FloatOf(lon).Finite?
    && FloatOf(l.lat) == FloatOf(lat) && FloatOf(l.lon) == FloatOf(lon)
  }

  /** Squared distances are zero at the place itself and positive elsewhere. */
  lemma NoDistanceAtPlace(l: Lot, lat: uint32, lon: uint32)
    requires FloatOf(lat).Finite? && FloatOf(lon).Finite?
    ensures LotDistance(l, lat, lon).Some? ==> LotDistance(l, lat, lon).value >= 0.0
    ensures LiesAt(l, lat, lon) <==> LotDistance(l, lat, lon) == Some(0.0)
  {
    hide FloatOf;
    if FloatOf(l.lat).Finite? && FloatOf(l.lon).Finite? {
      SumOfSquares(FloatOf(l.lat).value - FloatOf(lat).value, FloatOf(l.lon).value - FloatOf(lon).value,
                   LotDistance(l, lat, lon).value);
    }
  }

  lemma ProductSign(x: real, y: real, product: real)
    requires product == x * y && (x > 0.0 <==> y > 0.0) && (x < 0.0 <==> y < 0.0)
    ensures product >= 0.0 && (product == 0.0 <==> x == 0.0)
  {
  }

  lemma SumOfSquares(x: real, y: real, sum: real)
    requires sum == x * x + y * y
    ensures sum >= 0.0 && (sum == 0.0 <==> x == 0.0 && y == 0.0)
  {
    ProductSign(x, x, x * x);
    ProductSign(y, y, y * y);
  }

  /** Whoever parks where a lot lies is booked on the first lot there. */
  lemma LotAtPlaceWins(lots: seq<Lot>, lat: uint32, lon: uint32, i: nat)
    requires i < |lots| && LiesAt(lots[i], lat, lon)
    ensures var k := Closest(lots, lat, lon);
            && k.Some? && k.value <= i && LiesAt(lots[k.value], lat, lon)
            && forall j :: 0 <= j < k.value ==> !LiesAt(lots[j], lat, lon)
  {
    hide LotDistance, FloatOf;
    var ds := Distances(lots, lat, lon);
    LeastIsFirstMinimum(ds);
    NoDistanceAtPlace(lots[i], lat, lon);
    assert ds[i].Some?;
    var k := Closest(lots, lat, lon).value;
    assert FirstMinimum(ds, k);
    NoDistanceAtPlace(lots[k], lat, lon);
    forall j | 0 <= j < k ensures !LiesAt(lots[j], lat, lon) {
      NoDistanceAtPlace(lots[j], lat, lon);
      assert Closer(ds[k], ds[j]);
    }
  }

  /** How far apart two coordinates are. */
  function Offset(a: uint32, b: uint32): real
    requires FloatOf(a).Finite? && FloatOf(b).Finite?
  {
    var d := FloatOf(a).value - FloatOf(b).value;
    if d < 0.0 then -d else d
  }

  lemma SquaresGrow(u: real, v: real)
    requires 0.0 <= u <= v
    ensures u * u <= v * v
  {
    assert u * u <= u * v <= v * v;
  }

  lemma DistanceGrows(l: Lot, m: Lot, lat: uint32, lon: uint32)
    requires LotDistance(l, lat, lon).Some? && LotDistance(m, lat, lon).Some?
    requires Offset(l.lat, lat) <= Offset(m.lat, lat) && Offset(l.lon, lon) <= Offset(m.lon, lon)
    ensures LotDistance(l, lat, lon).value <= LotDistance(m, lat, lon).value
  {
    hide FloatOf;
    SquaresGrow(Offset(l.lat, lat), Offset(m.lat, lat));
    SquaresGrow(Offset(l.lon, lon), Offset(m.lon, lon));
  }

  /** A lot that is no farther than the answer in both coordinates can only tie with it, and comes later in the
      table. */
  lemma NoLotNearerInBoth(lots: seq<Lot>, lat: uint32, lon: uint32, j: nat, k: nat)
    requires Closest(lots, lat, lon) == Some(k) && j < |lots| && LotDistance(lots[j], lat, lon).Some?
    requires LotDistance(lots[k], lat, lon).Some? ==>
               && Offset(lots[j].lat, lat) <= Offset(lots[k].lat, lat)
               && Offset(lots[j].lon, lon) <= Offset(lots[k].lon, lon)
    ensures LotDistance(lots[j], lat, lon) == LotDistance(lots[k], lat, lon) && k <= j
  {
    hide LotDistance, FloatOf;
    var ds := Distances(lots, lat, lon);
    LeastIsFirstMinimum(ds);
    assert FirstMinimum(ds, k);
    DistanceGrows(lots[j], lots[k], lat, lon);
    assert j < k ==> Closer(ds[k], ds[j]);
    assert k < j ==> !Closer(ds[j], ds[k]);
  }

  predicate IsNumber(x: uint32) {
    FloatOf(x).Finite?
  }

  predicate HasPlace(l: Lot) {
    IsNumber(l.lat) && IsNumber(l.lon)
  }

  /** A lot is answered exactly when the vehicle's place and some lot's are numbers; and then the answer's is. */
  lemma AnsweredIffPlaced(lots: seq<Lot>, lat: uint32, lon: uint32)
    ensures var k := Closest(lots, lat, lon);
            && (k.Some? <==> IsNumber(lat) && IsNumber(lon) && exists l :: l in lots && HasPlace(l))
            && (k.Some? ==> HasPlace(lots[k.value]))
  {
    hide FloatOf;
    var ds := Distances(lots, lat, lon);
    LeastIsFirstMinimum(ds);
    assert forall i :: 0 <= i < |lots| ==> (ds[i].Some? <==> HasPlace(lots[i]) && IsNumber(lat) && IsNumber(lon));
    var k := Closest(lots, lat, lon);
    if k.Some? {
      assert FirstMinimum(ds, k.value);
    }
  }

  /** Of two places (a, b) and (c, d), the squared distances from (x, y) differ by a linear expression in x and y. */
  lemma DifferenceOfSquares(a: real, b: real, c: real, d: real, x: real, y: real)
    ensures ((c - x) * (c - x) + (d - y) * (d - y)) - ((a - x) * (a - x) + (b - y) * (b - y))
            == c * c + d * d - a * a - b * b - 2.0 * (x * (c - a) + y * (d - b))
  {
  }

  /** Which side of the perpendicular bisector between lots `l` and `m` the place is on: negative towards `l`. */
  function Side(l: Lot, m: Lot, lat: uint32, lon: uint32): real
    requires HasPlace(l) && HasPlace(m) && IsNumber(lat) && IsNumber(lon)
  {
    var a, b, c, d := FloatOf(l.lat).value, FloatOf(l.lon).value, FloatOf(m.lat).value, FloatOf(m.lon).value;
    2.0 * (FloatOf(lat).value * (c - a) + FloatOf(lon).value * (d - b)) - (c * c + d * d - a * a - b * b)
  }

  lemma SideComparesDistances(l: Lot, m: Lot, lat: uint32, lon: uint32)
    requires HasPlace(l) && HasPlace(m) && IsNumber(lat) && IsNumber(lon)
    ensures LotDistance(l, lat, lon).Some? && LotDistance(m, lat, lon).Some?
    ensures Side(l, m, lat, lon) == LotDistance(l, lat, lon).value - LotDistance(m, lat, lon).value
  {
    hide FloatOf;
    DifferenceOfSquares(FloatOf(l.lat).value, FloatOf(l.lon).value, FloatOf(m.lat).value, FloatOf(m.lon).value,
                        FloatOf(lat).value, FloatOf(lon).value);
  }

  /** The vehicle is on the answer's side of the perpendicular bisector between the answer and any other lot, and
      strictly so for a lot that comes earlier in the table. */
  lemma AnswerSideOfBisector(lots: seq<Lot>, lat: uint32, lon: uint32, j: nat, k: nat)
    requires Closest(lots, lat, lon) == Some(k) && j < |lots| && HasPlace(lots[j])
    ensures IsNumber(lat) && IsNumber(lon) && HasPlace(lots[k])
    ensures if j < k then Side(lots[k], lots[j], lat, lon) < 0.0 else Side(lots[k], lots[j], lat, lon) <= 0.0
  {
    hide LotDistance, FloatOf, Side;
    AnsweredIffPlaced(lots, lat, lon);
    SideComparesDistances(lots[k], lots[j], lat, lon);
    var ds := Distances(lots, lat, lon);
    LeastIsFirstMinimum(ds);
    assert FirstMinimum(ds, k);
    assert j < k ==> Closer(ds[k], ds[j]);
    assert k < j ==> !Closer(ds[j], ds[k]);
  }

  /** The id that is answered leads back to the nearest lot: looked up, as when the stay is priced, it finds it. */
  lemma AnswerIsFound(t: Image, lat: uint32, lon: uint32)
    requires Ordered(t) && t.nextLot <= 0x8000_0000
    ensures ClosestId(t.lots, lat, lon).Some? <==> Closest(t.lots, lat, lon).Some?
    ensures var k := Closest(t.lots, lat, lon);
            k.Some? ==> FindLot(t.lots, Int32(ClosestId(t.lots, lat, lon).value)) == Some(t.lots[k.value])
  {
    hide Closest;
    var k := Closest(t.lots, lat, lon);
    if k.Some? {
      var l := t.lots[k.value];
      assert l in t.lots;
      FindLotIsLookup(t.lots, t.nextLot, l.id);
    }
  }

  // ---------------------------------------------------------------- stability

  ghost predicate SamePlace(a: Lot, b: Lot) {
    a.id == b.id && a.lat == b.lat && a.lon == b.lon
  }

  ghost predicate HadPlace(lots: seq<Lot>, l: Lot) {
    exists j :: 0 <= j < |lots| && SamePlace(lots[j], l)
  }

  /** A lot that was there before has kept its place on the map, and no new lot has
      taken an old id. */
  ghost predicate Evolved(before: Image, after: Image) {
    && before.nextLot <= after.nextLot
    && forall l :: l in after.lots && l.id < before.nextLot ==> HadPlace(before.lots, l)
  }

  lemma EvolvedByEdit(before: Image, after: Image)
    requires before.nextLot <= after.nextLot && |before.lots| <= |after.lots|
    requires forall k :: 0 <= k < |before.lots| ==> SamePlace(before.lots[k], after.lots[k])
    requires forall k :: |before.lots| <= k < |after.lots| ==> after.lots[k].id >= before.nextLot
    ensures Evolved(before, after)
  {
  }

  lemma EvolvedByRemoval(before: Image, after: Image)
    requires before.nextLot == after.nextLot
    requires forall l :: l in after.lots ==> l in before.lots
    ensures Evolved(before, after)
  {
    forall l | l in after.lots ensures HadPlace(before.lots, l) {
      var k :| 0 <= k < |before.lots| && before.lots[k] == l;
      assert SamePlace(before.lots[k], l);
    }
  }

  lemma ApplyEvolves(t: Image, c: Call)
    requires Ordered(t)
    ensures Evolved(t, Apply(t, c).image)
  {
    match c.op
    case RemoveCity(city) =>
      FilterKeepsOrder(t.lots, NotInCity(Int32(city)), t.nextLot);
      EvolvedByRemoval(t, Apply(t, c).image);
    case RemoveLot(lot) =>
      FilterKeepsOrder(t.lots, NotLot(Int32(lot)), t.nextLot);
      EvolvedByRemoval(t, Apply(t, c).image);
    case _ =>
      EvolvedByEdit(t, Apply(t, c).image);
  }

  lemma EvolvedTransitive(a: Image, b: Image, c: Image)
    requires Evolved(a, b) && Evolved(b, c)
    ensures Evolved(a, c)
  {
    forall l | l in c.lots && l.id < a.nextLot ensures HadPlace(a.lots, l) {
      var i :| 0 <= i < |b.lots| && SamePlace(b.lots[i], l);
      assert b.lots[i] in b.lots;
      var j :| 0 <= j < |a.lots| && SamePlace(a.lots[j], b.lots[i]);
      assert SamePlace(a.lots[j], l);
    }
  }

  lemma {:induction false} RunEvolves(t: Image, h: seq<Call>)
    requires Ordered(t)
    ensures Ordered(RunFrom(t, h)) && Evolved(t, RunFrom(t, h))
  {
    if h == [] {
      EvolvedByRemoval(t, t);
    } else {
      var mid, c := RunFrom(t, h[..|h| - 1]), h[|h| - 1];
      RunEvolves(t, h[..|h| - 1]);
      ApplyKeepsOrder(mid, c);
      ApplyEvolves(mid, c);
      EvolvedTransitive(t, mid, Apply(mid, c).image);
    }
  }

  lemma OldLotKeepsDistance(t: Image, after: Image, i: nat, lat: uint32, lon: uint32) returns (j: nat)
    requires Evolved(t, after) && i < |after.lots| && after.lots[i].id < t.nextLot
    ensures j < |t.lots| && t.lots[j].id == after.lots[i].id
    ensures Distances(t.lots, lat, lon)[j] == Distances(after.lots, lat, lon)[i]
  {
    assert after.lots[i] in after.lots;
    j :| 0 <= j < |t.lots| && SamePlace(t.lots[j], after.lots[i]);
  }

  lemma WinnerKeptWins(t: Image, after: Image, k: nat, k': nat, lat: uint32, lon: uint32)
    requires Ordered(t) && Ordered(after) && Evolved(t, after)
    requires FirstMinimum(Distances(t.lots, lat, lon), k)
    requires k' < |after.lots| && after.lots[k'].id == t.lots[k].id
    requires NoneNearer(t, after.lots, k, lat, lon)
    ensures FirstMinimum(Distances(after.lots, lat, lon), k')
  {
    var ds, es := Distances(t.lots, lat, lon), Distances(after.lots, lat, lon);
    var same := OldLotKeepsDistance(t, after, k', lat, lon);
    assert same == k;
    forall i | 0 <= i < k' ensures Closer(es[k'], es[i]) {
      var j := OldLotKeepsDistance(t, after, i, lat, lon);
      assert j < k;
    }
    forall i | k' < i < |es| ensures !Closer(es[i], es[k']) {
      if after.lots[i].id < t.nextLot {
        var j := OldLotKeepsDistance(t, after, i, lat, lon);
        assert k < j;
      }
    }
  }

  /** No lot added since `t` is strictly nearer than the lot at `k` was. */
  ghost predicate NoneNearer(t: Image, lots: seq<Lot>, k: nat, lat: uint32, lon: uint32)
    requires k < |t.lots|
  {
    forall i :: 0 <= i < |lots| && lots[i].id >= t.nextLot ==>
      !Closer(Distances(lots, lat, lon)[i], Distances(t.lots, lat, lon)[k])
  }

  /** After any sequence of operations that leaves the winning lot in the table (at `k'`) and
      adds none that is nearer, the same query returns the same lot. */
  lemma NearestIsStable(t: Image, h: seq<Call>, k: nat, k': nat, lat: uint32, lon: uint32)
    requires Ordered(t) && Closest(t.lots, lat, lon) == Some(k)
    requires k' < |RunFrom(t, h).lots| && RunFrom(t, h).lots[k'].id == t.lots[k].id
    requires NoneNearer(t, RunFrom(t, h).lots, k, lat, lon)
    ensures Closest(RunFrom(t, h).lots, lat, lon) == Some(k')
    ensures ClosestId(RunFrom(t, h).lots, lat, lon) == ClosestId(t.lots, lat, lon)
  {
    RunEvolves(t, h);
    LeastIsFirstMinimum(Distances(t.lots, lat, lon));
    WinnerKeptWins(t, RunFrom(t, h), k, k', lat, lon);
    LeastIsFirstMinimum(Distances(RunFrom(t, h).lots, lat, lon));
  }
}
