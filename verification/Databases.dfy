/** The `Database` class: an in-memory database shared by every process that opens it, and
    the file it is copied to after each success. */
module Databases {
  import opened Words
  import opened Wrappers
  import opened Floats
  import opened Pricing
  import opened Sequences
  import opened Tables
  import opened Nearest
  import Recovery

  /** One SQLite database. `lineage` is the history of calls its content comes from: a copy
      takes its source's content together with its source's history. */
  class Store {
    var image: Image
    ghost var lineage: seq<Call>

    ghost predicate Valid()
      reads this
    {
      image == Run(lineage)
    }

    constructor ()
      ensures Valid() && image == EMPTY && lineage == []
    {
      image := EMPTY;
      lineage := [];
    }
  }

  class Database {
    const runtime: Store?
    const disk: Store?
    const diskOk: bool

    ghost predicate Valid()
      reads runtime, disk
    {
      && (runtime != null ==> runtime.Valid())
      && (disk != null ==> disk.Valid() && runtime != disk)
      && (diskOk <==> disk != null)
      && (diskOk ==> runtime != null)
    }

    /** Both databases, as the crash model sees them. */
    function World(): Recovery.World
      reads runtime, disk
      requires runtime != null && disk != null
    {
      Recovery.World(runtime.image, disk.image)
    }

    /** The whole effect of one public operation, on both databases. */
    twostate predicate Performed(op: Op, env: Env, status: Status)
      reads runtime, disk
    {
      if runtime == null then status == PDB_ERR && (disk != null ==> unchanged(disk))
      else
        var c := Call(op, env);
        var r := Apply(old(runtime.image), c);
        && status == r.status
        && runtime.image == r.image
        && runtime.lineage == old(runtime.lineage) + [c]
        && (disk != null ==>
              && World() == Recovery.Happen(old(World()), Recovery.Do(c))
              && disk.lineage == if status == PDB_OK && env.flush then runtime.lineage else old(disk.lineage))
    }

    /** Opening: `shm` or `file` is null when SQLite cannot open it, and `restored` tells
        whether the copy from disk succeeds. Tables missing after the copy are created empty,
        which is what a blank image already stands for. */
    constructor (shm: Store?, file: Store?, restored: bool)
      requires shm != null ==> shm.Valid() && shm != file
      requires file != null ==> file.Valid()
      modifies shm
      ensures Valid() && runtime == shm
      ensures shm == null ==> disk == null && !diskOk
      ensures shm != null ==> disk == file && diskOk == (file != null)
      ensures shm != null && file != null ==>
                && World() == Recovery.Happen(old(Recovery.World(shm.image, file.image)), Recovery.Open(restored))
                && shm.lineage == old(if restored then file.lineage else shm.lineage)
      ensures shm != null && file == null ==> unchanged(shm)
    {
      runtime := shm;
      disk := if shm == null then null else file;
      diskOk := shm != null && file != null;
      new;
      if runtime != null && disk != null {
        var done := Backup(disk, runtime, restored);
      }
    }

    /** Opening as callers see it: creating the missing tables may fail, and is attempted only with the file open.
        Then an exception leaves them without a database (null), but memory has already been restored. */
    static method Open(shm: Store?, file: Store?, restored: bool, created: bool) returns (db: Database?)
      requires shm != null ==> shm.Valid() && shm != file
      requires file != null ==> file.Valid()
      modifies shm
      ensures db == null <==> shm != null && file != null && !created
      ensures db != null ==> fresh(db) && db.Valid()
      ensures db != null ==> db.runtime == shm && db.disk == if shm == null then null else file
      ensures shm != null && file != null ==>
                && Recovery.World(shm.image, file.image)
                   == Recovery.Happen(old(Recovery.World(shm.image, file.image)), Recovery.Open(restored))
                && shm.lineage == old(if restored then file.lineage else shm.lineage)
      ensures shm != null && file == null ==> unchanged(shm)
    {
      db := new Database(shm, file, restored);
      if db.diskOk && !created {
        db := null;
      }
    }

    /** The destructor. */
    method Close(flush: bool)
      requires Valid()
      modifies disk
      ensures Valid()
      ensures disk != null ==>
                && World() == Recovery.Happen(old(World()), Recovery.Shutdown(flush))
                && disk.lineage == if flush then runtime.lineage else old(disk.lineage)
    {
      if diskOk {
        var status := FlushToDisk(flush);
      }
    }

    static method Backup(src: Store, dest: Store, ok: bool) returns (done: bool)
      requires src.Valid() && dest.Valid()
      modifies dest
      ensures dest.Valid() && done == ok
      ensures if ok then dest.image == old(src.image) && dest.lineage == old(src.lineage) else unchanged(dest)
    {
      if ok {
        dest.image := src.image;
        dest.lineage := src.lineage;
      }
      return ok;
    }

    method FlushToDisk(ok: bool) returns (status: Status)
      requires Valid()
      modifies disk
      ensures Valid()
      ensures status == if diskOk && ok then PDB_OK else PDB_ERR
      ensures disk != null ==>
                if diskOk && ok then disk.image == runtime.image && disk.lineage == runtime.lineage
                else unchanged(disk)
    {
      if !diskOk {
        return PDB_ERR;
      }
      var done := Backup(runtime, disk, ok);
      return if done then PDB_OK else PDB_ERR;
    }

    /** What every public operation does once its statements have been answered: record the new
        content and, on success, copy it to disk. */
    method Commit(op: Op, env: Env, image: Image, status: Status)
      requires Valid() && runtime != null
      requires Outcome(image, status) == Apply(runtime.image, Call(op, env))
      modifies runtime, disk
      ensures Valid() && Performed(op, env, status)
    {
      runtime.image := image;
      runtime.lineage := runtime.lineage + [Call(op, env)];
      assert runtime.lineage[..|runtime.lineage| - 1] == old(runtime.lineage);
      if status == PDB_OK {
        var flushed := FlushToDisk(env.flush);
      }
    }

    method StartParking(lot: uint32, customer: uint32, time: uint32, env: Env) returns (status: Status)
      requires Valid()
      modifies runtime, disk
      ensures Valid() && Performed(Op.StartParking(lot, customer, time), env, status)
    {
      if runtime == null {
        return PDB_ERR;
      }
      var image := runtime.image;
      if env.write {
        image := InsertLog(image, Int32(lot), Int32(customer), Int32(time));
        status := PDB_OK;
      } else {
        status := PDB_ERR;
      }
      Commit(Op.StartParking(lot, customer, time), env, image, status);
    }

    method EndParking(customer: uint32, endTime: uint32, env: Env) returns (status: Status)
      requires Valid()
      modifies runtime, disk
      ensures Valid() && Performed(Op.EndParking(customer, endTime), env, status)
    {
      hide Run, Price, FindLot, UpdateLog, NewestOpen;
      if runtime == null {
        return PDB_ERR;
      }
      var image := runtime.image;
      var hit := NewestOpen(image.log, Int32(customer));
      status := PDB_ERR;
      if env.find && hit.Some? {
        var logId := Int32(image.log[hit.value].id);
        var start := image.log[hit.value].start;
        var lot := image.log[hit.value].lot;
        var duration := Int32(Int32(endTime) - start);
        var total := CalculatePrice(duration, Uint32(lot), env.price);
        if env.write {
          image := image.(log := UpdateLog(image.log, logId, Closing(Int32(endTime), duration, total)));
          status := PDB_OK;
        }
      }
      Commit(Op.EndParking(customer, endTime), env, image, status);
    }

    method CalculatePrice(duration: int32, lot: uint32, ok: bool) returns (total: real)
      requires runtime != null
      ensures total == Tables.CalculatePrice(runtime.image.lots, duration, lot, ok)
    {
      if !ok {
        return 0.0;
      }
      var l := FindLot(runtime.image.lots, Int32(lot));
      if l.None? {
        return 0.0;
      }
      if !l.value.hourly {
        return l.value.price;
      }
      var hours := Hours(duration);
      total := Capped(hours, l.value.price, l.value.maxDaily);
    }

    method AddCity(name: string, env: Env) returns (status: Status)
      requires Valid()
      modifies runtime, disk
      ensures Valid() && Performed(Op.AddCity(name), env, status)
    {
      if runtime == null {
        return PDB_ERR;
      }
      var image := runtime.image;
      // City names are UNIQUE.
      if env.write && forall i :: 0 <= i < |image.cities| ==> image.cities[i].name != name {
        image := image.(cities := image.cities + [City(image.nextCity, name)], nextCity := image.nextCity + 1);
        status := PDB_OK;
      } else {
        status := PDB_ERR;
      }
      Commit(Op.AddCity(name), env, image, status);
    }

    method RemoveCity(city: uint32, env: Env) returns (status: Status)
      requires Valid()
      modifies runtime, disk
      ensures Valid() && Performed(Op.RemoveCity(city), env, status)
    {
      if runtime == null {
        return PDB_ERR;
      }
      var image := runtime.image;
      status := PDB_ERR;
      if env.purgePrepared {
        // The outcome of executing the purge is not looked at.
        if env.purged {
          image := image.(lots := Filter(image.lots, NotInCity(Int32(city))));
        }
        if env.write {
          image := image.(cities := Filter(image.cities, NotCity(Int32(city))));
          status := PDB_OK;
        }
      }
      Commit(Op.RemoveCity(city), env, image, status);
    }

    method AddLot(name: string, city: uint32, lat: uint32, lon: uint32,
                  hourly: bool, price: real, maxDaily: real, env: Env)
      returns (status: Status)
      requires Valid()
      modifies runtime, disk
      ensures Valid() && Performed(Op.AddLot(name, city, lat, lon, hourly, price, maxDaily), env, status)
    {
      if runtime == null {
        return PDB_ERR;
      }
      var image := runtime.image;
      if env.write && !FloatOf(lat).NaN? && !FloatOf(lon).NaN? {
        var lot := Lot(image.nextLot, Int32(city), name, lat, lon, hourly, price, maxDaily);
        image := image.(lots := image.lots + [lot], nextLot := image.nextLot + 1);
        status := PDB_OK;
      } else {
        status := PDB_ERR;
      }
      Commit(Op.AddLot(name, city, lat, lon, hourly, price, maxDaily), env, image, status);
    }

    method RemoveLot(lot: uint32, env: Env) returns (status: Status)
      requires Valid()
      modifies runtime, disk
      ensures Valid() && Performed(Op.RemoveLot(lot), env, status)
    {
      if runtime == null {
        return PDB_ERR;
      }
      var image := runtime.image;
      if env.write {
        image := image.(lots := Filter(image.lots, NotLot(Int32(lot))));
      }
      status := if env.write then PDB_OK else PDB_ERR;
      Commit(Op.RemoveLot(lot), env, image, status);
    }

    method UpdateLotPrice(lot: uint32, price: real, maxDaily: real, env: Env) returns (status: Status)
      requires Valid()
      modifies runtime, disk
      ensures Valid() && Performed(Op.UpdateLotPrice(lot, price, maxDaily), env, status)
    {
      if runtime == null {
        return PDB_ERR;
      }
      var image := runtime.image;
      if env.write {
        image := image.(lots := RepriceAll(image.lots, Int32(lot), price, maxDaily));
      }
      status := if env.write then PDB_OK else PDB_ERR;
      Commit(Op.UpdateLotPrice(lot, price, maxDaily), env, image, status);
    }

    method SetLotType(lot: uint32, hourly: bool, env: Env) returns (status: Status)
      requires Valid()
      modifies runtime, disk
      ensures Valid() && Performed(Op.SetLotType(lot, hourly), env, status)
    {
      if runtime == null {
        return PDB_ERR;
      }
      var image := runtime.image;
      if env.write {
        image := image.(lots := RetypeAll(image.lots, Int32(lot), hourly));
      }
      status := if env.write then PDB_OK else PDB_ERR;
      Commit(Op.SetLotType(lot, hourly), env, image, status);
    }

    /** Scans the lot table; `lotIn` is what the caller's reference parameter held before. */
    method FindClosestLot(lat: uint32, lon: uint32, lotIn: uint32, ok: bool) returns (found: bool, lot: uint32)
      requires Valid()
      ensures found <==> ok && runtime != null && ClosestId(runtime.image.lots, lat, lon).Some?
      ensures if found then ClosestId(runtime.image.lots, lat, lon) == Some(lot) else lot == lotIn
    {
      hide LotDistance, Run;
      found, lot := false, lotIn;
      if runtime == null || !ok {
        return;
      }
      var lots := runtime.image.lots;
      ghost var ds := Distances(lots, lat, lon);
      var minDist := DBL_MAX;
      var i := 0;
      while i < |lots|
        invariant 0 <= i <= |lots|
        invariant found <==> Least(ds[..i]).Some?
        invariant found ==> ds[Least(ds[..i]).value] == Some(minDist)
        invariant found ==> lot == Uint32(Int32(lots[Least(ds[..i]).value].id))
        invariant !found ==> minDist == DBL_MAX && lot == lotIn
      {
        var dist := LotDistance(lots[i], lat, lon);
        LotDistanceBelowMax(lots[i], lat, lon);
        assert ds[..i + 1][..i] == ds[..i];
        if dist.Some? && dist.value < minDist {
          minDist := dist.value;
          lot := Uint32(Int32(lots[i].id));
          found := true;
        }
        i := i + 1;
      }
      assert ds[..|lots|] == ds;
    }
  }
}
