/** The server's side of a connection: reassembling requests from whatever chunks `recv`
    delivers, parsing them, and handing them to the database. */
module Servers {
  import opened Words
  import opened Wrappers
  import opened Wire
  import opened Tables
  import opened Nearest
  import opened Databases

  /** An accepted socket. `stream` is every byte it will deliver before it ends, by a
      close or by an error; the server cannot tell these apart. */
  class Connection {
    const stream: seq<byte>
    var pos: nat

    ghost predicate Valid()
      reads this
    {
      pos <= |stream|
    }

    ghost function Rest(): seq<byte>
      reads this
      requires Valid()
    {
      stream[pos..]
    }

    constructor (stream: seq<byte>)
      ensures Valid() && this.stream == stream && pos == 0
    {
      this.stream := stream;
      pos := 0;
    }

    /** `recv`: any non-empty chunk of at most `n` bytes, and none only at the end. */
    method Recv(n: nat) returns (chunk: seq<byte>)
      requires Valid() && n > 0
      modifies this
      ensures Valid() && old(pos) + |chunk| == pos && |chunk| <= n
      ensures chunk == stream[old(pos)..pos]
      ensures chunk == [] <==> old(pos) == |stream|
    {
      if pos == |stream| {
        return [];
      }
      var k: nat :| 1 <= k <= n && pos + k <= |stream|;
      chunk := stream[pos..pos + k];
      pos := pos + k;
    }
  }

  class Request {
    var kind: byte
    var licenseId: uint32
    var timestamp: uint32
    var latitude: uint32
    var longitude: uint32

    function View(): Msg
      reads this
    {
      Msg(kind, licenseId, timestamp, latitude, longitude)
    }

    constructor () {
    }
  }

  /** Fills the buffer however the stream is cut, or consumes a tail that is too short. */
  method RecvRequest(conn: Connection, buf: array<byte>) returns (ok: bool)
    requires conn.Valid()
    modifies conn, buf
    ensures conn.Valid()
    ensures ok <==> |old(conn.Rest())| >= buf.Length
    ensures ok ==> buf[..] == old(conn.Rest())[..buf.Length] && conn.Rest() == old(conn.Rest())[buf.Length..]
    ensures !ok ==> var n := |old(conn.Rest())|;
                    conn.Rest() == [] && buf[..n] == old(conn.Rest()) && buf[n..] == old(buf[n..])
  {
    var size := buf.Length;
    var total := 0;
    while total < size
      invariant conn.Valid() && 0 <= total <= size && conn.pos == old(conn.pos) + total
      invariant forall i :: 0 <= i < total ==> buf[i] == conn.stream[old(conn.pos) + i]
      invariant forall i :: total <= i < size ==> buf[i] == old(buf[i])
      decreases size - total
    {
      var chunk := conn.Recv(size - total);
      if chunk == [] {
        return false;
      }
      forall i | 0 <= i < |chunk| {
        buf[total + i] := chunk[i];
      }
      total := total + |chunk|;
    }
    return true;
  }

  /** Copies the fields out of the packed buffer, unless the type byte is invalid. */
  method ParseRequest(buf: array<byte>, req: Request) returns (ok: bool)
    requires buf.Length == MSG_LEN
    modifies req
    ensures ok <==> Parse(buf[..]).Some?
    ensures ok ==> req.View() == Parse(buf[..]).value
    ensures !ok ==> unchanged(req)
  {
    var offset := 0;
    var rawType := buf[offset];
    if rawType > MSG_STOP {
      return false;
    }
    req.kind := rawType;
    offset := offset + 1;
    req.licenseId := Word(buf[offset..offset + 4]);
    offset := offset + 4;
    req.timestamp := Word(buf[offset..offset + 4]);
    offset := offset + 4;
    req.latitude := Word(buf[offset..offset + 4]);
    offset := offset + 4;
    req.longitude := Word(buf[offset..offset + 4]);
    assert buf[..][1..5] == buf[1..5] && buf[..][5..9] == buf[5..9];
    assert buf[..][9..13] == buf[9..13] && buf[..][13..17] == buf[13..17];
    return true;
  }

  /** The database call, if any, that a request leads to. */
  function CallsFor(t: Image, m: Msg, env: Env): (calls: seq<Call>)
    ensures |calls| <= 1
  {
    var lot := ClosestId(t.lots, m.lat, m.lon);
    if !env.scan || lot.None? then []
    else if m.kind == MSG_START then [Call(StartParking(lot.value, m.license, m.utc), env)]
    else if m.kind == MSG_STOP then [Call(EndParking(m.license, m.utc), env)]
    else []
  }

  /** The histories of the in-memory database and of its disk copy, if there is one. */
  datatype Lineages = Lineages(runtime: seq<Call>, disk: Option<seq<Call>>)

  function Serve(s: Lineages, m: Msg, env: Env): Lineages {
    var calls := CallsFor(Run(s.runtime), m, env);
    var after := s.runtime + calls;
    var flushed := calls != [] && Apply(Run(s.runtime), calls[0]).status == PDB_OK && env.flush;
    Lineages(after, if flushed && s.disk.Some? then Some(after) else s.disk)
  }

  /** Serving messages one after the other; `env(k)` is what the environment answers to the `k`-th. */
  function ServeAll(s: Lineages, ms: seq<Msg>, env: nat -> Env): Lineages {
    if ms == [] then s
    else
      var n := |ms| - 1;
      Serve(ServeAll(s, ms[..n], env), ms[n], env(n))
  }

  ghost function LineagesOf(db: Database): Lineages
    reads db.runtime, db.disk
    requires db.runtime != null
  {
    Lineages(db.runtime.lineage, if db.disk == null then None else Some(db.disk.lineage))
  }

  method HandleRequest(db: Database, req: Request, env: Env)
    requires db.Valid()
    modifies db.runtime, db.disk
    ensures db.Valid()
    ensures db.runtime != null ==> LineagesOf(db) == Serve(old(LineagesOf(db)), req.View(), env)
  {
    hide Run, Apply, ClosestId;
    ghost var before := if db.runtime == null then [] else db.runtime.lineage;
    assert before + [] == before;
    var found, lot := db.FindClosestLot(req.latitude, req.longitude, 0, env.scan);
    if !found {
      return;
    }
    if req.kind == MSG_START {
      var status := db.StartParking(lot, req.licenseId, req.timestamp, env);
    } else if req.kind == MSG_STOP {
      var status := db.EndParking(req.licenseId, req.timestamp, env);
    }
  }

  /** One pass of the connection loop: receive, parse, serve. An invalid request is only reported. */
  method HandleNext(conn: Connection, buffer: array<byte>, db: Database, env: Env) returns (ok: bool)
    requires conn.Valid() && db.Valid() && buffer.Length == MSG_LEN
    modifies conn, buffer, db.runtime, db.disk
    ensures db.Valid() && conn.Valid()
    ensures ok <==> |old(conn.Rest())| >= MSG_LEN
    ensures conn.Rest() == if ok then old(conn.Rest())[MSG_LEN..] else []
    ensures db.runtime != null ==>
              LineagesOf(db) == if ok then Serve(old(LineagesOf(db)), Decode(old(conn.Rest())[..MSG_LEN]), env)
                                else old(LineagesOf(db))
  {
    ok := RecvRequest(conn, buffer);
    if !ok {
      return;
    }
    var req := new Request();
    var parsed := ParseRequest(buffer, req);
    if parsed {
      HandleRequest(db, req, env);
    } else if db.runtime != null {
      ServeInvalid(LineagesOf(db), Decode(buffer[..]), env);
    }
  }

  /** A whole connection, on one reused buffer: however `recv` cuts the stream, the requests
      served are those of its consecutive 17-byte blocks, in order. */
  method HandleClient(conn: Connection, db: Database, env: nat -> Env) returns (ghost served: seq<Msg>)
    requires conn.Valid() && db.Valid()
    modifies conn, db.runtime, db.disk
    ensures db.Valid() && conn.Valid() && conn.Rest() == []
    ensures served == Blocks(old(conn.Rest()))
    ensures db.runtime != null ==> LineagesOf(db) == ServeAll(old(LineagesOf(db)), served, env)
  {
    hide Serve, ServeAll, Blocks, Encode, Decode, Run, RunFrom, Apply;
    var buffer := new byte[MSG_LEN];
    ghost var rest := conn.Rest();
    ghost var pending := Blocks(rest);
    ghost var all := pending;
    served := [];
    if db.runtime != null {
      ServeNone(LineagesOf(db), env);
    }
    var ok, count := true, 0;
    while ok
      invariant conn.Valid() && db.Valid() && fresh(buffer)
      invariant rest == conn.Rest() && pending == Blocks(rest)
      invariant all == served + pending
      invariant !ok ==> rest == [] && pending == []
      invariant ok ==> |served| == count
      invariant db.runtime != null ==> LineagesOf(db) == ServeAll(old(LineagesOf(db)), served, env)
      decreases ok, |rest|
    {
      ok := HandleNext(conn, buffer, db, env(count));
      if ok {
        ghost var m := Decode(rest[..MSG_LEN]);
        if db.runtime != null {
          ServeAllSnoc(old(LineagesOf(db)), served, m, env);
        }
        BlocksStep(rest);
        assert pending == [m] + pending[1..];
        served, pending, count := served + [m], pending[1..], count + 1;
      }
      rest := conn.Rest();
    }
  }

  lemma ServeNone(s: Lineages, env: nat -> Env)
    ensures ServeAll(s, [], env) == s
  {
  }

  lemma ServeAllSnoc(s: Lineages, ms: seq<Msg>, m: Msg, env: nat -> Env)
    ensures ServeAll(s, ms + [m], env) == Serve(ServeAll(s, ms, env), m, env(|ms|))
  {
    assert (ms + [m])[..|ms|] == ms;
  }

  /** A message the parser rejects leads to no call. */
  lemma ServeInvalid(s: Lineages, m: Msg, env: Env)
    requires m.kind > MSG_STOP
    ensures Serve(s, m, env) == s
  {
    assert s.runtime + [] == s.runtime;
  }
}
