/**
 * The reactor of `src/lib.rs`: one counter hands out both server ids and
 * connection keys (starting at 100); `SERVER_CTX` maps server ids to their
 * listeners, `REQUEST_CTX` connection keys to their requests, `ROUTES` route
 * keys to handlers, and `WRITE_CTX` (the write-back table) connection keys to
 * finalised responses. `run_all` takes readiness events in batches and routes
 * each one: a listener's event accepts a connection and re-arms the listener;
 * a connection's event reads (in-bit) or, failing that, writes (out-bit) and
 * then drops the connection.
 */
module Reactor {
  import opened Wrappers
  import opened Utf8
  import opened Text
  import opened Responses
  import opened Requests

  /** The first value of the shared counter. */
  const FirstId: nat := 100

  /** An `HttpServer` handle: the id it was given. */
  datatype HttpServer = HttpServer(serverId: nat)

  /** A bound, non-blocking listening socket, known by its address. */
  datatype Listener = Listener(addr: string)

  /** A readiness event: the id it was registered under, and its in- and out-bits. */
  datatype Event = Event(id: nat, readable: bool, writable: bool)

  /** What `accept` on a ready listener returns. */
  datatype AcceptOutcome = Accepted(peer: string) | AcceptFailed(error: IoError)

  /**
   * Registering `handler` for `(path, serverId)` changes no other pair's
   * lookup: the route of one server never answers another server's request.
   */
  lemma RouteIsolation(routes: map<string, Handler>, path: string, serverId: nat, handler: Handler,
                       otherPath: string, otherId: nat)
    requires path != otherPath || serverId != otherId
    ensures Lookup(routes[RouteKey(path, serverId) := handler], RouteKey(otherPath, otherId))
         == Lookup(routes, RouteKey(otherPath, otherId))
  {
    if RouteKey(path, serverId) == RouteKey(otherPath, otherId) {
      RouteKeyInjective(path, serverId, otherPath, otherId);
      assert false;
    }
  }

  class Reactor {
    var nextId: nat
    var servers: map<nat, Listener>
    var requests: map<nat, Request>
    var routes: map<string, Handler>
    const writes: WriteTable
    const poller: Poller

    /**
     * Every id the counter handed out is below it, so server ids and
     * connection keys never collide; every connection belongs to a known
     * server and owns its request; exactly the listeners and the connections are registered, the
     * listeners always for reading; stored responses belong to live
     * connections.
     */
    ghost predicate Valid()
      reads this, poller, writes
    {
      && nextId >= FirstId
      && (forall k :: k in servers ==> k < nextId)
      && (forall k :: k in requests ==> k < nextId && requests[k].serverId in servers)
      && (forall j, k :: j in requests && k in requests && j != k ==> requests[j] != requests[k])
      && servers.Keys !! requests.Keys
      && poller.interest.Keys == servers.Keys + requests.Keys
      && (forall k :: k in servers ==> poller.interest[k] == Read)
      && writes.pending.Keys <= requests.Keys
    }

    /** The process start: counter at 100, every table empty. */
    constructor ()
      ensures Valid() && fresh(writes) && fresh(poller)
      ensures nextId == FirstId && servers == map[] && requests == map[] && routes == map[]
      ensures writes.pending == map[] && poller.interest == map[]
    {
      nextId := FirstId;
      servers := map[];
      requests := map[];
      routes := map[];
      writes := new WriteTable();
      poller := new Poller();
    }

    /** `HttpServer::new`: the current counter value, and the counter moves up by one. */
    method NewServer() returns (server: HttpServer)
      requires Valid()
      modifies this
      ensures Valid()
      ensures server.serverId == old(nextId) && nextId == old(nextId) + 1
      ensures servers == old(servers) && requests == old(requests) && routes == old(routes)
    {
      server := HttpServer(nextId);
      nextId := nextId + 1;
    }

    /** `handle_route`: store `handler` under `path + "." + server_id`, replacing any earlier one. */
    method HandleRoute(server: HttpServer, path: string, handler: Handler)
      requires Valid()
      modifies this
      ensures Valid()
      ensures routes == old(routes)[RouteKey(path, server.serverId) := handler]
      ensures nextId == old(nextId) && servers == old(servers) && requests == old(requests)
    {
      routes := routes[path + "." + Decimal(server.serverId) := handler];
    }

    /**
     * `listen_on`: the bound listener is recorded under the server id and
     * registered for reading under that id. Listening again on the same
     * server replaces its listener; the old one is dropped, which closes its
     * descriptor, so the id stays registered once, for reading. Server ids
     * come from the same counter as connection keys, so they never name a
     * connection.
     */
    method ListenOn(server: HttpServer, listener: Listener)
      requires Valid() && server.serverId < nextId && server.serverId !in requests
      modifies this, poller
      ensures Valid()
      ensures servers == old(servers)[server.serverId := listener]
      ensures poller.interest == old(poller.interest)[server.serverId := Read]
      ensures nextId == old(nextId) && requests == old(requests) && routes == old(routes)
      ensures writes.pending == old(writes.pending)
    {
      poller.Add(server.serverId, Read);
      servers := servers[server.serverId := listener];
    }

    /**
     * A listener's event: on a successful accept the connection is registered
     * for reading under the current counter value, recorded there with the
     * listener's id as its server, and the counter moves up; a failed accept
     * changes no table. Either way the listener is re-armed for reading.
     */
    method OnListener(id: nat, accept: AcceptOutcome)
      requires Valid() && id in servers
      modifies this, poller
      ensures Valid()
      ensures servers == old(servers) && routes == old(routes) && writes.pending == old(writes.pending)
      ensures accept.AcceptFailed? ==>
        nextId == old(nextId) && requests == old(requests) && poller.interest == old(poller.interest)[id := Read]
      ensures accept.Accepted? ==>
        && nextId == old(nextId) + 1
        && old(nextId) !in old(requests)
        && requests.Keys == old(requests).Keys + {old(nextId)}
        && (forall k :: k in old(requests) ==> requests[k] == old(requests)[k])
        && fresh(requests[old(nextId)])
        && requests[old(nextId)].serverId == id && requests[old(nextId)].State() == Fresh
        && poller.interest == old(poller.interest)[old(nextId) := Read][id := Read]
    {
      if accept.Accepted? {
        AddConnection(id);
      }
      poller.Modify(id, Read);
    }

    /** An accepted connection: a fresh request for server `id`, registered for reading under the counter. */
    method AddConnection(id: nat)
      requires Valid() && id in servers
      modifies this, poller
      ensures Valid()
      ensures servers == old(servers) && routes == old(routes) && writes.pending == old(writes.pending)
      ensures nextId == old(nextId) + 1
      ensures old(nextId) !in old(requests) && old(nextId) in requests
      ensures requests == old(requests)[old(nextId) := requests[old(nextId)]]
      ensures fresh(requests[old(nextId)])
      ensures requests[old(nextId)].serverId == id && requests[old(nextId)].State() == Fresh
      ensures poller.interest == old(poller.interest)[old(nextId) := Read]
    {
      var key := nextId;
      poller.Add(key, Read);
      var request := new Request(id);
      requests := requests[key := request];
      nextId := nextId + 1;
    }

    /**
     * A connection's readable event: `read_cb` on its request, which stays
     * recorded whatever happens.
     */
    method OnReadable(key: nat, context: Request, read: ReadOutcome, parse: ParseOutcome)
      returns (r: Result<(), IoError>)
      requires Valid() && key in requests && requests[key] == context
      modifies poller, writes, context
      ensures Valid()
      ensures r == (if read.Received? || read.error.kind == WouldBlockKind then Ok(()) else Err(read.error))
      ensures context.State() == (if read.Received? then Absorb(old(context.State()), read.bytes, parse) else old(context.State()))
      ensures read.Received? && read.bytes != [] && ReadyToDispatch(context.State()) ==>
        && writes.pending == Dispatched(old(writes.pending), key, Lookup(routes, RouteKey(context.path, context.serverId)))
        && poller.interest == old(poller.interest)[key := Write]
      ensures read.Received? && read.bytes != [] && !ReadyToDispatch(context.State()) ==>
        writes.pending == old(writes.pending) && poller.interest == old(poller.interest)[key := Read]
      ensures read.Failed? || read.bytes == [] ==>
        writes.pending == old(writes.pending) && poller.interest == old(poller.interest)
    {
      r := context.ReadCb(key, read, parse, routes, writes, poller);
    }

    /**
     * A connection's writable event: `write_cb`, then the connection is
     * dropped, which closes its descriptor and so deregisters it.
     */
    method OnWritable(key: nat, lookup: u16 -> Status) returns (sent: Option<seq<byte>>, ghost order: seq<string>)
      requires Valid() && key in requests
      modifies this, poller, writes
      ensures Valid()
      ensures nextId == old(nextId) && servers == old(servers) && routes == old(routes)
      ensures requests == old(requests) - {key}
      ensures writes.pending == old(writes.pending) - {key}
      ensures poller.interest == old(poller.interest) - {key}
      ensures key in old(writes.pending) ==>
        IsNameOrder(order, old(writes.pending)[key].headers) && sent == Some(Wire(old(writes.pending)[key], lookup, order))
      ensures key !in old(writes.pending) ==> sent == None
    {
      var request := requests[key];
      sent, order := request.WriteCb(key, writes, poller, lookup);
      requests := requests - {key};
      poller.Close(key);
    }

    /**
     * One event of a batch. A listener's event goes to `OnListener`. For a
     * connection the in-bit is tested first, so an event with both bits only
     * reads; an out-only event writes and drops the connection; an event with
     * neither bit, or an id in neither table, changes nothing. A read error
     * other than would-block is returned (the server then stops).
     */
    method Step(ev: Event, accept: AcceptOutcome, read: ReadOutcome, parse: ParseOutcome, lookup: u16 -> Status)
      returns (r: Result<(), IoError>, sent: Option<seq<byte>>)
      requires Valid()
      modifies this, poller, writes, requests.Values
      ensures Valid()
      ensures servers == old(servers) && routes == old(routes) && nextId >= old(nextId)
      ensures forall k :: k in requests ==> (k in old(requests) && requests[k] == old(requests)[k]) || fresh(requests[k])
      ensures forall o :: o in old(requests.Values) && (ev.id !in old(requests) || o != old(requests[ev.id])) ==> unchanged(o)
      ensures ev.id in old(servers) ==> r == Ok(()) && sent == None && writes.pending == old(writes.pending)
      ensures ev.id in old(servers) && accept.AcceptFailed? ==>
        nextId == old(nextId) && requests == old(requests) && poller.interest == old(poller.interest)[ev.id := Read]
      ensures ev.id in old(servers) && accept.Accepted? ==>
        && nextId == old(nextId) + 1
        && old(nextId) !in old(requests)
        && requests.Keys == old(requests).Keys + {old(nextId)}
        && (forall k :: k in old(requests) ==> requests[k] == old(requests)[k])
        && fresh(requests[old(nextId)])
        && requests[old(nextId)].serverId == ev.id && requests[old(nextId)].State() == Fresh
        && poller.interest == old(poller.interest)[old(nextId) := Read][ev.id := Read]
      ensures ev.id !in old(servers) && ev.id !in old(requests) ==>
        && r == Ok(()) && sent == None && nextId == old(nextId) && requests == old(requests)
        && writes.pending == old(writes.pending) && poller.interest == old(poller.interest)
      ensures ev.id in old(requests) && ev.readable ==>
        && requests == old(requests) && sent == None && nextId == old(nextId)
        && r == (if read.Received? || read.error.kind == WouldBlockKind then Ok(()) else Err(read.error))
        && requests[ev.id].State()
           == (if read.Received? then Absorb(old(requests[ev.id].State()), read.bytes, parse) else old(requests[ev.id].State()))
      ensures ev.id in old(requests) && ev.readable && read.Received? && read.bytes != [] && ReadyToDispatch(requests[ev.id].State()) ==>
        && writes.pending == Dispatched(old(writes.pending), ev.id,
                                        Lookup(routes, RouteKey(requests[ev.id].path, requests[ev.id].serverId)))
        && poller.interest == old(poller.interest)[ev.id := Write]
      ensures ev.id in old(requests) && ev.readable && read.Received? && read.bytes != [] && !ReadyToDispatch(requests[ev.id].State()) ==>
        writes.pending == old(writes.pending) && poller.interest == old(poller.interest)[ev.id := Read]
      ensures ev.id in old(requests) && ev.readable && (read.Failed? || read.bytes == []) ==>
        writes.pending == old(writes.pending) && poller.interest == old(poller.interest)
      ensures ev.id in old(requests) && !ev.readable && ev.writable ==>
        && r == Ok(()) && requests == old(requests) - {ev.id} && nextId == old(nextId)
        && writes.pending == old(writes.pending) - {ev.id} && poller.interest == old(poller.interest) - {ev.id}
        && (sent.Some? <==> ev.id in old(writes.pending))
      ensures ev.id in old(requests) && !ev.readable && ev.writable && ev.id in old(writes.pending) ==>
        exists order :: IsNameOrder(order, old(writes.pending)[ev.id].headers)
                        && sent == Some(Wire(old(writes.pending)[ev.id], lookup, order))
      ensures ev.id in old(requests) && !ev.readable && !ev.writable ==>
        && r == Ok(()) && sent == None && nextId == old(nextId) && requests == old(requests)
        && requests[ev.id].State() == old(requests[ev.id].State())
        && writes.pending == old(writes.pending) && poller.interest == old(poller.interest)
    {
      r, sent := Ok(()), None;
      if ev.id in servers {
        OnListener(ev.id, accept);
      } else if ev.id in requests {
        if ev.readable {
          r := OnReadable(ev.id, requests[ev.id], read, parse);
        } else if ev.writable {
          ghost var order;
          sent, order := OnWritable(ev.id, lookup);
        }
      }
    }

    /**
     * `run_all` over one batch of events, each with the outcomes the outside
     * world gives it. The batch stops at the first read error, which the
     * server does not survive. The invariant holds after every event.
     */
    method RunBatch(events: seq<Event>, accepts: seq<AcceptOutcome>, outcomes: seq<ReadOutcome>,
                    parses: seq<ParseOutcome>, lookup: u16 -> Status)
      returns (r: Result<(), IoError>, sent: seq<seq<byte>>)
      requires Valid()
      requires |accepts| == |events| && |outcomes| == |events| && |parses| == |events|
      modifies this, poller, writes, requests.Values
      ensures Valid()
      ensures servers == old(servers) && routes == old(routes) && nextId >= old(nextId)
      ensures |sent| <= |events|
    {
      r, sent := Ok(()), [];
      var i := 0;
      while i < |events| && r.Ok?
        invariant i <= |events| && |sent| <= i
        invariant Valid()
        invariant servers == old(servers) && routes == old(routes) && nextId >= old(nextId)
        invariant forall k :: k in requests ==> requests[k] in old(requests.Values) || fresh(requests[k])
      {
        var out;
        r, out := Step(events[i], accepts[i], outcomes[i], parses[i], lookup);
        if out.Some? {
          sent := sent + [out.value];
        }
        i := i + 1;
      }
    }
  }
}
