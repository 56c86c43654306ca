/** The session objects that `Sessions` describes: clients and their manager, updated in place.
  *
  * A manager numbers the clients it creates; the ghost field `made` lists them, the ghost field `world`
  * is the value they form together with the registry and the database, and `Valid` ties it to them.
  */
module SessionObjects {
  import S = Sessions

  class Database {
    var histories: seq<S.History>
    var atcTime: map<int, int>
    var pilotTime: map<int, int>

    constructor ()
      ensures histories == [] && atcTime == map[] && pilotTime == map[]
    {
      histories, atcTime, pilotTime := [], map[], map[];
    }

    /** `EndRecordAndSaveHistory`: the online time is the life of the record in whole seconds. */
    method EndRecordAndSaveHistory(client: nat, cid: int, isAtc: bool, startTime: int, now: int)
      returns (onlineTime: int)
      modifies this`histories
      ensures onlineTime == S.Seconds(now - startTime)
      ensures histories == old(histories) + [S.History(client, cid, isAtc, now, onlineTime)]
    {
      onlineTime := S.Seconds(now - startTime);
      histories := histories + [S.History(client, cid, isAtc, now, onlineTime)];
    }

    method UpdateUserAtcTime(cid: int, seconds: int)
      modifies this`atcTime
      ensures atcTime == S.Credit(old(atcTime), cid, seconds)
    {
      atcTime := S.Credit(atcTime, cid, seconds);
    }

    method UpdateUserPilotTime(cid: int, seconds: int)
      modifies this`pilotTime
      ensures pilotTime == S.Credit(old(pilotTime), cid, seconds)
    {
      pilotTime := S.Credit(pilotTime, cid, seconds);
    }
  }

  class Client {
    const id: nat
    const callsign: string
    const isAtc: bool
    const historyCid: int
    const startTime: int
    const clientManager: ClientManager
    var user: int
    var socket: int
    var disconnect: bool
    var reconnectTimer: bool
    var atisInfo: seq<string>
    var motdBytes: seq<char>

    function View(): S.Client
      reads this
    {
      S.Client(callsign, isAtc, user, historyCid, startTime, socket, disconnect, reconnectTimer)
    }

    constructor (id: nat, callsign: string, isAtc: bool, cid: int, socket: int, clientManager: ClientManager, now: int)
      ensures this.id == id && this.clientManager == clientManager
      ensures View() == S.Client(callsign, isAtc, cid, cid, now, socket, false, false)
      ensures atisInfo == [] && motdBytes == []
    {
      this.id, this.callsign, this.isAtc, this.clientManager := id, callsign, isAtc, clientManager;
      historyCid, startTime := cid, now;
      user, this.socket, disconnect, reconnectTimer := cid, socket, false, false;
      atisInfo, motdBytes := [], [];
    }

    /** This client is one of its manager's. */
    ghost predicate Managed()
      reads clientManager, clientManager.made, clientManager.db
    {
      clientManager.Valid() && id < |clientManager.made| && clientManager.made[id] == this
    }

    method Delete(now: int)
      requires Managed()
      modifies this`reconnectTimer, clientManager`clients, clientManager`world, clientManager.db
      ensures Managed()
      ensures clientManager.world == S.AfterDelete(clientManager.simulatorServer, old(clientManager.world), id, now)
    {
      if disconnect {
        ghost var w := clientManager.world;
        assert w.clients[id] == View();
        if reconnectTimer {
          reconnectTimer := false;
        }
        Account(now);
        var _ := clientManager.DeleteClient(callsign);
        clientManager.world := S.AfterDelete(clientManager.simulatorServer, w, id, now);
      }
    }

    /** The history and the credit of a deletion. */
    method Account(now: int)
      modifies clientManager.db
      ensures clientManager.db.histories ==
        if isAtc || !clientManager.simulatorServer
        then old(clientManager.db.histories) + [S.History(id, historyCid, isAtc, now, S.Seconds(now - startTime))]
        else old(clientManager.db.histories)
      ensures clientManager.db.atcTime ==
        if isAtc then S.Credit(old(clientManager.db.atcTime), user, S.Seconds(now - startTime))
        else old(clientManager.db.atcTime)
      ensures clientManager.db.pilotTime ==
        if !isAtc && !clientManager.simulatorServer
        then S.Credit(old(clientManager.db.pilotTime), user, S.Seconds(now - startTime))
        else old(clientManager.db.pilotTime)
    {
      var onlineTime := 0;
      if isAtc || !clientManager.simulatorServer {
        onlineTime := clientManager.db.EndRecordAndSaveHistory(id, historyCid, isAtc, startTime, now);
      }
      if isAtc {
        clientManager.db.UpdateUserAtcTime(user, onlineTime);
      } else if !clientManager.simulatorServer {
        clientManager.db.UpdateUserPilotTime(user, onlineTime);
      }
    }

    method Reconnect(newSocket: int) returns (ok: bool)
      requires Managed()
      modifies this`disconnect, this`reconnectTimer, this`socket, this`atisInfo, clientManager`world
      ensures Managed()
      ensures ok == old(disconnect)
      ensures atisInfo == if ok then [] else old(atisInfo)
      ensures clientManager.world == if !ok then old(clientManager.world) else
        old(clientManager.world).(clients := old(clientManager.world).clients[id :=
          old(View()).(disconnected := false, timer := false, socket := newSocket)])
    {
      if !disconnect {
        return false;
      }
      if reconnectTimer {
        reconnectTimer := false;
      }
      atisInfo := [];
      disconnect := false;
      socket := newSocket;
      clientManager.world := clientManager.world.(clients := clientManager.world.clients[id := View()]);
      return true;
    }

    method SetUser(newUser: int)
      requires Managed()
      modifies this`user, clientManager`world
      ensures Managed()
      ensures clientManager.world == old(clientManager.world).(clients := old(clientManager.world).clients[id :=
        old(View()).(user := newUser)])
    {
      user := newUser;
      clientManager.world := clientManager.world.(clients := clientManager.world.clients[id := View()]);
    }

    method MarkedDisconnect(immediate: bool, now: int)
      requires Managed()
      modifies this`disconnect, this`reconnectTimer, this`motdBytes
      modifies clientManager`clients, clientManager`world, clientManager.db
      ensures Managed()
      ensures motdBytes == if old(disconnect) || immediate then old(motdBytes) else []
      ensures clientManager.world
           == S.AfterMark(clientManager.simulatorServer, old(clientManager.world), id, immediate, now)
    {
      hide S.AfterDelete;
      if !disconnect {
        disconnect := true;
        reconnectTimer := !immediate;
        if !immediate {
          motdBytes := [];
        }
        clientManager.world := clientManager.world.(clients := clientManager.world.clients[id := View()]);
      }
      if immediate {
        Delete(now);
      }
    }
  }

  class ClientManager {
    const simulatorServer: bool
    const db: Database
    var clients: map<string, Client>
    var shuttingDown: bool
    var created: nat
    ghost var made: seq<Client>
    ghost var world: S.World

    ghost predicate Valid()
      reads this, made, db
    {
      && created == |made| == |world.clients|
      && (forall i :: 0 <= i < |made| ==>
            made[i].id == i && made[i].clientManager == this && made[i].View() == world.clients[i])
      && clients.Keys == world.registry.Keys
      && (forall k :: k in clients ==>
            clients[k].id == world.registry[k] && clients[k].id < |made| && made[clients[k].id] == clients[k])
      && world.shuttingDown == shuttingDown
      && world.histories == db.histories && world.atcTime == db.atcTime && world.pilotTime == db.pilotTime
    }

    constructor (simulatorServer: bool)
      ensures Valid() && fresh(db)
      ensures world == S.EMPTY_WORLD && this.simulatorServer == simulatorServer
    {
      this.simulatorServer := simulatorServer;
      db := new Database();
      clients, shuttingDown, created, made, world := map[], false, 0, [], S.EMPTY_WORLD;
    }

    method DeleteClient(callsign: string) returns (ok: bool)
      modifies this`clients
      ensures ok <==> callsign in old(clients)
      ensures clients == old(clients) - {callsign}
    {
      if callsign !in clients {
        return false;
      }
      clients := clients - {callsign};
      return true;
    }

    method GetClient(callsign: string) returns (client: Client?)
      ensures client == if !shuttingDown && callsign in clients then clients[callsign] else null
    {
      if shuttingDown || callsign !in clients {
        return null;
      }
      return clients[callsign];
    }

    method AddClient(client: Client) returns (ok: bool)
      modifies this`clients
      ensures ok <==> !shuttingDown && client.callsign !in old(clients)
      ensures clients == if ok then old(clients)[client.callsign := client] else old(clients)
    {
      if shuttingDown || client.callsign in clients {
        return false;
      }
      clients := clients[client.callsign := client];
      return true;
    }

    /** A successful login of a session that has no client yet. */
    method Login(callsign: string, cid: int, isAtc: bool, socket: int, now: int) returns (client: Client?)
      requires Valid()
      modifies this, made
      ensures Valid()
      ensures S.RegistryInRange(old(world))
      ensures world == S.AfterLogin(old(world), callsign, cid, isAtc, socket, now).0
      ensures match S.AfterLogin(old(world), callsign, cid, isAtc, socket, now).1
              case Created(id) => client != null && fresh(client) && client.id == id
              case Reconnected(id) => client != null && client.id == id
              case CallsignInUse => client == null
    {
      assert S.RegistryInRange(world);
      client := GetClient(callsign);
      if client != null {
        var reconnected := Resume(callsign, client, cid, isAtc, socket, now);
        if !reconnected {
          return null;
        }
      } else {
        client := Create(callsign, cid, isAtc, socket, now);
      }
    }

    /** The reconnect branch: `Reconnect`, then `SetUser`. */
    method Resume(callsign: string, client: Client, cid: int, ghost isAtc: bool, socket: int, ghost now: int)
      returns (ok: bool)
      requires Valid() && S.RegistryInRange(world) && S.Found(world, callsign) && clients[callsign] == client
      modifies this`world, client
      ensures Valid()
      ensures (world, if ok then S.Reconnected(client.id) else S.CallsignInUse)
           == S.AfterLogin(old(world), callsign, cid, isAtc, socket, now)
    {
      ghost var w := world;
      assert w.clients[client.id] == client.View();
      ResumeOf(w, callsign, cid, isAtc, socket, now);
      hide S.AfterLogin, S.RegistryInRange, S.Found;
      ok := client.Reconnect(socket);
      if ok {
        client.SetUser(cid);
      }
    }

    /** `NewClient`, then `AddClient`, whose refusal is ignored. */
    method Create(callsign: string, cid: int, isAtc: bool, socket: int, now: int) returns (client: Client)
      requires Valid() && S.RegistryInRange(world) && !S.Found(world, callsign)
      modifies this
      ensures Valid()
      ensures fresh(client) && client.id == |old(world).clients|
      ensures world == S.AfterLogin(old(world), callsign, cid, isAtc, socket, now).0
    {
      client := new Client(created, callsign, isAtc, cid, socket, this, now);
      created, made := created + 1, made + [client];
      var _ := AddClient(client);
      world := S.AfterLogin(world, callsign, cid, isAtc, socket, now).0;
    }

    /** `handleKillClient` once the sender's rights are checked; no clock is read. */
    method KillClient(callsign: string) returns (found: bool)
      requires Valid() && S.RegistryInRange(world)
      modifies this`clients, this`world, made, db
      ensures Valid() && found == S.Found(old(world), callsign)
      ensures world == S.After(simulatorServer, old(world), S.Kill(callsign))
    {
      hide S.AfterMark, S.AfterDelete;
      var client := GetClient(callsign);
      if client == null {
        return false;
      }
      client.MarkedDisconnect(false, 0);
      return true;
    }

    /** `client` was created by this manager. */
    ghost predicate Made(client: Client)
      reads this`made
    {
      client.clientManager == this && client.id < |made| && made[client.id] == client
    }

    /** The registered clients in any order. */
    method GetClientSnapshot() returns (snapshot: seq<Client>)
      requires Valid() && S.RegistryOk(world)
      ensures forall i :: 0 <= i < |snapshot| ==> S.Registered(world, snapshot[i].id) && Made(snapshot[i])
      ensures forall i, j :: 0 <= i < j < |snapshot| ==> snapshot[i].id != snapshot[j].id
      ensures forall id :: S.Registered(world, id) ==> exists i :: 0 <= i < |snapshot| && snapshot[i].id == id
    {
      snapshot := [];
      var pending := clients.Keys;
      while pending != {}
        invariant pending <= clients.Keys
        invariant forall i :: 0 <= i < |snapshot| ==>
          S.Registered(world, snapshot[i].id) && Made(snapshot[i]) && snapshot[i].callsign !in pending
        invariant forall i, j :: 0 <= i < j < |snapshot| ==> snapshot[i].id != snapshot[j].id
        invariant forall k :: k in clients && k !in pending ==>
          exists i :: 0 <= i < |snapshot| && snapshot[i].id == clients[k].id
        decreases pending
      {
        var k :| k in pending;
        var client := clients[k];
        assert world.clients[client.id] == client.View() && client.callsign == k;
        assert S.Registered(world, client.id) by {
          assert world.registry[k] == client.id;
        }
        ghost var before := snapshot;
        snapshot := snapshot + [client];
        assert forall i :: 0 <= i < |before| ==> snapshot[i] == before[i];
        assert snapshot[|snapshot| - 1].id == clients[k].id;
        pending := pending - {k};
      }
    }

    /** `disconnectClients` over the snapshot; each record ends at its own clock reading. */
    method Shutdown() returns (ok: bool, ghost stops: seq<S.Stop>)
      requires Valid() && S.Ok(world)
      modifies this, made, db
      ensures Valid() && ok == !old(shuttingDown)
      ensures !ok ==> world == old(world)
      ensures ok ==> S.InRange(old(world), stops) && S.SnapshotOf(old(world), stops)
                     && world == S.AfterShutdown(simulatorServer, old(world), stops)
                     && clients == map[]
    {
      stops := [];
      if shuttingDown {
        return false, stops;
      }
      var snapshot := GetClientSnapshot();
      shuttingDown := true;
      world := world.(shuttingDown := true);
      ghost var w0 := world;
      stops := DisconnectClients(snapshot);
      S.ShutdownEmptiesRegistry(simulatorServer, old(world), stops);
      ok := true;
    }

    /** What one worker of `disconnectClients` does. */
    method DisconnectOne(client: Client, now: int)
      requires Valid() && Made(client)
      modifies this`clients, this`world, client, db
      ensures Valid() && |world.clients| == |old(world).clients|
      ensures world == S.AfterMark(simulatorServer, old(world), client.id, true, now)
    {
      Sizes(this);
      hide Valid, S.AfterMark, S.AfterDelete;
      client.MarkedDisconnect(true, now);
      Sizes(this);
    }

    method DisconnectClients(snapshot: seq<Client>) returns (ghost stops: seq<S.Stop>)
      requires Valid()
      requires forall i :: 0 <= i < |snapshot| ==> Made(snapshot[i])
      modifies this`clients, this`world, made, db
      ensures Valid() && made == old(made)
      ensures Stopped(snapshot, stops)
      ensures S.InRange(old(world), stops) && world == S.AfterStops(simulatorServer, old(world), stops)
    {
      stops := [];
      ghost var w := world;
      assert Stopped(snapshot[..0], stops);
      NoStops(simulatorServer, w);
      Sizes(this);
      hide Valid, Stopped, S.AfterMark, S.AfterDelete, S.AfterStops, S.InRange;
      for i := 0 to |snapshot|
        invariant Valid() && made == old(made) && |world.clients| == |w.clients|
        invariant Stopped(snapshot[..i], stops)
        invariant S.InRange(w, stops) && world == S.AfterStops(simulatorServer, w, stops)
      {
        assert Made(snapshot[i]);
        var now: int := *;
        DisconnectOne(snapshot[i], now);
        StopsExtend(simulatorServer, w, stops, S.Stop(snapshot[i].id, now));
        StoppedExtends(snapshot, i, stops, S.Stop(snapshot[i].id, now));
        stops := stops + [S.Stop(snapshot[i].id, now)];
      }
      assert snapshot[..|snapshot|] == snapshot;
    }
  }

  /** One stop for each client, in order. */
  ghost predicate Stopped(snapshot: seq<Client>, stops: seq<S.Stop>) {
    |stops| == |snapshot| && forall i :: 0 <= i < |stops| ==> stops[i].id == snapshot[i].id
  }

  lemma StoppedExtends(snapshot: seq<Client>, i: nat, stops: seq<S.Stop>, stop: S.Stop)
    requires i < |snapshot| && Stopped(snapshot[..i], stops) && stop.id == snapshot[i].id
    ensures Stopped(snapshot[..i + 1], stops + [stop])
  {
  }

  lemma Sizes(manager: ClientManager)
    requires manager.Valid()
    ensures |manager.world.clients| == |manager.made|
  {
  }

  lemma NoStops(sim: bool, w: S.World)
    ensures S.InRange(w, []) && S.AfterStops(sim, w, []) == w
  {
  }

  lemma StopsExtend(sim: bool, w: S.World, stops: seq<S.Stop>, stop: S.Stop)
    requires S.InRange(w, stops) && stop.id < |w.clients|
    ensures S.InRange(w, stops + [stop])
    ensures S.AfterStops(sim, w, stops + [stop])
         == S.AfterMark(sim, S.AfterStops(sim, w, stops), stop.id, true, stop.now)
  {
    hide S.AfterMark;
    assert (stops + [stop])[..|stops|] == stops;
  }

  lemma ResumeOf(w: S.World, callsign: string, cid: int, isAtc: bool, socket: int, now: int)
    requires S.RegistryInRange(w) && S.Found(w, callsign)
    ensures var id := w.registry[callsign]; var client := w.clients[id];
      var back := client.(disconnected := false, timer := false, socket := socket);
      S.AfterLogin(w, callsign, cid, isAtc, socket, now) ==
        if client.disconnected then (w.(clients := w.clients[id := back][id := back.(user := cid)]), S.Reconnected(id))
        else (w, S.CallsignInUse)
  {
    var id := w.registry[callsign];
    var back := w.clients[id].(disconnected := false, timer := false, socket := socket);
    assert w.clients[id := back][id := back.(user := cid)] == w.clients[id := back.(user := cid)];
  }
}
