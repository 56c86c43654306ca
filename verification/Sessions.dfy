/** The life of client sessions: login, drop, kill, the reconnect window, deletion with its
  * accounting, and shutdown (internal/fsd_server/packet/client.go, client_manager.go,
  * internal/database/history_operation.go, user_operation.go).
  *
  * This file gives the operations as functions on values; `SessionObjects` ties the objects
  * that are updated in place to them. Every public operation is one atomic step, logins are
  * successful ones, and database writes do not fail.
  */
module Sessions {

  /** `timer` says that a reconnect timer is pending. A client that is disconnected without one is deleted. */
  datatype Client = Client(
    callsign: string, isAtc: bool, user: int, historyCid: int, startTime: int,
    socket: int, disconnected: bool, timer: bool)

  /** A saved history; `client` is the session it belongs to. */
  datatype History = History(client: nat, cid: int, isAtc: bool, endTime: int, onlineTime: int)

  /** All sessions ever created, the registry of `ClientManager`, and the database. */
  datatype World = World(
    clients: seq<Client>, registry: map<string, nat>, shuttingDown: bool,
    histories: seq<History>, atcTime: map<int, int>, pilotTime: map<int, int>)

  const EMPTY_WORLD: World := World([], map[], false, [], map[], map[])

  const SECOND: int := 1_000_000_000

  /** `int(d.Seconds())` for a duration in nanoseconds: truncation towards zero. */
  function Seconds(d: int): int {
    if d >= 0 then d / SECOND else -((-d) / SECOND)
  }

  /** Whole seconds: what is cut off is less than a second and has the sign of the duration. */
  lemma SecondsTruncates(d: int)
    ensures d >= 0 ==> Seconds(d) * 1_000_000_000 <= d < (Seconds(d) + 1) * 1_000_000_000
    ensures d < 0 ==> (Seconds(d) - 1) * 1_000_000_000 < d <= Seconds(d) * 1_000_000_000
  {
  }

  /** `total = total + seconds` on the row of a user. */
  function Credit(totals: map<int, int>, cid: int, seconds: int): map<int, int> {
    totals[cid := (if cid in totals then totals[cid] else 0) + seconds]
  }

  /** On a simulator server pilots leave no record. */
  predicate Recorded(sim: bool, client: Client) {
    client.isAtc || !sim
  }

  /** `Client.Delete`, which removes whatever is registered under the client's callsign. */
  function AfterDelete(sim: bool, w: World, id: nat, now: int): World
    requires id < |w.clients|
  {
    var client := w.clients[id];
    if !client.disconnected then w
    else
      var online := if Recorded(sim, client) then Seconds(now - client.startTime) else 0;
      w.(clients := w.clients[id := client.(timer := false)],
         histories := if Recorded(sim, client)
                      then w.histories + [History(id, client.historyCid, client.isAtc, now, online)]
                      else w.histories,
         atcTime := if client.isAtc then Credit(w.atcTime, client.user, online) else w.atcTime,
         pilotTime := if !client.isAtc && !sim then Credit(w.pilotTime, client.user, online) else w.pilotTime,
         registry := w.registry - {client.callsign})
  }

  /** `Client.MarkedDisconnect`. */
  function AfterMark(sim: bool, w: World, id: nat, immediate: bool, now: int): World
    requires id < |w.clients|
  {
    var client := w.clients[id];
    var marked := if client.disconnected then w
                  else w.(clients := w.clients[id := client.(disconnected := true, timer := !immediate)]);
    if immediate then AfterDelete(sim, marked, id, now) else marked
  }

  datatype LoginResult = Created(id: nat) | Reconnected(id: nat) | CallsignInUse

  predicate Found(w: World, callsign: string) {
    !w.shuttingDown && callsign in w.registry
  }

  ghost predicate RegistryInRange(w: World) {
    forall k :: k in w.registry ==> w.registry[k] < |w.clients|
  }

  /** `verifyUserInfo` followed by the rest of `handleAddAtc` or `handleAddPilot`: reconnect to a client
    * in its window, refuse a callsign in use, or create and register a client. */
  ghost function AfterLogin(w: World, callsign: string, cid: int, isAtc: bool, socket: int, now: int)
    : (World, LoginResult)
    requires RegistryInRange(w)
  {
    if Found(w, callsign) then
      var id := w.registry[callsign];
      var client := w.clients[id];
      if !client.disconnected then (w, CallsignInUse)
      else
        var back := client.(disconnected := false, timer := false, socket := socket, user := cid);
        (w.(clients := w.clients[id := back]), Reconnected(id))
    else
      var client := Client(callsign, isAtc, cid, cid, now, socket, false, false);
      (w.(clients := w.clients + [client],
          registry := if w.shuttingDown || callsign in w.registry then w.registry
                      else w.registry[callsign := |w.clients|]),
       Created(|w.clients|))
  }

  /** One client of the shutdown's snapshot, with the time at which its record ends. */
  datatype Stop = Stop(id: nat, now: int)

  ghost predicate InRange(w: World, stops: seq<Stop>) {
    forall k :: 0 <= k < |stops| ==> stops[k].id < |w.clients|
  }

  ghost function AfterStops(sim: bool, w: World, stops: seq<Stop>): (w': World)
    requires InRange(w, stops)
    ensures |w'.clients| == |w.clients|
  {
    if stops == [] then w
    else AfterMark(sim, AfterStops(sim, w, stops[..|stops| - 1]), stops[|stops| - 1].id, true, stops[|stops| - 1].now)
  }

  ghost predicate Registered(w: World, id: nat) {
    exists k :: k in w.registry && w.registry[k] == id
  }

  /** The snapshot, in whatever order its workers run. */
  ghost predicate SnapshotOf(w: World, stops: seq<Stop>) {
    && (forall k :: 0 <= k < |stops| ==> Registered(w, stops[k].id))
    && (forall id :: Registered(w, id) ==> exists k :: 0 <= k < |stops| && stops[k].id == id)
    && (forall j, k :: 0 <= j < k < |stops| ==> stops[j].id != stops[k].id)
  }

  ghost function AfterShutdown(sim: bool, w: World, stops: seq<Stop>): World
    requires InRange(w, stops)
  {
    if w.shuttingDown then w else AfterStops(sim, w.(shuttingDown := true), stops)
  }

  datatype Step =
    | Login(callsign: string, cid: int, isAtc: bool, socket: int, now: int)
    | Drop(id: nat)               // a session's read loop has ended
    | Kill(callsign: string)
    | Fire(id: nat, now: int)     // a reconnect timer goes off
    | Shutdown(stops: seq<Stop>)

  ghost predicate Enabled(w: World, step: Step) {
    && RegistryInRange(w)
    && match step
       case Login(_, _, _, _, _) => true
       case Drop(id) => id < |w.clients|
       case Kill(_) => true
       case Fire(id, _) => id < |w.clients| && w.clients[id].timer
       case Shutdown(stops) => SnapshotOf(w, stops)
  }

  ghost function After(sim: bool, w: World, step: Step): World
    requires Enabled(w, step)
  {
    match step
    case Login(callsign, cid, isAtc, socket, now) => AfterLogin(w, callsign, cid, isAtc, socket, now).0
    case Drop(id) => AfterMark(sim, w, id, false, 0)
    case Kill(callsign) => if Found(w, callsign) then AfterMark(sim, w, w.registry[callsign], false, 0) else w
    case Fire(id, now) => AfterDelete(sim, w, id, now)
    case Shutdown(stops) => AfterShutdown(sim, w, stops)
  }

  // ---------------------------------------------------------------- the registry

  predicate Deleted(client: Client) {
    client.disconnected && !client.timer
  }

  ghost predicate RegistryOk(w: World) {
    && (forall k :: k in w.registry ==>
          w.registry[k] < |w.clients| && w.clients[w.registry[k]].callsign == k && !Deleted(w.clients[w.registry[k]]))
    && (forall id :: 0 <= id < |w.clients| && w.clients[id].timer ==> w.clients[id].disconnected)
  }

  /** Every client that is not deleted is registered under its callsign. */
  ghost predicate AllRegistered(w: World) {
    forall id :: 0 <= id < |w.clients| && !Deleted(w.clients[id]) ==>
      w.clients[id].callsign in w.registry && w.registry[w.clients[id].callsign] == id
  }

  ghost predicate Ok(w: World) {
    RegistryOk(w) && if w.shuttingDown then w.registry == map[] else AllRegistered(w)
  }

  /** A registered client is disconnected exactly when its reconnect timer is pending. */
  lemma RegisteredClientWaits(w: World, callsign: string)
    requires Ok(w) && callsign in w.registry
    ensures w.registry[callsign] < |w.clients|
    ensures var client := w.clients[w.registry[callsign]];
      client.callsign == callsign && (client.disconnected <==> client.timer)
  {
  }

  /** Deleting a client that has not been deleted removes its own registry entry and no other. */
  lemma DeleteRemovesOwnEntry(sim: bool, w: World, id: nat, now: int)
    requires RegistryOk(w) && (AllRegistered(w) || w.registry == map[])
    requires id < |w.clients| && w.clients[id].disconnected && w.clients[id].timer
    ensures var w' := AfterDelete(sim, w, id, now);
      && RegistryOk(w') && (AllRegistered(w) ==> AllRegistered(w'))
      && Deleted(w'.clients[id])
      && (forall k :: k in w'.registry <==> k in w.registry && w.registry[k] != id)
      && (forall k :: k in w'.registry ==> w'.registry[k] == w.registry[k])
  {
  }

  /** Replacing the data of a live client by those of a live client with the same callsign. */
  lemma ChangeKeepsOk(w: World, id: nat, client: Client)
    requires Ok(w) && id < |w.clients| && !Deleted(w.clients[id]) && !Deleted(client)
    requires client.callsign == w.clients[id].callsign && (client.timer ==> client.disconnected)
    ensures Ok(w.(clients := w.clients[id := client]))
  {
    hide Deleted;
  }

  lemma CreationKeepsOk(w: World, client: Client)
    requires Ok(w) && !Found(w, client.callsign) && !client.disconnected && !client.timer
    ensures Ok(w.(clients := w.clients + [client],
                  registry := if w.shuttingDown || client.callsign in w.registry then w.registry
                              else w.registry[client.callsign := |w.clients|]))
  {
  }

  lemma LoginKeepsOk(w: World, callsign: string, cid: int, isAtc: bool, socket: int, now: int)
    requires Ok(w) && RegistryInRange(w)
    ensures Ok(AfterLogin(w, callsign, cid, isAtc, socket, now).0)
  {
    if Found(w, callsign) {
      RegisteredClientLives(w, callsign);
      hide Ok;
      var id := w.registry[callsign];
      var client := w.clients[id];
      if client.disconnected {
        ChangeKeepsOk(w, id, client.(disconnected := false, timer := false, socket := socket, user := cid));
      }
    } else {
      hide Ok;
      CreationKeepsOk(w, Client(callsign, isAtc, cid, cid, now, socket, false, false));
    }
  }

  lemma RegisteredClientLives(w: World, callsign: string)
    requires Ok(w) && callsign in w.registry
    ensures w.registry[callsign] < |w.clients| && !Deleted(w.clients[w.registry[callsign]])
  {
  }

  lemma MarkKeepsOk(sim: bool, w: World, id: nat)
    requires Ok(w) && id < |w.clients|
    ensures Ok(AfterMark(sim, w, id, false, 0))
  {
    hide Ok;
    var client := w.clients[id];
    if !client.disconnected {
      ChangeKeepsOk(w, id, client.(disconnected := true, timer := true));
    }
  }

  lemma StopKeepsRegistry(sim: bool, w: World, stop: Stop)
    requires RegistryOk(w) && AllRegistered(w)
    requires stop.id < |w.clients| && !Deleted(w.clients[stop.id])
    ensures var w' := AfterMark(sim, w, stop.id, true, stop.now);
      && RegistryOk(w') && AllRegistered(w') && w'.shuttingDown == w.shuttingDown
      && Deleted(w'.clients[stop.id])
      && (forall id :: 0 <= id < |w.clients| && id != stop.id ==> w'.clients[id] == w.clients[id])
  {
    StopUnregisters(sim, w, stop);
    hide AfterMark;
  }

  lemma StopUnregisters(sim: bool, w: World, stop: Stop)
    requires stop.id < |w.clients| && !Deleted(w.clients[stop.id])
    ensures var client, w' := w.clients[stop.id], AfterMark(sim, w, stop.id, true, stop.now);
      && w'.clients == w.clients[stop.id := client.(disconnected := true, timer := false)]
      && w'.registry == w.registry - {client.callsign} && w'.shuttingDown == w.shuttingDown
  {
    hide Recorded, Seconds, Credit;
  }

  lemma {:induction false} StopsEmptyRegistry(sim: bool, w: World, stops: seq<Stop>)
    requires RegistryOk(w) && AllRegistered(w) && InRange(w, stops)
    requires forall k :: 0 <= k < |stops| ==> !Deleted(w.clients[stops[k].id])
    requires forall j, k :: 0 <= j < k < |stops| ==> stops[j].id != stops[k].id
    ensures var w' := AfterStops(sim, w, stops);
      && RegistryOk(w') && AllRegistered(w') && w'.shuttingDown == w.shuttingDown
      && (forall k :: 0 <= k < |stops| ==> Deleted(w'.clients[stops[k].id]))
      && (forall id :: 0 <= id < |w.clients| && (forall k :: 0 <= k < |stops| ==> stops[k].id != id)
            ==> w'.clients[id] == w.clients[id])
    decreases |stops|
  {
    hide AfterMark, RegistryOk, AllRegistered, Deleted;
    if stops != [] {
      var front, last := stops[..|stops| - 1], stops[|stops| - 1];
      StopsEmptyRegistry(sim, w, front);
      var w1 := AfterStops(sim, w, front);
      assert forall k :: 0 <= k < |front| ==> front[k] == stops[k];
      assert w1.clients[last.id] == w.clients[last.id];
      StopKeepsRegistry(sim, w1, last);
    }
  }

  lemma ShutdownEmptiesRegistry(sim: bool, w: World, stops: seq<Stop>)
    requires Ok(w) && !w.shuttingDown && InRange(w, stops) && SnapshotOf(w, stops)
    ensures var w' := AfterShutdown(sim, w, stops);
      && Ok(w') && w'.shuttingDown && w'.registry == map[]
      && |w'.clients| == |w.clients| && (forall id :: 0 <= id < |w.clients| ==> Deleted(w'.clients[id]))
  {
    var w0 := w.(shuttingDown := true);
    StopsEmptyRegistry(sim, w0, stops);
    var w' := AfterShutdown(sim, w, stops);
    forall id | 0 <= id < |w.clients| ensures Deleted(w'.clients[id]) {
      if Deleted(w.clients[id]) {
        assert forall k :: 0 <= k < |stops| ==> stops[k].id != id;
      } else {
        assert w.registry[w.clients[id].callsign] == id;
        assert Registered(w, id);
      }
    }
    NoneRegistered(w');
  }

  lemma NoneRegistered(w: World)
    requires RegistryOk(w)
    requires forall id :: 0 <= id < |w.clients| ==> Deleted(w.clients[id])
    ensures w.registry == map[]
  {
    assert forall k :: k in w.registry ==> w.registry[k] >= |w.clients|;
    assert w.registry.Keys == {};
  }

  lemma SnapshotInRange(w: World, stops: seq<Stop>)
    requires RegistryInRange(w) && SnapshotOf(w, stops)
    ensures InRange(w, stops)
  {
    assert forall k :: 0 <= k < |stops| ==> Registered(w, stops[k].id);
  }

  /** The registry is in order after every step, and once shut down it is empty for good. */
  lemma StepKeepsOk(sim: bool, w: World, step: Step)
    requires Ok(w) && Enabled(w, step)
    ensures Ok(After(sim, w, step))
    ensures w.shuttingDown || step.Shutdown? ==>
      After(sim, w, step).shuttingDown && After(sim, w, step).registry == map[]
  {
    match step {
      case Login(callsign, cid, isAtc, socket, now) => LoginKeepsOk(w, callsign, cid, isAtc, socket, now);
      case Drop(id) => MarkKeepsOk(sim, w, id);
      case Kill(callsign) =>
        if Found(w, callsign) {
          MarkKeepsOk(sim, w, w.registry[callsign]);
        }
      case Fire(id, now) => DeleteRemovesOwnEntry(sim, w, id, now);
      case Shutdown(stops) =>
        SnapshotInRange(w, stops);
        if !w.shuttingDown {
          ShutdownEmptiesRegistry(sim, w, stops);
        }
    }
  }

  // ---------------------------------------------------------------- what each step does

  /** A drop disconnects a connected client and starts its reconnect timer; a client that is already disconnected
    * keeps its timer. Nothing is unregistered, recorded or credited. */
  lemma DropOpensWindow(sim: bool, w: World, id: nat)
    requires Ok(w) && Enabled(w, Drop(id))
    ensures var w' := After(sim, w, Drop(id));
      && |w'.clients| == |w.clients|
      && w'.clients[id].disconnected && (Deleted(w.clients[id]) || w'.clients[id].timer)
      && w'.clients[id] == w.clients[id].(disconnected := true, timer := w'.clients[id].timer)
      && (forall k :: 0 <= k < |w.clients| && k != id ==> w'.clients[k] == w.clients[k])
      && w' == w.(clients := w'.clients)
  {
  }

  /** A kill of a registered callsign leaves its client registered, disconnected and in its reconnect window; a kill
    * of any other callsign does nothing. */
  lemma KillOpensWindow(sim: bool, w: World, callsign: string)
    requires Ok(w) && Enabled(w, Kill(callsign))
    ensures var w' := After(sim, w, Kill(callsign));
      if w.shuttingDown || callsign !in w.registry then w' == w
      else
        var id := w.registry[callsign];
        && |w'.clients| == |w.clients|
        && w'.clients[id].disconnected && w'.clients[id].timer
        && w'.clients[id] == w.clients[id].(disconnected := true, timer := true)
        && (forall k :: 0 <= k < |w.clients| && k != id ==> w'.clients[k] == w.clients[k])
        && w' == w.(clients := w'.clients)
  {
  }

  /** A timer that goes off deletes its client: the registry loses its callsign, and its time counts for the user it
    * then has, unless it is a pilot on a simulator server. */
  lemma FireDeletes(sim: bool, w: World, id: nat, now: int)
    requires Ok(w) && Enabled(w, Fire(id, now))
    ensures var client, w' := w.clients[id], After(sim, w, Fire(id, now));
      var online := Seconds(now - client.startTime);
      && |w'.clients| == |w.clients| && w'.shuttingDown == w.shuttingDown
      && w'.clients[id] == client.(timer := false) && client.disconnected
      && (forall k :: 0 <= k < |w.clients| && k != id ==> w'.clients[k] == w.clients[k])
      && w'.registry == w.registry - {client.callsign}
      && w'.histories == (if sim && !client.isAtc then w.histories
                          else w.histories + [History(id, client.historyCid, client.isAtc, now, online)])
      && (forall cid :: CreditOf(w'.atcTime, cid)
                     == CreditOf(w.atcTime, cid) + if client.isAtc && cid == client.user then online else 0)
      && (forall cid :: CreditOf(w'.pilotTime, cid)
                     == CreditOf(w.pilotTime, cid) + if !sim && !client.isAtc && cid == client.user then online else 0)
  {
    hide Seconds;
  }

  /** A login under a registered callsign is refused while its client is connected and otherwise resumes it: connected
    * again, timer stopped, with the new connection and user, its history untouched. Any other login creates a
    * connected client whose history starts now, and registers it unless the server is shutting down. */
  lemma LoginExactly(w: World, callsign: string, cid: int, isAtc: bool, socket: int, now: int)
    requires Ok(w) && RegistryInRange(w)
    ensures var (w', result) := AfterLogin(w, callsign, cid, isAtc, socket, now);
      if !w.shuttingDown && callsign in w.registry then
        var id := w.registry[callsign];
        var client := w.clients[id];
        if !client.disconnected then result == CallsignInUse && w' == w
        else
          && result == Reconnected(id) && |w'.clients| == |w.clients|
          && w'.clients[id] == Client(callsign, client.isAtc, cid, client.historyCid, client.startTime,
                                      socket, false, false)
          && (forall k :: 0 <= k < |w.clients| && k != id ==> w'.clients[k] == w.clients[k])
          && w' == w.(clients := w'.clients)
      else
        && result == Created(|w.clients|)
        && w'.clients == w.clients + [Client(callsign, isAtc, cid, cid, now, socket, false, false)]
        && w'.registry == (if w.shuttingDown then map[] else w.registry[callsign := |w.clients|])
        && w' == w.(clients := w'.clients, registry := w'.registry)
  {
  }

  /** The first shutdown deletes every client, connected or waiting, and records each one that counts at the moment it
    * is stopped; later shutdowns do nothing. */
  lemma ShutdownDeletesAll(sim: bool, w: World, stops: seq<Stop>)
    requires Ok(w) && Enabled(w, Shutdown(stops)) && InRange(w, stops)
    ensures var w' := After(sim, w, Shutdown(stops));
      && w'.shuttingDown && (w.shuttingDown ==> w' == w)
      && |w'.clients| == |w.clients|
      && (!w.shuttingDown ==>
            forall id :: 0 <= id < |w.clients| ==> w'.clients[id].disconnected && !w'.clients[id].timer)
      && (!w.shuttingDown ==>
            forall k :: 0 <= k < |stops| && (w.clients[stops[k].id].isAtc || !sim) ==>
              RecordAt(w, stops[k]) in w'.histories)
  {
    if !w.shuttingDown {
      ShutdownEmptiesRegistry(sim, w, stops);
      forall k | 0 <= k < |stops| ensures !Deleted(w.clients[stops[k].id]) {
        assert Registered(w, stops[k].id);
      }
      StopsRecord(sim, w.(shuttingDown := true), stops);
    }
  }

  /** The history of a client that is stopped. */
  function RecordAt(w: World, stop: Stop): History
    requires stop.id < |w.clients|
  {
    var client := w.clients[stop.id];
    History(stop.id, client.historyCid, client.isAtc, stop.now, Seconds(stop.now - client.startTime))
  }

  lemma {:induction false} StopsRecord(sim: bool, w: World, stops: seq<Stop>)
    requires RegistryOk(w) && AllRegistered(w) && InRange(w, stops)
    requires forall k :: 0 <= k < |stops| ==> !Deleted(w.clients[stops[k].id])
    requires forall j, k :: 0 <= j < k < |stops| ==> stops[j].id != stops[k].id
    ensures forall k :: 0 <= k < |stops| && Recorded(sim, w.clients[stops[k].id]) ==>
      RecordAt(w, stops[k]) in AfterStops(sim, w, stops).histories
    decreases |stops|
  {
    hide AfterMark, RegistryOk, AllRegistered, Deleted, Seconds;
    if stops != [] {
      var front, last := stops[..|stops| - 1], stops[|stops| - 1];
      StopsRecord(sim, w, front);
      StopsEmptyRegistry(sim, w, front);
      var w1 := AfterStops(sim, w, front);
      assert w1.clients[last.id] == w.clients[last.id];
      StopRecords(sim, w1, last);
      forall k | 0 <= k < |stops| && Recorded(sim, w.clients[stops[k].id])
        ensures RecordAt(w, stops[k]) in AfterStops(sim, w, stops).histories
      {
        if k < |front| {
          assert front[k] == stops[k];
          assert RecordAt(w, front[k]) in w1.histories;
        }
      }
    }
  }

  lemma StopRecords(sim: bool, w: World, stop: Stop)
    requires stop.id < |w.clients| && !Deleted(w.clients[stop.id])
    ensures var w' := AfterMark(sim, w, stop.id, true, stop.now);
      && (forall h :: h in w.histories ==> h in w'.histories)
      && (Recorded(sim, w.clients[stop.id]) ==> RecordAt(w, stop) in w'.histories)
  {
    hide Seconds, Credit;
  }

  // ---------------------------------------------------------------- the accounting

  ghost function Pick<T>(s: set<T>): (x: T)
    requires s != {}
    ensures x in s
  {
    var x :| x in s;
    x
  }

  /** The sum over all users. */
  ghost function Total(totals: map<int, int>): int {
    if totals.Keys == {} then 0
    else
      var cid := Pick(totals.Keys);
      totals[cid] + Total(totals - {cid})
  }

  lemma {:induction false} TotalWithout(totals: map<int, int>, cid: int)
    requires cid in totals
    ensures Total(totals) == totals[cid] + Total(totals - {cid})
    decreases |totals|
  {
    var other := Pick(totals.Keys);
    if other != cid {
      assert totals - {other} - {cid} == totals - {cid} - {other};
      TotalWithout(totals - {other}, cid);
      TotalWithout(totals - {cid}, other);
      hide Total;
    }
  }

  lemma TotalOfCredit(totals: map<int, int>, cid: int, seconds: int)
    ensures Total(Credit(totals, cid, seconds)) == Total(totals) + seconds
  {
    var credited := Credit(totals, cid, seconds);
    TotalWithout(credited, cid);
    if cid in totals {
      TotalWithout(totals, cid);
      assert credited - {cid} == totals - {cid};
    } else {
      assert credited - {cid} == totals;
    }
  }

  function Sum(histories: seq<History>): int {
    if histories == [] then 0 else Sum(histories[..|histories| - 1]) + histories[|histories| - 1].onlineTime
  }

  lemma SumOfAppend(histories: seq<History>, history: History)
    ensures Sum(histories + [history]) == Sum(histories) + history.onlineTime
  {
    assert (histories + [history])[..|histories|] == histories;
  }

  /** All seconds credited to users are the seconds of the saved histories. */
  ghost predicate Balanced(w: World) {
    Total(w.atcTime) + Total(w.pilotTime) == Sum(w.histories)
  }

  /** A history belongs to a deleted client and says how long that client existed. */
  ghost predicate HistoryOk(sim: bool, clients: seq<Client>, h: History) {
    h.client < |clients|
    && var client := clients[h.client];
       Deleted(client) && Recorded(sim, client) && h.isAtc == client.isAtc && h.cid == client.historyCid
       && h.onlineTime == Seconds(h.endTime - client.startTime)
  }

  /** No client has two histories. */
  ghost predicate HistoriesOk(sim: bool, w: World) {
    && (forall i :: 0 <= i < |w.histories| ==> HistoryOk(sim, w.clients, w.histories[i]))
    && (forall i, j :: 0 <= i < j < |w.histories| ==> w.histories[i].client != w.histories[j].client)
  }

  ghost predicate Saved(w: World, id: nat) {
    exists i :: 0 <= i < |w.histories| && w.histories[i].client == id
  }

  /** No deleted client whose time counts is forgotten. */
  ghost predicate AllSaved(sim: bool, w: World) {
    forall id :: 0 <= id < |w.clients| && Deleted(w.clients[id]) && Recorded(sim, w.clients[id]) ==> Saved(w, id)
  }

  ghost predicate Booked(sim: bool, w: World) {
    Balanced(w) && HistoriesOk(sim, w) && AllSaved(sim, w) && (sim ==> w.pilotTime == map[])
  }

  /** What both ways to delete come down to: the client is disconnected, recorded, credited and unregistered. */
  function Removed(sim: bool, w: World, id: nat, now: int): World
    requires id < |w.clients|
  {
    AfterDelete(sim, w.(clients := w.clients[id := w.clients[id].(disconnected := true)]), id, now)
  }

  lemma DeletionIsRemoval(sim: bool, w: World, id: nat, now: int)
    requires id < |w.clients|
    ensures w.clients[id].disconnected ==> AfterDelete(sim, w, id, now) == Removed(sim, w, id, now)
    ensures !Deleted(w.clients[id]) ==> AfterMark(sim, w, id, true, now) == Removed(sim, w, id, now)
  {
    if w.clients[id].disconnected {
      assert w.clients[id := w.clients[id].(disconnected := true)] == w.clients;
    } else {
      var client := w.clients[id];
      var gone := client.(disconnected := true, timer := false);
      assert w.clients[id := gone][id := gone] == w.clients[id := client.(disconnected := true)][id := gone];
    }
  }

  lemma RemovalBalances(sim: bool, w: World, id: nat, now: int)
    requires id < |w.clients| && Balanced(w)
    ensures Balanced(Removed(sim, w, id, now))
  {
    hide Total, Sum, Credit, Seconds;
    var client := w.clients[id];
    var online := Seconds(now - client.startTime);
    TotalOfCredit(w.atcTime, client.user, online);
    TotalOfCredit(w.pilotTime, client.user, online);
    SumOfAppend(w.histories, History(id, client.historyCid, client.isAtc, now, online));
  }

  lemma HistoryOkElsewhere(sim: bool, clients: seq<Client>, id: nat, client: Client, h: History)
    requires id < |clients| && h.client != id && HistoryOk(sim, clients, h)
    ensures HistoryOk(sim, clients[id := client], h)
  {
  }

  lemma RemovalKeepsHistories(sim: bool, w: World, id: nat, now: int)
    requires id < |w.clients| && !Deleted(w.clients[id]) && HistoriesOk(sim, w)
    ensures HistoriesOk(sim, Removed(sim, w, id, now))
  {
    var w', client := Removed(sim, w, id, now), w.clients[id].(disconnected := true, timer := false);
    assert w'.clients == w.clients[id := client];
    assert forall i :: 0 <= i < |w.histories| ==> w.histories[i].client != id by {
      assert forall i :: 0 <= i < |w.histories| ==> HistoryOk(sim, w.clients, w.histories[i]);
    }
    forall i | 0 <= i < |w.histories| ensures HistoryOk(sim, w'.clients, w'.histories[i]) {
      HistoryOkElsewhere(sim, w.clients, id, client, w.histories[i]);
      assert w'.histories[i] == w.histories[i];
    }
  }

  lemma RemovalSaves(sim: bool, w: World, id: nat, now: int)
    requires id < |w.clients| && AllSaved(sim, w)
    ensures AllSaved(sim, Removed(sim, w, id, now))
  {
    var w' := Removed(sim, w, id, now);
    forall k | 0 <= k < |w'.clients| && Deleted(w'.clients[k]) && Recorded(sim, w'.clients[k]) ensures Saved(w', k) {
      if k == id {
        assert w'.histories[|w.histories|].client == id;
      } else {
        assert w'.clients[k] == w.clients[k];
        assert Saved(w, k);
        var i :| 0 <= i < |w.histories| && w.histories[i].client == k;
        assert w'.histories[i].client == k;
      }
    }
  }

  lemma RemovalKeepsBooked(sim: bool, w: World, id: nat, now: int)
    requires id < |w.clients| && !Deleted(w.clients[id]) && Booked(sim, w)
    ensures Booked(sim, Removed(sim, w, id, now))
  {
    RemovalBalances(sim, w, id, now);
    RemovalKeepsHistories(sim, w, id, now);
    RemovalSaves(sim, w, id, now);
  }

  lemma ChangeKeepsBooked(sim: bool, w: World, id: nat, client: Client)
    requires id < |w.clients| && !Deleted(w.clients[id]) && !Deleted(client) && Booked(sim, w)
    ensures Booked(sim, w.(clients := w.clients[id := client]))
  {
    var w' := w.(clients := w.clients[id := client]);
    forall i | 0 <= i < |w.histories| ensures HistoryOk(sim, w'.clients, w'.histories[i]) {
      assert HistoryOk(sim, w.clients, w.histories[i]);
      HistoryOkElsewhere(sim, w.clients, id, client, w.histories[i]);
    }
    forall k | 0 <= k < |w'.clients| && Deleted(w'.clients[k]) && Recorded(sim, w'.clients[k]) ensures Saved(w', k) {
      assert w'.clients[k] == w.clients[k];
      assert Saved(w, k);
    }
  }

  lemma CreationKeepsBooked(sim: bool, w: World, client: Client, registry: map<string, nat>)
    requires !Deleted(client) && Booked(sim, w)
    ensures Booked(sim, w.(clients := w.clients + [client], registry := registry))
  {
    var w' := w.(clients := w.clients + [client], registry := registry);
    forall i | 0 <= i < |w.histories| ensures HistoryOk(sim, w'.clients, w'.histories[i]) {
      assert HistoryOk(sim, w.clients, w.histories[i]);
    }
    forall k | 0 <= k < |w'.clients| && Deleted(w'.clients[k]) && Recorded(sim, w'.clients[k]) ensures Saved(w', k) {
      assert w'.clients[k] == w.clients[k];
      assert Saved(w, k);
    }
  }

  lemma MarkKeepsBooked(sim: bool, w: World, id: nat)
    requires id < |w.clients| && Booked(sim, w)
    ensures Booked(sim, AfterMark(sim, w, id, false, 0))
  {
    if !w.clients[id].disconnected {
      ChangeKeepsBooked(sim, w, id, w.clients[id].(disconnected := true, timer := true));
    }
  }

  lemma {:induction false} StopsKeepBooked(sim: bool, w: World, stops: seq<Stop>)
    requires RegistryOk(w) && AllRegistered(w) && InRange(w, stops) && Booked(sim, w)
    requires forall k :: 0 <= k < |stops| ==> !Deleted(w.clients[stops[k].id])
    requires forall j, k :: 0 <= j < k < |stops| ==> stops[j].id != stops[k].id
    ensures Booked(sim, AfterStops(sim, w, stops))
    decreases |stops|
  {
    if stops != [] {
      var front, last := stops[..|stops| - 1], stops[|stops| - 1];
      StopsKeepBooked(sim, w, front);
      StopsEmptyRegistry(sim, w, front);
      var w1 := AfterStops(sim, w, front);
      assert w1.clients[last.id] == w.clients[last.id];
      hide Booked;
      RemovalKeepsBooked(sim, w1, last.id, last.now);
      DeletionIsRemoval(sim, w1, last.id, last.now);
    }
  }

  lemma ShutdownKeepsBooked(sim: bool, w: World, stops: seq<Stop>)
    requires Ok(w) && !w.shuttingDown && InRange(w, stops) && SnapshotOf(w, stops) && Booked(sim, w)
    ensures Booked(sim, AfterShutdown(sim, w, stops))
  {
    var w0 := w.(shuttingDown := true);
    assert Booked(sim, w0) by {
      assert forall id: nat :: Saved(w, id) ==> Saved(w0, id);
    }
    hide Booked;
    assert forall k :: 0 <= k < |stops| ==> Registered(w, stops[k].id);
    StopsKeepBooked(sim, w0, stops);
  }

  lemma StepKeepsBooked(sim: bool, w: World, step: Step)
    requires Ok(w) && Enabled(w, step) && Booked(sim, w)
    ensures Booked(sim, After(sim, w, step))
  {
    hide Booked;
    match step {
      case Login(callsign, cid, isAtc, socket, now) =>
        if Found(w, callsign) {
          var id := w.registry[callsign];
          var client := w.clients[id];
          if client.disconnected {
            var back := client.(disconnected := false, timer := false, socket := socket, user := cid);
            ChangeKeepsBooked(sim, w, id, back);
          }
        } else {
          CreationKeepsBooked(sim, w, Client(callsign, isAtc, cid, cid, now, socket, false, false),
                              After(sim, w, step).registry);
        }
      case Drop(id) => MarkKeepsBooked(sim, w, id);
      case Kill(callsign) =>
        if Found(w, callsign) {
          MarkKeepsBooked(sim, w, w.registry[callsign]);
        }
      case Fire(id, now) =>
        DeletionIsRemoval(sim, w, id, now);
        RemovalKeepsBooked(sim, w, id, now);
      case Shutdown(stops) =>
        SnapshotInRange(w, stops);
        if !w.shuttingDown {
          ShutdownKeepsBooked(sim, w, stops);
        }
    }
  }

  // ---------------------------------------------------------------- runs

  ghost predicate Runs(sim: bool, w: World, steps: seq<Step>)
    decreases |steps|
  {
    steps == [] || (Enabled(w, steps[0]) && Runs(sim, After(sim, w, steps[0]), steps[1..]))
  }

  ghost function Final(sim: bool, w: World, steps: seq<Step>): World
    requires Runs(sim, w, steps)
    decreases |steps|
  {
    if steps == [] then w else Final(sim, After(sim, w, steps[0]), steps[1..])
  }

  lemma NobodyAfterShutdown(w: World)
    requires Ok(w) && w.shuttingDown
    ensures w.registry == map[]
  {
  }

  lemma {:induction false} RunKeeps(sim: bool, w: World, steps: seq<Step>)
    requires Ok(w) && Booked(sim, w) && Runs(sim, w, steps)
    ensures Ok(Final(sim, w, steps)) && Booked(sim, Final(sim, w, steps))
    ensures w.shuttingDown || (exists k :: 0 <= k < |steps| && steps[k].Shutdown?) ==>
      Final(sim, w, steps).shuttingDown && Final(sim, w, steps).registry == map[]
    decreases |steps|
  {
    hide Ok, Booked, Enabled, After;
    if steps != [] {
      StepKeepsOk(sim, w, steps[0]);
      StepKeepsBooked(sim, w, steps[0]);
      RunKeeps(sim, After(sim, w, steps[0]), steps[1..]);
      assert forall k :: 1 <= k < |steps| ==> steps[k] == steps[1..][k - 1];
    } else if w.shuttingDown {
      NobodyAfterShutdown(w);
    }
  }

  /** In every reachable state: each registry key is its client's callsign, a registered client waits for
    * its timer exactly when it is disconnected, and after a shutdown the registry stays empty. */
  lemma RegistrySafety(sim: bool, steps: seq<Step>, callsign: string)
    requires Runs(sim, EMPTY_WORLD, steps)
    ensures var w := Final(sim, EMPTY_WORLD, steps);
      && ((exists k :: 0 <= k < |steps| && steps[k].Shutdown?) ==> w.registry == map[])
      && (callsign in w.registry ==>
            && w.registry[callsign] < |w.clients|
            && w.clients[w.registry[callsign]].callsign == callsign
            && (w.clients[w.registry[callsign]].disconnected <==> w.clients[w.registry[callsign]].timer))
  {
    RunKeeps(sim, EMPTY_WORLD, steps);
    var w := Final(sim, EMPTY_WORLD, steps);
    if callsign in w.registry {
      RegisteredClientWaits(w, callsign);
    }
  }

  /** In every reachable state the seconds credited to all users are the seconds of all saved histories;
    * each deleted client whose time counts has exactly one history, which spans its whole life however
    * often it reconnected; and on a simulator server no pilot is recorded or credited. */
  lemma Conservation(sim: bool, steps: seq<Step>)
    requires Runs(sim, EMPTY_WORLD, steps)
    ensures var w := Final(sim, EMPTY_WORLD, steps);
      && Total(w.atcTime) + Total(w.pilotTime) == Sum(w.histories)
      && (forall i, j :: 0 <= i < j < |w.histories| ==> w.histories[i].client != w.histories[j].client)
      && (forall i :: 0 <= i < |w.histories| ==> HistoryOk(sim, w.clients, w.histories[i]))
      && (forall id :: 0 <= id < |w.clients| && Deleted(w.clients[id]) && Recorded(sim, w.clients[id]) ==> Saved(w, id))
      && (sim ==> w.pilotTime == map[] && forall i :: 0 <= i < |w.histories| ==> w.histories[i].isAtc)
  {
    RunKeeps(sim, EMPTY_WORLD, steps);
    var w := Final(sim, EMPTY_WORLD, steps);
    assert forall i :: 0 <= i < |w.histories| ==> HistoryOk(sim, w.clients, w.histories[i]);
  }

  // ---------------------------------------------------------------- who is credited

  function CreditOf(totals: map<int, int>, cid: int): int {
    if cid in totals then totals[cid] else 0
  }

  /** The seconds of the histories saved under one user. */
  function SumOf(histories: seq<History>, cid: int, isAtc: bool): int {
    if histories == [] then 0
    else
      var last := histories[|histories| - 1];
      SumOf(histories[..|histories| - 1], cid, isAtc)
      + (if last.cid == cid && last.isAtc == isAtc then last.onlineTime else 0)
  }

  /** Each user is credited the seconds of the histories saved under that user. */
  ghost predicate PerUser(w: World) {
    forall cid :: UserOk(w, cid)
  }

  predicate UserOk(w: World, cid: int) {
    CreditOf(w.atcTime, cid) == SumOf(w.histories, cid, true)
    && CreditOf(w.pilotTime, cid) == SumOf(w.histories, cid, false)
  }

  lemma SumOfAppended(histories: seq<History>, h: History, cid: int, isAtc: bool)
    ensures SumOf(histories + [h], cid, isAtc)
         == SumOf(histories, cid, isAtc) + (if h.cid == cid && h.isAtc == isAtc then h.onlineTime else 0)
  {
    assert (histories + [h])[..|histories|] == histories;
  }

  lemma RemovalOfUser(sim: bool, w: World, id: nat, now: int, cid: int)
    requires id < |w.clients|
    ensures var client, w' := w.clients[id], Removed(sim, w, id, now);
      var online := if Recorded(sim, client) then Seconds(now - client.startTime) else 0;
      && SumOf(w'.histories, cid, true)
         == SumOf(w.histories, cid, true) + (if client.isAtc && client.historyCid == cid then online else 0)
      && SumOf(w'.histories, cid, false)
         == SumOf(w.histories, cid, false) + (if !client.isAtc && client.historyCid == cid then online else 0)
      && CreditOf(w'.atcTime, cid)
         == CreditOf(w.atcTime, cid) + (if client.isAtc && client.user == cid then online else 0)
      && CreditOf(w'.pilotTime, cid)
         == CreditOf(w.pilotTime, cid) + (if !client.isAtc && client.user == cid then online else 0)
  {
    var client := w.clients[id];
    var h := History(id, client.historyCid, client.isAtc, now, Seconds(now - client.startTime));
    hide Seconds, SumOf;
    SumOfAppended(w.histories, h, cid, true);
    SumOfAppended(w.histories, h, cid, false);
  }

  /** A reconnect replaces the user of a client but not the user of its history. Deleting a client keeps the
    * books of every single user exactly when the two are the same, or no second is at stake. */
  lemma RemovalPerUserExactly(sim: bool, w: World, id: nat, now: int)
    requires id < |w.clients| && PerUser(w)
    ensures var client := w.clients[id];
      PerUser(Removed(sim, w, id, now))
      <==> client.user == client.historyCid || !Recorded(sim, client) || Seconds(now - client.startTime) == 0
  {
    hide UserOk, Seconds, Removed;
    var client, w' := w.clients[id], Removed(sim, w, id, now);
    forall cid ensures UserOk(w', cid) <==>
      client.user == client.historyCid || !Recorded(sim, client) || Seconds(now - client.startTime) == 0
      || (cid != client.user && cid != client.historyCid)
    {
      RemovalOfOneUser(sim, w, id, now, cid);
    }
    assert PerUser(w') ==> UserOk(w', client.user);
  }

  lemma RemovalOfOneUser(sim: bool, w: World, id: nat, now: int, cid: int)
    requires id < |w.clients| && UserOk(w, cid)
    ensures var client := w.clients[id];
      UserOk(Removed(sim, w, id, now), cid) <==>
      client.user == client.historyCid || !Recorded(sim, client) || Seconds(now - client.startTime) == 0
      || (cid != client.user && cid != client.historyCid)
  {
    hide Seconds, SumOf, CreditOf, Removed;
    RemovalOfUser(sim, w, id, now, cid);
  }

  // The same over runs.

  /** Every client belongs to the user of its history. */
  ghost predicate SameUsers(w: World) {
    forall id :: 0 <= id < |w.clients| ==> w.clients[id].user == w.clients[id].historyCid
  }

  /** A login that resumes a client comes from the user of its history. */
  ghost predicate OwnLogin(w: World, step: Step) {
    step.Login? && Found(w, step.callsign) && w.registry[step.callsign] < |w.clients|
    && w.clients[w.registry[step.callsign]].disconnected
    ==> step.cid == w.clients[w.registry[step.callsign]].historyCid
  }

  ghost predicate OwnLogins(sim: bool, w: World, steps: seq<Step>)
    requires Runs(sim, w, steps)
    decreases |steps|
  {
    steps == [] || (OwnLogin(w, steps[0]) && OwnLogins(sim, After(sim, w, steps[0]), steps[1..]))
  }

  lemma RemovalKeepsPerUser(sim: bool, w: World, id: nat, now: int)
    requires id < |w.clients| && SameUsers(w) && PerUser(w)
    ensures SameUsers(Removed(sim, w, id, now)) && PerUser(Removed(sim, w, id, now))
  {
    hide PerUser;
    RemovalPerUserExactly(sim, w, id, now);
  }

  lemma {:induction false} StopsKeepPerUser(sim: bool, w: World, stops: seq<Stop>)
    requires RegistryOk(w) && AllRegistered(w) && InRange(w, stops) && SameUsers(w) && PerUser(w)
    requires forall k :: 0 <= k < |stops| ==> !Deleted(w.clients[stops[k].id])
    requires forall j, k :: 0 <= j < k < |stops| ==> stops[j].id != stops[k].id
    ensures SameUsers(AfterStops(sim, w, stops)) && PerUser(AfterStops(sim, w, stops))
    decreases |stops|
  {
    hide RegistryOk, AllRegistered, SameUsers, PerUser, AfterMark, Removed, Deleted;
    if stops != [] {
      var front, last := stops[..|stops| - 1], stops[|stops| - 1];
      StopsKeepPerUser(sim, w, front);
      StopsEmptyRegistry(sim, w, front);
      var w1 := AfterStops(sim, w, front);
      assert w1.clients[last.id] == w.clients[last.id];
      RemovalKeepsPerUser(sim, w1, last.id, last.now);
      DeletionIsRemoval(sim, w1, last.id, last.now);
    }
  }

  lemma SameBooks(w: World, w': World)
    requires PerUser(w)
    requires w'.histories == w.histories && w'.atcTime == w.atcTime && w'.pilotTime == w.pilotTime
    ensures PerUser(w')
  {
    assert forall cid :: UserOk(w, cid) ==> UserOk(w', cid);
  }

  lemma ShutdownKeepsPerUser(sim: bool, w: World, stops: seq<Stop>)
    requires Ok(w) && !w.shuttingDown && InRange(w, stops) && SnapshotOf(w, stops) && SameUsers(w) && PerUser(w)
    ensures SameUsers(AfterShutdown(sim, w, stops)) && PerUser(AfterShutdown(sim, w, stops))
  {
    var w0 := w.(shuttingDown := true);
    SameBooks(w, w0);
    hide PerUser;
    assert forall k :: 0 <= k < |stops| ==> Registered(w, stops[k].id);
    StopsKeepPerUser(sim, w0, stops);
  }

  lemma LoginKeepsPerUser(w: World, callsign: string, cid: int, isAtc: bool, socket: int, now: int)
    requires RegistryInRange(w) && SameUsers(w) && PerUser(w)
    requires OwnLogin(w, Login(callsign, cid, isAtc, socket, now))
    ensures var w' := AfterLogin(w, callsign, cid, isAtc, socket, now).0; SameUsers(w') && PerUser(w')
  {
    SameBooks(w, AfterLogin(w, callsign, cid, isAtc, socket, now).0);
    hide PerUser;
  }

  lemma MarkKeepsPerUser(sim: bool, w: World, id: nat)
    requires id < |w.clients| && SameUsers(w) && PerUser(w)
    ensures SameUsers(AfterMark(sim, w, id, false, 0)) && PerUser(AfterMark(sim, w, id, false, 0))
  {
    SameBooks(w, AfterMark(sim, w, id, false, 0));
    hide PerUser;
  }

  lemma StepKeepsPerUser(sim: bool, w: World, step: Step)
    requires Ok(w) && Enabled(w, step) && OwnLogin(w, step) && SameUsers(w) && PerUser(w)
    ensures SameUsers(After(sim, w, step)) && PerUser(After(sim, w, step))
  {
    hide PerUser, SameUsers, AfterMark, AfterDelete, AfterLogin, Removed, SnapshotOf;
    match step {
      case Login(callsign, cid, isAtc, socket, now) => LoginKeepsPerUser(w, callsign, cid, isAtc, socket, now);
      case Drop(id) => MarkKeepsPerUser(sim, w, id);
      case Kill(callsign) =>
        if Found(w, callsign) {
          MarkKeepsPerUser(sim, w, w.registry[callsign]);
        }
      case Fire(id, now) =>
        DeletionIsRemoval(sim, w, id, now);
        RemovalKeepsPerUser(sim, w, id, now);
      case Shutdown(stops) =>
        SnapshotInRange(w, stops);
        if !w.shuttingDown {
          ShutdownKeepsPerUser(sim, w, stops);
        }
    }
  }

  lemma {:induction false} RunKeepsPerUser(sim: bool, w: World, steps: seq<Step>)
    requires Ok(w) && SameUsers(w) && PerUser(w) && Runs(sim, w, steps) && OwnLogins(sim, w, steps)
    ensures PerUser(Final(sim, w, steps))
    decreases |steps|
  {
    hide Ok, SameUsers, PerUser, Enabled, After, OwnLogin;
    if steps != [] {
      StepKeepsOk(sim, w, steps[0]);
      StepKeepsPerUser(sim, w, steps[0]);
      RunKeepsPerUser(sim, After(sim, w, steps[0]), steps[1..]);
    }
  }

  /** After every run in which clients are resumed only by the user of their history, each user is credited
    * exactly the seconds of the histories saved under that user. */
  lemma CreditedPerUser(sim: bool, steps: seq<Step>, cid: int)
    requires Runs(sim, EMPTY_WORLD, steps) && OwnLogins(sim, EMPTY_WORLD, steps)
    ensures var w := Final(sim, EMPTY_WORLD, steps);
      && CreditOf(w.atcTime, cid) == SumOf(w.histories, cid, true)
      && CreditOf(w.pilotTime, cid) == SumOf(w.histories, cid, false)
  {
    RunKeepsPerUser(sim, EMPTY_WORLD, steps);
    assert UserOk(Final(sim, EMPTY_WORLD, steps), cid);
  }

  /** A controller logs in as user 1, loses the connection, user 2 reconnects under the same callsign and stays
    * a second: the history is user 1's, the second is credited to user 2. */
  lemma ReconnectMovesCredit()
    ensures var steps := [Login("ABC_TWR", 1, true, 0, 0), Drop(0), Login("ABC_TWR", 2, true, 1, 0), Drop(0),
                          Fire(0, SECOND)];
      && Runs(false, EMPTY_WORLD, steps)
      && var w := Final(false, EMPTY_WORLD, steps);
         w.histories == [History(0, 1, true, SECOND, 1)] && w.atcTime == map[2 := 1]
  {
    var steps := [Login("ABC_TWR", 1, true, 0, 0), Drop(0), Login("ABC_TWR", 2, true, 1, 0), Drop(0),
                  Fire(0, SECOND)];
    var w1 := After(false, EMPTY_WORLD, steps[0]);
    var w2 := After(false, w1, steps[1]);
    var w3 := After(false, w2, steps[2]);
    var w4 := After(false, w3, steps[3]);
    var w5 := After(false, w4, steps[4]);
    assert steps[1..][1..] == steps[2..] && steps[2..][1..] == steps[3..];
    assert steps[3..][1..] == steps[4..] && steps[4..][1..] == [];
    assert Runs(false, w4, steps[4..]) && Runs(false, w3, steps[3..]);
    assert Runs(false, w2, steps[2..]) && Runs(false, w1, steps[1..]);
    assert Final(false, w4, steps[4..]) == w5;
    assert Final(false, w3, steps[3..]) == w5;
    assert Final(false, w2, steps[2..]) == w5;
    assert Final(false, w1, steps[1..]) == w5;
  }
}
