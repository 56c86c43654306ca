/** Activity sign-up tables and the reconciliation of an edited facility list
  * (internal/database/activity_operation.go, internal/interfaces/operation/model.go).
  *
  * Tables are maps from primary key to row; a new row gets the next key of its table, and
  * transactions are serialised and do not fail for other reasons than the ones below.
  */
module Activities {
  import opened Wrappers

  /** An `ActivityFacility`; in a list sent by a client id 0 stands for a new facility. */
  datatype Facility = Facility(id: nat, activityId: nat, minRating: int, callsign: string, frequency: string)

  datatype AtcRow = AtcRow(activityId: nat, facilityId: nat, cid: int)

  datatype PilotRow = PilotRow(activityId: nat, cid: int, callsign: string, aircraftType: string)

  datatype Tables = Tables(
    activities: map<nat, Info>, facilities: map<nat, Facility>, nextFacility: nat,
    controllers: map<nat, AtcRow>, nextController: nat,
    pilots: map<nat, PilotRow>, nextPilot: nat)

  datatype Outcome =
    | Done
    | InconsistentData
    | FacilityNotFound | RatingNotAllowed | FacilityAlreadyExists
    | FacilitySigned | FacilityNotSigned | FacilityNotYourSign
    | ActivityAlreadySigned | CallsignAlreadyUsed | ActivityUnsigned

  /** The declared column default of `min_rating`, which Create puts in place of a zero. */
  const DEFAULT_MIN_RATING: int := 2

  // ---------------------------------------------------------------- comparing two activities

  /** The base information of an activity. */
  datatype Info = Info(
    publisher: int, title: string, imageUrl: string, activeTime: int, departureAirport: string, arrivalAirport: string,
    route: string, distance: int, status: int, notams: string)

  /** The columns of an activity to write; a missing map key is None. */
  datatype InfoDiff = InfoDiff(
    publisher: Option<int>, title: Option<string>, imageUrl: Option<string>, activeTime: Option<int>,
    departureAirport: Option<string>, arrivalAirport: Option<string>,
    route: Option<string>, distance: Option<int>, status: Option<int>, notams: Option<string>)

  const NO_DIFF: InfoDiff := InfoDiff(None, None, None, None, None, None, None, None, None, None)

  function Chosen<T>(update: Option<T>, current: T): T {
    if update.Some? then update.value else current
  }

  /** `Updates` with the given columns. */
  function ApplyInfo(row: Info, diff: InfoDiff): Info {
    Info(Chosen(diff.publisher, row.publisher), Chosen(diff.title, row.title), Chosen(diff.imageUrl, row.imageUrl),
         Chosen(diff.activeTime, row.activeTime), Chosen(diff.departureAirport, row.departureAirport),
         Chosen(diff.arrivalAirport, row.arrivalAirport), Chosen(diff.route, row.route),
         Chosen(diff.distance, row.distance), Chosen(diff.status, row.status), Chosen(diff.notams, row.notams))
  }

  function Text(wanted: string, current: string): string {
    if wanted == "" then current else wanted
  }

  function Number(wanted: int, current: int): int {
    if wanted == 0 then current else wanted
  }

  /** What an edit asks for: a blank text or a zero keeps the current value, except that time, status and NOTAMs
    * are always taken over. */
  function Merged(wanted: Info, current: Info): Info {
    Info(Number(wanted.publisher, current.publisher), Text(wanted.title, current.title),
         Text(wanted.imageUrl, current.imageUrl), wanted.activeTime,
         Text(wanted.departureAirport, current.departureAirport), Text(wanted.arrivalAirport, current.arrivalAirport),
         Text(wanted.route, current.route), Number(wanted.distance, current.distance), wanted.status, wanted.notams)
  }

  predicate Differ<T(==)>(column: Option<T>, before: T, after: T) {
    column == if before == after then None else Some(after)
  }

  /** The columns are those that differ, with their new values. */
  predicate Difference(diff: InfoDiff, before: Info, after: Info) {
    && Differ(diff.publisher, before.publisher, after.publisher) && Differ(diff.title, before.title, after.title)
    && Differ(diff.imageUrl, before.imageUrl, after.imageUrl)
    && Differ(diff.activeTime, before.activeTime, after.activeTime)
    && Differ(diff.departureAirport, before.departureAirport, after.departureAirport)
    && Differ(diff.arrivalAirport, before.arrivalAirport, after.arrivalAirport)
    && Differ(diff.route, before.route, after.route) && Differ(diff.distance, before.distance, after.distance)
    && Differ(diff.status, before.status, after.status) && Differ(diff.notams, before.notams, after.notams)
  }

  class Activity {
    var info: Info

    constructor (info: Info)
      ensures this.info == info
    {
      this.info := info;
    }

    /** Collects the columns to write and brings `other` up to date in passing. */
    method Diff(other: Activity) returns (result: InfoDiff)
      modifies other
      ensures other.info == Merged(old(info), old(other.info))
      ensures Difference(result, old(other.info), other.info)
    {
      var o := other.info;
      var publisher, newPublisher := NumberColumn(info.publisher, o.publisher);
      var title, newTitle := TextColumn(info.title, o.title);
      var imageUrl, newImageUrl := TextColumn(info.imageUrl, o.imageUrl);
      var activeTime, newActiveTime := PlainColumn(info.activeTime, o.activeTime);
      var departureAirport, newDepartureAirport := TextColumn(info.departureAirport, o.departureAirport);
      var arrivalAirport, newArrivalAirport := TextColumn(info.arrivalAirport, o.arrivalAirport);
      var route, newRoute := TextColumn(info.route, o.route);
      var distance, newDistance := NumberColumn(info.distance, o.distance);
      var status, newStatus := PlainColumn(info.status, o.status);
      var notams, newNotams := PlainColumn(info.notams, o.notams);
      other.info := Info(newPublisher, newTitle, newImageUrl, newActiveTime, newDepartureAirport, newArrivalAirport,
                         newRoute, newDistance, newStatus, newNotams);
      result := InfoDiff(publisher, title, imageUrl, activeTime, departureAirport, arrivalAirport,
                         route, distance, status, notams);
    }
  }

  // One column of the comparison: the column to write and the new value.

  method PlainColumn<T(==)>(wanted: T, current: T) returns (column: Option<T>, value: T)
    ensures value == wanted && Differ(column, current, value)
  {
    column, value := None, current;
    if wanted != current {
      column, value := Some(wanted), wanted;
    }
  }

  method TextColumn(wanted: string, current: string) returns (column: Option<string>, value: string)
    ensures value == Text(wanted, current) && Differ(column, current, value)
  {
    column, value := None, current;
    if wanted != "" && wanted != current {
      column, value := Some(wanted), wanted;
    }
  }

  method NumberColumn(wanted: int, current: int) returns (column: Option<int>, value: int)
    ensures value == Number(wanted, current) && Differ(column, current, value)
  {
    column, value := None, current;
    if wanted != 0 && wanted != current {
      column, value := Some(wanted), wanted;
    }
  }

  /** Writing the columns makes the row what the activity in memory has become; editing again writes nothing. */
  lemma InfoWritten(diff: InfoDiff, wanted: Info, current: Info)
    requires Difference(diff, current, Merged(wanted, current))
    ensures ApplyInfo(current, diff) == Merged(wanted, current)
    ensures Difference(NO_DIFF, Merged(wanted, current), Merged(wanted, Merged(wanted, current)))
    ensures diff == NO_DIFF <==> Merged(wanted, current) == current
  {
  }

  /** The edit stores exactly what was asked for if and only if it asks for no blank text and no zero where there
    * is something else. */
  lemma InfoAsWanted(wanted: Info, current: Info)
    ensures Merged(wanted, current) == wanted
       <==> && (wanted.publisher == 0 ==> current.publisher == 0) && (wanted.title == "" ==> current.title == "")
            && (wanted.imageUrl == "" ==> current.imageUrl == "")
            && (wanted.departureAirport == "" ==> current.departureAirport == "")
            && (wanted.arrivalAirport == "" ==> current.arrivalAirport == "")
            && (wanted.route == "" ==> current.route == "") && (wanted.distance == 0 ==> current.distance == 0)
  {
  }

  /** Column by column: blanks and zeros keep the current value, and only where there is one to keep. */
  lemma MergedColumns(wanted: Info, current: Info)
    ensures var merged := Merged(wanted, current);
      && merged.publisher == (if wanted.publisher != 0 then wanted.publisher else current.publisher)
      && merged.title == (if wanted.title != "" then wanted.title else current.title)
      && merged.imageUrl == (if wanted.imageUrl != "" then wanted.imageUrl else current.imageUrl)
      && merged.departureAirport
         == (if wanted.departureAirport != "" then wanted.departureAirport else current.departureAirport)
      && merged.arrivalAirport
         == (if wanted.arrivalAirport != "" then wanted.arrivalAirport else current.arrivalAirport)
      && merged.route == (if wanted.route != "" then wanted.route else current.route)
      && merged.distance == (if wanted.distance != 0 then wanted.distance else current.distance)
      && merged.activeTime == wanted.activeTime && merged.status == wanted.status && merged.notams == wanted.notams
  {
  }

  // ---------------------------------------------------------------- comparing two facilities

  /** The columns to write; a missing map key is None. */
  datatype Diff = Diff(minRating: Option<int>, callsign: Option<string>, frequency: Option<string>)

  predicate FacilityEqual(facility: Facility, other: Facility) {
    facility.id == other.id && facility.activityId == other.activityId && facility.minRating == other.minRating
    && facility.callsign == other.callsign && facility.frequency == other.frequency
  }

  function FacilityDiff(facility: Facility, other: Facility): Diff {
    Diff(if facility.minRating != other.minRating then Some(facility.minRating) else None,
         if facility.callsign != other.callsign then Some(facility.callsign) else None,
         if facility.frequency != other.frequency then Some(facility.frequency) else None)
  }

  /** `Updates` with the given columns. */
  function ApplyDiff(row: Facility, diff: Diff): Facility {
    row.(minRating := if diff.minRating.Some? then diff.minRating.value else row.minRating,
         callsign := if diff.callsign.Some? then diff.callsign.value else row.callsign,
         frequency := if diff.frequency.Some? then diff.frequency.value else row.frequency)
  }

  /** The row keeps its id and its activity and takes the three editable columns of `entry`. */
  function Overwritten(row: Facility, entry: Facility): Facility {
    row.(minRating := entry.minRating, callsign := entry.callsign, frequency := entry.frequency)
  }

  lemma DiffOverwrites(entry: Facility, row: Facility)
    ensures ApplyDiff(row, FacilityDiff(entry, row)) == Overwritten(row, entry)
    ensures FacilityEqual(entry, row) ==> Overwritten(row, entry) == row
  {
  }

  // ---------------------------------------------------------------- the new list

  /** Every id is 0 or names a known facility, and none of the latter is repeated. */
  ghost predicate Consistent(known: set<nat>, list: seq<Facility>) {
    && (forall i :: 0 <= i < |list| && list[i].id != 0 ==> list[i].id in known)
    && (forall i, j :: 0 <= i < j < |list| && list[i].id != 0 ==> list[i].id != list[j].id)
  }

  /** The entries that name a known facility, by id. */
  function Entries(list: seq<Facility>): map<nat, Facility> {
    if list == [] then map[]
    else
      var last := list[|list| - 1];
      var front := Entries(list[..|list| - 1]);
      if last.id == 0 then front else front[last.id := last]
  }

  /** The new facilities, in order. */
  function Fresh(list: seq<Facility>): seq<Facility> {
    if list == [] then []
    else Fresh(list[..|list| - 1]) + (if list[|list| - 1].id == 0 then [list[|list| - 1]] else [])
  }

  lemma {:induction false} EntriesAreNamed(list: seq<Facility>)
    ensures forall id :: id in Entries(list) ==> id != 0 && exists i :: 0 <= i < |list| && list[i].id == id
    ensures forall i :: 0 <= i < |list| && list[i].id != 0 ==> list[i].id in Entries(list)
  {
    if list != [] {
      var front := list[..|list| - 1];
      EntriesAreNamed(front);
      assert forall i :: 0 <= i < |front| ==> front[i] == list[i];
      forall id | id in Entries(list) ensures id != 0 && exists i :: 0 <= i < |list| && list[i].id == id {
        if id in Entries(front) {
          var i :| 0 <= i < |front| && front[i].id == id;
          assert list[i].id == id;
        } else {
          assert list[|list| - 1].id == id;
        }
      }
    }
  }

  lemma {:induction false} EntryOfPosition(known: set<nat>, list: seq<Facility>, i: nat)
    requires Consistent(known, list) && i < |list| && list[i].id != 0
    ensures list[i].id in Entries(list) && Entries(list)[list[i].id] == list[i]
    decreases |list|
  {
    if i < |list| - 1 {
      EntryOfPosition(known, list[..|list| - 1], i);
    }
  }

  lemma EntriesOfList(known: set<nat>, list: seq<Facility>)
    ensures forall id :: id in Entries(list) ==> id != 0 && exists i :: 0 <= i < |list| && list[i].id == id
    ensures forall i :: 0 <= i < |list| && list[i].id != 0 ==> list[i].id in Entries(list)
    ensures Consistent(known, list) ==>
      (forall i :: 0 <= i < |list| && list[i].id != 0 ==> Entries(list)[list[i].id] == list[i])
  {
    EntriesAreNamed(list);
    hide Entries, Consistent;
    if Consistent(known, list) {
      forall i | 0 <= i < |list| && list[i].id != 0 ensures Entries(list)[list[i].id] == list[i] {
        EntryOfPosition(known, list, i);
      }
    }
  }

  lemma ConsistentExtends(known: set<nat>, list: seq<Facility>, i: nat)
    requires i < |list| && Consistent(known, list[..i])
    ensures Consistent(known, list[..i + 1])
       <==> list[i].id == 0 || (list[i].id in known && list[i].id !in Entries(list[..i]))
  {
    var front, longer := list[..i], list[..i + 1];
    EntriesOfList(known, front);
    assert forall k :: 0 <= k < i ==> longer[k] == front[k];
    assert longer[i] == list[i];
    if list[i].id != 0 && list[i].id in Entries(front) {
      var k :| 0 <= k < |front| && front[k].id == list[i].id;
      assert longer[k].id == longer[i].id;
    }
  }

  lemma InconsistentPrefix(known: set<nat>, list: seq<Facility>, i: nat)
    requires i <= |list| && !Consistent(known, list[..i])
    ensures !Consistent(known, list)
  {
    assert forall k :: 0 <= k < i ==> list[..i][k] == list[k];
  }

  // ---------------------------------------------------------------- the result of an edit

  /** What Create stores under a new key. */
  function Created(entry: Facility, id: nat): Facility {
    entry.(id := id, minRating := if entry.minRating == 0 then DEFAULT_MIN_RATING else entry.minRating)
  }

  function RowIds(facilities: map<nat, Facility>, activityId: nat): set<nat> {
    set id | id in facilities && facilities[id].activityId == activityId
  }

  function Interval(from: nat, count: nat): (ids: set<nat>)
    ensures forall id :: id in ids <==> from <= id < from + count
  {
    if count == 0 then {} else Interval(from, count - 1) + {from + count - 1}
  }

  /** Keys start at 1 and `bound` is the next one. */
  predicate KeysBelow<T>(table: map<nat, T>, bound: nat) {
    bound > 0 && forall id :: id in table ==> 0 < id < bound
  }

  /** The facility table after the edit of one activity. */
  function Edited(facilities: map<nat, Facility>, next: nat, activityId: nat, list: seq<Facility>): map<nat, Facility>
    requires KeysBelow(facilities, next)
  {
    var entries, added := Entries(list), Fresh(list);
    map id | id in facilities.Keys + Interval(next, |added|)
             && (id in facilities ==> facilities[id].activityId != activityId || id in entries)
      :: if id !in facilities then Created(added[id - next].(activityId := activityId), id)
         else if facilities[id].activityId == activityId then Overwritten(facilities[id], entries[id])
         else facilities[id]
  }

  /** Controller rows go with their facility (the declared cascade). */
  function Cascade(controllers: map<nat, AtcRow>, facilities: map<nat, Facility>): map<nat, AtcRow> {
    map r | r in controllers && controllers[r].facilityId in facilities :: controllers[r]
  }

  // ---------------------------------------------------------------- the serialised steps, on values

  /** `Updates` on the row of the activity, which does nothing when there is none. */
  function WithInfo(activities: map<nat, Info>, activityId: nat, updateInfo: InfoDiff): map<nat, Info> {
    if activityId !in activities then activities
    else activities[activityId := ApplyInfo(activities[activityId], updateInfo)]
  }

  function AfterEdit(t: Tables, activityId: nat, list: seq<Facility>, updateInfo: InfoDiff): Tables
    requires KeysBelow(t.facilities, t.nextFacility)
  {
    var facilities := Edited(t.facilities, t.nextFacility, activityId, list);
    t.(activities := WithInfo(t.activities, activityId, updateInfo),
       facilities := facilities, nextFacility := t.nextFacility + |Fresh(list)|,
       controllers := Cascade(t.controllers, facilities))
  }

  function AtcRowsOf(t: Tables, activityId: nat, cid: int): set<nat> {
    set r | r in t.controllers && t.controllers[r].activityId == activityId && t.controllers[r].cid == cid
  }

  function AtcRowsAt(t: Tables, facilityId: nat): set<nat> {
    set r | r in t.controllers && t.controllers[r].facilityId == facilityId
  }

  function PilotRowsOf(t: Tables, activityId: nat, cid: int): set<nat> {
    set r | r in t.pilots && t.pilots[r].activityId == activityId && t.pilots[r].cid == cid
  }

  function PilotRowsClashing(t: Tables, activityId: nat, cid: int, callsign: string): set<nat> {
    set r | r in t.pilots && t.pilots[r].activityId == activityId
            && (t.pilots[r].cid == cid || t.pilots[r].callsign == callsign)
  }

  /** The smallest key, which is the row a query ending in `First` returns. */
  ghost function First(rows: set<nat>): (first: nat)
    requires rows != {}
    ensures first in rows && forall r :: r in rows ==> first <= r
  {
    var r :| r in rows;
    if rows == {r} then r
    else
      assert rows == (rows - {r}) + {r};
      var other := First(rows - {r});
      if r < other then r else other
  }

  datatype Step =
    | SignController(facilityId: nat, cid: int, rating: int)
    | UnsignController(facilityId: nat, cid: int)
    | SignPilot(activityId: nat, cid: int, callsign: string, aircraftType: string)
    | UnsignPilot(activityId: nat, cid: int)
    | Edit(activityId: nat, list: seq<Facility>, updateInfo: InfoDiff)

  ghost function After(t: Tables, step: Step): (Tables, Outcome)
    requires KeysBelow(t.facilities, t.nextFacility)
  {
    match step
    case SignController(facilityId, cid, rating) =>
      if facilityId !in t.facilities then (t, FacilityNotFound)
      else
        var facility := t.facilities[facilityId];
        if rating <= facility.minRating then (t, RatingNotAllowed)
        else if AtcRowsOf(t, facility.activityId, cid) != {} then (t, FacilityAlreadyExists)
        else if exists r :: r in t.controllers && t.controllers[r].activityId == facility.activityId
                            && t.controllers[r].facilityId == facilityId then (t, FacilitySigned)
        else (t.(controllers := t.controllers[t.nextController := AtcRow(facility.activityId, facilityId, cid)],
                 nextController := t.nextController + 1), Done)
    case UnsignController(facilityId, cid) =>
      if facilityId !in t.facilities then (t, FacilityNotFound)
      else if AtcRowsAt(t, facilityId) == {} then (t, FacilityNotSigned)
      else
        var r := First(AtcRowsAt(t, facilityId));
        if t.controllers[r].cid != cid then (t, FacilityNotYourSign)
        else (t.(controllers := t.controllers - {r}), Done)
    case SignPilot(activityId, cid, callsign, aircraftType) =>
      var clashing := PilotRowsClashing(t, activityId, cid, callsign);
      if clashing != {} then
        (t, if t.pilots[First(clashing)].cid == cid then ActivityAlreadySigned else CallsignAlreadyUsed)
      else (t.(pilots := t.pilots[t.nextPilot := PilotRow(activityId, cid, callsign, aircraftType)],
               nextPilot := t.nextPilot + 1), Done)
    case UnsignPilot(activityId, cid) =>
      var rows := PilotRowsOf(t, activityId, cid);
      if rows == {} then (t, ActivityUnsigned)
      else (t.(pilots := t.pilots - {First(rows)}), Done)
    case Edit(activityId, list, updateInfo) =>
      if Consistent(RowIds(t.facilities, activityId), list) then (AfterEdit(t, activityId, list, updateInfo), Done)
      else (t, InconsistentData)
  }

  // ---------------------------------------------------------------- what an edit achieves

  /** The key of the row that stands for entry `i` of the new list. */
  function AssignedId(next: nat, list: seq<Facility>, i: nat): nat
    requires i < |list|
  {
    if list[i].id != 0 then list[i].id else next + |Fresh(list[..i])|
  }

  lemma {:induction false} FreshAt(list: seq<Facility>, i: nat)
    requires i < |list| && list[i].id == 0
    ensures |Fresh(list[..i])| < |Fresh(list)|
    ensures Fresh(list)[|Fresh(list[..i])|] == list[i]
    decreases |list|
  {
    var front := list[..|list| - 1];
    if i == |list| - 1 {
      assert list[..i] == front;
    } else {
      FreshAt(front, i);
      assert front[..i] == list[..i];
    }
  }

  lemma {:induction false} FreshIndex(list: seq<Facility>, k: nat) returns (i: nat)
    requires k < |Fresh(list)|
    ensures i < |list| && list[i].id == 0 && |Fresh(list[..i])| == k
    decreases |list|
  {
    var front := list[..|list| - 1];
    if k < |Fresh(front)| {
      i := FreshIndex(front, k);
      assert front[..i] == list[..i];
    } else {
      i := |list| - 1;
      assert list[..i] == front;
    }
  }

  lemma {:induction false} FreshGrows(list: seq<Facility>, i: nat, j: nat)
    requires i < j <= |list| && list[i].id == 0
    ensures |Fresh(list[..i])| < |Fresh(list[..j])|
  {
    FreshAt(list[..j], i);
    assert list[..j][..i] == list[..i];
  }

  /** Different entries get different rows. */
  lemma AssignedIdsDistinct(facilities: map<nat, Facility>, next: nat, activityId: nat, list: seq<Facility>,
                            i: nat, j: nat)
    requires KeysBelow(facilities, next) && Consistent(RowIds(facilities, activityId), list)
    requires i < j < |list|
    ensures AssignedId(next, list, i) != AssignedId(next, list, j)
  {
    if list[i].id == 0 && list[j].id == 0 {
      FreshGrows(list, i, j);
    }
  }

  /** Entry `i` has its row: under its old id if it had one, with the activity, callsign and frequency
    * asked for. The rating is the one asked for exactly unless the facility is new and asks for 0; it is then 2. */
  lemma EntryHasRow(facilities: map<nat, Facility>, next: nat, activityId: nat, list: seq<Facility>, i: nat)
    requires KeysBelow(facilities, next) && Consistent(RowIds(facilities, activityId), list)
    requires forall id :: id in facilities ==> facilities[id].id == id
    requires i < |list|
    ensures var result, id := Edited(facilities, next, activityId, list), AssignedId(next, list, i);
      && id in result && result[id].id == id
      && result[id].activityId == activityId
      && result[id].callsign == list[i].callsign && result[id].frequency == list[i].frequency
      && (result[id].minRating == list[i].minRating <==> !(list[i].id == 0 && list[i].minRating == 0))
      && (list[i].id == 0 && list[i].minRating == 0 ==> result[id].minRating == 2)
  {
    EntriesOfList(RowIds(facilities, activityId), list);
    if list[i].id == 0 {
      FreshAt(list, i);
    } else {
      assert list[i].id in Entries(list) && list[i].id in RowIds(facilities, activityId);
    }
  }

  /** Every row of the activity stands for an entry, and rows of other activities are untouched. */
  lemma RowHasEntry(facilities: map<nat, Facility>, next: nat, activityId: nat, list: seq<Facility>, id: nat)
    requires KeysBelow(facilities, next) && Consistent(RowIds(facilities, activityId), list)
    requires var result := Edited(facilities, next, activityId, list); id in result || id in facilities
    ensures var result := Edited(facilities, next, activityId, list);
      if id in result && result[id].activityId == activityId
      then exists i :: 0 <= i < |list| && AssignedId(next, list, i) == id
      else
        && id in facilities
        && (facilities[id].activityId != activityId ==> id in result && result[id] == facilities[id])
  {
    var result := Edited(facilities, next, activityId, list);
    EntriesOfList(RowIds(facilities, activityId), list);
    if id in result && result[id].activityId == activityId {
      if id in facilities {
        assert id in Entries(list);
        var i :| 0 <= i < |list| && list[i].id == id;
        assert AssignedId(next, list, i) == id;
      } else {
        var i := FreshIndex(list, id - next);
        assert AssignedId(next, list, i) == id;
      }
    }
  }

  // ---------------------------------------------------------------- what every run keeps

  ghost predicate TablesOk(t: Tables) {
    && KeysBelow(t.facilities, t.nextFacility)
    && KeysBelow(t.controllers, t.nextController)
    && KeysBelow(t.pilots, t.nextPilot)
    && (forall id :: id in t.facilities ==> t.facilities[id].id == id)
    && ControllersOk(t.controllers, t.facilities)
    && PilotsOk(t.pilots)
  }

  /** A controller signs once per activity, a facility is signed once, and every sign-up names an
    * existing facility of the same activity. */
  ghost predicate ControllersOk(controllers: map<nat, AtcRow>, facilities: map<nat, Facility>) {
    && (forall r :: r in controllers ==>
          controllers[r].facilityId in facilities
          && facilities[controllers[r].facilityId].activityId == controllers[r].activityId)
    && (forall r, q :: r in controllers && q in controllers && r != q
                       && controllers[r].activityId == controllers[q].activityId ==>
          controllers[r].cid != controllers[q].cid && controllers[r].facilityId != controllers[q].facilityId)
  }

  /** A pilot signs once per activity, and a callsign is used once. */
  ghost predicate PilotsOk(pilots: map<nat, PilotRow>) {
    forall r, q :: r in pilots && q in pilots && r != q && pilots[r].activityId == pilots[q].activityId ==>
      pilots[r].cid != pilots[q].cid && pilots[r].callsign != pilots[q].callsign
  }

  /** An edit removes exactly the sign-ups of the facilities it drops. */
  lemma EditDropsSignUps(t: Tables, activityId: nat, list: seq<Facility>, updateInfo: InfoDiff, r: nat)
    requires TablesOk(t) && Consistent(RowIds(t.facilities, activityId), list) && r in t.controllers
    ensures var t' := AfterEdit(t, activityId, list, updateInfo);
      && t'.pilots == t.pilots && t'.controllers.Keys <= t.controllers.Keys
      && (r in t'.controllers ==> t'.controllers[r] == t.controllers[r])
      && (r !in t'.controllers <==>
            t.controllers[r].activityId == activityId
            && forall i :: 0 <= i < |list| ==> list[i].id != t.controllers[r].facilityId)
  {
    EntriesOfList(RowIds(t.facilities, activityId), list);
    var t', f := AfterEdit(t, activityId, list, updateInfo), t.controllers[r].facilityId;
    assert f in t.facilities && f > 0;
    assert r in t'.controllers <==> f in t'.facilities;
    if f in Entries(list) {
      var i :| 0 <= i < |list| && list[i].id == f;
    }
  }

  lemma EditedRows(facilities: map<nat, Facility>, next: nat, activityId: nat, list: seq<Facility>)
    requires KeysBelow(facilities, next) && (forall id :: id in facilities ==> facilities[id].id == id)
    ensures var result := Edited(facilities, next, activityId, list);
      && KeysBelow(result, next + |Fresh(list)|)
      && (forall id :: id in result ==> result[id].id == id)
      && (forall id :: id in result && id in facilities ==> result[id].activityId == facilities[id].activityId)
  {
    hide Entries, Fresh;
  }

  lemma CascadeKeepsOk(controllers: map<nat, AtcRow>, before: map<nat, Facility>, after: map<nat, Facility>)
    requires ControllersOk(controllers, before)
    requires forall id :: id in after && id in before ==> after[id].activityId == before[id].activityId
    ensures ControllersOk(Cascade(controllers, after), after)
  {
  }

  lemma EditKeepsOk(t: Tables, activityId: nat, list: seq<Facility>, updateInfo: InfoDiff)
    requires TablesOk(t)
    ensures TablesOk(AfterEdit(t, activityId, list, updateInfo))
  {
    hide Edited, Fresh, PilotsOk, ControllersOk, WithInfo;
    EditedRows(t.facilities, t.nextFacility, activityId, list);
    CascadeKeepsOk(t.controllers, t.facilities, Edited(t.facilities, t.nextFacility, activityId, list));
  }

  lemma SignControllerKeepsOk(t: Tables, facilityId: nat, cid: int, rating: int)
    requires TablesOk(t)
    ensures TablesOk(After(t, SignController(facilityId, cid, rating)).0)
  {
    hide PilotsOk;
    if facilityId in t.facilities {
      var activityId := t.facilities[facilityId].activityId;
      forall r | r in t.controllers && t.controllers[r].activityId == activityId && t.controllers[r].cid == cid
        ensures AtcRowsOf(t, activityId, cid) != {}
      {
        assert r in AtcRowsOf(t, activityId, cid);
      }
    }
  }

  lemma SignPilotKeepsOk(t: Tables, activityId: nat, cid: int, callsign: string, aircraftType: string)
    requires TablesOk(t)
    ensures TablesOk(After(t, SignPilot(activityId, cid, callsign, aircraftType)).0)
  {
    forall r | r in t.pilots && t.pilots[r].activityId == activityId
               && (t.pilots[r].cid == cid || t.pilots[r].callsign == callsign)
      ensures PilotRowsClashing(t, activityId, cid, callsign) != {}
    {
      assert r in PilotRowsClashing(t, activityId, cid, callsign);
    }
  }

  lemma StepKeepsOk(t: Tables, step: Step)
    requires TablesOk(t)
    ensures TablesOk(After(t, step).0)
  {
    match step {
      case SignController(facilityId, cid, rating) => SignControllerKeepsOk(t, facilityId, cid, rating);
      case SignPilot(activityId, cid, callsign, aircraftType) =>
        SignPilotKeepsOk(t, activityId, cid, callsign, aircraftType);
      case Edit(activityId, list, updateInfo) =>
        if Consistent(RowIds(t.facilities, activityId), list) {
          EditKeepsOk(t, activityId, list, updateInfo);
        }
      case _ =>
    }
  }

  ghost function Run(t: Tables, steps: seq<Step>): Tables
    requires TablesOk(t)
    decreases |steps|
  {
    if steps == [] then t
    else
      StepKeepsOk(t, steps[0]);
      Run(After(t, steps[0]).0, steps[1..])
  }

  const EMPTY_TABLES: Tables := Tables(map[], map[], 1, map[], 1, map[], 1)

  /** The tables are in order after every run of serialised sign-up, leave and edit steps. */
  lemma {:induction false} RunKeepsOk(t: Tables, steps: seq<Step>)
    requires TablesOk(t)
    ensures TablesOk(Run(t, steps))
    decreases |steps|
  {
    if steps != [] {
      StepKeepsOk(t, steps[0]);
      RunKeepsOk(After(t, steps[0]).0, steps[1..]);
    }
  }

  /** After an accepted edit the row of the activity is what the loaded activity has become in memory, and the rows
    * of other activities are untouched. */
  lemma EditStoresInfo(t: Tables, activityId: nat, list: seq<Facility>, updateInfo: InfoDiff, wanted: Info, other: nat)
    requires TablesOk(t) && Consistent(RowIds(t.facilities, activityId), list) && activityId in t.activities
    requires Difference(updateInfo, t.activities[activityId], Merged(wanted, t.activities[activityId]))
    ensures var t' := AfterEdit(t, activityId, list, updateInfo);
      && t'.activities.Keys == t.activities.Keys
      && t'.activities[activityId] == Merged(wanted, t.activities[activityId])
      && (other in t.activities && other != activityId ==> t'.activities[other] == t.activities[other])
  {
    InfoWritten(updateInfo, wanted, t.activities[activityId]);
  }

  /** Leaving a facility right after signing for it restores the sign-ups of every controller. */
  lemma UnsignUndoesSign(t: Tables, facilityId: nat, cid: int, rating: int)
    requires TablesOk(t) && After(t, SignController(facilityId, cid, rating)).1 == Done
    ensures var t1 := After(t, SignController(facilityId, cid, rating)).0;
      After(t1, UnsignController(facilityId, cid)) == (t1.(controllers := t.controllers), Done)
  {
    var t1 := After(t, SignController(facilityId, cid, rating)).0;
    var r := t.nextController;
    assert r in AtcRowsAt(t1, facilityId);
    assert forall q :: q in t.controllers ==> t.controllers[q].facilityId != facilityId;
    assert AtcRowsAt(t1, facilityId) == {r};
    assert t1.controllers - {r} == t.controllers;
  }

  // ---------------------------------------------------------------- what each step does, and when it is refused

  /** A refused step writes nothing, in any table. */
  lemma RefusedTouchesNothing(t: Tables, step: Step)
    requires TablesOk(t) && After(t, step).1 != Done
    ensures After(t, step).0 == t
  {
  }

  /** An edit is refused exactly for a non-zero id that is no facility of the activity or comes twice. */
  lemma EditRefusedExactly(t: Tables, activityId: nat, list: seq<Facility>, updateInfo: InfoDiff)
    requires TablesOk(t)
    ensures var outcome := After(t, Edit(activityId, list, updateInfo)).1;
      && (outcome == Done || outcome == InconsistentData)
      && (outcome == InconsistentData <==> exists i :: 0 <= i < |list| && Unusable(t, activityId, list, i))
  {
    var known := RowIds(t.facilities, activityId);
    if i :| 0 <= i < |list| && Unusable(t, activityId, list, i) {
      if j :| 0 <= j < i && list[j].id == list[i].id {
        assert !Consistent(known, list);
      }
    } else {
      forall i, j | 0 <= i < j < |list| && list[i].id != 0 ensures list[i].id != list[j].id {
        assert !Unusable(t, activityId, list, j);
      }
      forall i | 0 <= i < |list| && list[i].id != 0 ensures list[i].id in known {
        assert !Unusable(t, activityId, list, i);
      }
    }
  }

  /** The id of entry `i` cannot be meant. */
  ghost predicate Unusable(t: Tables, activityId: nat, list: seq<Facility>, i: nat)
    requires i < |list|
  {
    list[i].id != 0
    && (list[i].id !in t.facilities || t.facilities[list[i].id].activityId != activityId
        || exists j :: 0 <= j < i && list[j].id == list[i].id)
  }

  ghost predicate SignedInActivity(t: Tables, activityId: nat, cid: int) {
    exists r :: r in t.controllers && t.controllers[r].activityId == activityId && t.controllers[r].cid == cid
  }

  ghost predicate SignedFor(t: Tables, facilityId: nat) {
    exists r :: r in t.controllers && t.controllers[r].facilityId == facilityId
  }

  lemma SignedInActivityRows(t: Tables, activityId: nat, cid: int)
    ensures AtcRowsOf(t, activityId, cid) != {} <==> SignedInActivity(t, activityId, cid)
  {
    if r :| r in t.controllers && t.controllers[r].activityId == activityId && t.controllers[r].cid == cid {
      assert r in AtcRowsOf(t, activityId, cid);
    }
    if AtcRowsOf(t, activityId, cid) != {} {
      var r :| r in AtcRowsOf(t, activityId, cid);
    }
  }

  lemma SignedForRows(t: Tables, facilityId: nat)
    ensures AtcRowsAt(t, facilityId) != {} <==> SignedFor(t, facilityId)
  {
    if r :| r in t.controllers && t.controllers[r].facilityId == facilityId {
      assert r in AtcRowsAt(t, facilityId);
    }
    if AtcRowsAt(t, facilityId) != {} {
      var r :| r in AtcRowsAt(t, facilityId);
    }
  }

  /** Which answer signing for a facility gets: unknown facility, rating not above the minimum, user already signed in
    * the activity, facility taken, in this order; and it succeeds in all other cases. */
  lemma SignSucceedsExactly(t: Tables, facilityId: nat, cid: int, rating: int)
    requires TablesOk(t)
    ensures After(t, SignController(facilityId, cid, rating)).1 ==
      if facilityId !in t.facilities then FacilityNotFound
      else if rating <= t.facilities[facilityId].minRating then RatingNotAllowed
      else if SignedInActivity(t, t.facilities[facilityId].activityId, cid) then FacilityAlreadyExists
      else if SignedFor(t, facilityId) then FacilitySigned
      else Done
  {
    if facilityId in t.facilities {
      SignedInActivityRows(t, t.facilities[facilityId].activityId, cid);
    }
  }

  /** Signing adds one row, for this facility, its activity and this user, and changes nothing else. */
  lemma SignAddsRow(t: Tables, facilityId: nat, cid: int, rating: int)
    requires TablesOk(t) && After(t, SignController(facilityId, cid, rating)).1 == Done
    ensures var t', r := After(t, SignController(facilityId, cid, rating)).0, t.nextController;
      && r !in t.controllers && facilityId in t.facilities
      && t'.controllers == t.controllers[r := AtcRow(t.facilities[facilityId].activityId, facilityId, cid)]
      && t' == t.(controllers := t'.controllers, nextController := r + 1)
  {
  }

  /** Row `r` is the sign-up of this user for this facility. */
  ghost predicate IsSignUp(t: Tables, r: nat, facilityId: nat, cid: int) {
    r in t.controllers && t.controllers[r].facilityId == facilityId && t.controllers[r].cid == cid
  }

  /** Only the user who has signed for a facility can leave it, and leaving removes that sign-up and nothing else. */
  lemma LeaveExactly(t: Tables, facilityId: nat, cid: int)
    requires TablesOk(t)
    ensures var (t', outcome) := After(t, UnsignController(facilityId, cid));
      && outcome == (if facilityId !in t.facilities then FacilityNotFound
                     else if !SignedFor(t, facilityId) then FacilityNotSigned
                     else if !exists r :: IsSignUp(t, r, facilityId, cid) then FacilityNotYourSign
                     else Done)
      && t' == t.(controllers := t'.controllers)
      && (forall r :: r in t'.controllers
                 <==> r in t.controllers && !(outcome == Done && IsSignUp(t, r, facilityId, cid)))
      && (forall r :: r in t'.controllers ==> t'.controllers[r] == t.controllers[r])
  {
    if facilityId in t.facilities {
      SignedForRows(t, facilityId);
      var rows := AtcRowsAt(t, facilityId);
      if rows != {} {
        OneSignUp(t, facilityId);
        assert IsSignUp(t, First(rows), facilityId, t.controllers[First(rows)].cid);
      }
    }
  }

  lemma OneSignUp(t: Tables, facilityId: nat)
    requires TablesOk(t)
    ensures forall r, q :: r in AtcRowsAt(t, facilityId) && q in AtcRowsAt(t, facilityId) ==> r == q
  {
  }

  /** Row `r` is in the way of a pilot's sign-up: it has the activity and the user or the callsign. */
  ghost predicate Clashes(t: Tables, r: nat, activityId: nat, cid: int, callsign: string) {
    && r in t.pilots && t.pilots[r].activityId == activityId
    && (t.pilots[r].cid == cid || t.pilots[r].callsign == callsign)
  }

  /** The first row in the way. */
  ghost predicate FirstClash(t: Tables, r: nat, activityId: nat, cid: int, callsign: string) {
    && Clashes(t, r, activityId, cid, callsign)
    && forall q :: Clashes(t, q, activityId, cid, callsign) ==> r <= q
  }

  /** A pilot's sign-up succeeds exactly when neither user nor callsign is taken in the activity, and adds one row;
    * otherwise the first row in the way decides the answer. */
  lemma PilotSignsExactly(t: Tables, activityId: nat, cid: int, callsign: string, aircraftType: string)
    requires TablesOk(t)
    ensures var (t', outcome) := After(t, SignPilot(activityId, cid, callsign, aircraftType));
      && (outcome == Done <==> forall r :: !Clashes(t, r, activityId, cid, callsign))
      && (outcome == Done ==>
            && t.nextPilot !in t.pilots
            && t'.pilots == t.pilots[t.nextPilot := PilotRow(activityId, cid, callsign, aircraftType)]
            && t' == t.(pilots := t'.pilots, nextPilot := t.nextPilot + 1))
      && (outcome != Done ==>
            exists r :: (FirstClash(t, r, activityId, cid, callsign)
                         && outcome == if t.pilots[r].cid == cid then ActivityAlreadySigned else CallsignAlreadyUsed))
  {
    var rows := PilotRowsClashing(t, activityId, cid, callsign);
    assert forall r :: Clashes(t, r, activityId, cid, callsign) <==> r in rows;
    if rows != {} {
      assert FirstClash(t, First(rows), activityId, cid, callsign);
    } else {
      assert forall r :: r !in rows;
    }
  }

  /** Row `r` is the pilot's sign-up in the activity. */
  ghost predicate IsPilotSignUp(t: Tables, r: nat, activityId: nat, cid: int) {
    r in t.pilots && t.pilots[r].activityId == activityId && t.pilots[r].cid == cid
  }

  /** A pilot who is signed leaves: the sign-up goes, and nothing else. */
  lemma PilotLeavesExactly(t: Tables, activityId: nat, cid: int)
    requires TablesOk(t)
    ensures var (t', outcome) := After(t, UnsignPilot(activityId, cid));
      && outcome == (if exists r :: IsPilotSignUp(t, r, activityId, cid) then Done else ActivityUnsigned)
      && t' == t.(pilots := t'.pilots)
      && (forall r :: r in t'.pilots <==> r in t.pilots && !IsPilotSignUp(t, r, activityId, cid))
      && (forall r :: r in t'.pilots ==> t'.pilots[r] == t.pilots[r])
  {
    var rows := PilotRowsOf(t, activityId, cid);
    assert forall r :: IsPilotSignUp(t, r, activityId, cid) <==> r in rows;
    if rows != {} {
      assert IsPilotSignUp(t, First(rows), activityId, cid);
    } else {
      assert forall r :: r !in rows;
    }
  }

  // ---------------------------------------------------------------- the operations on the database

  /** `facilities` is the list that was loaded with the activity, in any order. */
  ghost predicate Loaded(table: map<nat, Facility>, activityId: nat, facilities: seq<Facility>) {
    && (forall i :: 0 <= i < |facilities| ==>
          facilities[i].id in RowIds(table, activityId) && table[facilities[i].id] == facilities[i])
    && (forall id :: id in RowIds(table, activityId) ==> exists i :: 0 <= i < |facilities| && facilities[i].id == id)
  }

  /** What the comparison loop prepares for the transaction. */
  datatype Changes = Changes(deletes: set<nat>, inserts: seq<Facility>, updates: map<nat, Diff>)

  ghost predicate ChangesFor(known: map<nat, Facility>, activityId: nat, list: seq<Facility>,
                             inserts: seq<Facility>, updates: map<nat, Diff>) {
    ChangesOf(known, activityId, Entries(list), Fresh(list), inserts, updates)
  }

  /** Every new facility is inserted under the activity; the facilities that differ get their difference. */
  ghost predicate ChangesOf(known: map<nat, Facility>, activityId: nat,
                            entries: map<nat, Facility>, added: seq<Facility>,
                            inserts: seq<Facility>, updates: map<nat, Diff>) {
    && |inserts| == |added|
    && (forall k :: 0 <= k < |inserts| ==> inserts[k] == added[k].(activityId := activityId))
    && (forall id :: id in updates <==> id in entries && id in known && !FacilityEqual(entries[id], known[id]))
    && (forall id :: id in updates ==> updates[id] == FacilityDiff(entries[id], known[id]))
  }

  /** The rows after a batch Create. */
  function WithCreated(table: map<nat, Facility>, next: nat, inserts: seq<Facility>): map<nat, Facility>
    requires KeysBelow(table, next)
  {
    map id | id in table.Keys + Interval(next, |inserts|) ::
      if id in table then table[id] else Created(inserts[id - next], id)
  }

  /** The rows after the given column updates. */
  function WithUpdates(table: map<nat, Facility>, updates: map<nat, Diff>): map<nat, Facility> {
    map id | id in table :: if id in updates then ApplyDiff(table[id], updates[id]) else table[id]
  }

  /** The three writes. */
  function Written(table: map<nat, Facility>, next: nat, changes: Changes): map<nat, Facility>
    requires KeysBelow(table, next)
  {
    WithUpdates(WithCreated(table - changes.deletes, next, changes.inserts), changes.updates)
  }

  /** The changes that the comparison with the loaded facilities `known` prepares. */
  ghost predicate Prepared(table: map<nat, Facility>, activityId: nat, list: seq<Facility>,
                           known: map<nat, Facility>, changes: Changes) {
    && known.Keys == RowIds(table, activityId)
    && (forall id :: id in known ==> known[id] == table[id])
    && changes.deletes == known.Keys - Entries(list).Keys
    && ChangesFor(known, activityId, list, changes.inserts, changes.updates)
  }

  lemma WrittenKeys(table: map<nat, Facility>, next: nat, activityId: nat, list: seq<Facility>,
                    known: map<nat, Facility>, changes: Changes)
    requires KeysBelow(table, next) && Prepared(table, activityId, list, known, changes)
    ensures Written(table, next, changes).Keys == Edited(table, next, activityId, list).Keys
  {
    hide Fresh, Entries, ApplyDiff, FacilityDiff, FacilityEqual, Overwritten;
  }

  lemma WrittenRow(table: map<nat, Facility>, next: nat, activityId: nat, list: seq<Facility>,
                   known: map<nat, Facility>, changes: Changes, id: nat)
    requires KeysBelow(table, next) && Prepared(table, activityId, list, known, changes)
    requires id in Written(table, next, changes) && id in Edited(table, next, activityId, list)
    ensures Written(table, next, changes)[id] == Edited(table, next, activityId, list)[id]
  {
    hide Fresh, Entries, ApplyDiff, FacilityDiff, FacilityEqual, Overwritten;
    if id in known {
      DiffOverwrites(Entries(list)[id], table[id]);
    }
  }

  /** The three writes together give the reconciled table. */
  lemma ChangesReconcile(table: map<nat, Facility>, next: nat, activityId: nat, list: seq<Facility>,
                         known: map<nat, Facility>, changes: Changes)
    requires KeysBelow(table, next) && Prepared(table, activityId, list, known, changes)
    ensures Written(table, next, changes) == Edited(table, next, activityId, list)
  {
    hide Written, Edited, Prepared;
    WrittenKeys(table, next, activityId, list, known, changes);
    forall id | id in Written(table, next, changes)
      ensures Written(table, next, changes)[id] == Edited(table, next, activityId, list)[id]
    {
      WrittenRow(table, next, activityId, list, known, changes, id);
    }
  }

  // One round of the comparison loop, for a new facility and for a known one.

  lemma ChangesInsert(known: map<nat, Facility>, activityId: nat, list: seq<Facility>,
                      inserts: seq<Facility>, updates: map<nat, Diff>)
    requires list != [] && list[|list| - 1].id == 0
    requires ChangesFor(known, activityId, list[..|list| - 1], inserts, updates)
    ensures ChangesFor(known, activityId, list, inserts + [list[|list| - 1].(activityId := activityId)], updates)
    ensures Entries(list) == Entries(list[..|list| - 1])
  {
    hide FacilityEqual, FacilityDiff, Entries, Fresh, ChangesOf;
    LastEntry(list);
    InsertOne(known, activityId, Entries(list), Fresh(list[..|list| - 1]), inserts, updates, list[|list| - 1]);
  }

  lemma InsertOne(known: map<nat, Facility>, activityId: nat, entries: map<nat, Facility>, added: seq<Facility>,
                  inserts: seq<Facility>, updates: map<nat, Diff>, last: Facility)
    requires ChangesOf(known, activityId, entries, added, inserts, updates)
    ensures ChangesOf(known, activityId, entries, added + [last], inserts + [last.(activityId := activityId)], updates)
  {
    hide FacilityEqual, FacilityDiff;
  }

  lemma UpdateOne(known: map<nat, Facility>, activityId: nat, entries: map<nat, Facility>, added: seq<Facility>,
                  inserts: seq<Facility>, updates: map<nat, Diff>, entry: Facility)
    requires entry.id in known && entry.id !in entries
    requires ChangesOf(known, activityId, entries, added, inserts, updates)
    ensures ChangesOf(known, activityId, entries[entry.id := entry], added, inserts,
              if FacilityEqual(entry, known[entry.id]) then updates
              else updates[entry.id := FacilityDiff(entry, known[entry.id])])
  {
    hide FacilityEqual, FacilityDiff;
  }

  lemma LastEntry(list: seq<Facility>)
    requires list != []
    ensures var last, front := list[|list| - 1], list[..|list| - 1];
      && Entries(list) == (if last.id == 0 then Entries(front) else Entries(front)[last.id := last])
      && Fresh(list) == (if last.id == 0 then Fresh(front) + [last] else Fresh(front))
  {
    assert Fresh(list[..|list| - 1]) + [] == Fresh(list[..|list| - 1]);
  }

  lemma ChangesUpdate(known: map<nat, Facility>, activityId: nat, list: seq<Facility>,
                      inserts: seq<Facility>, updates: map<nat, Diff>)
    requires list != [] && list[|list| - 1].id in known && list[|list| - 1].id != 0
    requires list[|list| - 1].id !in Entries(list[..|list| - 1])
    requires ChangesFor(known, activityId, list[..|list| - 1], inserts, updates)
    ensures var entry := list[|list| - 1];
      && ChangesFor(known, activityId, list, inserts,
           if FacilityEqual(entry, known[entry.id]) then updates
           else updates[entry.id := FacilityDiff(entry, known[entry.id])])
      && Entries(list) == Entries(list[..|list| - 1])[entry.id := entry]
  {
    hide FacilityEqual, FacilityDiff, Entries, Fresh, ChangesOf;
    var front := list[..|list| - 1];
    LastEntry(list);
    UpdateOne(known, activityId, Entries(front), Fresh(front), inserts, updates, list[|list| - 1]);
  }

  lemma ChangesFit(table: map<nat, Facility>, next: nat, activityId: nat, list: seq<Facility>,
                   known: map<nat, Facility>, changes: Changes)
    requires KeysBelow(table, next) && Prepared(table, activityId, list, known, changes)
    ensures |changes.inserts| == |Fresh(list)|
    ensures changes.updates.Keys <= WithCreated(table - changes.deletes, next, changes.inserts).Keys
  {
    hide Fresh, Entries;
  }

  lemma AsPrepared(table: map<nat, Facility>, activityId: nat, list: seq<Facility>,
                   known: map<nat, Facility>, changes: Changes)
    requires known.Keys == RowIds(table, activityId) && (forall id :: id in known ==> known[id] == table[id])
    requires changes.deletes == known.Keys - Entries(list).Keys
    requires ChangesFor(known, activityId, list, changes.inserts, changes.updates)
    ensures Prepared(table, activityId, list, known, changes)
  {
  }

  /** The tables after the transaction. */
  function Committed(t: Tables, activityId: nat, updateInfo: InfoDiff, changes: Changes): Tables
    requires KeysBelow(t.facilities, t.nextFacility)
  {
    var facilities := Written(t.facilities, t.nextFacility, changes);
    t.(activities := WithInfo(t.activities, activityId, updateInfo),
       facilities := facilities, nextFacility := t.nextFacility + |changes.inserts|,
       controllers := Cascade(t.controllers, facilities))
  }

  lemma EditWritten(t: Tables, activityId: nat, list: seq<Facility>, updateInfo: InfoDiff,
                    known: map<nat, Facility>, changes: Changes)
    requires KeysBelow(t.facilities, t.nextFacility) && Prepared(t.facilities, activityId, list, known, changes)
    ensures Committed(t, activityId, updateInfo, changes) == AfterEdit(t, activityId, list, updateInfo)
  {
    hide Prepared, Written, Edited, Cascade, WithInfo, Fresh, WithCreated;
    ChangesReconcile(t.facilities, t.nextFacility, activityId, list, known, changes);
    ChangesFit(t.facilities, t.nextFacility, activityId, list, known, changes);
  }

  lemma LoadedAgree(table: map<nat, Facility>, activityId: nat, facilities: seq<Facility>)
    requires Loaded(table, activityId, facilities)
    ensures forall i, j :: 0 <= i < |facilities| && 0 <= j < |facilities| && facilities[i].id == facilities[j].id
              ==> facilities[i] == facilities[j]
  {
  }

  lemma LoadedKeys(table: map<nat, Facility>, activityId: nat, facilities: seq<Facility>, known: map<nat, Facility>)
    requires Loaded(table, activityId, facilities)
    requires forall i :: 0 <= i < |facilities| ==> facilities[i].id in known && known[facilities[i].id] == facilities[i]
    requires forall id :: id in known ==> exists i :: 0 <= i < |facilities| && facilities[i].id == id
    ensures known.Keys == RowIds(table, activityId)
    ensures forall id :: id in known ==> known[id] == table[id]
  {
  }

  class ActivityOperation {
    var db: Tables

    constructor ()
      ensures TablesOk(db) && db == EMPTY_TABLES
    {
      db := EMPTY_TABLES;
    }

    /** The map of the old facilities by id. */
    static method MapById(oldFacilities: seq<Facility>) returns (oldFacilityMap: map<nat, Facility>)
      requires forall i, j ::
        0 <= i < |oldFacilities| && 0 <= j < |oldFacilities| && oldFacilities[i].id == oldFacilities[j].id ==>
          oldFacilities[i] == oldFacilities[j]
      ensures forall i :: 0 <= i < |oldFacilities| ==>
        oldFacilities[i].id in oldFacilityMap && oldFacilityMap[oldFacilities[i].id] == oldFacilities[i]
      ensures forall id :: id in oldFacilityMap ==> exists i :: 0 <= i < |oldFacilities| && oldFacilities[i].id == id
    {
      oldFacilityMap := map[];
      for i := 0 to |oldFacilities|
        invariant forall k :: 0 <= k < i ==>
          oldFacilities[k].id in oldFacilityMap && oldFacilityMap[oldFacilities[k].id] == oldFacilities[k]
        invariant forall id :: id in oldFacilityMap ==> exists k :: 0 <= k < i && oldFacilities[k].id == id
      {
        oldFacilityMap := oldFacilityMap[oldFacilities[i].id := oldFacilities[i]];
      }
    }

    /** The loop before the transaction: it fills the insert list and the update map and shrinks
      * the map of old facilities to those that are to be deleted. */
    static method Compare(known: map<nat, Facility>, list: seq<Facility>, activityId: nat)
      returns (outcome: Outcome, changes: Changes)
      ensures outcome == if Consistent(known.Keys, list) then Done else InconsistentData
      ensures outcome == Done ==>
        changes.deletes == known.Keys - Entries(list).Keys
        && ChangesFor(known, activityId, list, changes.inserts, changes.updates)
    {
      var oldFacilityMap := known;
      var inserts: seq<Facility>, updates: map<nat, Diff> := [], map[];
      changes := Changes({}, [], map[]);
      for i := 0 to |list|
        invariant Consistent(known.Keys, list[..i])
        invariant oldFacilityMap == known - Entries(list[..i]).Keys
        invariant ChangesFor(known, activityId, list[..i], inserts, updates)
      {
        var entry := list[i];
        assert list[..i + 1][..i] == list[..i] && list[..i + 1][i] == entry;
        ConsistentExtends(known.Keys, list, i);
        hide Consistent, FacilityEqual, FacilityDiff, ChangesFor, Entries, Fresh;
        if entry.id == 0 {
          ChangesInsert(known, activityId, list[..i + 1], inserts, updates);
          inserts := inserts + [entry.(activityId := activityId)];
        } else if entry.id in oldFacilityMap {
          var oldFacility := oldFacilityMap[entry.id];
          ChangesUpdate(known, activityId, list[..i + 1], inserts, updates);
          if !FacilityEqual(entry, oldFacility) {
            updates := updates[entry.id := FacilityDiff(entry, oldFacility)];
          }
          oldFacilityMap := oldFacilityMap - {entry.id};
        } else {
          InconsistentPrefix(known.Keys, list, i + 1);
          return InconsistentData, changes;
        }
      }
      assert list[..|list|] == list;
      return Done, Changes(oldFacilityMap.Keys, inserts, updates);
    }

    static method Create(table: map<nat, Facility>, next: nat, inserts: seq<Facility>)
      returns (result: map<nat, Facility>)
      requires KeysBelow(table, next)
      ensures result == WithCreated(table, next, inserts)
    {
      result := table;
      for i := 0 to |inserts|
        invariant result == WithCreated(table, next, inserts[..i])
      {
        result := result[next + i := Created(inserts[i], next + i)];
      }
      assert inserts[..|inserts|] == inserts;
    }

    static method Update(table: map<nat, Facility>, updates: map<nat, Diff>) returns (result: map<nat, Facility>)
      requires updates.Keys <= table.Keys
      ensures result == WithUpdates(table, updates)
    {
      result := table;
      var pending := updates.Keys;
      while pending != {}
        invariant pending <= updates.Keys
        invariant result == map id | id in table ::
          if id in updates && id !in pending then ApplyDiff(table[id], updates[id]) else table[id]
        decreases pending
      {
        var id :| id in pending;
        result := result[id := ApplyDiff(result[id], updates[id])];
        pending := pending - {id};
      }
    }

    method UpdateActivityInfo(oldFacilities: seq<Facility>, list: seq<Facility>, activityId: nat, updateInfo: InfoDiff)
      returns (outcome: Outcome)
      requires TablesOk(db) && Loaded(db.facilities, activityId, oldFacilities)
      modifies this
      ensures TablesOk(db)
      ensures (db, outcome) == old(After(db, Edit(activityId, list, updateInfo)))
    {
      StepKeepsOk(db, Edit(activityId, list, updateInfo));
      LoadedAgree(db.facilities, activityId, oldFacilities);
      hide TablesOk, Consistent, ChangesFor, Entries, Loaded, RowIds, Prepared, AfterEdit, Written, WithCreated;
      var known := MapById(oldFacilities);
      LoadedKeys(db.facilities, activityId, oldFacilities, known);
      var changes;
      outcome, changes := Compare(known, list, activityId);
      if outcome == Done {
        AsPrepared(db.facilities, activityId, list, known, changes);
        ChangesFit(db.facilities, db.nextFacility, activityId, list, known, changes);
        EditWritten(db, activityId, list, updateInfo, known, changes);
        Transaction(activityId, updateInfo, changes);
      }
    }

    /** The writes of the transaction: base information, delete with its cascade, create, update. */
    method Transaction(activityId: nat, updateInfo: InfoDiff, changes: Changes)
      requires KeysBelow(db.facilities, db.nextFacility)
      requires changes.updates.Keys
            <= WithCreated(db.facilities - changes.deletes, db.nextFacility, changes.inserts).Keys
      modifies this
      ensures db == old(Committed(db, activityId, updateInfo, changes))
    {
      hide Cascade, WithInfo;
      var activities := WithInfo(db.activities, activityId, updateInfo);
      var facilities := db.facilities - changes.deletes;
      facilities := Create(facilities, db.nextFacility, changes.inserts);
      facilities := Update(facilities, changes.updates);
      db := db.(activities := activities, facilities := facilities,
                nextFacility := db.nextFacility + |changes.inserts|,
                controllers := Cascade(db.controllers, facilities));
    }

    /** The row a query ending in `First` returns. */
    static method FindFirst(rows: set<nat>) returns (first: nat)
      requires rows != {}
      ensures first == First(rows)
    {
      first :| first in rows;
      var rest := rows - {first};
      while rest != {}
        invariant first in rows && rest <= rows
        invariant forall r :: r in rows && r !in rest ==> first <= r
        decreases rest
      {
        var r :| r in rest;
        if r < first {
          first := r;
        }
        rest := rest - {r};
      }
    }

    method SignFacilityController(facilityId: nat, cid: int, rating: int) returns (outcome: Outcome)
      requires TablesOk(db)
      modifies this
      ensures TablesOk(db)
      ensures (db, outcome) == old(After(db, SignController(facilityId, cid, rating)))
    {
      StepKeepsOk(db, SignController(facilityId, cid, rating));
      if facilityId !in db.facilities {
        return FacilityNotFound;
      }
      var facility := db.facilities[facilityId];
      if rating <= facility.minRating {
        return RatingNotAllowed;
      }
      var signed := AtcRowsOf(db, facility.activityId, cid);
      if signed != {} {
        return FacilityAlreadyExists;
      }
      if exists r :: r in db.controllers && db.controllers[r].activityId == facility.activityId
                     && db.controllers[r].facilityId == facilityId {
        return FacilitySigned;
      }
      db := db.(controllers := db.controllers[db.nextController := AtcRow(facility.activityId, facilityId, cid)],
                nextController := db.nextController + 1);
      return Done;
    }

    method UnsignFacilityController(facilityId: nat, cid: int) returns (outcome: Outcome)
      requires TablesOk(db)
      modifies this
      ensures TablesOk(db)
      ensures (db, outcome) == old(After(db, UnsignController(facilityId, cid)))
    {
      StepKeepsOk(db, UnsignController(facilityId, cid));
      if facilityId !in db.facilities {
        return FacilityNotFound;
      }
      var rows := AtcRowsAt(db, facilityId);
      if rows == {} {
        return FacilityNotSigned;
      }
      var controller := FindFirst(rows);
      if db.controllers[controller].cid != cid {
        return FacilityNotYourSign;
      }
      db := db.(controllers := db.controllers - {controller});
      return Done;
    }

    method SignActivityPilot(activityId: nat, cid: int, callsign: string, aircraftType: string)
      returns (outcome: Outcome)
      requires TablesOk(db)
      modifies this
      ensures TablesOk(db)
      ensures (db, outcome) == old(After(db, SignPilot(activityId, cid, callsign, aircraftType)))
    {
      StepKeepsOk(db, SignPilot(activityId, cid, callsign, aircraftType));
      var rows := PilotRowsClashing(db, activityId, cid, callsign);
      if rows != {} {
        var pilot := FindFirst(rows);
        return if db.pilots[pilot].cid == cid then ActivityAlreadySigned else CallsignAlreadyUsed;
      }
      db := db.(pilots := db.pilots[db.nextPilot := PilotRow(activityId, cid, callsign, aircraftType)],
                nextPilot := db.nextPilot + 1);
      return Done;
    }

    method UnsignActivityPilot(activityId: nat, cid: int) returns (outcome: Outcome)
      requires TablesOk(db)
      modifies this
      ensures TablesOk(db)
      ensures (db, outcome) == old(After(db, UnsignPilot(activityId, cid)))
    {
      StepKeepsOk(db, UnsignPilot(activityId, cid));
      var rows := PilotRowsOf(db, activityId, cid);
      if rows == {} {
        return ActivityUnsigned;
      }
      var pilot := FindFirst(rows);
      db := db.(pilots := db.pilots - {pilot});
      return Done;
    }
  }
}
