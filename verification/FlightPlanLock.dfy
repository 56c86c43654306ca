/** Flight-plan locking: a client's in-memory plan, the stored row it shadows, pilot submissions
  * and the two controller edits (internal/database/flight_plan_operation.go,
  * internal/fsd_server/packet/client.go, command_handler.go).
  *
  * A store holds at most one row per user. Writes to the store do not fail.
  */
module FlightPlanLock {
  import opened Wrappers
  import opened FlightPlanCodec
  import opened Packet

  datatype Outcome = Done | TooShort | PlanLocked

  // ---------------------------------------------------------------- the steps, on values

  /** One user's plan: the row and what the connected client remembers of it. */
  datatype State = State(stored: Option<Plan>, memory: Option<Plan>)

  datatype Step =
    | Submit(data: seq<string>)
    | AtcEdit(data: seq<string>)
    | CruiseEdit(altitude: string)

  function FreshPlan(cid: int, callsign: string): Plan {
    Plan(cid, callsign, "", "", 0, "", 0, 0, "", "", "", "", "", "", "", "", "", false, false)
  }

  predicate SameRoute(plan: Plan, data: seq<string>)
    requires |data| >= 10
  {
    plan.departureAirport == data[5] && plan.arrivalAirport == data[9]
  }

  /** `FlightPlanOperation.UpsertFlightPlan`: a row found in the store is overwritten, locked or not. */
  function Upserted(sim: bool, cid: int, callsign: string, stored: Option<Plan>, data: seq<string>): Plan
    requires |data| >= PLAN_LENGTH
  {
    WithData(if !sim && stored.Some? then stored.value else FreshPlan(cid, callsign), data)
  }

  /** `FlightPlanOperation.UpdateFlightPlan` on the remembered plan. */
  function Updated(sim: bool, stored: Option<Plan>, plan: Plan, data: seq<string>, atcEdit: bool): (State, Outcome) {
    if |data| < PLAN_LENGTH then (State(stored, Some(plan)), TooShort)
    else if !sim && !atcEdit && plan.locked then (State(stored, Some(plan)), PlanLocked)
    else
      var plan' := WithData(plan, data);
      (State(if sim then stored else Some(plan'), Some(plan')), Done)
  }

  /** `Client.UpsertFlightPlan`. Reading the route of a locked plan needs ten parts. */
  function AfterSubmit(sim: bool, cid: int, callsign: string, s: State, data: seq<string>): (State, Outcome)
    requires !sim && s.memory.Some? && s.memory.value.locked ==> |data| >= 10
  {
    match s.memory
    case None =>
      if |data| < PLAN_LENGTH then (s, TooShort)
      else
        var plan := Upserted(sim, cid, callsign, s.stored, data);
        (State(if sim then s.stored else Some(plan), Some(plan)), Done)
    case Some(plan) =>
      if sim then (s, Done)
      else if plan.locked && !SameRoute(plan, data) then Updated(sim, s.stored, plan.(locked := false), data, false)
      else Updated(sim, s.stored, plan, data, false)
  }

  /** `handleAtcEditPlan` for a target that has a plan. */
  function AfterAtcEdit(sim: bool, s: State, data: seq<string>): (State, Outcome)
    requires s.memory.Some? && data != []
  {
    Updated(sim, s.stored, s.memory.value.(locked := !sim), data[1..], true)
  }

  /** `UpdateCruiseAltitude`: it writes two columns of the row, not the whole plan. */
  function AfterCruiseEdit(sim: bool, s: State, altitude: string): (State, Outcome)
    requires s.memory.Some?
  {
    var plan := s.memory.value.(cruiseAltitude := altitude);
    if sim then (State(s.stored, Some(plan)), Done)
    else
      match s.stored
      case None => (State(None, Some(plan.(locked := true))), PlanLocked)
      case Some(row) =>
        (State(Some(row.(cruiseAltitude := altitude, locked := true)), Some(plan.(locked := true))), Done)
  }

  // ---------------------------------------------------------------- the objects

  /** What a Go `*FlightPlan` points to: the struct, updated in place field by field. */
  class FlightPlan {
    var fields: Plan

    constructor FromRow(row: Plan)
      ensures fields == row
    {
      fields := row;
    }

    method UpdateFlightPlanData(data: seq<string>)
      requires |data| >= PLAN_LENGTH
      modifies this
      ensures fields == WithData(old(fields), data)
    {
      hide StrToInt;
      fields := fields.(flightType := data[2]);
      fields := fields.(aircraftType := data[3]);
      fields := fields.(tas := StrToInt(data[4], 100));
      fields := fields.(departureAirport := data[5]);
      fields := fields.(departureTime := StrToInt(data[6], 0));
      fields := fields.(atcDepartureTime := StrToInt(data[7], 0));
      fields := fields.(cruiseAltitude := data[8]);
      fields := fields.(arrivalAirport := data[9]);
      fields := fields.(routeTimeHour := data[10]);
      fields := fields.(routeTimeMinute := data[11]);
      fields := fields.(fuelTimeHour := data[12]);
      fields := fields.(fuelTimeMinute := data[13]);
      fields := fields.(alternateAirport := data[14]);
      fields := fields.(remarks := data[15]);
      fields := fields.(route := data[16]);
    }
  }

  function RowOf(rows: map<int, Plan>, cid: int): Option<Plan> {
    if cid in rows then Some(rows[cid]) else None
  }

  /** The rows are keyed by user. */
  class FlightPlanOperation {
    const simulatorServer: bool
    var rows: map<int, Plan>

    constructor (simulatorServer: bool)
      ensures this.simulatorServer == simulatorServer && rows == map[]
    {
      this.simulatorServer, rows := simulatorServer, map[];
    }

    method UpsertFlightPlan(cid: int, callsign: string, data: seq<string>) returns (outcome: Outcome, plan: FlightPlan?)
      modifies this
      ensures |data| < PLAN_LENGTH ==> outcome == TooShort && plan == null && rows == old(rows)
      ensures |data| >= PLAN_LENGTH ==>
        && outcome == Done && plan != null && fresh(plan)
        && plan.fields == Upserted(simulatorServer, cid, callsign, old(RowOf(rows, cid)), data)
        && rows == if simulatorServer then old(rows) else old(rows)[cid := plan.fields]
    {
      if |data| < PLAN_LENGTH {
        return TooShort, null;
      }
      if !simulatorServer && cid in rows {
        plan := new FlightPlan.FromRow(rows[cid]);
      } else {
        plan := new FlightPlan.FromRow(FreshPlan(cid, callsign));
      }
      plan.UpdateFlightPlanData(data);
      outcome := Done;
      if simulatorServer {
        return;
      }
      rows := rows[cid := plan.fields];
    }

    method UpdateFlightPlan(plan: FlightPlan, data: seq<string>, atcEdit: bool) returns (outcome: Outcome)
      modifies this, plan
      ensures plan.fields.cid == old(plan.fields.cid)
      ensures (State(RowOf(rows, plan.fields.cid), Some(plan.fields)), outcome)
           == Updated(simulatorServer, old(RowOf(rows, plan.fields.cid)), old(plan.fields), data, atcEdit)
      ensures forall cid :: cid != plan.fields.cid ==> RowOf(rows, cid) == old(RowOf(rows, cid))
    {
      hide WithData;
      if |data| < PLAN_LENGTH {
        return TooShort;
      }
      if !simulatorServer && !atcEdit && plan.fields.locked {
        return PlanLocked;
      }
      plan.UpdateFlightPlanData(data);
      DataKeepsCid(old(plan.fields), data);
      if simulatorServer {
        return Done;
      }
      rows := rows[plan.fields.cid := plan.fields];
      return Done;
    }

    method UpdateCruiseAltitude(plan: FlightPlan, altitude: string) returns (outcome: Outcome)
      modifies this, plan
      ensures plan.fields.cid == old(plan.fields.cid)
      ensures (State(RowOf(rows, plan.fields.cid), Some(plan.fields)), outcome)
           == AfterCruiseEdit(simulatorServer, old(State(RowOf(rows, plan.fields.cid), Some(plan.fields))), altitude)
      ensures forall cid :: cid != plan.fields.cid ==> RowOf(rows, cid) == old(RowOf(rows, cid))
    {
      plan.fields := plan.fields.(cruiseAltitude := altitude);
      if simulatorServer {
        return Done;
      }
      plan.fields := plan.fields.(locked := true);
      if plan.fields.cid !in rows {
        return PlanLocked;
      }
      rows := rows[plan.fields.cid := rows[plan.fields.cid].(cruiseAltitude := altitude, locked := true)];
      return Done;
    }
  }

  lemma DataKeepsCid(plan: Plan, data: seq<string>)
    requires |data| >= PLAN_LENGTH
    ensures WithData(plan, data).cid == plan.cid
  {
  }

  /** The part of a client that handles its flight plan. */
  class Client {
    const cid: int
    const callsign: string
    const operation: FlightPlanOperation
    var flightPlan: FlightPlan?

    ghost predicate Valid()
      reads this, flightPlan
    {
      flightPlan != null ==> flightPlan.fields.cid == cid
    }

    ghost function Abs(): State
      reads this, operation, flightPlan
    {
      State(RowOf(operation.rows, cid), if flightPlan == null then None else Some(flightPlan.fields))
    }

    ghost function Owned(): set<object>
      reads this
    {
      {this, operation} + if flightPlan == null then {} else {flightPlan}
    }

    /** A pilot's client starts from the stored plan, except on a simulator server. */
    constructor (cid: int, callsign: string, operation: FlightPlanOperation)
      requires forall c :: c in operation.rows ==> operation.rows[c].cid == c
      ensures Valid()
      ensures this.cid == cid && this.callsign == callsign && this.operation == operation
      ensures Abs() == old(State(RowOf(operation.rows, cid),
                                 if operation.simulatorServer then None else RowOf(operation.rows, cid)))
    {
      this.cid, this.callsign, this.operation := cid, callsign, operation;
      var plan: FlightPlan? := null;
      if !operation.simulatorServer && cid in operation.rows {
        plan := new FlightPlan.FromRow(operation.rows[cid]);
      }
      flightPlan := plan;
    }

    method UpsertFlightPlan(data: seq<string>) returns (outcome: Outcome)
      requires Valid()
      requires !operation.simulatorServer && flightPlan != null && flightPlan.fields.locked ==> |data| >= 10
      requires flightPlan == null && !operation.simulatorServer && cid in operation.rows
               ==> operation.rows[cid].cid == cid
      modifies Owned()
      ensures Valid()
      ensures (Abs(), outcome) == AfterSubmit(operation.simulatorServer, cid, callsign, old(Abs()), data)
    {
      hide WithData;
      if flightPlan == null {
        var plan;
        outcome, plan := operation.UpsertFlightPlan(cid, callsign, data);
        if outcome != Done {
          return;
        }
        DataKeepsCid(if !operation.simulatorServer && old(RowOf(operation.rows, cid)).Some?
                     then old(RowOf(operation.rows, cid)).value else FreshPlan(cid, callsign), data);
        flightPlan := plan;
        return;
      }
      if operation.simulatorServer {
        return Done;
      }
      if flightPlan.fields.locked {
        var departureAirport := data[5];
        var arrivalAirport := data[9];
        if flightPlan.fields.departureAirport != departureAirport
           || flightPlan.fields.arrivalAirport != arrivalAirport {
          flightPlan.fields := flightPlan.fields.(locked := false);
        }
      }
      outcome := operation.UpdateFlightPlan(flightPlan, data, false);
    }

    /** The body of `handleAtcEditPlan` once the target has been found. */
    method HandleAtcEditPlan(data: seq<string>) returns (outcome: Outcome)
      requires Valid() && flightPlan != null && data != []
      modifies operation, flightPlan
      ensures Valid()
      ensures (Abs(), outcome) == AfterAtcEdit(operation.simulatorServer, old(Abs()), data)
    {
      flightPlan.fields := flightPlan.fields.(locked := !operation.simulatorServer);
      outcome := operation.UpdateFlightPlan(flightPlan, data[1..], true);
    }

    /** The cruise-altitude branch of `handleClientQuery` once the target has been found. */
    method HandleCruiseEdit(altitude: string) returns (outcome: Outcome)
      requires Valid() && flightPlan != null
      modifies operation, flightPlan
      ensures Valid()
      ensures (Abs(), outcome) == AfterCruiseEdit(operation.simulatorServer, old(Abs()), altitude)
    {
      outcome := operation.UpdateCruiseAltitude(flightPlan, altitude);
    }
  }

  // ---------------------------------------------------------------- runs outside simulator mode

  /** The length checks that `handleCommand` makes before a handler runs
    * (internal/interfaces/fsd/constant.go), and a target that has a plan. */
  predicate Enabled(s: State, step: Step) {
    match step
    case Submit(data) => |data| >= 17
    case AtcEdit(data) => |data| >= 18 && s.memory.Some?
    case CruiseEdit(_) => s.memory.Some?
  }

  /** Those checks are the ones of the command table. */
  lemma EnabledIsAdmitted(s: State, data: seq<string>)
    ensures Enabled(s, Submit(data)) <==> Admitted("$FP", data)
    ensures s.memory.Some? ==> (Enabled(s, AtcEdit(data)) <==> Admitted("$AM", data))
  {
    PlanRequirements();
    hide RequiredLength, COMMAND_REQUIREMENTS;
  }

  function After(cid: int, callsign: string, s: State, step: Step): State
    requires Enabled(s, step)
  {
    match step
    case Submit(data) => AfterSubmit(false, cid, callsign, s, data).0
    case AtcEdit(data) => AfterAtcEdit(false, s, data).0
    case CruiseEdit(altitude) => AfterCruiseEdit(false, s, altitude).0
  }

  /** The client remembers exactly the stored row. */
  predicate Synced(s: State) {
    s.memory == s.stored
  }

  predicate Locked(s: State) {
    s.memory.Some? && s.memory.value.locked
  }

  lemma StepKeepsSynced(cid: int, callsign: string, s: State, step: Step)
    requires Synced(s) && Enabled(s, step)
    ensures Synced(After(cid, callsign, s, step))
    ensures s.memory.Some? ==> After(cid, callsign, s, step).memory.Some?
    ensures !step.Submit? ==> Locked(After(cid, callsign, s, step))
  {
    hide WithData;
    match step {
      case Submit(data) =>
      case AtcEdit(data) => DataKeepsLocked(s.memory.value.(locked := true), data[1..]);
      case CruiseEdit(_) =>
    }
  }

  lemma DataKeepsLocked(plan: Plan, data: seq<string>)
    requires |data| >= PLAN_LENGTH
    ensures WithData(plan, data).locked == plan.locked
  {
  }

  /** Without the length check of `handleCommand` memory and row come apart exactly when a locked
    * plan is submitted with another route and too few parts: the lock is dropped in memory only. */
  lemma SubmissionSyncedExactly(cid: int, callsign: string, s: State, data: seq<string>)
    requires Synced(s) && |data| >= 10
    ensures Synced(AfterSubmit(false, cid, callsign, s, data).0)
       <==> !(Locked(s) && !SameRoute(s.memory.value, data) && |data| < PLAN_LENGTH)
  {
    hide WithData;
  }

  /** A pilot's submission does nothing at all exactly when the plan is locked and the route is the current one,
    * or the plan is open and holds the submitted values already. */
  lemma SubmissionIgnoredExactly(cid: int, callsign: string, s: State, data: seq<string>)
    requires Synced(s) && s.memory.Some? && |data| >= PLAN_LENGTH
    ensures After(cid, callsign, s, Submit(data)) == s
       <==> if Locked(s) then SameRoute(s.memory.value, data) else Holds(s.memory.value, data)
  {
    DataKeepsLocked(s.memory.value.(locked := false), data);
    hide StrToInt;
  }

  /** The fifteen values of the data are in the plan, field by field. */
  predicate Holds(plan: Plan, data: seq<string>)
    requires |data| >= PLAN_LENGTH
  {
    && plan.flightType == data[2] && plan.aircraftType == data[3] && plan.tas == StrToInt(data[4], 100)
    && plan.departureAirport == data[5]
    && plan.departureTime == StrToInt(data[6], 0) && plan.atcDepartureTime == StrToInt(data[7], 0)
    && plan.cruiseAltitude == data[8] && plan.arrivalAirport == data[9]
    && plan.routeTimeHour == data[10] && plan.routeTimeMinute == data[11]
    && plan.fuelTimeHour == data[12] && plan.fuelTimeMinute == data[13]
    && plan.alternateAirport == data[14] && plan.remarks == data[15] && plan.route == data[16]
  }

  /** Everything but the fifteen fields and the lock is as before. */
  predicate SameIdentity(plan: Plan, before: Plan) {
    plan.cid == before.cid && plan.callsign == before.callsign && plan.fromWeb == before.fromWeb
  }

  /** The first submission of a client without a plan: it is refused when it is too short; otherwise the client has a
    * plan with the submitted values, in its own name or in place of the stored row, which is stored unless the
    * server is a simulator server. */
  lemma FirstSubmission(sim: bool, cid: int, callsign: string, stored: Option<Plan>, data: seq<string>)
    ensures var (s', outcome) := AfterSubmit(sim, cid, callsign, State(stored, None), data);
      && (outcome == Done || outcome == TooShort) && (outcome == TooShort <==> |data| < 17)
      && (outcome == TooShort ==> s' == State(stored, None))
      && (outcome == Done ==>
            && s'.memory.Some? && Holds(s'.memory.value, data)
            && s'.stored == (if sim then stored else s'.memory)
            && if sim || stored == None
               then s'.memory.value.cid == cid && s'.memory.value.callsign == callsign
                    && !s'.memory.value.locked && !s'.memory.value.fromWeb
               else SameIdentity(s'.memory.value, stored.value) && s'.memory.value.locked == stored.value.locked)
  {
    hide StrToInt;
  }

  /** A later submission: ignored on a simulator server, refused for a locked plan with the same route or too few
    * parts, and otherwise the plan is open, holds the submitted values and is stored. */
  lemma LaterSubmission(sim: bool, cid: int, callsign: string, stored: Option<Plan>, plan: Plan, data: seq<string>)
    requires !sim && plan.locked ==> |data| >= 10
    ensures var (s', outcome) := AfterSubmit(sim, cid, callsign, State(stored, Some(plan)), data);
      && outcome == (if sim then Done
                     else if |data| < 17 then TooShort
                     else if plan.locked && plan.departureAirport == data[5] && plan.arrivalAirport == data[9]
                     then PlanLocked
                     else Done)
      && (sim || outcome == PlanLocked ==> s' == State(stored, Some(plan)))
      && (outcome == TooShort ==> s'.stored == stored)
      && (!sim && outcome == Done ==>
            && s'.memory.Some? && s'.stored == s'.memory
            && Holds(s'.memory.value, data) && SameIdentity(s'.memory.value, plan) && !s'.memory.value.locked)
  {
    hide StrToInt;
  }

  /** A controller's edit writes what a pilot's submission with the same tail would: its own leading part shifts every
    * field by one. The plan is locked and stored, except on a simulator server, where it is open and not stored. */
  lemma EditExactly(sim: bool, stored: Option<Plan>, plan: Plan, edit: seq<string>, submission: seq<string>)
    requires |edit| >= 18 && |submission| >= 17 && edit[3..] == submission[2..]
    ensures var (s', outcome) := AfterAtcEdit(sim, State(stored, Some(plan)), edit);
      && outcome == Done && s'.memory == Some(WithData(plan.(locked := !sim), submission))
      && Holds(s'.memory.value, submission) && SameIdentity(s'.memory.value, plan) && s'.memory.value.locked == !sim
      && s'.stored == if sim then stored else s'.memory
  {
    EditWritesLikeSubmission(plan.(locked := !sim), edit, submission);
    hide StrToInt;
  }

  /** Without the length check an edit that is too short is refused, but it has locked the plan in memory. */
  lemma ShortEdit(sim: bool, stored: Option<Plan>, plan: Plan, edit: seq<string>)
    requires 0 < |edit| < 18
    ensures AfterAtcEdit(sim, State(stored, Some(plan)), edit)
         == (State(stored, Some(plan.(locked := !sim))), TooShort)
  {
  }

  /** A cruise edit writes the altitude and the lock, in memory and in the row, and nothing else; on a simulator server
    * only the altitude in memory; and it reports a missing row as a locked plan. */
  lemma CruiseEditExactly(sim: bool, stored: Option<Plan>, plan: Plan, altitude: string)
    ensures var (s', outcome) := AfterCruiseEdit(sim, State(stored, Some(plan)), altitude);
      && s'.memory == Some(plan.(cruiseAltitude := altitude, locked := plan.locked || !sim))
      && s'.stored == (if sim || stored == None then stored
                       else Some(stored.value.(cruiseAltitude := altitude, locked := true)))
      && outcome == if !sim && stored == None then PlanLocked else Done
  {
  }

  ghost predicate Runs(cid: int, callsign: string, s: State, steps: seq<Step>)
    decreases |steps|
  {
    steps == [] || (Enabled(s, steps[0]) && Runs(cid, callsign, After(cid, callsign, s, steps[0]), steps[1..]))
  }

  ghost function Final(cid: int, callsign: string, s: State, steps: seq<Step>): State
    requires Runs(cid, callsign, s, steps)
    decreases |steps|
  {
    if steps == [] then s else Final(cid, callsign, After(cid, callsign, s, steps[0]), steps[1..])
  }

  /** A submission that names the plan's current departure and arrival while the plan is locked. */
  predicate Refused(s: State, step: Step) {
    step.Submit? && |step.data| >= PLAN_LENGTH && Locked(s) && SameRoute(s.memory.value, step.data)
  }

  ghost function WithoutRefused(cid: int, callsign: string, s: State, steps: seq<Step>): seq<Step>
    requires Runs(cid, callsign, s, steps)
    decreases |steps|
  {
    if steps == [] then []
    else
      (if Refused(s, steps[0]) then [] else [steps[0]])
      + WithoutRefused(cid, callsign, After(cid, callsign, s, steps[0]), steps[1..])
  }

  /** From any synced state: memory and row agree after the run, and erasing from it every
    * submission that names the current route of a locked plan changes nothing. */
  lemma {:induction false} RefusedSubmissionsErased(cid: int, callsign: string, s: State, steps: seq<Step>)
    requires Synced(s) && Runs(cid, callsign, s, steps)
    ensures Synced(Final(cid, callsign, s, steps))
    ensures Runs(cid, callsign, s, WithoutRefused(cid, callsign, s, steps))
    ensures Final(cid, callsign, s, WithoutRefused(cid, callsign, s, steps)) == Final(cid, callsign, s, steps)
    decreases |steps|
  {
    if steps != [] {
      var s' := After(cid, callsign, s, steps[0]);
      StepKeepsSynced(cid, callsign, s, steps[0]);
      RefusedSubmissionsErased(cid, callsign, s', steps[1..]);
      var rest := WithoutRefused(cid, callsign, s', steps[1..]);
      if Refused(s, steps[0]) {
        SubmissionIgnoredExactly(cid, callsign, s, steps[0].data);
        assert WithoutRefused(cid, callsign, s, steps) == rest;
      } else {
        assert ([steps[0]] + rest)[1..] == rest;
      }
    }
  }

  /** Every submission of the run names the route that is current when it is made. */
  ghost predicate KeepsRoute(cid: int, callsign: string, s: State, steps: seq<Step>)
    requires Runs(cid, callsign, s, steps)
    decreases |steps|
  {
    steps == []
    || ((steps[0].Submit? && s.memory.Some? ==> SameRoute(s.memory.value, steps[0].data))
        && KeepsRoute(cid, callsign, After(cid, callsign, s, steps[0]), steps[1..]))
  }

  function ControllerSteps(steps: seq<Step>): seq<Step> {
    if steps == [] then [] else (if steps[0].Submit? then [] else [steps[0]]) + ControllerSteps(steps[1..])
  }

  /** As long as the pilot keeps to the current route, a locked plan stays locked and is what the
    * controllers alone have made of it. */
  lemma {:induction false} LockedPlanBelongsToControllers(cid: int, callsign: string, s: State, steps: seq<Step>)
    requires Synced(s) && Locked(s) && Runs(cid, callsign, s, steps) && KeepsRoute(cid, callsign, s, steps)
    ensures Locked(Final(cid, callsign, s, steps))
    ensures Runs(cid, callsign, s, ControllerSteps(steps))
    ensures Final(cid, callsign, s, ControllerSteps(steps)) == Final(cid, callsign, s, steps)
    decreases |steps|
  {
    if steps != [] {
      StepKeepsSynced(cid, callsign, s, steps[0]);
      if steps[0].Submit? {
        SubmissionIgnoredExactly(cid, callsign, s, steps[0].data);
        assert ControllerSteps(steps) == ControllerSteps(steps[1..]);
      } else {
        assert ([steps[0]] + ControllerSteps(steps[1..]))[1..] == ControllerSteps(steps[1..]);
      }
      LockedPlanBelongsToControllers(cid, callsign, After(cid, callsign, s, steps[0]), steps[1..]);
    }
  }

  /** Naming another route unlocks the plan, and from then on a submission that names the current
    * route is accepted: such a submission may not be erased from the run. */
  lemma ReroutingUnlocks(cid: int, callsign: string, s: State, data: seq<string>, again: seq<string>)
    requires Synced(s) && Locked(s) && |data| >= PLAN_LENGTH && |again| >= PLAN_LENGTH
    requires !SameRoute(s.memory.value, data)
    requires again[5] == data[5] && again[9] == data[9] && again[8] != data[8]
    ensures var s1 := After(cid, callsign, s, Submit(data));
      && !Locked(s1) && Synced(s1)
      && SameRoute(s1.memory.value, again)
      && After(cid, callsign, s1, Submit(again)) != s1
  {
    hide StrToInt;
  }

  /** A locked plan from A to B. */
  const LOCKED_PLAN: Plan := FreshPlan(1, "P").(departureAirport := "A", arrivalAirport := "B", locked := true)

  const REROUTED: seq<string> := ["P", "S", "I", "T", "1", "C", "0", "0", "3", "D", "1", "0", "2", "0", "E", "", ""]

  const REROUTED_HIGHER: seq<string> := REROUTED[8 := "4"]

  /** So "every submission that names the current route may be erased" is false: a locked plan from A to B is
    * submitted from C to D, then again from C to D at another level, and the second submission counts too. */
  lemma UnlockedSubmissionCounts()
    ensures var s := State(Some(LOCKED_PLAN), Some(LOCKED_PLAN));
      var s1 := After(1, "P", s, Submit(REROUTED));
      && Synced(s) && Locked(s) && Synced(s1)
      && SameRoute(s1.memory.value, REROUTED_HIGHER)
      && After(1, "P", s1, Submit(REROUTED_HIGHER)) != s1
  {
    var s := State(Some(LOCKED_PLAN), Some(LOCKED_PLAN));
    assert LOCKED_PLAN.departureAirport[0] != REROUTED[5][0];
    assert REROUTED[8][0] != REROUTED_HIGHER[8][0];
    assert !SameRoute(LOCKED_PLAN, REROUTED);
    hide LOCKED_PLAN, REROUTED, After;
    ReroutingUnlocks(1, "P", s, REROUTED, REROUTED_HIGHER);
    UnlockedRemembers(s);
  }

  lemma UnlockedRemembers(s: State)
    requires Synced(s) && s.memory.Some?
    ensures After(1, "P", s, Submit(REROUTED)).memory.Some?
  {
    hide WithData;
  }
}
