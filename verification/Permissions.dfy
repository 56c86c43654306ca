/** Editing a user's permission mask from an unordered request
  * (internal/http_server/service/user.go, internal/interfaces/operation/permission.go). */
module Permissions {
  import opened Wrappers

  /** A permission mask; the source's int64 uses no bit beyond bit 15. */
  type Permission = bv64

  datatype Node = Node(name: string, bit: Permission)

  const USER_EDIT_PERMISSION: Permission := 0x20

  /** `PermissionMap`. `UserSetPassword` (0x8) and `AuditLogShow` (0x2000) have no name in it. */
  const PERMISSION_MAP: seq<Node> := [
    Node("AdminEntry", 0x1), Node("UserShowList", 0x2), Node("UserGetProfile", 0x4), Node("UserEditBaseInfo", 0x10),
    Node("UserEditPermission", 0x20), Node("UserEditRating", 0x40), Node("ActivityPublish", 0x80),
    Node("ActivityShowList", 0x100), Node("ActivityEdit", 0x200), Node("ActivityEditState", 0x400),
    Node("ActivityEditPilotState", 0x800), Node("ActivityDelete", 0x1000), Node("ClientSendMessage", 0x4000),
    Node("ClientKill", 0x8000)
  ]

  /** The bits the two masks share. */
  function Common(p: Permission, q: Permission): Permission {
    p & q
  }

  predicate HasPermission(p: Permission, perm: Permission) {
    Common(p, perm) != 0
  }

  function Grant(p: Permission, perm: Permission): Permission {
    p | perm
  }

  function Revoke(p: Permission, perm: Permission): Permission {
    p & !perm
  }

  predicate SingleBit(p: Permission) {
    p != 0 && p & (p - 1) == 0
  }

  ghost predicate TableOk(table: seq<Node>) {
    && (forall i :: 0 <= i < |table| ==> SingleBit(table[i].bit))
    && (forall i, j :: 0 <= i < j < |table| ==> table[i].name != table[j].name && table[i].bit & table[j].bit == 0)
  }

  lemma SingleBits()
    ensures forall i :: 0 <= i < |PERMISSION_MAP| ==> SingleBit(PERMISSION_MAP[i].bit)
  {
  }

  lemma DistinctBits()
    ensures forall i, j :: 0 <= i < j < |PERMISSION_MAP| ==> PERMISSION_MAP[i].bit & PERMISSION_MAP[j].bit == 0
  {
    SingleBits();
    var table := PERMISSION_MAP;
    assert forall i, j :: 0 <= i < j < |table| ==> table[i].bit != table[j].bit;
    hide PERMISSION_MAP, SingleBit;
    forall i, j | 0 <= i < j < |table| ensures table[i].bit & table[j].bit == 0 {
      DifferentSingleBits(table[i].bit, table[j].bit);
    }
  }

  lemma DifferentSingleBits(p: Permission, q: Permission)
    requires SingleBit(p) && SingleBit(q) && p != q
    ensures p & q == 0
  {
  }

  lemma DistinctNames()
    ensures forall i, j :: 0 <= i < j < |PERMISSION_MAP| ==> PERMISSION_MAP[i].name != PERMISSION_MAP[j].name
  {
  }

  lemma PermissionMapOk()
    ensures TableOk(PERMISSION_MAP)
  {
    SingleBits();
    DistinctBits();
    DistinctNames();
    var table := PERMISSION_MAP;
    hide PERMISSION_MAP, SingleBit;
  }

  /** The declared bits double from one permission to the next. The fourth and the fourteenth permission have no
    * name, so after the third and the twelfth name a bit is left out; no valid bit is left out otherwise. */
  lemma BitsByPosition()
    ensures |PERMISSION_MAP| == 14 && PERMISSION_MAP[0].bit == 1 && PERMISSION_MAP[13].bit == 0x8000
    ensures forall k :: 0 <= k < 13 ==>
      PERMISSION_MAP[k + 1].bit == Doubled(PERMISSION_MAP[k].bit, if k == 2 || k == 11 then 2 else 1)
    ensures PERMISSION_MAP[4] == Node("UserEditPermission", USER_EDIT_PERMISSION)
  {
  }

  function Doubled(bit: Permission, times: nat): Permission
    requires times <= 2
  {
    if times == 2 then bit << 2 else if times == 1 then bit << 1 else bit
  }

  function Lookup(table: seq<Node>, name: string): (bit: Option<Permission>)
    ensures bit.Some? <==> exists i :: 0 <= i < |table| && table[i].name == name
  {
    if table == [] then None
    else if table[|table| - 1].name == name then Some(table[|table| - 1].bit)
    else Lookup(table[..|table| - 1], name)
  }

  /** A JSON value of the request: a boolean or anything else. */
  datatype Value = Flag(on: bool) | Other

  type Request = map<string, Value>

  /** Each entry names a known permission that the operator has, and is a boolean. */
  ghost predicate Acceptable(table: seq<Node>, operator: Permission, req: Request) {
    forall name :: name in req ==>
      Lookup(table, name).Some? && HasPermission(operator, Lookup(table, name).value) && req[name].Flag?
  }

  /** The bits of the `names` that the request sets to `on`. */
  function Bits(table: seq<Node>, req: Request, names: set<string>, on: bool): Permission {
    if table == [] then 0
    else
      var last := table[|table| - 1];
      Grant(Bits(table[..|table| - 1], req, names, on),
            if last.name in names && last.name in req && req[last.name] == Flag(on) then last.bit else 0)
  }

  /** The target with the granted bits set and then the revoked bits cleared. */
  function Edited(table: seq<Node>, target: Permission, req: Request, names: set<string>): Permission {
    Revoke(Grant(target, Bits(table, req, names, true)), Bits(table, req, names, false))
  }

  // The bit arithmetic, one fact at a time.

  lemma GrantApart(x: Permission, y: Permission, bit: Permission)
    requires Common(x, bit) == 0
    ensures Common(Grant(x, y), bit) == Common(y, bit)
  {
  }

  lemma CommonZero(bit: Permission)
    ensures Common(0, bit) == 0 && Common(bit, bit) == bit
    ensures Grant(0, bit) == bit && Grant(bit, 0) == bit && Revoke(bit, 0) == bit
  {
  }

  lemma CommonSwap(x: Permission, y: Permission)
    ensures Common(x, y) == Common(y, x)
  {
  }

  lemma GrantSwap(x: Permission, y: Permission, z: Permission)
    ensures Grant(Grant(x, y), z) == Grant(Grant(x, z), y)
    ensures Grant(x, Grant(y, z)) == Grant(Grant(x, y), z)
  {
  }

  lemma OrBeforeAnd(x: bv64, r: bv64, b: bv64)
    requires r & b == 0
    ensures (x | b) & !r == (x & !r) | b
  {
  }

  lemma GrantBeforeRevoke(x: Permission, revoked: Permission, bit: Permission)
    requires Common(revoked, bit) == 0
    ensures Revoke(Grant(x, bit), revoked) == Grant(Revoke(x, revoked), bit)
  {
    calc {
      Revoke(Grant(x, bit), revoked);
      Revoke(x | bit, revoked);
      (x | bit) & !revoked;
      { OrBeforeAnd(x, revoked, bit); }
      (x & !revoked) | bit;
      Revoke(x, revoked) | bit;
      Grant(Revoke(x, revoked), bit);
    }
  }

  lemma RevokeBoth(x: Permission, revoked: Permission, bit: Permission)
    ensures Revoke(x, Grant(revoked, bit)) == Revoke(Revoke(x, revoked), bit)
  {
  }

  // A bit of a mask after grants and revocations.

  lemma UntouchedBit(target: Permission, granted: Permission, revoked: Permission, bit: Permission)
    requires Common(granted, bit) == 0 && Common(revoked, bit) == 0
    ensures Common(Revoke(Grant(target, granted), revoked), bit) == Common(target, bit)
  {
  }

  lemma GrantedBit(target: Permission, granted: Permission, revoked: Permission, bit: Permission)
    requires Common(granted, bit) == bit && Common(revoked, bit) == 0
    ensures Common(Revoke(Grant(target, granted), revoked), bit) == bit
  {
  }

  lemma RevokedBit(mask: Permission, revoked: Permission, bit: Permission)
    requires Common(revoked, bit) == bit
    ensures Common(Revoke(mask, revoked), bit) == 0
  {
  }

  /** What an entry contributes. */
  function Own(node: Node, req: Request, names: set<string>, on: bool): Permission {
    if node.name in names && node.name in req && req[node.name] == Flag(on) then node.bit else 0
  }

  /** Bits of names that are not visited yet are not touched yet. */
  lemma {:induction false} BitsApart(table: seq<Node>, req: Request, names: set<string>, on: bool, bit: Permission)
    requires forall i :: 0 <= i < |table| && table[i].name in names ==> Common(table[i].bit, bit) == 0
    ensures Common(Bits(table, req, names, on), bit) == 0
  {
    hide Common, Grant;
    CommonZero(bit);
    if table != [] {
      var front, last := table[..|table| - 1], table[|table| - 1];
      BitsApart(front, req, names, on, bit);
      GrantApart(Bits(front, req, names, on), Own(last, req, names, on), bit);
    }
  }

  lemma {:induction false} BitsIgnore(table: seq<Node>, req: Request, names: set<string>, name: string, on: bool)
    requires forall i :: 0 <= i < |table| ==> table[i].name != name
    ensures Bits(table, req, names + {name}, on) == Bits(table, req, names, on)
  {
    hide Grant;
    if table != [] {
      BitsIgnore(table[..|table| - 1], req, names, name, on);
    }
  }

  /** A name adds its bit on its own side and nothing on the other. */
  lemma {:induction false} BitsStep(table: seq<Node>, req: Request, names: set<string>, k: nat, on: bool)
    requires k < |table| && (forall i, j :: 0 <= i < j < |table| ==> table[i].name != table[j].name)
    requires table[k].name !in names && table[k].name in req && req[table[k].name] == Flag(on)
    ensures Bits(table, req, names + {table[k].name}, on) == Grant(Bits(table, req, names, on), table[k].bit)
    ensures Bits(table, req, names + {table[k].name}, !on) == Bits(table, req, names, !on)
    decreases |table|
  {
    hide Grant;
    var front, last := table[..|table| - 1], table[|table| - 1];
    if k == |table| - 1 {
      BitsIgnore(front, req, names, last.name, on);
      BitsIgnore(front, req, names, last.name, !on);
      CommonZero(Bits(front, req, names, on));
    } else {
      BitsStep(front, req, names, k, on);
      assert last.name != table[k].name;
      GrantSwap(Bits(front, req, names, on), table[k].bit, Own(last, req, names, on));
    }
  }

  lemma {:induction false} LookupIndex(table: seq<Node>, name: string) returns (k: nat)
    requires Lookup(table, name).Some?
    ensures k < |table| && table[k].name == name && table[k].bit == Lookup(table, name).value
  {
    k := |table| - 1;
    if table[k].name != name {
      k := LookupIndex(table[..|table| - 1], name);
    }
  }

  lemma OthersApart(table: seq<Node>, names: set<string>, k: nat)
    requires TableOk(table) && k < |table| && table[k].name !in names
    ensures forall i :: 0 <= i < |table| && table[i].name in names ==> Common(table[i].bit, table[k].bit) == 0
  {
    hide SingleBit;
    forall i | 0 <= i < |table| && table[i].name in names ensures Common(table[i].bit, table[k].bit) == 0 {
      CommonSwap(table[i].bit, table[k].bit);
      assert i < k || k < i;
    }
  }

  /** Visiting one more name is one Grant or one Revoke, whatever was visited before. */
  lemma EditedStep(table: seq<Node>, target: Permission, req: Request, names: set<string>, name: string)
    requires TableOk(table) && Lookup(table, name).Some? && name !in names && name in req && req[name].Flag?
    ensures Edited(table, target, req, names + {name})
         == if req[name].on then Grant(Edited(table, target, req, names), Lookup(table, name).value)
            else Revoke(Edited(table, target, req, names), Lookup(table, name).value)
  {
    hide Grant, Revoke, Common, Bits, SingleBit;
    var k := LookupIndex(table, name);
    BitsStep(table, req, names, k, req[name].on);
    OthersApart(table, names, k);
    BitsApart(table, req, names, false, table[k].bit);
    var granted, revoked := Bits(table, req, names, true), Bits(table, req, names, false);
    if req[name].on {
      GrantBeforeRevoke(Grant(target, granted), revoked, table[k].bit);
    } else {
      RevokeBoth(Grant(target, granted), revoked, table[k].bit);
    }
    GrantSwap(target, granted, table[k].bit);
  }

  // ---------------------------------------------------------------- the operation

  datatype Outcome = Success | NoPermission | IllegalParam | NodeNotExists | UserNotFound | DatabaseFail

  /** The masks of all users, by id. */
  type Users = map<nat, Permission>

  class UserService {
    var users: Users

    constructor ()
      ensures users == map[]
    {
      users := map[];
    }

    /** `writeFails` says that the database refuses the update. A failure of any kind leaves all masks as they were. */
    method EditUserPermission(uid: nat, targetUid: nat, req: Request, writeFails: bool) returns (outcome: Outcome)
      modifies this
      ensures outcome == Success <==>
        && uid > 0 && uid in old(users) && targetUid in old(users) && !writeFails
        && HasPermission(old(users)[uid], USER_EDIT_PERMISSION)
        && Acceptable(PERMISSION_MAP, old(users)[uid], req)
      ensures outcome == Success ==>
        users == old(users)[targetUid := Edited(PERMISSION_MAP, old(users)[targetUid], req, req.Keys)]
      ensures outcome != Success ==> users == old(users)
      ensures !writeFails ==> users == old(After(users, Edit(uid, targetUid, req)))
      ensures outcome == UserNotFound <==>
        uid > 0 && (uid !in old(users)
                    || (HasPermission(old(users)[uid], USER_EDIT_PERMISSION) && targetUid !in old(users)))
      ensures uid > 0 && uid in old(users) && !HasPermission(old(users)[uid], USER_EDIT_PERMISSION) ==>
        outcome == NoPermission
      ensures uid == 0 ==> outcome == IllegalParam
    {
      hide Acceptable, Edited, PERMISSION_MAP, HasPermission;
      if uid <= 0 {
        return IllegalParam;
      }
      if uid !in users {
        return UserNotFound;
      }
      var permission := users[uid];
      if !HasPermission(permission, USER_EDIT_PERMISSION) {
        return NoPermission;
      }
      if targetUid !in users {
        return UserNotFound;
      }
      PermissionMapOk();
      var targetPermission;
      outcome, targetPermission := VisitRequest(PERMISSION_MAP, permission, users[targetUid], req);
      if outcome != Success {
        return;
      }
      if writeFails {
        return DatabaseFail;
      }
      users := users[targetUid := targetPermission];
    }

    /** `NewUser` followed by `AddUser`: a new user starts without permissions. */
    method AddUser(uid: nat) returns (ok: bool)
      modifies this
      ensures ok <==> uid !in old(users)
      ensures users == (if ok then old(users)[uid := 0] else old(users)) == old(After(users, Register(uid)))
    {
      if uid in users {
        return false;
      }
      users := users[uid := 0];
      return true;
    }
  }

  /** The first entry visited that is not acceptable decides the error, so one of this kind is in the request. */
  ghost predicate Explains(table: seq<Node>, operator: Permission, req: Request, outcome: Outcome, name: string) {
    name in req
    && match outcome
       case NodeNotExists => Lookup(table, name) == None
       case NoPermission => Lookup(table, name).Some? && !HasPermission(operator, Lookup(table, name).value)
       case IllegalParam =>
         Lookup(table, name).Some? && HasPermission(operator, Lookup(table, name).value) && !req[name].Flag?
       case _ => false
  }

  /** The loop over the request map, in any order. */
  method VisitRequest(table: seq<Node>, operator: Permission, target: Permission, req: Request)
    returns (outcome: Outcome, result: Permission)
    requires TableOk(table)
    ensures outcome == Success <==> Acceptable(table, operator, req)
    ensures outcome == Success || exists name :: Explains(table, operator, req, outcome, name)
    ensures result == if outcome == Success then Edited(table, target, req, req.Keys) else target
  {
    hide TableOk, Lookup, Edited, HasPermission;
    var targetPermission := target;
    var pending := req.Keys;
    NothingVisited(table, target, req);
    while pending != {}
      invariant pending <= req.Keys
      invariant targetPermission == Edited(table, target, req, req.Keys - pending)
      invariant forall name :: name in req && name !in pending ==>
        Lookup(table, name).Some? && HasPermission(operator, Lookup(table, name).value) && req[name].Flag?
      decreases pending
    {
      var key :| key in pending;
      var per := Lookup(table, key);
      if per.None? {
        assert Explains(table, operator, req, NodeNotExists, key);
        return NodeNotExists, target;
      }
      if !HasPermission(operator, per.value) {
        assert Explains(table, operator, req, NoPermission, key);
        return NoPermission, target;
      }
      if req[key].Other? {
        assert Explains(table, operator, req, IllegalParam, key);
        return IllegalParam, target;
      }
      EditedStep(table, target, req, req.Keys - pending, key);
      assert req.Keys - (pending - {key}) == (req.Keys - pending) + {key};
      if req[key].on {
        targetPermission := Grant(targetPermission, per.value);
      } else {
        targetPermission := Revoke(targetPermission, per.value);
      }
      pending := pending - {key};
    }
    assert req.Keys - pending == req.Keys;
    return Success, targetPermission;
  }

  lemma {:induction false} NoBits(table: seq<Node>, req: Request, on: bool)
    ensures Bits(table, req, {}, on) == 0
  {
    hide Grant;
    CommonZero(0);
    if table != [] {
      NoBits(table[..|table| - 1], req, on);
    }
  }

  lemma NothingVisited(table: seq<Node>, target: Permission, req: Request)
    ensures Edited(table, target, req, req.Keys - req.Keys) == target
  {
    hide Grant, Revoke, Bits;
    NoBits(table, req, true);
    NoBits(table, req, false);
    CommonZero(target);
    assert req.Keys - req.Keys == {};
  }

  // ---------------------------------------------------------------- what the new mask is

  lemma BitsExactly(table: seq<Node>, req: Request, k: nat, on: bool)
    requires TableOk(table) && k < |table| && table[k].name in req && req[table[k].name].Flag?
    ensures Common(Bits(table, req, req.Keys, on), table[k].bit)
         == if req[table[k].name].on == on then table[k].bit else 0
  {
    hide Grant, Common, Bits, SingleBit;
    var name, bit := table[k].name, table[k].bit;
    var rest := req.Keys - {name};
    assert rest + {name} == req.Keys;
    BitsStep(table, req, rest, k, req[name].on);
    OthersApart(table, rest, k);
    BitsApart(table, req, rest, on, bit);
    GrantApart(Bits(table, req, rest, on), bit, bit);
    CommonZero(bit);
  }

  /** A bit named in the request is set or cleared as the request says. */
  lemma NamedBitFollowsRequest(table: seq<Node>, target: Permission, req: Request, k: nat)
    requires TableOk(table) && k < |table| && table[k].name in req && req[table[k].name].Flag?
    ensures HasPermission(Edited(table, target, req, req.Keys), table[k].bit) <==> req[table[k].name].on
  {
    hide Grant, Revoke, Common, Bits;
    BitsExactly(table, req, k, true);
    BitsExactly(table, req, k, false);
    var granted, revoked := Bits(table, req, req.Keys, true), Bits(table, req, req.Keys, false);
    if req[table[k].name].on {
      GrantedBit(target, granted, revoked, table[k].bit);
    } else {
      RevokedBit(Grant(target, granted), revoked, table[k].bit);
    }
    assert SingleBit(table[k].bit);
  }

  /** Bits that no name of the request stands for are untouched. */
  lemma OtherBitsUntouched(table: seq<Node>, target: Permission, req: Request, other: Permission)
    requires forall i :: 0 <= i < |table| && table[i].name in req ==> Common(table[i].bit, other) == 0
    ensures Common(Edited(table, target, req, req.Keys), other) == Common(target, other)
  {
    hide Grant, Revoke, Common, Bits;
    BitsApart(table, req, req.Keys, true, other);
    BitsApart(table, req, req.Keys, false, other);
    UntouchedBit(target, Bits(table, req, req.Keys, true), Bits(table, req, req.Keys, false), other);
  }

  // ---------------------------------------------------------------- runs

  datatype Step = Register(uid: nat) | Edit(operator: nat, target: nat, req: Request)

  /** A new user has mask 0; an edit by an existing user writes the target's mask when it is acceptable. */
  ghost function After(users: Users, step: Step): Users {
    match step
    case Register(uid) => if uid in users then users else users[uid := 0]
    case Edit(operator, target, req) =>
      if operator > 0 && operator in users && target in users
         && HasPermission(users[operator], USER_EDIT_PERMISSION) && Acceptable(PERMISSION_MAP, users[operator], req)
      then users[target := Edited(PERMISSION_MAP, users[target], req, req.Keys)]
      else users
  }

  ghost function Run(users: Users, steps: seq<Step>): Users
    decreases |steps|
  {
    if steps == [] then users else Run(After(users, steps[0]), steps[1..])
  }

  /** Some user has a bit of `bits`. */
  ghost predicate Held(users: Users, bits: Permission) {
    exists uid :: uid in users && HasPermission(users[uid], bits)
  }

  lemma HeldBits(table: seq<Node>, operator: Permission, req: Request, names: set<string>, bits: Permission)
    requires TableOk(table) && Acceptable(table, operator, req) && Common(operator, bits) == 0
    ensures Common(Bits(table, req, names, true), bits) == 0
  {
    GrantedBitsHeld(table, |table|, operator, req, names, bits);
    assert table[..|table|] == table;
  }

  lemma SingleBitShared(bit: Permission, x: Permission, y: Permission)
    requires SingleBit(bit) && Common(x, bit) != 0 && Common(x, y) == 0
    ensures Common(bit, y) == 0
  {
  }

  lemma {:induction false} LookupAt(table: seq<Node>, k: nat)
    requires k < |table| && (forall i, j :: 0 <= i < j < |table| ==> table[i].name != table[j].name)
    ensures Lookup(table, table[k].name) == Some(table[k].bit)
    decreases |table|
  {
    if k < |table| - 1 {
      LookupAt(table[..|table| - 1], k);
    }
  }

  /** An operator can only grant bits the operator has. */
  lemma {:induction false} GrantedBitsHeld(table: seq<Node>, n: nat, operator: Permission, req: Request,
                                           names: set<string>, bits: Permission)
    requires TableOk(table) && n <= |table| && Acceptable(table, operator, req) && Common(operator, bits) == 0
    ensures Common(Bits(table[..n], req, names, true), bits) == 0
  {
    hide Grant, Common, SingleBit;
    CommonZero(bits);
    if n > 0 {
      GrantedBitsHeld(table, n - 1, operator, req, names, bits);
      assert table[..n][..n - 1] == table[..n - 1];
      var last := table[n - 1];
      LookupAt(table, n - 1);
      if last.name in req {
        SingleBitShared(last.bit, operator, bits);
      }
      GrantApart(Bits(table[..n - 1], req, names, true), Own(last, req, names, true), bits);
    }
  }

  lemma NoNewBits(target: Permission, granted: Permission, revoked: Permission, bits: Permission)
    requires Common(target, bits) == 0 && Common(granted, bits) == 0
    ensures Common(Revoke(Grant(target, granted), revoked), bits) == 0
  {
  }

  lemma StepGainsNothing(users: Users, step: Step, bits: Permission)
    requires !Held(users, bits)
    ensures !Held(After(users, step), bits)
  {
    PermissionMapOk();
    hide TableOk, Grant, Revoke, Common, Bits;
    CommonZero(bits);
    assert forall uid :: uid in users ==> !HasPermission(users[uid], bits);
    if step.Edit? && step.operator in users && step.target in users
       && Acceptable(PERMISSION_MAP, users[step.operator], step.req) {
      var req := step.req;
      HeldBits(PERMISSION_MAP, users[step.operator], req, req.Keys, bits);
      NoNewBits(users[step.target],
                Bits(PERMISSION_MAP, req, req.Keys, true), Bits(PERMISSION_MAP, req, req.Keys, false), bits);
    }
  }

  /** No run of registrations and edits gives the users together a bit that none of them had. */
  lemma {:induction false} UnionNeverGrows(users: Users, steps: seq<Step>, bits: Permission)
    requires Held(Run(users, steps), bits)
    ensures Held(users, bits)
    decreases |steps|
  {
    if steps != [] {
      UnionNeverGrows(After(users, steps[0]), steps[1..], bits);
      if !Held(users, bits) {
        StepGainsNothing(users, steps[0], bits);
        assert false;
      }
    }
  }
}
