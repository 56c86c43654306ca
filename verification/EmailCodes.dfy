/** One-time email codes (internal/http_server/service/email.go).
  *
  * Clock readings, the random code, the template and the mail server's answer are parameters;
  * `strings.ToLower` is an arbitrary function of the configuration.
  */
module EmailCodes {

  /** Without a mail server nothing is sent and everything is accepted. */
  datatype Config = Config(emailServer: bool, lower: string -> string, sendDuration: int, verifyExpiredDuration: int)

  datatype EmailCode = EmailCode(code: int, cid: int, sendTime: int)

  datatype State = State(emailCodes: map<string, EmailCode>, lastSendTime: map<string, int>)

  datatype Outcome = Ok | NotFound | Expired | InvalidCode | CidMismatch | SendInterval | Rendering | MailFailed

  /** A call. `checked`, `made` and `sent` are the three clock readings of a send, in this order. */
  datatype Event =
    | Send(email: string, cid: int, code: int, rendered: bool, mailed: bool, checked: int, made: int, sent: int)
    | Verify(email: string, code: int, cid: int, now: int)

  function Verified(c: Config, s: State, email: string, code: int, cid: int, now: int): (State, Outcome) {
    var key := c.lower(email);
    if !c.emailServer then (s, Ok)
    else if key !in s.emailCodes then (s, NotFound)
    else if now - s.emailCodes[key].sendTime > c.verifyExpiredDuration then (s, Expired)
    else if s.emailCodes[key].code != code then (s, InvalidCode)
    else if s.emailCodes[key].cid != cid then (s, CidMismatch)
    else (s.(emailCodes := s.emailCodes - {key}), Ok)
  }

  function Sent(c: Config, s: State, e: Event): (State, Outcome)
    requires e.Send?
  {
    var key := c.lower(e.email);
    if !c.emailServer then (s, Ok)
    else if key in s.lastSendTime && e.checked - s.lastSendTime[key] < c.sendDuration then (s, SendInterval)
    else if !e.rendered then (s, Rendering)
    else (State(s.emailCodes[key := EmailCode(e.code, e.cid, e.made)], s.lastSendTime[key := e.sent]),
          if e.mailed then Ok else MailFailed)
  }

  class EmailService {
    const config: Config
    var emailCodes: map<string, EmailCode>
    var lastSendTime: map<string, int>

    constructor (config: Config)
      ensures this.config == config && emailCodes == map[] && lastSendTime == map[]
    {
      this.config := config;
      emailCodes, lastSendTime := map[], map[];
    }

    method VerifyCode(email: string, code: int, cid: int, now: int) returns (outcome: Outcome)
      modifies this
      ensures (State(emailCodes, lastSendTime), outcome)
           == Verified(config, old(State(emailCodes, lastSendTime)), email, code, cid, now)
    {
      if !config.emailServer {
        return Ok;
      }
      var key := config.lower(email);
      if key !in emailCodes {
        return NotFound;
      }
      var emailCode := emailCodes[key];
      if now - emailCode.sendTime > config.verifyExpiredDuration {
        return Expired;
      }
      if emailCode.code != code {
        return InvalidCode;
      }
      if emailCode.cid != cid {
        return CidMismatch;
      }
      emailCodes := emailCodes - {key};
      return Ok;
    }

    method SendEmailCode(e: Event) returns (outcome: Outcome)
      requires e.Send?
      modifies this
      ensures (State(emailCodes, lastSendTime), outcome) == Sent(config, old(State(emailCodes, lastSendTime)), e)
    {
      if !config.emailServer {
        return Ok;
      }
      var key := config.lower(e.email);
      if key in lastSendTime {
        if e.checked - lastSendTime[key] < config.sendDuration {
          return SendInterval;
        }
      }
      var emailCode := EmailCode(e.code, e.cid, e.made);
      if !e.rendered {
        return Rendering;
      }
      emailCodes := emailCodes[key := emailCode];
      lastSendTime := lastSendTime[key := e.sent];
      return if e.mailed then Ok else MailFailed;
    }
  }

  // ---------------------------------------------------------------- runs

  function Step(c: Config, s: State, e: Event): (State, Outcome) {
    match e
    case Send(_, _, _, _, _, _, _, _) => Sent(c, s, e)
    case Verify(email, code, cid, now) => Verified(c, s, email, code, cid, now)
  }

  /** The state after the first `n` events. */
  function Run(c: Config, events: seq<Event>, n: nat): State
    requires n <= |events|
  {
    if n == 0 then State(map[], map[]) else Step(c, Run(c, events, n - 1), events[n - 1]).0
  }

  function Answer(c: Config, events: seq<Event>, i: nat): Outcome
    requires i < |events|
  {
    Step(c, Run(c, events, i), events[i]).1
  }

  /** Event `i` is a send that was recorded, whatever the mail server made of it. */
  predicate Recorded(c: Config, events: seq<Event>, i: nat)
    requires i < |events|
  {
    c.emailServer && events[i].Send? && (Answer(c, events, i) == Ok || Answer(c, events, i) == MailFailed)
  }

  /** Event `i` is a verification that is accepted. */
  predicate Succeeds(c: Config, events: seq<Event>, i: nat)
    requires i < |events|
  {
    events[i].Verify? && Answer(c, events, i) == Ok
  }

  /** The last recorded send to address `key` among the first `n` events, or -1. */
  function Latest(c: Config, events: seq<Event>, n: nat, key: string): (j: int)
    requires n <= |events|
    ensures -1 <= j < n
    ensures j >= 0 ==> Recorded(c, events, j) && c.lower(events[j].email) == key
    ensures forall k :: j < k < n ==> !(Recorded(c, events, k) && c.lower(events[k].email) == key)
  {
    if n == 0 then -1
    else if Recorded(c, events, n - 1) && c.lower(events[n - 1].email) == key then n - 1
    else Latest(c, events, n - 1, key)
  }

  /** What the two maps hold: for each address its latest recorded send, and the code of that send
    * unless it has been used up since. */
  ghost predicate MapsOk(c: Config, events: seq<Event>, n: nat, key: string)
    requires n <= |events|
  {
    var s, j := Run(c, events, n), Latest(c, events, n, key);
    && (key in s.lastSendTime <==> j >= 0)
    && (j >= 0 ==> s.lastSendTime[key] == events[j].sent)
    && (key in s.emailCodes ==>
          && j >= 0
          && s.emailCodes[key] == EmailCode(events[j].code, events[j].cid, events[j].made)
          && forall i :: j < i < n ==> !(Succeeds(c, events, i) && c.lower(events[i].email) == key))
  }

  /** What one event does to the entries of an address. */
  lemma EntriesAfter(c: Config, events: seq<Event>, n: nat, key: string)
    requires n < |events|
    ensures var s, s', e := Run(c, events, n), Run(c, events, n + 1), events[n];
      if Recorded(c, events, n) && c.lower(e.email) == key then
        && key in s'.lastSendTime && s'.lastSendTime[key] == e.sent
        && key in s'.emailCodes && s'.emailCodes[key] == EmailCode(e.code, e.cid, e.made)
        && !Succeeds(c, events, n)
      else
        && (key in s'.lastSendTime <==> key in s.lastSendTime)
        && (key in s.lastSendTime ==> s'.lastSendTime[key] == s.lastSendTime[key])
        && (key in s'.emailCodes ==> key in s.emailCodes && s'.emailCodes[key] == s.emailCodes[key])
        && (c.emailServer && Succeeds(c, events, n) && c.lower(e.email) == key ==> key !in s'.emailCodes)
  {
  }

  /** Without a mail server nothing is ever recorded. */
  lemma {:induction false} NothingRecorded(c: Config, events: seq<Event>, n: nat)
    requires n <= |events| && !c.emailServer
    ensures Run(c, events, n) == State(map[], map[])
  {
    if n > 0 {
      NothingRecorded(c, events, n - 1);
    }
  }

  lemma MapsAfter(c: Config, events: seq<Event>, n: nat, key: string)
    requires n < |events| && MapsOk(c, events, n, key)
    ensures MapsOk(c, events, n + 1, key)
  {
    EntriesAfter(c, events, n, key);
    if !c.emailServer {
      NothingRecorded(c, events, n + 1);
    }
    hide Run, Recorded, Succeeds;
  }

  lemma {:induction false} MapsHoldLatest(c: Config, events: seq<Event>, n: nat, key: string)
    requires n <= |events|
    ensures MapsOk(c, events, n, key)
  {
    if n > 0 {
      MapsHoldLatest(c, events, n - 1, key);
      hide MapsOk;
      MapsAfter(c, events, n - 1, key);
    }
  }

  /** A successful verification uses the latest recorded send to its address: it names that send's code
    * and user and comes no later than the expiry time after it. */
  lemma SuccessMatchesLatestSend(c: Config, events: seq<Event>, i: nat)
    requires c.emailServer && i < |events| && Succeeds(c, events, i)
    ensures var j := Latest(c, events, i, c.lower(events[i].email));
      && 0 <= j < i && Recorded(c, events, j) && c.lower(events[j].email) == c.lower(events[i].email)
      && events[j].code == events[i].code && events[j].cid == events[i].cid
      && events[i].now - events[j].made <= c.verifyExpiredDuration
  {
    MapsHoldLatest(c, events, i, c.lower(events[i].email));
  }

  /** No send serves two successful verifications. */
  lemma SuccessesUseDifferentSends(c: Config, events: seq<Event>, i: nat, k: nat)
    requires c.emailServer && i < k < |events| && Succeeds(c, events, i) && Succeeds(c, events, k)
    ensures Latest(c, events, i, c.lower(events[i].email)) != Latest(c, events, k, c.lower(events[k].email))
  {
    SuccessMatchesLatestSend(c, events, i);
    SuccessMatchesLatestSend(c, events, k);
    MapsHoldLatest(c, events, k, c.lower(events[k].email));
  }

  /** Some verification for `key` has succeeded between event `j` and event `n`. */
  ghost predicate UsedSince(c: Config, events: seq<Event>, j: int, n: nat, key: string)
    requires n <= |events| && -1 <= j
  {
    exists k :: j < k < n && Succeeds(c, events, k) && c.lower(events[k].email) == key
  }

  lemma OthersKeepCode(c: Config, events: seq<Event>, n: nat, key: string)
    requires 0 < n <= |events|
    requires !(Recorded(c, events, n - 1) && c.lower(events[n - 1].email) == key)
    requires !(Succeeds(c, events, n - 1) && c.lower(events[n - 1].email) == key)
    ensures key in Run(c, events, n).emailCodes <==> key in Run(c, events, n - 1).emailCodes
  {
  }

  lemma RecordedKeepsCode(c: Config, events: seq<Event>, n: nat, key: string)
    requires 0 < n <= |events| && Recorded(c, events, n - 1) && c.lower(events[n - 1].email) == key
    ensures key in Run(c, events, n).emailCodes
  {
  }

  lemma NotUsedBefore(c: Config, events: seq<Event>, j: int, n: nat, key: string)
    requires 0 < n <= |events| && -1 <= j < n - 1 && !UsedSince(c, events, j, n, key)
    ensures !UsedSince(c, events, j, n - 1, key)
    ensures !(Succeeds(c, events, n - 1) && c.lower(events[n - 1].email) == key)
  {
    hide Succeeds;
  }

  lemma {:induction false} UnusedCodeIsKept(c: Config, events: seq<Event>, n: nat, j: int, key: string)
    requires n <= |events| && j == Latest(c, events, n, key) && j >= 0 && !UsedSince(c, events, j, n, key)
    ensures key in Run(c, events, n).emailCodes
  {
    hide Recorded, Succeeds, Run, UsedSince;
    if Recorded(c, events, n - 1) && c.lower(events[n - 1].email) == key {
      RecordedKeepsCode(c, events, n, key);
    } else {
      assert j == Latest(c, events, n - 1, key);
      NotUsedBefore(c, events, j, n, key);
      OthersKeepCode(c, events, n, key);
      UnusedCodeIsKept(c, events, n - 1, j, key);
    }
  }

  /** A verification succeeds exactly when there is no mail server, or the latest recorded send to its address has
    * not been used yet, has not expired and has the same code and user. */
  lemma SucceedsExactly(c: Config, events: seq<Event>, i: nat)
    requires i < |events| && events[i].Verify?
    ensures var key := c.lower(events[i].email);
      var j := Latest(c, events, i, key);
      Succeeds(c, events, i) <==>
        !c.emailServer
        || (j >= 0 && !UsedSince(c, events, j, i, key)
            && events[j].code == events[i].code && events[j].cid == events[i].cid
            && events[i].now - events[j].made <= c.verifyExpiredDuration)
  {
    var key := c.lower(events[i].email);
    var j := Latest(c, events, i, key);
    MapsHoldLatest(c, events, i, key);
    if j >= 0 && !UsedSince(c, events, j, i, key) {
      UnusedCodeIsKept(c, events, i, j, key);
    }
  }

  /** Which answer a verification gets: nothing to compare with, too late, wrong code, wrong user, in this order. */
  lemma VerifyAnswers(c: Config, events: seq<Event>, i: nat)
    requires i < |events| && events[i].Verify? && c.emailServer
    ensures var key := c.lower(events[i].email);
      var j := Latest(c, events, i, key);
      Answer(c, events, i) ==
        if j < 0 || UsedSince(c, events, j, i, key) then NotFound
        else if events[i].now - events[j].made > c.verifyExpiredDuration then Expired
        else if events[i].code != events[j].code then InvalidCode
        else if events[i].cid != events[j].cid then CidMismatch
        else Ok
  {
    var key := c.lower(events[i].email);
    var j := Latest(c, events, i, key);
    MapsHoldLatest(c, events, i, key);
    if j >= 0 && !UsedSince(c, events, j, i, key) {
      UnusedCodeIsKept(c, events, i, j, key);
    }
  }

  /** Which answer a send gets: too soon after the latest recorded send to the address, a template that does not
    * render, a mail server that fails, in this order. */
  lemma SendAnswers(c: Config, events: seq<Event>, i: nat)
    requires i < |events| && events[i].Send? && c.emailServer
    ensures var j := Latest(c, events, i, c.lower(events[i].email));
      Answer(c, events, i) ==
        if j >= 0 && events[i].checked - events[j].sent < c.sendDuration then SendInterval
        else if !events[i].rendered then Rendering
        else if !events[i].mailed then MailFailed
        else Ok
  {
    MapsHoldLatest(c, events, i, c.lower(events[i].email));
  }

  /** A send is recorded exactly when there is a mail server, the template renders and the latest recorded send to the
    * address, if any, is at least the send interval ago; whether the mail server takes it plays no role. */
  lemma RecordedExactly(c: Config, events: seq<Event>, i: nat)
    requires i < |events| && events[i].Send?
    ensures var j := Latest(c, events, i, c.lower(events[i].email));
      Recorded(c, events, i)
      <==> c.emailServer && events[i].rendered && (j < 0 || events[i].checked - events[j].sent >= c.sendDuration)
  {
    if c.emailServer {
      SendAnswers(c, events, i);
    }
  }

  /** A send without a mail server is answered as a success, and so is a verification. */
  lemma AcceptedWithoutServer(c: Config, events: seq<Event>, i: nat)
    requires i < |events| && !c.emailServer
    ensures Answer(c, events, i) == Ok && Run(c, events, i) == State(map[], map[])
  {
    NothingRecorded(c, events, i);
  }

  // ---------------------------------------------------------------- spacing

  /** The clock readings never go back, within a send and from one event to the next. */
  ghost predicate ClockForward(events: seq<Event>) {
    && (forall i :: 0 <= i < |events| && events[i].Send? ==> events[i].checked <= events[i].made <= events[i].sent)
    && (forall i, j :: 0 <= i < j < |events| && events[i].Send? && events[j].Send? ==>
          events[i].sent <= events[j].checked)
  }

  /** Two recorded sends to one address are at least the send interval apart. */
  lemma SendsSpaced(c: Config, events: seq<Event>, i: nat, k: nat)
    requires ClockForward(events) && i < k < |events|
    requires Recorded(c, events, i) && Recorded(c, events, k) && c.lower(events[i].email) == c.lower(events[k].email)
    ensures events[k].made - events[i].sent >= c.sendDuration
  {
    var key := c.lower(events[k].email);
    MapsHoldLatest(c, events, k, key);
    var j := Latest(c, events, k, key);
    assert i <= j;
    assert i < j ==> events[i].sent <= events[j].checked;
  }
}
