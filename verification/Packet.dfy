/** The packet printer and the command parser (internal/fsd_server/packet/packet_utils.go) with
  * the command table (internal/interfaces/fsd/constant.go, command.go). */
module Packet {
  import opened Wrappers
  import opened Framing

  /** `PossibleClientCommands`, in its order: PilotPosition, AtcPosition, AtcSubVisPoint, Message,
    * ClientQuery, ClientResponse, Plan, AtcEditPlan, RequestHandoff, AcceptHandoff, ProController,
    * SquawkBox, AddAtc, RemoveAtc, AddPilot, RemovePilot, KillClient. */
  const POSSIBLE_CLIENT_COMMANDS: seq<string> := [
    "@", "%", "'", "#TM", "$CQ", "$CR", "$FP", "$AM", "$HO", "$HA", "#PC", "#SB", "#AA", "#DA", "#AP", "#DP", "$!!"
  ]

  const TEMP_DATA: string := "$TD"

  // ---------------------------------------------------------------- colon-separated parts

  ghost predicate ColonFree(parts: seq<string>) {
    forall k :: 0 <= k < |parts| ==> ':' !in parts[k]
  }

  /** `strings.Split(s, ":")`. */
  function SplitColons(s: string): (parts: seq<string>)
    ensures parts != []
  {
    if s == "" then [""]
    else if s[0] == ':' then [""] + SplitColons(s[1..])
    else
      var parts := SplitColons(s[1..]);
      [[s[0]] + parts[0]] + parts[1..]
  }

  function Join(parts: seq<string>): string {
    if parts == [] then ""
    else if |parts| == 1 then parts[0]
    else parts[0] + ":" + Join(parts[1..])
  }

  lemma {:induction false} SplitIsColonFree(s: string)
    ensures ColonFree(SplitColons(s))
  {
    if s != "" {
      SplitIsColonFree(s[1..]);
    }
  }

  lemma {:induction false} JoinSplit(s: string)
    ensures Join(SplitColons(s)) == s
  {
    if s != "" {
      JoinSplit(s[1..]);
      var parts := SplitColons(s[1..]);
      if s[0] == ':' {
        assert SplitColons(s)[1..] == parts;
      } else {
        assert SplitColons(s)[1..] == parts[1..];
        if |parts| > 1 {
          assert ([s[0]] + parts[0]) + ":" + Join(parts[1..]) == [s[0]] + (parts[0] + ":" + Join(parts[1..]));
        }
      }
    }
  }

  lemma {:induction false} SplitFirst(part: string, rest: string)
    requires ':' !in part
    ensures SplitColons(part) == [part]
    ensures SplitColons(part + ":" + rest) == [part] + SplitColons(rest)
    decreases |part|
  {
    if part == "" {
      assert part + ":" + rest == ":" + rest;
      assert (":" + rest)[1..] == rest;
    } else {
      SplitFirst(part[1..], rest);
      var s := part + ":" + rest;
      assert s[1..] == part[1..] + ":" + rest;
      assert [part[0]] + part[1..] == part;
    }
  }

  lemma {:induction false} SplitJoin(parts: seq<string>)
    requires parts != [] && ColonFree(parts)
    ensures SplitColons(Join(parts)) == parts
  {
    if |parts| == 1 {
      SplitFirst(parts[0], "");
    } else {
      SplitJoin(parts[1..]);
      SplitFirst(parts[0], Join(parts[1..]));
    }
  }

  // ---------------------------------------------------------------- parsing

  /** The pair the parser returns; `data` is None for Go's nil slice. */
  datatype Parsed = Parsed(command: string, data: Option<seq<string>>)

  function ParseWith(table: seq<string>, line: string): Parsed {
    if table == [] then Parsed(TEMP_DATA, None)
    else if table[0] <= line then Parsed(table[0], Some(SplitColons(line[|table[0]|..])))
    else ParseWith(table[1..], line)
  }

  function Parse(line: string): Parsed {
    ParseWith(POSSIBLE_CLIENT_COMMANDS, line)
  }

  method ParserCommandLine(line: string) returns (parsed: Parsed)
    ensures parsed == Parse(line)
  {
    parsed := SearchPrefix(POSSIBLE_CLIENT_COMMANDS, line);
  }

  /** The search loop of the parser. */
  method SearchPrefix(table: seq<string>, line: string) returns (parsed: Parsed)
    ensures parsed == ParseWith(table, line)
  {
    for i := 0 to |table|
      invariant ParseWith(table[i..], line) == ParseWith(table, line)
    {
      var prefix := table[i];
      assert table[i..][1..] == table[i + 1..];
      if prefix <= line {
        var decodeLine := line[|prefix|..];
        return Parsed(prefix, Some(SplitColons(decodeLine)));
      }
    }
    return Parsed(TEMP_DATA, None);
  }

  /** A command with the number of parts its handler needs. */
  datatype Requirement = Requirement(command: string, length: nat)

  /** `CommandRequirements`. */
  const COMMAND_REQUIREMENTS: seq<Requirement> := [
    Requirement("#AA", 12), Requirement("#AP", 8), Requirement("%", 8), Requirement("@", 10), Requirement("'", 4),
    Requirement("$CQ", 3), Requirement("$CR", 3), Requirement("#TM", 3), Requirement("$FP", 17), Requirement("$AM", 18),
    Requirement("$!!", 2), Requirement("$HO", 3), Requirement("$HA", 3), Requirement("#PC", 3), Requirement("#SB", 2)
  ]

  function RequiredLength(table: seq<Requirement>, command: string): nat {
    if table == [] then 0
    else if table[0].command == command then table[0].length
    else RequiredLength(table[1..], command)
  }

  /** `checkPacketLength` lets the packet through to its handler. */
  predicate Admitted(command: string, data: seq<string>) {
    |data| >= RequiredLength(COMMAND_REQUIREMENTS, command)
  }

  lemma {:induction false} RequiredAt(table: seq<Requirement>, k: nat)
    requires k < |table| && forall j :: 0 <= j < k ==> table[j].command != table[k].command
    ensures RequiredLength(table, table[k].command) == table[k].length
  {
    if k > 0 {
      RequiredAt(table[1..], k - 1);
    }
  }

  lemma EarlierRequirements()
    ensures |COMMAND_REQUIREMENTS| == 15
    ensures COMMAND_REQUIREMENTS[8] == Requirement("$FP", 17) && COMMAND_REQUIREMENTS[9] == Requirement("$AM", 18)
    ensures forall j :: 0 <= j < 8 ==> COMMAND_REQUIREMENTS[j].command != "$FP"
    ensures forall j :: 0 <= j < 9 ==> COMMAND_REQUIREMENTS[j].command != "$AM"
  {
    var table := COMMAND_REQUIREMENTS;
    assert "$FP"[0] == '$' && "$FP"[1] == 'F' && "$AM"[0] == '$' && "$AM"[2] == 'M';
    assert forall j :: 0 <= j < 8 ==>
      |table[j].command| == 1 || (|table[j].command| == 3 && table[j].command[1] != 'F');
    assert forall j :: 0 <= j < 9 ==>
      |table[j].command| == 1
      || (|table[j].command| == 3 && (table[j].command[0] != '$' || table[j].command[2] != 'M'));
  }

  /** A plan needs seventeen parts and a controller's edit eighteen. */
  lemma PlanRequirements()
    ensures RequiredLength(COMMAND_REQUIREMENTS, "$FP") == 17
    ensures RequiredLength(COMMAND_REQUIREMENTS, "$AM") == 18
  {
    EarlierRequirements();
    var table := COMMAND_REQUIREMENTS;
    hide COMMAND_REQUIREMENTS, RequiredLength;
    RequiredAt(table, 8);
    RequiredAt(table, 9);
  }

  /** The commands that the parser knows are those with a requirement and the two that remove a client. */
  lemma KnownCommands(command: string)
    ensures command in POSSIBLE_CLIENT_COMMANDS
       <==> command == "#DA" || command == "#DP"
            || exists k :: 0 <= k < |COMMAND_REQUIREMENTS| && COMMAND_REQUIREMENTS[k].command == command
  {
    var table, needs := POSSIBLE_CLIENT_COMMANDS, COMMAND_REQUIREMENTS;
    assert needs[0].command == table[12] && needs[1].command == table[14] && needs[2].command == table[1];
    assert needs[3].command == table[0] && needs[4].command == table[2] && needs[5].command == table[4];
    assert needs[6].command == table[5] && needs[7].command == table[3] && needs[8].command == table[6];
    assert needs[9].command == table[7] && needs[10].command == table[16] && needs[11].command == table[8];
    assert needs[12].command == table[9] && needs[13].command == table[10] && needs[14].command == table[11];
    assert table[13] == "#DA" && table[15] == "#DP";
  }

  /** No command of the table is the beginning of another. */
  ghost predicate PrefixFree(table: seq<string>) {
    forall i, j :: 0 <= i < |table| && 0 <= j < |table| && table[i] <= table[j] ==> table[i] == table[j]
  }

  lemma CommandsPrefixFree()
    ensures PrefixFree(POSSIBLE_CLIENT_COMMANDS)
    ensures forall k :: 0 <= k < |POSSIBLE_CLIENT_COMMANDS| ==>
      var c := POSSIBLE_CLIENT_COMMANDS[k]; c != "" && '\r' !in c && '\n' !in c && ':' !in c
  {
    var table := POSSIBLE_CLIENT_COMMANDS;
    assert forall k :: 0 <= k < 3 ==> |table[k]| == 1 && table[k][0] != '#' && table[k][0] != '$';
    assert forall k :: 3 <= k < |table| ==> |table[k]| == 3 && (table[k][0] == '#' || table[k][0] == '$');
  }

  /** A line is recognised as a command exactly when it is that command followed by its parts,
    * so the position of a command in the table plays no role. */
  lemma {:induction false} ParseCharacterised(table: seq<string>, line: string, command: string, parts: seq<string>)
    requires PrefixFree(table)
    ensures ParseWith(table, line) == Parsed(command, Some(parts)) <==>
            command in table && parts != [] && ColonFree(parts) && line == command + Join(parts)
  {
    if table != [] {
      var first := table[0];
      if first <= line {
        var tail := line[|first|..];
        SplitIsColonFree(tail);
        JoinSplit(tail);
        assert line == first + tail;
        if command in table && parts != [] && ColonFree(parts) && line == command + Join(parts) {
          SplitJoin(parts);
          PrefixesNested(first, command, line);
          assert command == first;
          assert tail == Join(parts);
        }
      } else {
        assert PrefixFree(table[1..]) by {
          assert forall i :: 0 <= i < |table| - 1 ==> table[1..][i] == table[i + 1];
        }
        ParseCharacterised(table[1..], line, command, parts);
        assert line == command + Join(parts) ==> command != first;
      }
    }
  }

  lemma PrefixesNested(a: string, b: string, s: string)
    requires a <= s && b <= s
    ensures a <= b || b <= a
  {
  }

  /** The answer to an unrecognised line is the command "$TD" without data. */
  lemma {:induction false} ParseUnrecognised(table: seq<string>, line: string)
    ensures ParseWith(table, line).data == None <==> forall c :: c in table ==> !(c <= line)
    ensures ParseWith(table, line).data == None ==> ParseWith(table, line).command == "$TD"
  {
    assert table != [] ==> table[0] in table;
    if table != [] && !(table[0] <= line) {
      assert forall c :: c in table <==> c == table[0] || c in table[1..];
      ParseUnrecognised(table[1..], line);
    }
  }

  lemma {:induction false} UnrecognisedIsTempData(table: seq<string>, line: string)
    requires ParseWith(table, line).data == None
    ensures ParseWith(table, line) == Parsed(TEMP_DATA, None)
  {
    if table != [] {
      UnrecognisedIsTempData(table[1..], line);
    }
  }

  /** Any reordering of a prefix-free table parses every line the same way. */
  lemma TableOrderIrrelevant(table: seq<string>, other: seq<string>, line: string)
    requires PrefixFree(table) && PrefixFree(other)
    requires forall c :: c in table <==> c in other
    ensures ParseWith(table, line) == ParseWith(other, line)
  {
    ParseUnrecognised(table, line);
    ParseUnrecognised(other, line);
    match ParseWith(table, line) {
      case Parsed(command, Some(parts)) =>
        ParseCharacterised(table, line, command, parts);
        ParseCharacterised(other, line, command, parts);
      case Parsed(_, None) =>
        UnrecognisedIsTempData(table, line);
        UnrecognisedIsTempData(other, line);
    }
  }

  // ---------------------------------------------------------------- printing

  /** The bytes of a packet. */
  function Render(command: string, parts: seq<string>): string {
    command + Join(parts) + SPLIT_SIGN
  }

  lemma {:induction false} JoinSnoc(parts: seq<string>, part: string)
    requires parts != []
    ensures Join(parts + [part]) == Join(parts) + ":" + part
  {
    if |parts| > 1 {
      JoinSnoc(parts[1..], part);
      assert (parts + [part])[1..] == parts[1..] + [part];
    } else {
      assert (parts + [part])[1..] == [part];
    }
  }

  lemma JoinUpTo(parts: seq<string>, i: nat)
    requires i < |parts|
    ensures Join(parts[..i + 1]) == (if i == 0 then "" else Join(parts[..i]) + ":") + parts[i]
  {
    assert parts[..i + 1] == parts[..i] + [parts[i]];
    if i > 0 {
      JoinSnoc(parts[..i], parts[i]);
    }
  }

  function TotalLength(parts: seq<string>): nat {
    if parts == [] then 0 else |parts[0]| + TotalLength(parts[1..])
  }

  lemma {:induction false} JoinLength(parts: seq<string>)
    requires parts != []
    ensures |Join(parts)| == TotalLength(parts) + |parts| - 1
  {
    if |parts| > 1 {
      JoinLength(parts[1..]);
    }
  }

  /** Go's `copy(buffer[pos:], s)` where `s` fits. */
  method CopyInto(buffer: array<char>, pos: nat, s: string)
    requires pos + |s| <= buffer.Length
    modifies buffer
    ensures buffer[..pos + |s|] == old(buffer[..pos]) + s
    ensures buffer[pos + |s|..] == old(buffer[pos + |s|..])
  {
    forall k | 0 <= k < |s| {
      buffer[pos + k] := s[k];
    }
  }

  /** Fills a buffer of exactly the precomputed length. */
  method MakePacket(command: string, parts: seq<string>) returns (result: array<char>)
    ensures fresh(result)
    ensures result[..] == Render(command, parts)
  {
    var totalLen := |command|;
    if |parts| > 0 {
      var i := 0;
      while i < |parts|
        invariant 0 <= i <= |parts|
        invariant totalLen + TotalLength(parts[i..]) == |command| + TotalLength(parts)
      {
        totalLen := totalLen + |parts[i]|;
        i := i + 1;
      }
      totalLen := totalLen + |parts| - 1;
      JoinLength(parts);
    }
    totalLen := totalLen + |SPLIT_SIGN|;
    assert totalLen == |command| + |Join(parts)| + 2;

    result := new char[totalLen];
    CopyInto(result, 0, command);
    var pos := FillParts(result, command, parts);
    CopyInto(result, pos, SPLIT_SIGN);
  }

  /** The loop that writes the parts behind the command. */
  method FillParts(result: array<char>, command: string, parts: seq<string>) returns (pos: nat)
    requires result.Length == |command| + |Join(parts)| + 2
    requires result[..|command|] == command
    modifies result
    ensures pos == result.Length - 2
    ensures result[..pos] == command + Join(parts)
  {
    pos := |command|;
    assert Join(parts[..0]) == "";
    hide Join;
    for i := 0 to |parts|
      invariant pos == |command| + |Join(parts[..i])| <= result.Length - 2
      invariant result[..pos] == command + Join(parts[..i])
    {
      JoinUpTo(parts, i);
      PrefixShorter(parts, i + 1);
      pos := PutPart(result, pos, i > 0, parts[i]);
    }
    assert parts[..|parts|] == parts;
  }

  /** One round of that loop. */
  method PutPart(result: array<char>, pos: nat, colon: bool, part: string) returns (pos': nat)
    requires pos + (if colon then 1 else 0) + |part| <= result.Length
    modifies result
    ensures pos' == pos + (if colon then 1 else 0) + |part|
    ensures result[..pos'] == old(result[..pos]) + (if colon then ":" else "") + part
  {
    pos' := pos;
    if colon {
      CopyInto(result, pos', ":");
      pos' := pos' + 1;
    }
    CopyInto(result, pos', part);
    pos' := pos' + |part|;
  }

  lemma {:induction false} PrefixShorter(parts: seq<string>, n: nat)
    requires n <= |parts|
    ensures |Join(parts[..n])| <= |Join(parts)|
    decreases |parts| - n
  {
    if n == |parts| {
      assert parts[..n] == parts;
    } else {
      JoinUpTo(parts, n);
      PrefixShorter(parts, n + 1);
      if n == 0 {
        assert parts[..0] == [];
      }
    }
  }

  // ---------------------------------------------------------------- printing and parsing together

  function ParseAll(lines: seq<string>): seq<Parsed> {
    if lines == [] then [] else [Parse(lines[0])] + ParseAll(lines[1..])
  }

  /** What a peer that frames and parses a stream makes of it. */
  function Received(stream: string): seq<Parsed> {
    ParseAll(Lines(stream))
  }

  ghost predicate SignFreeParts(parts: seq<string>) {
    forall k :: 0 <= k < |parts| ==> SignFree(parts[k])
  }

  lemma SignFreeConcat(a: string, b: string)
    requires a == "" || b == "" || a[|a| - 1] != '\r' || b[0] != '\n'
    ensures SignFree(a + b) <==> SignFree(a) && SignFree(b)
  {
    var s := a + b;
    assert forall i :: SignAt(a, i) ==> SignAt(s, i);
    assert forall i :: SignAt(b, i) ==> SignAt(s, |a| + i);
    assert forall i :: SignAt(s, i) && i + 1 < |a| ==> SignAt(a, i);
    assert forall i :: SignAt(s, i) && i >= |a| ==> SignAt(b, i - |a|);
  }

  lemma {:induction false} SignFreeJoin(parts: seq<string>)
    ensures SignFree(Join(parts)) <==> SignFreeParts(parts)
  {
    if |parts| > 1 {
      var first, rest := parts[0], parts[1..];
      SignFreeJoin(rest);
      SignFreeConcat(first, ":");
      SignFreeConcat(first + ":", Join(rest));
      assert SignFree(":");
      assert SignFreeParts(parts) <==> SignFree(first) && SignFreeParts(rest) by {
        assert forall k :: 0 <= k < |rest| ==> rest[k] == parts[k + 1];
      }
    }
  }

  lemma SignFreeLine(command: string, parts: seq<string>)
    requires command in POSSIBLE_CLIENT_COMMANDS
    ensures SignFree(command + Join(parts)) <==> SignFreeParts(parts)
  {
    CommandsPrefixFree();
    SignFreeJoin(parts);
    SignFreeConcat(command, Join(parts));
    assert SignFree(command) by {
      assert forall i :: 0 <= i < |command| ==> command[i] in command;
    }
  }

  /** A printed packet, framed and parsed, is the one command with its parts exactly when there
    * is at least one part and no part contains a colon or a CRLF. */
  lemma PacketRoundTrip(command: string, parts: seq<string>)
    requires command in POSSIBLE_CLIENT_COMMANDS
    ensures Received(Render(command, parts)) == [Parsed(command, Some(parts))]
       <==> parts != [] && ColonFree(parts) && SignFreeParts(parts)
  {
    var line, stream := command + Join(parts), Render(command, parts);
    CommandsPrefixFree();
    SignFreeLine(command, parts);
    if parts != [] && ColonFree(parts) && SignFreeParts(parts) {
      SingleLine(line);
      ParseCharacterised(POSSIBLE_CLIENT_COMMANDS, line, command, parts);
    } else if Received(stream) == [Parsed(command, Some(parts))] {
      var got := Lines(stream)[0];
      OneLine(stream);
      LinesAreSignFree(stream);
      ParseCharacterised(POSSIBLE_CLIENT_COMMANDS, got, command, parts);
      assert false;
    }
  }

  lemma SingleLine(line: string)
    requires SignFree(line)
    ensures Lines(line + SPLIT_SIGN) == [line]
    ensures Received(line + SPLIT_SIGN) == [Parse(line)]
  {
    LinesOfTerminated([line]);
    assert Terminate([line]) == line + SPLIT_SIGN + "" == line + SPLIT_SIGN;
    assert ParseAll([line]) == [Parse(line)] + ParseAll([]);
  }

  lemma OneLine(stream: string)
    requires |Received(stream)| == 1
    ensures |Lines(stream)| == 1 && Received(stream) == [Parse(Lines(stream)[0])]
  {
    var lines := Lines(stream);
    if |lines| > 1 {
      assert |ParseAll(lines)| == 1 + |ParseAll(lines[1..])|;
    }
  }

  /** Printing a recognised line again gives that line and a CRLF. */
  lemma RecognisedLinePrintsBack(line: string)
    requires Parse(line).data.Some?
    ensures Render(Parse(line).command, Parse(line).data.value) == line + SPLIT_SIGN
    ensures SignFree(line) ==> Received(Render(Parse(line).command, Parse(line).data.value)) == [Parse(line)]
  {
    var Parsed(command, data) := Parse(line);
    CommandsPrefixFree();
    ParseCharacterised(POSSIBLE_CLIENT_COMMANDS, line, command, data.value);
    if SignFree(line) {
      SingleLine(line);
    }
  }

  /** What `Client.SendLine` writes: the line, terminated unless it already is. */
  function OnWire(line: string): string {
    if |line| >= 2 && SignAt(line, |line| - 2) then line else line + SPLIT_SIGN
  }

  lemma OnWireOfLine(line: string)
    requires SignFree(line)
    ensures OnWire(line) == OnWire(line + SPLIT_SIGN) == line + SPLIT_SIGN
  {
    var once := line + SPLIT_SIGN;
    assert once[|once| - 2] == '\r' && once[|once| - 1] == '\n';
  }

  lemma TerminateLineAndEmpty(line: string)
    ensures Terminate([line, ""]) == line + SPLIT_SIGN + SPLIT_SIGN
  {
    assert [line, ""][1..] == [""];
    assert Terminate([""]) == "" + SPLIT_SIGN + "" == SPLIT_SIGN;
  }

  /** A line arrives as one line whether or not the caller terminated it; a broadcast, which always appends
    * the separator, delivers an already terminated line followed by an empty one. */
  lemma TerminatedOnce(line: string)
    requires SignFree(line)
    ensures Lines(OnWire(line)) == [line] && Lines(OnWire(line + SPLIT_SIGN)) == [line]
    ensures Lines(line + SPLIT_SIGN + SPLIT_SIGN) == [line, ""]
  {
    OnWireOfLine(line);
    SingleLine(line);
    LineAndEmpty(line);
    hide Lines, Terminate, OnWire, SignAt, SignFree;
  }

  lemma LineAndEmpty(line: string)
    requires SignFree(line)
    ensures Lines(line + SPLIT_SIGN + SPLIT_SIGN) == [line, ""]
  {
    TerminateLineAndEmpty(line);
    assert SignFree("");
    hide SignFree, Lines, Terminate;
    LinesOfTerminated([line, ""]);
  }
}
