/** CRLF framing of the byte stream of a connection
  * (internal/fsd_server/packet/net_utils.go, connection_handler.go).
  *
  * A Go byte string is a `string` whose characters stand for bytes.
  */
module Framing {
  import opened Wrappers

  const SPLIT_SIGN: string := "\r\n"

  /** A CRLF starts at position `i`. */
  predicate SignAt(s: string, i: int) {
    0 <= i && i + 1 < |s| && s[i] == '\r' && s[i + 1] == '\n'
  }

  ghost predicate SignFree(s: string) {
    forall i :: !SignAt(s, i)
  }

  /** The position of the first CRLF, or -1. */
  function Index(s: string): (i: int)
    ensures i == -1 || SignAt(s, i)
    ensures forall j :: SignAt(s, j) ==> 0 <= i <= j
  {
    if |s| < 2 then -1
    else if SignAt(s, 0) then 0
    else
      var i := Index(s[1..]);
      assert forall j :: SignAt(s, j) ==> j > 0 && SignAt(s[1..], j - 1);
      if i < 0 then -1 else i + 1
  }

  datatype SplitResult = SplitResult(advance: nat, token: Option<string>)

  /** The split function given to the scanner. */
  function Split(data: string, atEOF: bool): SplitResult {
    if atEOF && data == "" then SplitResult(0, None)
    else
      var i := Index(data);
      if i >= 0 then SplitResult(i + |SPLIT_SIGN|, Some(data[..i]))
      else if atEOF then SplitResult(|data|, Some(data))
      else SplitResult(0, None)
  }

  // ---------------------------------------------------------------- the stream as a whole

  function Concat(chunks: seq<string>): string {
    if chunks == [] then "" else chunks[0] + Concat(chunks[1..])
  }

  /** The pieces between the CRLFs of a whole stream; an empty last piece is dropped. */
  function Lines(s: string): seq<string>
    decreases |s|
  {
    var i := Index(s);
    if i >= 0 then [s[..i]] + Lines(s[i + 2..])
    else if s == "" then []
    else [s]
  }

  lemma IndexOfPrefix(s: string, rest: string)
    requires Index(s) >= 0
    ensures Index(s + rest) == Index(s)
  {
    assert SignAt(s + rest, Index(s));
    assert forall j :: SignAt(s + rest, j) && j <= Index(s) ==> SignAt(s, j);
  }

  lemma LinesOfPrefix(s: string, rest: string)
    requires Index(s) >= 0
    ensures Lines(s + rest) == [s[..Index(s)]] + Lines(s[Index(s) + 2..] + rest)
  {
    var i := Index(s);
    IndexOfPrefix(s, rest);
    assert (s + rest)[..i] == s[..i];
    assert (s + rest)[i + 2..] == s[i + 2..] + rest;
  }

  /** Drives the split function over a growing buffer, as the scanner of `HandleConnection` does.
    * However the stream is cut into reads, the lines are those of the whole stream. */
  method Scan(chunks: seq<string>) returns (lines: seq<string>)
    ensures lines == Lines(Concat(chunks))
  {
    lines := [];
    var buffer, k := "", 0;
    assert lines + Lines(buffer + Concat(chunks)) == Lines(Concat(chunks)) by {
      assert buffer + Concat(chunks) == Concat(chunks);
    }
    assert chunks[0..] == chunks;
    while k < |chunks|
      invariant 0 <= k <= |chunks|
      invariant lines + Lines(buffer + Concat(chunks[k..])) == Lines(Concat(chunks))
    {
      assert buffer + Concat(chunks[k..]) == (buffer + chunks[k]) + Concat(chunks[k + 1..]);
      buffer, k := buffer + chunks[k], k + 1;
      lines, buffer := Drain(lines, buffer, Concat(chunks[k..]));
    }
    assert buffer + Concat(chunks[k..]) == buffer;
    lines := DrainAtEnd(lines, buffer);
  }

  /** Takes every complete line out of the buffer; `rest` is what has not been read yet. */
  method Drain(before: seq<string>, data: string, ghost rest: string) returns (lines: seq<string>, buffer: string)
    ensures lines + Lines(buffer + rest) == before + Lines(data + rest)
    ensures SignFree(buffer)
  {
    lines, buffer := before, data;
    var result := Split(buffer, false);
    while result.token.Some?
      invariant result == Split(buffer, false)
      invariant lines + Lines(buffer + rest) == before + Lines(data + rest)
      decreases |buffer|
    {
      LinesOfPrefix(buffer, rest);
      assert (lines + [result.token.value]) + Lines(buffer[result.advance..] + rest)
          == lines + ([result.token.value] + Lines(buffer[result.advance..] + rest));
      lines := lines + [result.token.value];
      buffer := buffer[result.advance..];
      result := Split(buffer, false);
    }
  }

  method DrainAtEnd(before: seq<string>, data: string) returns (lines: seq<string>)
    ensures lines == before + Lines(data)
  {
    lines := before;
    var buffer := data;
    var result := Split(buffer, true);
    while result.token.Some?
      invariant result == Split(buffer, true)
      invariant lines + Lines(buffer) == before + Lines(data)
      decreases |buffer|
    {
      ghost var tail := buffer[result.advance..];
      assert Lines(buffer) == [result.token.value] + Lines(tail);
      assert (lines + [result.token.value]) + Lines(tail) == lines + ([result.token.value] + Lines(tail));
      lines := lines + [result.token.value];
      buffer := buffer[result.advance..];
      result := Split(buffer, true);
    }
    assert lines + [] == lines;
  }

  // ---------------------------------------------------------------- what the lines of a stream are

  lemma {:induction false} LinesAreSignFree(s: string)
    ensures forall k :: 0 <= k < |Lines(s)| ==> SignFree(Lines(s)[k])
    decreases |s|
  {
    var i := Index(s);
    if i >= 0 {
      LinesAreSignFree(s[i + 2..]);
      forall j ensures !SignAt(s[..i], j) {
        if SignAt(s[..i], j) {
          assert SignAt(s, j);
        }
      }
    }
  }

  /** Every line followed by CRLF. */
  function Terminate(lines: seq<string>): string {
    if lines == [] then "" else lines[0] + SPLIT_SIGN + Terminate(lines[1..])
  }

  lemma IndexOfTerminated(line: string, rest: string)
    requires SignFree(line)
    ensures Index(line + SPLIT_SIGN + rest) == |line|
  {
    var s := line + SPLIT_SIGN + rest;
    assert s[|line|] == '\r' && s[|line| + 1] == '\n';
    assert SignAt(s, |line|);
    assert forall j :: SignAt(s, j) && j + 1 < |line| ==> SignAt(line, j);
  }

  lemma {:induction false} LinesOfTerminated(lines: seq<string>)
    requires forall k :: 0 <= k < |lines| ==> SignFree(lines[k])
    ensures Lines(Terminate(lines)) == lines
  {
    if lines != [] {
      var line, rest := lines[0], Terminate(lines[1..]);
      IndexOfTerminated(line, rest);
      var s := line + SPLIT_SIGN + rest;
      assert s[..|line|] == line;
      assert s[|line| + 2..] == rest;
      LinesOfTerminated(lines[1..]);
    }
  }

  /** Sending lines and framing them again gives the lines back exactly when none of them
    * contains the separator. */
  lemma FramingRoundTrip(lines: seq<string>)
    ensures Lines(Terminate(lines)) == lines <==> forall k :: 0 <= k < |lines| ==> SignFree(lines[k])
  {
    if forall k :: 0 <= k < |lines| ==> SignFree(lines[k]) {
      LinesOfTerminated(lines);
    } else {
      LinesAreSignFree(Terminate(lines));
    }
  }

  /** The stream is cut off behind a CRLF, or empty. */
  predicate Complete(s: string) {
    s == "" || SignAt(s, |s| - 2)
  }

  lemma CompleteTail(s: string)
    requires Index(s) >= 0
    ensures Complete(s) <==> Complete(s[Index(s) + 2..])
  {
    var i := Index(s);
    var tail := s[i + 2..];
    if |tail| >= 2 {
      assert tail[|tail| - 2] == s[|s| - 2] && tail[|tail| - 1] == s[|s| - 1];
    } else if |tail| == 1 {
      assert s[|s| - 2] == s[i + 1];
    }
  }

  lemma TerminateFirst(s: string)
    requires Index(s) >= 0
    ensures Terminate(Lines(s)) == s[..Index(s)] + SPLIT_SIGN + Terminate(Lines(s[Index(s) + 2..]))
  {
    assert Lines(s)[1..] == Lines(s[Index(s) + 2..]);
  }

  lemma CutAtIndex(s: string)
    requires Index(s) >= 0
    ensures s == s[..Index(s)] + SPLIT_SIGN + s[Index(s) + 2..]
    ensures s + SPLIT_SIGN == s[..Index(s)] + SPLIT_SIGN + (s[Index(s) + 2..] + SPLIT_SIGN)
  {
  }

  /** The lines of a stream lose nothing but a missing final CRLF. */
  lemma {:induction false} TerminateLines(s: string)
    ensures Terminate(Lines(s)) == if Complete(s) then s else s + SPLIT_SIGN
    decreases |s|
  {
    if Index(s) >= 0 {
      TerminateLines(s[Index(s) + 2..]);
      TerminateFirst(s);
      CompleteTail(s);
      CutAtIndex(s);
      hide Index, Lines, Complete, Terminate;
    } else if s != "" {
      assert Terminate([s]) == s + SPLIT_SIGN + "";
    }
  }
}
