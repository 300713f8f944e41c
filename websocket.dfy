/**
 * WebSocket: the server object's lifecycle and the string work of the
 * opening handshake (section 4.2.2 of RFC 6455). Sockets, streams and the
 * SHA-1/Base64 digest are outside the model: each I/O step's success or
 * failure is a parameter (Environment), and the digest is a function
 * parameter.
 */
module WebSockets {
  import opened Common

  /** The GUID that section 1.3 of RFC 6455 appends to the client's key. */
  const WS_GUID: string := "258EAFA5-E914-47DA-95CA-C5AB0DC85B11"

  /** The header prefix that the key-extraction pattern looks behind for. */
  const KEY_MARKER: string := "Sec-WebSocket-Key: "

  /** WebSocket.State. */
  datatype State = Prestart | Handshaking | Running | Closing | Closed | Errored
  {
    /** getOperatingStatus: true while the socket is doing anything, that is between start and close. */
    function GetOperatingStatus(): (r: bool)
      ensures r <==> Advance().Ok? && this != Prestart
    {
      match this
      case Prestart => false
      case Handshaking => true
      case Running => true
      case Closing => true
      case Closed => false
      case Errored => false
    }

    /** advance: the next state in chronological order; CLOSED and ERRORED have none. */
    function Advance(): (r: Result<State>)
      ensures r.Ok? <==> this !in {Closed, Errored}
      ensures r.Ok? ==> Order(r.value) == Order(this) + 1
      ensures r.Err? ==> r.error == IllegalState
    {
      match this
      case Prestart => Ok(Handshaking)
      case Handshaking => Ok(Running)
      case Running => Ok(Closing)
      case Closing => Ok(Closed)
      case _ => Err(IllegalState)
    }
  }

  /** The chronological position of a state; ERRORED is outside the order. */
  function Order(s: State): int
  {
    match s
    case Prestart => 0
    case Handshaking => 1
    case Running => 2
    case Closing => 3
    case Closed => 4
    case Errored => -1
  }

  /** k advances from s, or the exception the first impossible one throws. */
  function AdvanceTimes(s: State, k: nat): Result<State>
    decreases k
  {
    if k == 0 then Ok(s)
    else match s.Advance()
      case Err(e) => Err(e)
      case Ok(t) => AdvanceTimes(t, k - 1)
  }

  /**
   * The lifecycle: advancing from PRESTART visits HANDSHAKING, RUNNING,
   * CLOSING and CLOSED in turn, then throws; the operating states are
   * exactly those one to three advances away.
   */
  lemma Lifecycle(k: nat)
    ensures k <= 4 ==> AdvanceTimes(Prestart, k).Ok? && Order(AdvanceTimes(Prestart, k).value) == k
    ensures k > 4 ==> AdvanceTimes(Prestart, k) == Err(IllegalState)
    ensures AdvanceTimes(Prestart, k).Ok? ==>
              (AdvanceTimes(Prestart, k).value.GetOperatingStatus() <==> 1 <= k <= 3)
  {
    if k >= 1 {
      assert AdvanceTimes(Prestart, k) == AdvanceTimes(Handshaking, k - 1);
    }
    if k >= 2 {
      assert AdvanceTimes(Handshaking, k - 1) == AdvanceTimes(Running, k - 2);
    }
    if k >= 3 {
      assert AdvanceTimes(Running, k - 2) == AdvanceTimes(Closing, k - 3);
    }
    if k >= 4 {
      assert AdvanceTimes(Closing, k - 3) == AdvanceTimes(Closed, k - 4);
    }
  }

  /** Java's \s: space, tab, newline, vertical tab, form feed, carriage return. */
  predicate IsSpace(c: char)
  {
    c == ' ' || c == '\t' || c == '\n' || c == '\U{B}' || c == '\U{C}' || c == '\r'
  }

  /** The marker ends at position i of h (the pattern's look-behind holds there). */
  predicate MarkerEndsAt(h: string, i: int)
  {
    |KEY_MARKER| <= i <= |h| && h[i - |KEY_MARKER|..i] == KEY_MARKER
  }

  /**
   * The pattern (?<=Sec-WebSocket-Key: )\S+ can match at i: the marker
   * ends at i and a non-whitespace character follows.
   */
  predicate KeyStartsAt(h: string, i: int)
  {
    MarkerEndsAt(h, i) && i < |h| && !IsSpace(h[i])
  }

  /** The end of the run of non-whitespace characters that starts at i (\S+ is greedy). */
  function RunEnd(h: string, i: nat): (j: nat)
    requires i <= |h|
    ensures i <= j <= |h| && (j == |h| || IsSpace(h[j]))
    ensures forall k :: i <= k < j ==> !IsSpace(h[k])
    decreases |h| - i
  {
    if i == |h| || IsSpace(h[i]) then i else RunEnd(h, i + 1)
  }

  /** Matcher.find from position i on: where the leftmost match starts, |h| when there is none. */
  function FirstKeyFrom(h: string, i: nat): (k: nat)
    requires i <= |h|
    ensures i <= k <= |h| && (k < |h| ==> KeyStartsAt(h, k))
    ensures forall m :: i <= m < k ==> !KeyStartsAt(h, m)
    decreases |h| - i
  {
    if i == |h| || KeyStartsAt(h, i) then i else FirstKeyFrom(h, i + 1)
  }

  /**
   * The key the handshake extracts from the client's headers: the greedy
   * non-whitespace run after the first "Sec-WebSocket-Key: " that is
   * followed by one; None (null) when there is none.
   */
  function FindKey(h: string): (r: Option<string>)
    ensures r.Some? <==> exists k :: KeyStartsAt(h, k)
    ensures r.Some? ==> exists k :: KeyStartsAt(h, k) && r.value == h[k..RunEnd(h, k)]
                                    && (forall m :: m < k ==> !KeyStartsAt(h, m))
                                    && |r.value| > 0 && forall c :: c in r.value ==> !IsSpace(c)
  {
    var k := FirstKeyFrom(h, 0);
    if k < |h| then Some(h[k..RunEnd(h, k)]) else None
  }

  /** No occurrence of the marker lies wholly inside s. */
  predicate NoMarker(s: string)
  {
    forall i :: 0 <= i <= |s| ==> !MarkerEndsAt(s, i)
  }

  /**
   * Round trip: in headers whose text before the key line has no marker,
   * the extracted key is exactly the value written after the marker.
   */
  lemma FindKeyInRequest(pre: string, key: string, rest: string)
    requires NoMarker(pre) && |key| > 0 && forall c :: c in key ==> !IsSpace(c)
    requires rest == [] || IsSpace(rest[0])
    ensures FindKey(pre + KEY_MARKER + key + rest) == Some(key)
  {
    var head := pre + KEY_MARKER;
    var h := head + key + rest;
    var at := |head|;
    ThreeParts(head, key, rest);
    assert h[at - |KEY_MARKER|..at] == head[|pre|..] == KEY_MARKER;
    assert h[at] == h[at..at + |key|][0] == key[0];
    assert KeyStartsAt(h, at);
    forall m | m < at
      ensures !KeyStartsAt(h, m)
    {
      NoEarlierMarker(pre, key, rest, m);
    }
    RunEndAfterKey(h, at, key, rest);
    assert h[at..at + |key|] == key;
  }

  /** Where the three parts of a + b + c sit. */
  lemma ThreeParts(a: string, b: string, c: string)
    ensures var h := a + b + c;
            h[..|a|] == a && h[|a|..|a| + |b|] == b && h[|a| + |b|..] == c
  {
  }

  lemma NoEarlierMarker(pre: string, key: string, rest: string, m: int)
    requires NoMarker(pre) && m < |pre| + |KEY_MARKER|
    ensures !KeyStartsAt(pre + KEY_MARKER + key + rest, m)
  {
    var h := pre + KEY_MARKER + key + rest;
    if |KEY_MARKER| <= m <= |pre| {
      assert h[m - |KEY_MARKER|..m] == pre[m - |KEY_MARKER|..m];
      assert !MarkerEndsAt(pre, m);
    } else if |pre| < m && |KEY_MARKER| <= m {
      // The text ending at m ends inside the marker, whose only space is its last character.
      assert h[m - 1] == KEY_MARKER[m - 1 - |pre|] != ' ';
      assert h[m - |KEY_MARKER|..m][|KEY_MARKER| - 1] == h[m - 1];
    }
  }

  lemma RunEndAfterKey(h: string, at: nat, key: string, rest: string)
    requires at + |key| <= |h| && h[at..at + |key|] == key && h[at + |key|..] == rest
    requires forall c :: c in key ==> !IsSpace(c)
    requires rest == [] || IsSpace(rest[0])
    ensures RunEnd(h, at) == at + |key|
    decreases |key|
  {
    if key != [] {
      assert h[at] == key[0];
      assert h[at + 1..at + 1 + |key[1..]|] == key[1..];
      RunEndAfterKey(h, at + 1, key[1..], rest);
    }
  }

  /** The text that is digested: the key, or "null" when none was found, followed by the GUID. */
  function DigestInput(key: Option<string>): (r: string)
    ensures |r| >= |WS_GUID|
    ensures r[|r| - |WS_GUID|..] == WS_GUID
    ensures key.Some? ==> r[..|r| - |WS_GUID|] == key.value
    ensures key.None? ==> r == "null" + WS_GUID
  {
    (if key.Some? then key.value else "null") + WS_GUID
  }

  const STATUS_LINE: string := "HTTP/1.1 101 Switching Protocols\r\n"
  const RESPONSE_HEAD: string := STATUS_LINE + "Connection: upgrade\r\nUpgrade: websocket\r\nSec-WebSocket-Accept: "

  /** The server's half of the opening handshake, carrying the accept value. */
  function Response(accept: string): (r: string)
    ensures |r| == |RESPONSE_HEAD| + |accept| + 4 && |RESPONSE_HEAD| >= |STATUS_LINE|
    ensures r[..|STATUS_LINE|] == STATUS_LINE
    ensures r[|RESPONSE_HEAD|..|RESPONSE_HEAD| + |accept|] == accept
    ensures r[|r| - 4..] == "\r\n\r\n"
  {
    RESPONSE_HEAD + accept + "\r\n" + "\r\n"
  }

  /** Distinct accept values give distinct responses. */
  lemma ResponseInjective(a: string, b: string)
    requires Response(a) == Response(b)
    ensures a == b
  {
    assert |a| == |b|;
    assert a == Response(a)[|RESPONSE_HEAD|..|RESPONSE_HEAD| + |a|];
  }

  /** The outcome of each I/O step of handshake and close, which the model does not perform. */
  datatype Environment = Environment(
    bindFails: bool,          // new ServerSocket(port)
    unknownHost: bool,        // InetAddress.getLocalHost(), looked up only while debug output is on
    acceptFails: bool,        // socket.accept()
    inputFails: bool,         // client.getInputStream()
    outputFails: bool,        // client.getOutputStream()
    headers: Option<string>,  // the Scanner's first token, up to the blank line; None when there is none
    digestFails: bool,        // MessageDigest / getBytes("UTF-8")
    writeFails: bool,         // output.write(response)
    closeInputFails: bool,    // input.close()
    closeOutputFails: bool,   // output.close()
    closeSocketFails: bool)   // socket.close()
  {
    /** Every step up to the reading of the client's headers succeeds. */
    predicate Connects() {
      !(bindFails || acceptFails || inputFails || outputFails)
    }
  }

  class WebSocket {
    const name: string
    const port: int
    var state: State
    /** Whether socket, input and output have been assigned (they start null). */
    var hasSocket: bool
    var hasInput: bool
    var hasOutput: bool

    constructor (name: string, port: int)
      ensures this.name == name && this.port == port
      ensures state == Prestart && !hasSocket && !hasInput && !hasOutput
    {
      this.name := name;
      this.port := port;
      state := Prestart;
      hasSocket, hasInput, hasOutput := false, false, false;
    }

    /**
     * handshake(): HANDSHAKING, then each I/O step in turn; a failing step
     * leaves ERRORED and returns false. An unknown host only sets ERRORED,
     * which a later success overwrites with RUNNING. When the client sends
     * no header token, Scanner.next throws NoSuchElementException out of
     * handshake, which no catch block covers, and the state stays as it was.
     * sent is the response handed to output.write, when the handshake gets
     * that far.
     */
    method Handshake(env: Environment, accept: string -> string) returns (r: Result<bool>, sent: Option<string>)
      modifies this
      ensures r.Err? <==> env.Connects() && env.headers.None?
      ensures r.Err? ==> r.error == NoSuchElement
      ensures r == Ok(true) <==> env.Connects() && env.headers.Some? && !env.digestFails && !env.writeFails
      ensures state == (if r == Ok(true) then Running
                        else if r.Err? && !env.unknownHost then Handshaking
                        else Errored)
      ensures sent.Some? <==> env.Connects() && env.headers.Some? && !env.digestFails
      ensures sent.Some? ==> sent.value == Response(accept(DigestInput(FindKey(env.headers.value))))
      ensures hasSocket == (old(hasSocket) || !env.bindFails)
      ensures hasInput == (old(hasInput) || !(env.bindFails || env.acceptFails || env.inputFails))
      ensures hasOutput == (old(hasOutput) || env.Connects())
    {
      sent := None;
      state := Handshaking;
      if env.bindFails {
        state := Errored;
        return Ok(false), None;
      }
      hasSocket := true;
      if env.unknownHost {
        state := Errored;
      }
      if env.acceptFails {
        state := Errored;
        return Ok(false), None;
      }
      if env.inputFails {
        state := Errored;
        return Ok(false), None;
      }
      hasInput := true;
      if env.outputFails {
        state := Errored;
        return Ok(false), None;
      }
      hasOutput := true;
      if env.headers.None? {
        return Err(NoSuchElement), None;
      }
      var key := FindKey(env.headers.value);
      if env.digestFails {
        state := Errored;
        return Ok(false), None;
      }
      var acceptKey := accept(DigestInput(key));
      var response := Response(acceptKey);
      sent := Some(response);
      if env.writeFails {
        state := Errored;
        return Ok(false), sent;
      }
      state := Running;
      return Ok(true), sent;
    }

    /**
     * close(): CLOSING, then close input, output and socket in turn; the
     * first that fails leaves ERRORED and returns false. A stream or socket
     * that was never assigned is dereferenced while null, and the state
     * stays CLOSING.
     */
    method Close(env: Environment) returns (r: Result<bool>)
      modifies this
      ensures hasSocket == old(hasSocket) && hasInput == old(hasInput) && hasOutput == old(hasOutput)
      ensures r == CloseOutcome(env, hasInput, hasOutput, hasSocket)
      ensures state == (if r == Ok(true) then Closed else if r == Ok(false) then Errored else Closing)
    {
      state := Closing;
      if !hasInput {
        return Err(NullPointer);
      }
      if env.closeInputFails {
        state := Errored;
        return Ok(false);
      }
      if !hasOutput {
        return Err(NullPointer);
      }
      if env.closeOutputFails {
        state := Errored;
        return Ok(false);
      }
      if !hasSocket {
        return Err(NullPointer);
      }
      if env.closeSocketFails {
        state := Errored;
        return Ok(false);
      }
      state := Closed;
      return Ok(true);
    }
  }

  /** What close returns or throws, given which references are set. */
  function CloseOutcome(env: Environment, hasInput: bool, hasOutput: bool, hasSocket: bool): (r: Result<bool>)
    ensures r == Ok(true) <==> hasInput && hasOutput && hasSocket
                               && !env.closeInputFails && !env.closeOutputFails && !env.closeSocketFails
    ensures r.Err? ==> r.error == NullPointer
  {
    if !hasInput then Err(NullPointer)
    else if env.closeInputFails then Ok(false)
    else if !hasOutput then Err(NullPointer)
    else if env.closeOutputFails then Ok(false)
    else if !hasSocket then Err(NullPointer)
    else if env.closeSocketFails then Ok(false)
    else Ok(true)
  }

  /**
   * After a successful handshake every reference is set, so close cannot
   * throw: it returns true exactly when all three closes succeed.
   */
  lemma CloseAfterHandshake(env: Environment)
    ensures CloseOutcome(env, true, true, true).Ok?
    ensures CloseOutcome(env, true, true, true) == Ok(!(env.closeInputFails || env.closeOutputFails || env.closeSocketFails))
  {
  }
}
