/** The command socket of `Pi` and the operations that exchange frames over
    it. A socket is modelled by the bytes written to it so far and the bytes
    the daemon has sent that are not yet received; `sock_recv(n)` delivers up
    to `n` of them. */
module Channel {
  import opened Wire
  import opened Errors
  import opened Framing

  /** The first `n` bytes of `s`, or all of `s` when it is shorter. */
  function Take(s: seq<byte>, n: nat): (t: seq<byte>)
    ensures |t| == if n < |s| then n else |s|
    ensures t == s[..|t|]
  {
    if n < |s| then s[..n] else s
  }

  /** What is left of `s` once `Take(s, n)` has been received. */
  function Drop(s: seq<byte>, n: nat): (t: seq<byte>)
    ensures s == Take(s, n) + t
  {
    if n < |s| then s[n..] else []
  }

  /** The result a 16-byte response read from `incoming` carries. */
  function Reply(incoming: seq<byte>): Result<u32>
  {
    ParseResponse(Take(incoming, 16))
  }

  /** A well-formed response at the head of the stream yields its result word
      and leaves the rest of the stream untouched. */
  lemma ReplyAtHead(reserved: seq<byte>, result: u32, more: seq<byte>)
    requires |reserved| == 12
    ensures Reply(reserved + Word(result) + more) == Ok(result)
    ensures Drop(reserved + Word(result) + more, 16) == more
  {
    var s := reserved + Word(result) + more;
    assert Take(s, 16) == reserved + Word(result);
    ResponseResult(reserved, result);
    assert s[16..] == more;
  }

  /** A response shorter than 16 bytes (the peer closed the stream) makes
      `struct.unpack` fail. */
  lemma ShortReply(incoming: seq<byte>)
    requires |incoming| < 16
    ensures Reply(incoming) == Err(StructError)
    ensures Drop(incoming, 16) == []
  {
  }

  class Socket {
    var sent: seq<byte>
    var incoming: seq<byte>

    constructor (incoming: seq<byte>)
      ensures sent == [] && this.incoming == incoming
    {
      sent := [];
      this.incoming := incoming;
    }

    /** `sock_sendall`. */
    method SendAll(data: seq<byte>)
      modifies this
      ensures sent == old(sent) + data && incoming == old(incoming)
    {
      sent := sent + data;
    }

    /** `sock_recv(n)`: delivers at most `n` of the pending bytes. */
    method Recv(n: nat) returns (data: seq<byte>)
      modifies this
      ensures data == Take(old(incoming), n)
      ensures incoming == Drop(old(incoming), n) && sent == old(sent)
    {
      data := Take(incoming, n);
      incoming := Drop(incoming, n);
    }
  }

  /** One command: `frame` was sent, a 16-byte response was consumed, and
      `r` is the result it carries. */
  twostate predicate Exchanged(s: Socket, frame: seq<byte>, new r: Result<u32>)
    reads s
  {
    && s.sent == old(s.sent) + frame
    && s.incoming == Drop(old(s.incoming), 16)
    && r == Reply(old(s.incoming))
  }

  /** One extended command: when the request cannot be framed, the error and
      nothing sent; otherwise the exchange of its frame. */
  twostate predicate ExtExchanged(s: Socket, req: Request, new r: Result<u32>)
    reads s
  {
    match RequestFrame(req)
    case Err(e) => r == Err(e) && s.sent == old(s.sent) && s.incoming == old(s.incoming)
    case Ok(frame) => Exchanged(s, frame, r)
  }

  /** An extended command whose result goes through `_u2i`. */
  twostate predicate ExtCall(s: Socket, req: Request, exceptions: bool, new r: Result<int>)
    reads s
  {
    match RequestFrame(req)
    case Err(e) => r == Err(e) && s.sent == old(s.sent) && s.incoming == old(s.incoming)
    case Ok(frame) =>
      && s.sent == old(s.sent) + frame
      && s.incoming == Drop(old(s.incoming), 16)
      && r == Checked(Reply(old(s.incoming)), exceptions)
  }

  /** The outcome of `script_status` on the stream `incoming`. Its result goes
      through `u2i`, not `_u2i`: an error code is returned as the status and
      never raised. A payload shorter than announced comes back from the
      first receive cut short, and `data.extend` then fails on the immutable
      `bytes` it holds. */
  function ScriptStatusReply(incoming: seq<byte>): Result<(int, seq<int>)>
  {
    match Reply(incoming)
    case Err(e) => Err(e)
    case Ok(w) =>
      var n := U2i(w);
      if n <= 0 then Ok((n, []))
      else
        var data := Take(Drop(incoming, 16), n);
        if |data| < n then Err(AttributeError) else DecodeScriptStatus(n, data)
  }

  /** What `script_status` leaves unread of `incoming`. */
  function ScriptStatusRest(incoming: seq<byte>): seq<byte>
  {
    var rest := Drop(incoming, 16);
    match Reply(incoming)
    case Err(_) => rest
    case Ok(w) => if U2i(w) <= 0 then rest else Drop(rest, U2i(w))
  }

  /** A status with its ten parameters, sent by the daemon as a reply of 44
      followed by 11 signed words, is received intact. */
  lemma ScriptStatusExchange(reserved: seq<byte>, status: i32, params: seq<i32>, more: seq<byte>)
    requires |reserved| == 12 && |params| == 10
    ensures var s := reserved + Word(44) + SignedWords([status] + params) + more;
      ScriptStatusReply(s) == Ok((status, params)) && ScriptStatusRest(s) == more
  {
    var payload := SignedWords([status] + params);
    var s := reserved + Word(44) + payload + more;
    assert s == reserved + Word(44) + (payload + more);
    ReplyAtHead(reserved, 44, payload + more);
    assert Take(payload + more, 44) == payload;
    assert Drop(payload + more, 44) == more;
    ScriptStatusRoundTrip(status, params);
  }

  /** A negative reply (the script id is unknown, say) is the status itself,
      with no parameters and nothing more read, whatever `exceptions` says. */
  lemma ScriptStatusError(reserved: seq<byte>, code: i32, more: seq<byte>)
    requires |reserved| == 12 && code < 0
    ensures var s := reserved + Word(I2u(code)) + more;
      ScriptStatusReply(s) == Ok((code as int, [])) && ScriptStatusRest(s) == more
  {
    ReplyAtHead(reserved, I2u(code), more);
    U2iI2u(code, 0);
  }

  /** The outcome of `i2c_read_i2c_block_data` for `count` bytes on the stream
      `incoming`, with the reply tested as a signed value: no data for a
      failed read, otherwise exactly `count` bytes, or AttributeError from
      `_rxbuf` when fewer arrive. */
  function BlockReadReply(incoming: seq<byte>, count: nat): Result<seq<byte>>
  {
    match Reply(incoming)
    case Err(e) => Err(e)
    case Ok(w) =>
      if !BlockReadFetches(w) then Ok([])
      else
        var data := Take(Drop(incoming, 16), count);
        if |data| < count then Err(AttributeError) else Ok(data)
  }

  /** What `i2c_read_i2c_block_data` leaves unread of `incoming`. */
  function BlockReadRest(incoming: seq<byte>, count: nat): seq<byte>
  {
    var rest := Drop(incoming, 16);
    match Reply(incoming)
    case Err(_) => rest
    case Ok(w) => if BlockReadFetches(w) then Drop(rest, count) else rest
  }

  /** A successful block read delivers the bytes following the response; a
      failed one delivers none and leaves the stream after the response, so
      the next command reads its own response. */
  lemma BlockReadExchange(reserved: seq<byte>, reply: u32, data: seq<byte>, more: seq<byte>)
    requires |reserved| == 12
    ensures 0 < reply < 0x8000_0000 ==>
      var s := reserved + Word(reply) + data + more;
      BlockReadReply(s, |data|) == Ok(data) && BlockReadRest(s, |data|) == more
    ensures U2i(reply) < 0 ==>
      var s := reserved + Word(reply) + more;
      BlockReadReply(s, |data|) == Ok([]) && BlockReadRest(s, |data|) == more
  {
    BlockReadFetchesMeaning(reply);
    if 0 < reply < 0x8000_0000 {
      var s := reserved + Word(reply) + data + more;
      assert s == reserved + Word(reply) + (data + more);
      ReplyAtHead(reserved, reply, data + more);
      assert Take(data + more, |data|) == data;
      assert Drop(data + more, |data|) == more;
    }
    ReplyAtHead(reserved, reply, more);
  }

  /** The client end of the command socket. `exceptions` is the module-wide
      switch that makes `_u2i` raise on negative results. */
  class Pi {
    const sock: Socket
    const exceptions: bool

    constructor (sock: Socket, exceptions: bool)
      ensures this.sock == sock && this.exceptions == exceptions
    {
      this.sock := sock;
      this.exceptions := exceptions;
    }

    /** `_pigpio_aio_command`: send `cmd, p1, p2, 0`, read the 16-byte
        response, return its result word. */
    method Command(cmd: u32, p1: u32, p2: u32) returns (r: Result<u32>)
      modifies sock
      ensures Exchanged(sock, CommandFrame(cmd, p1, p2), r)
    {
      sock.SendAll(CommandFrame(cmd, p1, p2));
      var response := sock.Recv(16);
      r := ParseResponse(response);
    }

    /** `_pigpio_aio_command_ext_unlocked`: pack the header, append the
        extents in order, send, read the response. */
    method CommandExtUnlocked(cmd: u32, p1: u32, p2: u32, p3: nat, extents: seq<Extent>) returns (r: Result<u32>)
      modifies sock
      ensures ExtExchanged(sock, Request(cmd, p1, p2, p3, extents), r)
    {
      if p3 >= TWO_32 {
        return Err(StructError);
      }
      var ext := Header(cmd, p1, p2, p3);
      var i := 0;
      while i < |extents|
        invariant 0 <= i <= |extents|
        invariant EncodeExtents(extents[..i]).Ok?
        invariant ext == Header(cmd, p1, p2, p3) + EncodeExtents(extents[..i]).value
      {
        match EncodeExtent(extents[i]) {
          case Err(e) =>
            return Err(e);
          case Ok(b) =>
            assert extents[..i + 1][..i] == extents[..i];
            ext := ext + b;
        }
        i := i + 1;
      }
      assert extents[..i] == extents;
      sock.SendAll(ext);
      var response := sock.Recv(16);
      r := ParseResponse(response);
    }

    /** `_pigpio_aio_command_ext`: the same exchange, under the command lock. */
    method CommandExt(cmd: u32, p1: u32, p2: u32, p3: nat, extents: seq<Extent>) returns (r: Result<u32>)
      modifies sock
      ensures ExtExchanged(sock, Request(cmd, p1, p2, p3, extents), r)
    {
      r := CommandExtUnlocked(cmd, p1, p2, p3, extents);
    }

    /** `store_script`: an empty script sends nothing and returns 0. */
    method StoreScript(script: Extent) returns (r: Result<int>)
      modifies sock
      ensures StoreScriptRequest(script).None? ==>
                r == Ok(0) && sock.sent == old(sock.sent) && sock.incoming == old(sock.incoming)
      ensures StoreScriptRequest(script).Some? ==> ExtCall(sock, StoreScriptRequest(script).value, exceptions, r)
    {
      if ExtentLength(script) == 0 {
        return Ok(0);
      }
      var res := CommandExt(PI_CMD_PROC, 0, 0, ExtentLength(script), [script]);
      r := Checked(res, exceptions);
    }

    /** `run_script`: the parameters, when given, packed word by word. */
    method RunScript(scriptId: u32, params: Option<seq<u32>>) returns (r: Result<int>)
      modifies sock
      ensures ExtCall(sock, RunScriptRequest(scriptId, params), exceptions, r)
    {
      var nump: nat;
      var extents: seq<Extent>;
      if params.Some? {
        var ps := params.value;
        var ext: seq<byte> := [];
        for i := 0 to |ps|
          invariant ext == Words(ps[..i])
        {
          assert ps[..i + 1][..i] == ps[..i];
          ext := ext + Word(ps[i]);
        }
        assert ps[..|ps|] == ps;
        nump := |ps|;
        extents := [Binary(ext)];
      } else {
        nump := 0;
        extents := [];
      }
      var res := CommandExt(PI_CMD_PROCR, scriptId, 0, nump * 4, extents);
      r := Checked(res, exceptions);
    }

    /** `script_status`: a positive reply is the size of a second payload,
        read from the same socket and decoded as the status and ten
        parameters. */
    method ScriptStatus(scriptId: u32) returns (r: Result<(int, seq<int>)>)
      modifies sock
      ensures sock.sent == old(sock.sent) + CommandFrame(PI_CMD_PROCP, scriptId, 0)
      ensures r == ScriptStatusReply(old(sock.incoming))
      ensures sock.incoming == ScriptStatusRest(old(sock.incoming))
    {
      var res := Command(PI_CMD_PROCP, scriptId, 0);
      if res.Err? {
        return Err(res.error);
      }
      var bytes := U2i(res.value);
      if bytes > 0 {
        var data := sock.Recv(bytes);
        if |data| < bytes {
          // The second receive runs before `data.extend(b)` fails.
          var b := sock.Recv(bytes - |data|);
          return Err(AttributeError);
        }
        r := DecodeScriptStatus(bytes, data);
      } else {
        r := Ok((bytes, []));
      }
    }

    /** `gpio_trigger`. */
    method GpioTrigger(userGpio: u32, pulseLen: u32, level: u32) returns (r: Result<int>)
      modifies sock
      ensures ExtCall(sock, GpioTriggerRequest(userGpio, pulseLen, level), exceptions, r)
    {
      var res := CommandExt(PI_CMD_TRIG, userGpio, pulseLen, 4, [Binary(Word(level))]);
      r := Checked(res, exceptions);
    }

    /** `wave_add_generic`: no pulses sends nothing and returns 0. */
    method WaveAddGeneric(pulses: seq<Pulse>) returns (r: Result<int>)
      modifies sock
      ensures WaveAddGenericRequest(pulses).None? ==>
                r == Ok(0) && sock.sent == old(sock.sent) && sock.incoming == old(sock.incoming)
      ensures WaveAddGenericRequest(pulses).Some? ==> ExtCall(sock, WaveAddGenericRequest(pulses).value, exceptions, r)
    {
      if |pulses| == 0 {
        return Ok(0);
      }
      var ext: seq<byte> := [];
      for i := 0 to |pulses|
        invariant ext == PulseBytes(pulses[..i])
      {
        var p := pulses[i];
        assert pulses[..i + 1][..i] == pulses[..i];
        ext := ext + Words([p.gpioOn, p.gpioOff, p.delay]);
      }
      assert pulses[..|pulses|] == pulses;
      var res := CommandExt(PI_CMD_WVAG, 0, 0, |pulses| * 12, [Binary(ext)]);
      r := Checked(res, exceptions);
    }

    /** `wave_add_serial`: empty data sends nothing and returns 0. */
    method WaveAddSerial(userGpio: u32, baud: u32, data: Extent, offset: u32, bbBits: u32, bbStop: u32)
      returns (r: Result<int>)
      modifies sock
      ensures var req := WaveAddSerialRequest(userGpio, baud, data, offset, bbBits, bbStop);
        && (req.None? ==> r == Ok(0) && sock.sent == old(sock.sent) && sock.incoming == old(sock.incoming))
        && (req.Some? ==> ExtCall(sock, req.value, exceptions, r))
    {
      if ExtentLength(data) == 0 {
        return Ok(0);
      }
      var extents := [Binary(Words([bbBits, bbStop, offset])), data];
      assert WaveAddSerialRequest(userGpio, baud, data, offset, bbBits, bbStop).value
          == Request(PI_CMD_WVAS, userGpio, baud, ExtentLength(data) + 12, extents);
      var res := CommandExt(PI_CMD_WVAS, userGpio, baud, ExtentLength(data) + 12, extents);
      r := Checked(res, exceptions);
    }

    /** `_rxbuf`: exactly `count` further bytes from the command socket. A
        first receive cut short makes `ext.extend` fail on the immutable
        `bytes` it returned, before anything more is received. */
    method RxBuf(count: nat) returns (r: Result<seq<byte>>)
      modifies sock
      ensures r.Ok? <==> count <= |old(sock.incoming)|
      ensures r.Ok? ==> r.value == old(sock.incoming)[..count]
      ensures r.Err? ==> r.error == AttributeError
      ensures sock.incoming == Drop(old(sock.incoming), count) && sock.sent == old(sock.sent)
    {
      var ext := sock.Recv(count);
      if |ext| < count {
        return Err(AttributeError);
      }
      r := Ok(ext);
    }

    /** `i2c_read_i2c_block_data`, with the reply tested as a signed value
        (see `BlockReadFetches`). */
    method I2cReadI2cBlockData(handle: u32, register: u32, count: u32) returns (r: Result<seq<byte>>)
      modifies sock
      ensures sock.sent == old(sock.sent) + RequestFrame(I2cReadBlockRequest(handle, register, count)).value
      ensures r == BlockReadReply(old(sock.incoming), count)
      ensures sock.incoming == BlockReadRest(old(sock.incoming), count)
    {
      var res := CommandExtUnlocked(PI_CMD_I2CRI, handle, register, 4, [Binary(Word(count))]);
      SingleBinaryFrame(I2cReadBlockRequest(handle, register, count));
      if res.Err? {
        return Err(res.error);
      }
      if BlockReadFetches(res.value) {
        r := RxBuf(count);
      } else {
        r := Ok([]);
      }
    }
  }
}
