/** The request and response layout of the pigpio command socket. A request is
    a 16-byte header of four unsigned words `cmd, p1, p2, p3` followed, for an
    extended command, by its extents in order; `p3` is passed in by the caller
    and is meant to be the number of extent bytes. A response is 16 bytes whose
    last word is the result. This module also holds the requests that the
    payload-carrying wrappers of `Pi` build, and the decoding of the secondary
    payload of `script_status`. */
module Framing {
  import opened Wire
  import opened Errors

  // Opcodes used by the modelled operations (`_PI_CMD_*`).
  const PI_CMD_NB: u32 := 19
  const PI_CMD_NC: u32 := 21
  const PI_CMD_WVAG: u32 := 28
  const PI_CMD_WVAS: u32 := 29
  const PI_CMD_TRIG: u32 := 37
  const PI_CMD_PROC: u32 := 38
  const PI_CMD_PROCR: u32 := 40
  const PI_CMD_PROCP: u32 := 45
  const PI_CMD_I2CRI: u32 := 67
  const PI_CMD_NOIB: u32 := 99

  /** An extent is either text (a `str`, sent latin-1 encoded) or raw bytes
      (`bytes`, `bytearray`, or a list of byte values). */
  datatype Extent = Text(chars: string) | Binary(bytes: seq<byte>)

  /** `len(x)`: characters for text, bytes otherwise. */
  function ExtentLength(x: Extent): nat
  {
    match x
    case Text(s) => |s|
    case Binary(b) => |b|
  }

  function TotalLength(xs: seq<Extent>): nat
  {
    if xs == [] then 0 else TotalLength(xs[..|xs| - 1]) + ExtentLength(xs[|xs| - 1])
  }

  /** `s.encode('latin-1')`: one byte per character, the character's code;
      a character above U+00FF cannot be encoded. */
  function Latin1(s: string): (r: Result<seq<byte>>)
    ensures r.Ok? <==> forall k :: 0 <= k < |s| ==> s[k] as int < 0x100
    ensures r.Err? ==> r.error == UnicodeEncodeError
    ensures r.Ok? ==> |r.value| == |s| && forall k :: 0 <= k < |s| ==> r.value[k] == s[k] as int
  {
    if s == [] then Ok([])
    else
      var c := s[|s| - 1];
      match Latin1(s[..|s| - 1])
      case Err(e) => Err(e)
      case Ok(init) => if c as int < 0x100 then Ok(init + [c as int]) else Err(UnicodeEncodeError)
  }

  /** The bytes one extent contributes to the request. */
  function EncodeExtent(x: Extent): (r: Result<seq<byte>>)
    ensures r.Ok? ==> |r.value| == ExtentLength(x)
    ensures r.Err? ==> r.error == UnicodeEncodeError
  {
    match x
    case Text(s) => Latin1(s)
    case Binary(b) => Ok(b)
  }

  /** The extents' bytes concatenated in list order; fails as soon as one text
      extent cannot be encoded. */
  function EncodeExtents(xs: seq<Extent>): (r: Result<seq<byte>>)
    ensures r.Ok? <==> forall k :: 0 <= k < |xs| ==> EncodeExtent(xs[k]).Ok?
    ensures r.Err? ==> r.error == UnicodeEncodeError
    ensures r.Ok? ==> |r.value| == TotalLength(xs)
  {
    if xs == [] then Ok([])
    else
      var init := xs[..|xs| - 1];
      match EncodeExtents(init)
      case Err(e) => Err(e)
      case Ok(b) =>
        match EncodeExtent(xs[|xs| - 1])
        case Err(e) => Err(e)
        case Ok(c) => Ok(b + c)
  }

  /** Binary extents always encode, to their own bytes. */
  lemma {:induction false} EncodeBinaryExtents(xs: seq<Extent>)
    requires forall k :: 0 <= k < |xs| ==> xs[k].Binary?
    ensures EncodeExtents(xs).Ok?
    ensures EncodeExtents(xs).value == BinaryBytes(xs)
  {
    if xs != [] {
      EncodeBinaryExtents(xs[..|xs| - 1]);
    }
  }

  function BinaryBytes(xs: seq<Extent>): seq<byte>
    requires forall k :: 0 <= k < |xs| ==> xs[k].Binary?
  {
    if xs == [] then [] else BinaryBytes(xs[..|xs| - 1]) + xs[|xs| - 1].bytes
  }

  /** `struct.pack('IIII', cmd, p1, p2, p3)`. */
  function Header(cmd: u32, p1: u32, p2: u32, p3: u32): (b: seq<byte>)
    ensures |b| == 16
  {
    Word(cmd) + Word(p1) + Word(p2) + Word(p3)
  }

  /** The four header words are read back from offsets 0, 4, 8 and 12. */
  lemma HeaderFields(cmd: u32, p1: u32, p2: u32, p3: u32, rest: seq<byte>)
    ensures var b := Header(cmd, p1, p2, p3) + rest;
      WordAt(b, 0) == cmd && WordAt(b, 4) == p1 && WordAt(b, 8) == p2 && WordAt(b, 12) == p3
  {
    var b := Header(cmd, p1, p2, p3) + rest;
    assert b[0..4] == Word(cmd) && b[4..8] == Word(p1) && b[8..12] == Word(p2) && b[12..16] == Word(p3);
    WordRoundTrip(cmd);
    WordRoundTrip(p1);
    WordRoundTrip(p2);
    WordRoundTrip(p3);
    assert WordAt(b, 0) == WordAt(Word(cmd), 0);
    assert WordAt(b, 4) == WordAt(Word(p1), 0);
    assert WordAt(b, 8) == WordAt(Word(p2), 0);
    assert WordAt(b, 12) == WordAt(Word(p3), 0);
  }

  /** The fixed request of `_pigpio_aio_command`: `cmd, p1, p2, 0`. */
  function CommandFrame(cmd: u32, p1: u32, p2: u32): (b: seq<byte>)
    ensures |b| == 16
    ensures WordAt(b, 0) == cmd && WordAt(b, 4) == p1 && WordAt(b, 8) == p2 && WordAt(b, 12) == 0
  {
    HeaderFields(cmd, p1, p2, 0, []);
    assert Header(cmd, p1, p2, 0) + [] == Header(cmd, p1, p2, 0);
    Header(cmd, p1, p2, 0)
  }

  /** The arguments of an extended command. `p3` is an unbounded Python int:
      packing it fails when it does not fit in 32 bits. */
  datatype Request = Request(cmd: u32, p1: u32, p2: u32, p3: nat, extents: seq<Extent>)

  /** The bytes `_pigpio_aio_command_ext_unlocked` sends for a request: the
      header, then every extent in order. Packing the header comes first, so an
      oversized `p3` fails before any extent is encoded. */
  function RequestFrame(req: Request): (r: Result<seq<byte>>)
    ensures r.Err? <==> req.p3 >= TWO_32 || EncodeExtents(req.extents).Err?
    ensures r.Err? ==> r.error == (if req.p3 >= TWO_32 then StructError else UnicodeEncodeError)
    ensures r.Ok? ==> r.value == Header(req.cmd, req.p1, req.p2, req.p3) + EncodeExtents(req.extents).value
  {
    if req.p3 >= TWO_32 then Err(StructError)
    else
      match EncodeExtents(req.extents)
      case Err(e) => Err(e)
      case Ok(body) => Ok(Header(req.cmd, req.p1, req.p2, req.p3) + body)
  }

  /** The header announces exactly the number of extent bytes that follow. */
  ghost predicate Framed(req: Request)
  {
    req.p3 == TotalLength(req.extents)
  }

  /** For a well-framed request the daemon, reading `p3` bytes after the
      header, consumes the whole request and nothing more; the header fields
      read back as sent. */
  lemma FramedRequestLayout(req: Request)
    requires Framed(req) && RequestFrame(req).Ok?
    ensures var b := RequestFrame(req).value;
      |b| == 16 + WordAt(b, 12) &&
      WordAt(b, 0) == req.cmd && WordAt(b, 4) == req.p1 && WordAt(b, 8) == req.p2 && WordAt(b, 12) == req.p3
  {
    HeaderFields(req.cmd, req.p1, req.p2, req.p3, EncodeExtents(req.extents).value);
  }

  /** `struct.unpack('12sI', response)`: exactly 16 bytes, the result being
      the unsigned word at offset 12. */
  function ParseResponse(resp: seq<byte>): (r: Result<u32>)
    ensures r.Ok? <==> |resp| == 16
    ensures r.Err? ==> r.error == StructError
  {
    if |resp| != 16 then Err(StructError) else Ok(WordAt(resp, 12))
  }

  /** The first 12 bytes of a response are ignored; the last four carry the
      result. */
  lemma ResponseResult(reserved: seq<byte>, result: u32)
    requires |reserved| == 12
    ensures ParseResponse(reserved + Word(result)) == Ok(result)
  {
    var b := reserved + Word(result);
    assert b[12..16] == Word(result);
    WordRoundTrip(result);
    assert WordAt(b, 12) == WordAt(Word(result), 0);
  }

  // ---- payload-carrying wrappers of Pi ----

  /** A pulse of `wave_add_generic`. */
  datatype Pulse = Pulse(gpioOn: u32, gpioOff: u32, delay: u32)

  /** `struct.pack("III", p.gpio_on, p.gpio_off, p.delay)` for each pulse. */
  function PulseBytes(ps: seq<Pulse>): (b: seq<byte>)
    ensures |b| == 12 * |ps|
  {
    if ps == [] then []
    else
      var p := ps[|ps| - 1];
      PulseBytes(ps[..|ps| - 1]) + Words([p.gpioOn, p.gpioOff, p.delay])
  }

  /** Pulse k occupies bytes 12k..12k+12 as `on, off, delay`. */
  lemma {:induction false} PulseBytesAt(ps: seq<Pulse>, k: nat)
    requires k < |ps|
    ensures var b := PulseBytes(ps);
      WordAt(b, 12 * k) == ps[k].gpioOn && WordAt(b, 12 * k + 4) == ps[k].gpioOff &&
      WordAt(b, 12 * k + 8) == ps[k].delay
  {
    var init := ps[..|ps| - 1];
    var b := PulseBytes(ps);
    if k == |ps| - 1 {
      var p := ps[k];
      var w := Words([p.gpioOn, p.gpioOff, p.delay]);
      assert b[12 * k..12 * k + 12] == w;
      WordsAt([p.gpioOn, p.gpioOff, p.delay], 0);
      WordsAt([p.gpioOn, p.gpioOff, p.delay], 1);
      WordsAt([p.gpioOn, p.gpioOff, p.delay], 2);
      assert WordAt(b, 12 * k) == WordAt(w, 0);
      assert WordAt(b, 12 * k + 4) == WordAt(w, 4);
      assert WordAt(b, 12 * k + 8) == WordAt(w, 8);
    } else {
      PulseBytesAt(init, k);
      var a := PulseBytes(init);
      assert b[..|a|] == a;
      assert WordAt(b, 12 * k) == WordAt(a, 12 * k);
      assert WordAt(b, 12 * k + 4) == WordAt(a, 12 * k + 4);
      assert WordAt(b, 12 * k + 8) == WordAt(a, 12 * k + 8);
    }
  }

  /** `store_script`: nothing is sent for an empty script; otherwise the
      script is the single extent and `p3` its length. */
  function StoreScriptRequest(script: Extent): Option<Request>
  {
    if ExtentLength(script) == 0 then None
    else Some(Request(PI_CMD_PROC, 0, 0, ExtentLength(script), [script]))
  }

  /** `run_script`: without parameters no extent and `p3 = 0`; with a list of
      parameters one extent packing each as a word, and `p3 = 4 * len`. */
  function RunScriptRequest(scriptId: u32, params: Option<seq<u32>>): Request
  {
    match params
    case None => Request(PI_CMD_PROCR, scriptId, 0, 0, [])
    case Some(ps) => Request(PI_CMD_PROCR, scriptId, 0, |ps| * 4, [Binary(Words(ps))])
  }

  /** `gpio_trigger`: gpio and pulse length in the header, the level as a
      4-byte extent. */
  function GpioTriggerRequest(userGpio: u32, pulseLen: u32, level: u32): Request
  {
    Request(PI_CMD_TRIG, userGpio, pulseLen, 4, [Binary(Word(level))])
  }

  /** `wave_add_generic`: nothing is sent for no pulses; otherwise 12 bytes
      per pulse. */
  function WaveAddGenericRequest(pulses: seq<Pulse>): Option<Request>
  {
    if |pulses| == 0 then None
    else Some(Request(PI_CMD_WVAG, 0, 0, |pulses| * 12, [Binary(PulseBytes(pulses))]))
  }

  /** `wave_add_serial`: nothing is sent for empty data; otherwise the three
      words `bb_bits, bb_stop, offset`, then the data, and `p3 = len + 12`. */
  function WaveAddSerialRequest(userGpio: u32, baud: u32, data: Extent, offset: u32, bbBits: u32, bbStop: u32)
    : Option<Request>
  {
    if ExtentLength(data) == 0 then None
    else Some(Request(PI_CMD_WVAS, userGpio, baud, ExtentLength(data) + 12,
                      [Binary(Words([bbBits, bbStop, offset])), data]))
  }

  /** `i2c_read_i2c_block_data`: handle and register in the header, the byte
      count as a 4-byte extent. */
  function I2cReadBlockRequest(handle: u32, register: u32, count: u32): Request
  {
    Request(PI_CMD_I2CRI, handle, register, 4, [Binary(Word(count))])
  }

  // Each payload builder declares in `p3` exactly the number of extent
  // bytes it sends.

  lemma StoreScriptFramed(script: Extent)
    ensures StoreScriptRequest(script).Some? <==> ExtentLength(script) > 0
    ensures StoreScriptRequest(script).Some? ==> Framed(StoreScriptRequest(script).value)
  {
    assert [script][..0] == [];
  }

  lemma RunScriptFramed(scriptId: u32, params: Option<seq<u32>>)
    ensures Framed(RunScriptRequest(scriptId, params))
  {
    if params.Some? {
      assert [Binary(Words(params.value))][..0] == [];
    }
  }

  lemma GpioTriggerFramed(userGpio: u32, pulseLen: u32, level: u32)
    ensures Framed(GpioTriggerRequest(userGpio, pulseLen, level))
  {
    assert [Binary(Word(level))][..0] == [];
  }

  lemma WaveAddGenericFramed(pulses: seq<Pulse>)
    ensures WaveAddGenericRequest(pulses).Some? <==> |pulses| > 0
    ensures WaveAddGenericRequest(pulses).Some? ==> Framed(WaveAddGenericRequest(pulses).value)
  {
    assert [Binary(PulseBytes(pulses))][..0] == [];
  }

  lemma WaveAddSerialFramed(userGpio: u32, baud: u32, data: Extent, offset: u32, bbBits: u32, bbStop: u32)
    ensures WaveAddSerialRequest(userGpio, baud, data, offset, bbBits, bbStop).Some? <==> ExtentLength(data) > 0
    ensures WaveAddSerialRequest(userGpio, baud, data, offset, bbBits, bbStop).Some? ==>
              Framed(WaveAddSerialRequest(userGpio, baud, data, offset, bbBits, bbStop).value)
  {
    var serial := [Binary(Words([bbBits, bbStop, offset])), data];
    assert serial[..1][..0] == [];
    assert serial[..|serial| - 1] == serial[..1];
    assert |Words([bbBits, bbStop, offset])| == 12;
    assert TotalLength(serial[..1]) == 12;
  }

  lemma I2cReadBlockFramed(handle: u32, register: u32, count: u32)
    ensures Framed(I2cReadBlockRequest(handle, register, count))
  {
    assert [Binary(Word(count))][..0] == [];
  }

  /** A request with one binary extent is framed as the header followed by
      that extent's bytes. */
  lemma SingleBinaryFrame(req: Request)
    requires req.p3 < TWO_32 && |req.extents| == 1 && req.extents[0].Binary?
    ensures RequestFrame(req) == Ok(Header(req.cmd, req.p1, req.p2, req.p3) + req.extents[0].bytes)
  {
    assert req.extents[..0] == [];
    assert EncodeExtents(req.extents[..0]) == Ok([]);
    assert [] + req.extents[0].bytes == req.extents[0].bytes;
  }

  /** Word k of the bytes following a 16-byte header is word 16 + 4k of the
      whole frame. */
  lemma WordAfterHeader(h: seq<byte>, body: seq<byte>, i: nat)
    requires |h| == 16 && i + 4 <= |body|
    ensures WordAt(h + body, 16 + i) == WordAt(body, i)
  {
    var b := h + body;
    assert b[16 + i] == body[i] && b[16 + i + 1] == body[i + 1];
    assert b[16 + i + 2] == body[i + 2] && b[16 + i + 3] == body[i + 3];
  }

  /** The `run_script` frame without parameters is the bare header. */
  lemma RunScriptNoParams(scriptId: u32)
    ensures RequestFrame(RunScriptRequest(scriptId, None)) == Ok(Header(PI_CMD_PROCR, scriptId, 0, 0))
  {
    assert EncodeExtents([]) == Ok([]);
    assert Header(PI_CMD_PROCR, scriptId, 0, 0) + [] == Header(PI_CMD_PROCR, scriptId, 0, 0);
  }

  /** The `run_script` frame with parameters: they follow the header as
      words, in order. */
  lemma RunScriptLayout(scriptId: u32, params: seq<u32>, k: nat)
    requires |params| * 4 < TWO_32 && k < |params|
    ensures RequestFrame(RunScriptRequest(scriptId, Some(params))).Ok?
    ensures var b := RequestFrame(RunScriptRequest(scriptId, Some(params))).value;
      |b| == 16 + 4 * |params| && WordAt(b, 16 + 4 * k) == params[k]
  {
    var req := RunScriptRequest(scriptId, Some(params));
    SingleBinaryFrame(req);
    WordsAt(params, k);
    WordAfterHeader(Header(req.cmd, req.p1, req.p2, req.p3), Words(params), 4 * k);
  }

  /** The `wave_add_generic` frame: pulse k follows the header at byte
      16 + 12k as `on, off, delay`. */
  lemma WaveAddGenericLayout(pulses: seq<Pulse>, k: nat)
    requires 0 < |pulses| && |pulses| * 12 < TWO_32 && k < |pulses|
    ensures RequestFrame(WaveAddGenericRequest(pulses).value).Ok?
    ensures var b := RequestFrame(WaveAddGenericRequest(pulses).value).value;
      |b| == 16 + 12 * |pulses| &&
      WordAt(b, 16 + 12 * k) == pulses[k].gpioOn && WordAt(b, 16 + 12 * k + 4) == pulses[k].gpioOff &&
      WordAt(b, 16 + 12 * k + 8) == pulses[k].delay
  {
    var req := WaveAddGenericRequest(pulses).value;
    SingleBinaryFrame(req);
    var h := Header(req.cmd, req.p1, req.p2, req.p3);
    var body := PulseBytes(pulses);
    PulseBytesAt(pulses, k);
    WordAfterHeader(h, body, 12 * k);
    WordAfterHeader(h, body, 12 * k + 4);
    WordAfterHeader(h, body, 12 * k + 8);
  }

  /** Two extents, the first binary, encode to the first's bytes followed by
      the second's encoding. */
  lemma TwoExtents(first: seq<byte>, second: Extent)
    requires EncodeExtent(second).Ok?
    ensures EncodeExtents([Binary(first), second]) == Ok(first + EncodeExtent(second).value)
  {
    var xs := [Binary(first), second];
    assert xs[..1] == [Binary(first)];
    assert xs[..1][..0] == [];
    assert EncodeExtents(xs[..1][..0]) == Ok([]);
    assert [] + first == first;
    assert EncodeExtents(xs[..1]) == Ok(first);
  }

  /** The `wave_add_serial` frame: `bb_bits, bb_stop, offset` follow the
      header as words, then the encoded data. */
  lemma WaveAddSerialLayout(userGpio: u32, baud: u32, data: Extent, offset: u32, bbBits: u32, bbStop: u32)
    requires 0 < ExtentLength(data) && ExtentLength(data) + 12 < TWO_32 && EncodeExtent(data).Ok?
    ensures var req := WaveAddSerialRequest(userGpio, baud, data, offset, bbBits, bbStop);
      req.Some? && RequestFrame(req.value).Ok? &&
      var b := RequestFrame(req.value).value;
      && |b| == 28 + ExtentLength(data)
      && WordAt(b, 16) == bbBits && WordAt(b, 20) == bbStop && WordAt(b, 24) == offset
      && b[28..] == EncodeExtent(data).value
  {
    var req := WaveAddSerialRequest(userGpio, baud, data, offset, bbBits, bbStop).value;
    var ws := [bbBits, bbStop, offset];
    var enc := EncodeExtent(data).value;
    var h := Header(req.cmd, req.p1, req.p2, req.p3);
    var body := Words(ws) + enc;
    assert RequestFrame(req) == Ok(h + body) by {
      TwoExtents(Words(ws), data);
    }
    assert WordAt(body, 0) == bbBits && WordAt(body, 4) == bbStop && WordAt(body, 8) == offset by {
      WordsThenMore(ws, enc);
    }
    assert |h| == 16 && |enc| == ExtentLength(data);
    WordAfterHeader(h, body, 0);
    WordAfterHeader(h, body, 4);
    WordAfterHeader(h, body, 8);
    assert (h + body)[28..] == enc by {
      SuffixAfter(h, Words(ws), enc);
    }
    var b := h + body;
    assert |b| == 28 + ExtentLength(data);
    assert WordAt(b, 16) == bbBits && WordAt(b, 20) == bbStop && WordAt(b, 24) == offset;
    assert RequestFrame(req).value == b;
  }

  /** The bytes after two prefixes are the rest. */
  lemma SuffixAfter(a: seq<byte>, b: seq<byte>, c: seq<byte>)
    ensures (a + (b + c))[|a| + |b|..] == c
  {
  }

  /** The three words at the head of `Words(ws) + more`. */
  lemma WordsThenMore(ws: seq<u32>, more: seq<byte>)
    requires |ws| == 3
    ensures var b := Words(ws) + more;
      WordAt(b, 0) == ws[0] && WordAt(b, 4) == ws[1] && WordAt(b, 8) == ws[2]
  {
    var b := Words(ws) + more;
    WordsAt(ws, 0);
    WordsAt(ws, 1);
    WordsAt(ws, 2);
    assert b[..12] == Words(ws);
    assert WordAt(b, 0) == WordAt(Words(ws), 0);
    assert WordAt(b, 4) == WordAt(Words(ws), 4);
    assert WordAt(b, 8) == WordAt(Words(ws), 8);
  }

  /** The `script_status` payload: on a positive reply, exactly 11 signed
      words (`struct.unpack('11i', data)`), the run status then the ten
      parameters; on a reply of 0 or less, that reply is the status and the
      parameter list is empty. */
  function DecodeScriptStatus(reply: int, data: seq<byte>): (r: Result<(int, seq<int>)>)
    ensures r.Err? <==> reply > 0 && |data| != 44
    ensures r.Err? ==> r.error == StructError
    ensures r.Ok? && reply <= 0 ==> r.value == (reply, [])
    ensures r.Ok? && reply > 0 ==>
              && |r.value.1| == 10
              && r.value.0 == U2i(WordAt(data, 0))
              && forall k :: 0 <= k < 10 ==> r.value.1[k] == U2i(WordAt(data, 4 * (k + 1)))
  {
    if reply <= 0 then Ok((reply, []))
    else if |data| != 44 then Err(StructError)
    else Ok((U2i(WordAt(data, 0)), seq(10, k requires 0 <= k < 10 => U2i(WordAt(data, 4 * (k + 1))))))
  }

  /** The signed words of a sequence, each as the daemon puts it on the wire. */
  function SignedWords(vs: seq<i32>): (b: seq<byte>)
    ensures |b| == 4 * |vs|
  {
    Words(seq(|vs|, k requires 0 <= k < |vs| => I2u(vs[k])))
  }

  /** Decoding the payload the daemon sends for a status and ten parameters
      gives them back. */
  lemma ScriptStatusRoundTrip(status: i32, params: seq<i32>)
    requires |params| == 10
    ensures DecodeScriptStatus(44, SignedWords([status] + params)) == Ok((status, params))
  {
    var vs := [status] + params;
    var ws := seq(|vs|, k requires 0 <= k < |vs| => I2u(vs[k]));
    var data := SignedWords(vs);
    WordsAt(ws, 0);
    U2iI2u(status, 0);
    forall k | 0 <= k < 10
      ensures U2i(WordAt(data, 4 * (k + 1))) == params[k]
    {
      WordsAt(ws, k + 1);
      U2iI2u(params[k], 0);
    }
    var r := DecodeScriptStatus(44, data);
    assert r.value.1 == params;
  }

  // ---- the reply of an i2c block read ----

  /** `i2c_read_i2c_block_data` as written: the raw reply of
      `_pigpio_aio_command_ext_unlocked` is an unsigned word, and the data is
      read whenever that word is above 0. */
  predicate BlockReadFetchesAsWritten(reply: u32)
  {
    reply > 0
  }

  /** A failed block read is reported as a negative error code, which arrives
      as a word with bit 31 set; as written it is taken for a byte count and
      the data is still read. */
  lemma BlockReadFailureFetches()
    ensures var reply := I2u(PI_I2C_READ_FAILED);
      U2i(reply) < 0 && BlockReadFetchesAsWritten(reply)
  {
  }

  /** The evidently intended test: interpret the reply as signed first, as
      every other wrapper does through `_u2i`, and read data only for a
      positive count. */
  predicate BlockReadFetches(reply: u32)
  {
    U2i(reply) > 0
  }

  /** Data is read exactly for replies that are positive signed values, and
      never for an error code. */
  lemma BlockReadFetchesMeaning(reply: u32)
    ensures BlockReadFetches(reply) <==> 0 < reply < 0x8000_0000
    ensures U2i(reply) < 0 ==> !BlockReadFetches(reply)
    ensures BlockReadFetches(reply) ==> BlockReadFetchesAsWritten(reply)
  {
  }
}
