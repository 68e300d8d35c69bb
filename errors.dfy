/** Error mapping of the pigpio client: the `_errors` table from negative
    daemon result codes to descriptions, `error_text`, and the `_u2i` policy
    that turns a negative result into an `ApigpioError` when the module flag
    `exceptions` is set. The numeric codes are those of the pigpio daemon
    (pigpio.h); the client imports them from a constants module that is not
    part of this model. */
module Errors {
  import opened Wire

  /** The exceptions the modelled code can raise. */
  datatype Error =
    | ApigpioError(text: string)  // raised by `_u2i` for a negative result
    | StructError                 // `struct.pack`/`struct.unpack` rejected a value or a buffer size
    | UnicodeEncodeError          // a text extent holds a character above U+00FF (latin-1)
    | AttributeError              // `extend` called on the immutable `bytes` of a short `sock_recv`

  datatype Result<T> = Ok(value: T) | Err(error: Error)

  /** Codes that the table describes. */
  const PI_BAD_LEVEL: int := -5
  const PI_BAD_SERIAL_STRUC: int := -39
  const PI_BAD_SERIAL_BUF: int := -40
  const PI_I2C_READ_FAILED: int := -83
  const PI_BAD_SER_INVERT: int := -121

  datatype Option<T> = None | Some(value: T)

  /** `_errors.get(n)`: the description the table holds for code n. */
  function ErrorEntry(n: int): Option<string>
  {
    match n
    case -1 => Some("pigpio initialisation failed")
    case -2 => Some("gpio not 0-31")
    case -3 => Some("gpio not 0-53")
    case -4 => Some("mode not 0-7")
    case -5 => Some("level not 0-1")
    case -6 => Some("pud not 0-2")
    case -7 => Some("pulsewidth not 0 or 500-2500")
    case -8 => Some("dutycycle not 0-range (default 255)")
    case -9 => Some("timer not 0-9")
    case -10 => Some("ms not 10-60000")
    case -11 => Some("timetype not 0-1")
    case -12 => Some("seconds < 0")
    case -13 => Some("micros not 0-999999")
    case -14 => Some("gpioSetTimerFunc failed")
    case -15 => Some("timeout not 0-60000")
    case -16 => Some("DEPRECATED")
    case -17 => Some("clock peripheral not 0-1")
    case -18 => Some("DEPRECATED")
    case -19 => Some("clock micros not 1, 2, 4, 5, 8, or 10")
    case -20 => Some("buf millis not 100-10000")
    case -21 => Some("dutycycle range not 25-40000")
    case -22 => Some("signum not 0-63")
    case -23 => Some("can't open pathname")
    case -24 => Some("no handle available")
    case -25 => Some("unknown handle")
    case -26 => Some("ifFlags > 3")
    case -27 => Some("DMA channel not 0-14")
    case -28 => Some("socket port not 1024-30000")
    case -29 => Some("unknown fifo command")
    case -30 => Some("DMA secondary channel not 0-6")
    case -31 => Some("function called before gpioInitialise")
    case -32 => Some("function called after gpioInitialise")
    case -33 => Some("waveform mode not 0-1")
    case -34 => Some("bad parameter in gpioCfgInternals call")
    case -35 => Some("baud rate not 50-250000(RX)/1000000(TX)")
    case -36 => Some("waveform has too many pulses")
    case -37 => Some("waveform has too many chars")
    case -38 => Some("no bit bang serial read in progress on gpio")
    case -41 => Some("no permission to update gpio")
    case -42 => Some("no permission to update one or more gpios")
    case -43 => Some("bad WVSC subcommand")
    case -44 => Some("bad WVSM subcommand")
    case -45 => Some("bad WVSP subcommand")
    case -46 => Some("trigger pulse length not 1-100")
    case -47 => Some("invalid script")
    case -48 => Some("unknown script id")
    case -49 => Some("add serial data offset > 30 minute")
    case -50 => Some("gpio already in use")
    case -51 => Some("must read at least a byte at a time")
    case -52 => Some("script parameter id not 0-9")
    case -53 => Some("script has duplicate tag")
    case -54 => Some("script has too many tags")
    case -55 => Some("illegal script command")
    case -56 => Some("script variable id not 0-149")
    case -57 => Some("no more room for scripts")
    case -58 => Some("can't allocate temporary memory")
    case -59 => Some("socket read failed")
    case -60 => Some("socket write failed")
    case -61 => Some("too many script parameters (> 10)")
    case -62 => Some("script already running or failed")
    case -63 => Some("script has unresolved tag")
    case -64 => Some("bad MICS delay (too large)")
    case -65 => Some("bad MILS delay (too large)")
    case -66 => Some("non existent wave id")
    case -67 => Some("No more CBs for waveform")
    case -68 => Some("No more OOL for waveform")
    case -69 => Some("attempt to create an empty waveform")
    case -70 => Some("No more waveform ids")
    case -71 => Some("can't open I2C device")
    case -72 => Some("can't open serial device")
    case -73 => Some("can't open SPI device")
    case -74 => Some("bad I2C bus")
    case -75 => Some("bad I2C address")
    case -76 => Some("bad SPI channel")
    case -77 => Some("bad i2c/spi/ser open flags")
    case -78 => Some("bad SPI speed")
    case -79 => Some("bad serial device name")
    case -80 => Some("bad serial baud rate")
    case -81 => Some("bad i2c/spi/ser parameter")
    case -82 => Some("I2C write failed")
    case -83 => Some("I2C read failed")
    case -84 => Some("bad SPI count")
    case -85 => Some("ser write failed")
    case -86 => Some("ser read failed")
    case -87 => Some("ser read no data available")
    case -88 => Some("unknown command")
    case -89 => Some("SPI xfer/read/write failed")
    case -90 => Some("bad (NULL) pointer")
    case -91 => Some("need a A+/B+/Pi2 for auxiliary SPI")
    case -92 => Some("gpio is not in use for PWM")
    case -93 => Some("gpio is not in use for servo pulses")
    case -94 => Some("gpio has no hardware clock")
    case -95 => Some("gpio has no hardware PWM")
    case -96 => Some("hardware PWM frequency not 1-125M")
    case -97 => Some("hardware PWM dutycycle not 0-1M")
    case -98 => Some("hardware clock frequency not 4689-250M")
    case -99 => Some("need password to use hardware clock 1")
    case -100 => Some("illegal: PWM in use for main clock")
    case -101 => Some("serial data bits not 1-32")
    case -102 => Some("serial (half) stop bits not 2-8")
    case -103 => Some("socket/pipe message too big")
    case -104 => Some("bad memory allocation mode")
    case -105 => Some("too many I2C transaction segments")
    case -106 => Some("an I2C transaction segment failed")
    case -107 => Some("SMBus command not supported")
    case -108 => Some("no bit bang I2C in progress on gpio")
    case -109 => Some("bad I2C write length")
    case -110 => Some("bad I2C read length")
    case -111 => Some("bad I2C command")
    case -112 => Some("bad I2C baud rate: not 50-500k")
    case -113 => Some("bad chain loop count")
    case -114 => Some("empty chain loop")
    case -115 => Some("too many chain counters")
    case -116 => Some("bad chain command")
    case -117 => Some("bad chain delay micros")
    case -118 => Some("chain counters nested too deeply")
    case -119 => Some("chain is too long")
    case -120 => Some("deprecated function removed")
    case -121 => Some("bit bang serial invert not 0 or 1")
    case _ => None
  }

  /** Decimal digits of a natural number, most significant first (`str(n)`). */
  function NatString(n: nat): (s: string)
    ensures |s| >= 1
    ensures forall k :: 0 <= k < |s| ==> '0' <= s[k] <= '9'
    decreases n
  {
    if n < 10 then [DigitChar(n)] else NatString(n / 10) + [DigitChar(n % 10)]
  }

  function DigitChar(d: nat): (c: char)
    requires d < 10
    ensures '0' <= c <= '9'
  {
    ('0' as int + d) as char
  }

  /** `str(n)` for any integer: a minus sign before the digits of |n|. */
  function IntString(n: int): string
  {
    if n < 0 then "-" + NatString(-n) else NatString(n)
  }

  /** The value of a string of decimal digits (reference reading of NatString). */
  function DigitsValue(s: string): nat
    requires forall k :: 0 <= k < |s| ==> '0' <= s[k] <= '9'
  {
    if s == [] then 0 else 10 * DigitsValue(s[..|s| - 1]) + (s[|s| - 1] as int - '0' as int)
  }

  /** Reading back the decimal digits gives the number. */
  lemma {:induction false} NatStringRoundTrip(n: nat)
    ensures DigitsValue(NatString(n)) == n
    decreases n
  {
    if n >= 10 {
      var s := NatString(n);
      assert s[..|s| - 1] == NatString(n / 10);
      NatStringRoundTrip(n / 10);
    }
  }

  /** Distinct numbers print differently. */
  lemma IntStringInjective(a: int, b: int)
    requires IntString(a) == IntString(b)
    ensures a == b
  {
    if a < 0 && b < 0 {
      NegativeStringDigits(a);
      NegativeStringDigits(b);
      NatStringInjective(-a, -b);
    } else if a >= 0 && b >= 0 {
      NatStringInjective(a, b);
    } else if a < 0 {
      SignShows(a, b);
    } else {
      SignShows(b, a);
    }
  }

  /** A negative number's string starts with '-', a natural number's with a digit. */
  lemma SignShows(neg: int, n: int)
    requires neg < 0 <= n
    ensures IntString(neg) != IntString(n)
  {
    assert IntString(neg)[0] == '-' != IntString(n)[0];
  }

  lemma NatStringInjective(m: nat, n: nat)
    requires NatString(m) == NatString(n)
    ensures m == n
  {
    NatStringRoundTrip(m);
    NatStringRoundTrip(n);
  }

  lemma NegativeStringDigits(n: int)
    requires n < 0
    ensures IntString(n)[1..] == NatString(-n)
  {
    var d := NatString(-n);
    assert IntString(n) == "-" + d;
  }

  /** `"unknown error ({})".format(n)`. */
  function UnknownErrorText(n: int): string
  {
    "unknown error (" + IntString(n) + ")"
  }

  /** `error_text`: the table's description when it has a (non-empty) one,
      otherwise the generic text naming the code. */
  function ErrorText(n: int): (t: string)
    ensures ErrorEntry(n).Some? && ErrorEntry(n).value != "" ==> t == ErrorEntry(n).value
    ensures ErrorEntry(n).None? ==> t == UnknownErrorText(n)
  {
    match ErrorEntry(n)
    case Some(d) => if d != "" then d else UnknownErrorText(n)
    case None => UnknownErrorText(n)
  }

  /** The generic text identifies the code: two codes outside the table never
      share a text. */
  lemma UnknownErrorTextInjective(a: int, b: int)
    requires ErrorEntry(a).None? && ErrorEntry(b).None?
    requires ErrorText(a) == ErrorText(b)
    ensures a == b
  {
    var p := "unknown error (";
    assert IntString(a) == ErrorText(a)[|p|..|ErrorText(a)| - 1];
    assert IntString(b) == ErrorText(b)[|p|..|ErrorText(b)| - 1];
    IntStringInjective(a, b);
  }

  /** The documented example `error_text(-5)`, and the last code of the
      table. */
  lemma ErrorTextExamples()
    ensures ErrorText(PI_BAD_LEVEL) == "level not 0-1"
    ensures ErrorText(PI_BAD_SER_INVERT) == "bit bang serial invert not 0 or 1"
  {
  }

  /** The two daemon codes that the table leaves out get the generic text. */
  lemma ErrorTextMissingCodes()
    ensures ErrorText(PI_BAD_SERIAL_STRUC) == "unknown error (-39)"
    ensures ErrorText(PI_BAD_SERIAL_BUF) == "unknown error (-40)"
  {
    MissingEntries();
    assert UnknownErrorText(-39) == "unknown error (-39)" by {
      assert IntString(-39) == "-39" by { assert NatString(39) == "39" by { assert NatString(3) == "3"; } }
    }
    assert UnknownErrorText(-40) == "unknown error (-40)" by {
      assert IntString(-40) == "-40" by { assert NatString(40) == "40" by { assert NatString(4) == "4"; } }
    }
  }

  lemma MissingEntries()
    ensures ErrorEntry(PI_BAD_SERIAL_STRUC).None? && ErrorEntry(PI_BAD_SERIAL_BUF).None?
  {
  }

  /** `_u2i`: the signed reading of a result word; a negative value raises
      `ApigpioError(error_text(v))` when `exceptions` is set and is returned
      as it is otherwise. */
  function CheckedU2i(x: u32, exceptions: bool): (r: Result<int>)
    ensures r.Err? <==> exceptions && U2i(x) < 0
    ensures r.Ok? ==> r.value == U2i(x)
    ensures r.Err? ==> r.error == ApigpioError(ErrorText(U2i(x)))
  {
    var v := U2i(x);
    if v < 0 && exceptions then Err(ApigpioError(ErrorText(v))) else Ok(v)
  }

  /** `_u2i` applied to the outcome of a command: an exception raised while
      exchanging the frames propagates unchanged. */
  function Checked(res: Result<u32>, exceptions: bool): (r: Result<int>)
    ensures res.Err? ==> r == Err(res.error)
    ensures res.Ok? ==> r == CheckedU2i(res.value, exceptions)
  {
    match res
    case Err(e) => Err(e)
    case Ok(x) => CheckedU2i(x, exceptions)
  }

  /** A reply of 0 or any positive value passes through `_u2i` unchanged; a
      reply carrying -5 raises the table's description of that code. */
  lemma CheckedExamples(x: u32)
    requires x < 0x8000_0000
    ensures CheckedU2i(x, true) == Ok(x)
    ensures CheckedU2i(I2u(PI_BAD_LEVEL), true) == Err(ApigpioError("level not 0-1"))
    ensures CheckedU2i(I2u(PI_BAD_LEVEL), false) == Ok(PI_BAD_LEVEL)
  {
    ErrorTextExamples();
  }
}
