/** The notification side: the 12-byte records the daemon streams on a second
    socket opened with NOIB, the callbacks registered against GPIOs, the
    union bit mask that the daemon is told to watch (NB), and the per-record
    step that decides which callbacks are called with which level. Masks,
    levels and flags are Python integers, combined with the operators of
    `Bits`. */
module Notify {
  import opened Wire
  import opened Errors
  import opened Framing
  import opened Channel
  import opened Bits

  // Edge modes and the timeout level (pigpio's values).
  const RISING_EDGE: nat := 0
  const FALLING_EDGE: nat := 1
  const EITHER_EDGE: nat := 2
  const TIMEOUT: nat := 2

  // Flag bits of a notification record: `1 << 5`, `1 << 6`, and the low
  // five bits that carry a GPIO number.
  const NTFY_FLAGS_WDOG: nat := 32
  const NTFY_FLAGS_ALIVE: nat := 64
  const NTFY_FLAGS_GPIO: nat := 31

  /** The size of a notification record. */
  const MSG_SIZ: nat := 12

  /** The watchdog and keep-alive flags are bits 5 and 6, so testing them
      with `&` tests those bits. */
  lemma FlagBits(flags: nat)
    ensures NTFY_FLAGS_WDOG == Bit(5) && NTFY_FLAGS_ALIVE == Bit(6)
    ensures And(flags, NTFY_FLAGS_WDOG) != 0 <==> Has(flags, 5)
    ensures And(flags, NTFY_FLAGS_ALIVE) != 0 <==> Has(flags, 6)
  {
    assert Bit(5) == 32 && Bit(6) == 64;
    AndBit(5, flags);
    AndBit(6, flags);
  }

  /** A user GPIO number. */
  type Gpio = g: nat | g < 32

  // ---- records ----

  /** `seqno, flags, tick, level` as unpacked with `'HHII'`. */
  datatype Record = Record(seqno: u16, flags: u16, tick: u32, level: u32)

  /** `struct.unpack('HHII', buf)`: exactly 12 bytes. */
  function DecodeRecord(buf: seq<byte>): (r: Result<Record>)
    ensures r.Ok? <==> |buf| == MSG_SIZ
    ensures r.Err? ==> r.error == StructError
  {
    if |buf| != MSG_SIZ then Err(StructError)
    else Ok(Record(HalfAt(buf, 0), HalfAt(buf, 2), WordAt(buf, 4), WordAt(buf, 8)))
  }

  /** The bytes the daemon sends for a record. */
  function EncodeRecord(r: Record): (b: seq<byte>)
    ensures |b| == MSG_SIZ
  {
    Half(r.seqno) + Half(r.flags) + Word(r.tick) + Word(r.level)
  }

  /** Decoding a sent record gives the record back. */
  lemma RecordRoundTrip(r: Record)
    ensures DecodeRecord(EncodeRecord(r)) == Ok(r)
  {
    var b := EncodeRecord(r);
    HalfRoundTrip(r.seqno);
    HalfRoundTrip(r.flags);
    WordRoundTrip(r.tick);
    WordRoundTrip(r.level);
    assert b[0..2] == Half(r.seqno) && b[2..4] == Half(r.flags);
    assert b[4..8] == Word(r.tick) && b[8..12] == Word(r.level);
    assert HalfAt(b, 0) == HalfAt(Half(r.seqno), 0);
    assert HalfAt(b, 2) == HalfAt(Half(r.flags), 0);
    assert WordAt(b, 4) == WordAt(Word(r.tick), 0);
    assert WordAt(b, 8) == WordAt(Word(r.level), 0);
  }

  // ---- callbacks and the record step ----

  /** `_callback_ADT`: a GPIO, an edge mode and the bit `1 << gpio`. Entries
      are compared by identity, as Python compares the objects. The user
      function itself is not part of the model: calling it is recorded as a
      `Call`. */
  class CallbackEntry {
    const gpio: Gpio
    const edge: nat
    const bit: nat := Bit(gpio)

    constructor (gpio: Gpio, edge: nat)
      ensures this.gpio == gpio && this.edge == edge
    {
      this.gpio := gpio;
      this.edge := edge;
    }
  }

  /** One call `cb.func(gpio, level, tick)`. */
  datatype Call = Call(entry: CallbackEntry, gpio: nat, level: nat, tick: u32)

  /** The level reported for the GPIO with bit `bit`: 1 when `bit & level`
      is non-zero, else 0. */
  function LevelOf(bit: nat, level: nat): (l: nat)
    ensures l == 0 || l == 1
  {
    if And(bit, level) != 0 then 1 else 0
  }

  /** A callback's level is 1 exactly when its GPIO's bit of `level` is
      set. */
  lemma LevelOfGpio(cb: CallbackEntry, level: nat)
    ensures LevelOf(cb.bit, level) == 1 <==> Has(level, cb.gpio)
    ensures LevelOf(cb.bit, level) == 0 <==> !Has(level, cb.gpio)
  {
    AndBit(cb.gpio, level);
  }

  /** The edge-match rule `edge ^ new_level`, taken as true when non-zero. */
  predicate EdgeFires(edge: nat, newLevel: nat)
  {
    Xor(edge, newLevel) != 0
  }

  /** An edge mode fires on every level but its own value: with pigpio's
      constants RISING fires on a new level of 1 only, FALLING on 0 only,
      and EITHER on both. */
  lemma EdgeRule(edge: nat, newLevel: nat)
    requires newLevel == 0 || newLevel == 1
    ensures EdgeFires(edge, newLevel) <==> edge != newLevel
    ensures EdgeFires(RISING_EDGE, newLevel) <==> newLevel == 1
    ensures EdgeFires(FALLING_EDGE, newLevel) <==> newLevel == 0
    ensures EdgeFires(EITHER_EDGE, newLevel)
  {
    XorZero(edge, newLevel);
    XorZero(RISING_EDGE, newLevel);
    XorZero(FALLING_EDGE, newLevel);
    XorZero(EITHER_EDGE, newLevel);
  }

  /** The call, if any, one callback receives for a record when the previous
      level record carried `last`: a level record (`flags == 0`) is judged by
      `LevelCallFor`, any other record by `WatchdogCallFor`. */
  function CallFor(cb: CallbackEntry, last: nat, rec: Record): (c: Option<Call>)
    ensures c.Some? ==> c.value.entry == cb && c.value.gpio == cb.gpio && c.value.tick == rec.tick
  {
    if rec.flags == 0 then LevelCallFor(cb, last, rec) else WatchdogCallFor(cb, rec)
  }

  /** A level record calls a callback whose bit is set in `level ^ last` and
      whose edge matches the new level, with that level. */
  function LevelCallFor(cb: CallbackEntry, last: nat, rec: Record): Option<Call>
  {
    var newLevel := LevelOf(cb.bit, rec.level);
    if And(cb.bit, Xor(rec.level, last)) != 0 && EdgeFires(cb.edge, newLevel) then
      Some(Call(cb, cb.gpio, newLevel, rec.tick))
    else None
  }

  /** A record with the watchdog flag calls every callback on the GPIO in its
      low flag bits, with TIMEOUT; any other flags call nothing. */
  function WatchdogCallFor(cb: CallbackEntry, rec: Record): Option<Call>
  {
    if And(rec.flags, NTFY_FLAGS_WDOG) != 0 && cb.gpio == And(rec.flags, NTFY_FLAGS_GPIO) then
      Some(Call(cb, cb.gpio, TIMEOUT, rec.tick))
    else None
  }

  function OptionSeq(o: Option<Call>): seq<Call>
  {
    if o.Some? then [o.value] else []
  }

  /** The calls a record causes, callback by callback in list order. */
  function RecordCalls(cbs: seq<CallbackEntry>, last: nat, rec: Record): (r: seq<Call>)
    ensures |r| <= |cbs|
    ensures forall c | c in r :: c.entry in cbs && CallFor(c.entry, last, rec) == Some(c)
  {
    if cbs == [] then []
    else RecordCalls(cbs[..|cbs| - 1], last, rec) + OptionSeq(CallFor(cbs[|cbs| - 1], last, rec))
  }

  /** The calls for a list of callbacks are those of any split of it, in
      order: callbacks are served in registration order. */
  lemma {:induction false} RecordCallsAppend(a: seq<CallbackEntry>, b: seq<CallbackEntry>, last: nat, rec: Record)
    ensures RecordCalls(a + b, last, rec) == RecordCalls(a, last, rec) + RecordCalls(b, last, rec)
  {
    if b == [] {
      assert a + b == a;
    } else {
      var init := b[..|b| - 1];
      assert (a + b)[..|a + b| - 1] == a + init;
      assert (a + b)[|a + b| - 1] == b[|b| - 1];
      RecordCallsAppend(a, init, last, rec);
    }
  }

  /** Every callback that should be called is called. */
  lemma {:induction false} RecordCallsComplete(cbs: seq<CallbackEntry>, last: nat, rec: Record, k: nat)
    requires k < |cbs| && CallFor(cbs[k], last, rec).Some?
    ensures CallFor(cbs[k], last, rec).value in RecordCalls(cbs, last, rec)
  {
    if k < |cbs| - 1 {
      RecordCallsComplete(cbs[..|cbs| - 1], last, rec, k);
    }
  }

  /** A callback's bit is set in `a ^ b` exactly when a and b disagree on
      its GPIO. */
  lemma BitChange(cb: CallbackEntry, a: nat, b: nat)
    ensures And(cb.bit, Xor(a, b)) != 0 <==> Has(a, cb.gpio) != Has(b, cb.gpio)
  {
    AndBit(cb.gpio, Xor(a, b));
    HasXor(a, b, cb.gpio);
  }

  /** A level record: every call goes to a registered callback whose GPIO
      reads differently in this and the previous level record, reports that
      GPIO's new level and the record's tick, and has an edge mode other than
      that level. */
  lemma LevelRecordCalls(cbs: seq<CallbackEntry>, last: nat, rec: Record, c: Call)
    requires rec.flags == 0 && c in RecordCalls(cbs, last, rec)
    ensures c.entry in cbs && c.gpio == c.entry.gpio && c.tick == rec.tick
    ensures Has(rec.level, c.gpio) != Has(last, c.gpio)
    ensures c.level == if Has(rec.level, c.gpio) then 1 else 0
    ensures c.entry.edge != c.level
  {
    var cb := c.entry;
    BitChange(cb, rec.level, last);
    LevelOfGpio(cb, rec.level);
    EdgeRule(cb.edge, c.level);
  }

  /** A callback whose GPIO reads the same as in the previous level record is
      not called for a level record. */
  lemma UnchangedNotCalled(cb: CallbackEntry, last: nat, rec: Record)
    requires rec.flags == 0 && Has(rec.level, cb.gpio) == Has(last, cb.gpio)
    ensures CallFor(cb, last, rec) == None
  {
    BitChange(cb, rec.level, last);
  }

  /** A watchdog record calls exactly the callbacks on its GPIO, with TIMEOUT
      and its tick, whether or not the keep-alive bit is also set. */
  lemma WatchdogRecordCalls(cbs: seq<CallbackEntry>, last: nat, rec: Record, k: nat)
    requires Has(rec.flags, 5) && k < |cbs|
    ensures var g := And(rec.flags, NTFY_FLAGS_GPIO);
      && (cbs[k].gpio == g ==> Call(cbs[k], g, TIMEOUT, rec.tick) in RecordCalls(cbs, last, rec))
      && (forall c | c in RecordCalls(cbs, last, rec) :: c.gpio == g && c.level == TIMEOUT && c.tick == rec.tick)
  {
    FlagBits(rec.flags);
    NonZero(rec.flags, 5);
    if cbs[k].gpio == And(rec.flags, NTFY_FLAGS_GPIO) {
      RecordCallsComplete(cbs, last, rec, k);
    }
  }

  /** A record with flags set but no watchdog bit (a keep-alive) calls
      nothing. */
  lemma {:induction false} NoWatchdogNoCalls(cbs: seq<CallbackEntry>, last: nat, rec: Record)
    requires rec.flags != 0 && !Has(rec.flags, 5)
    ensures RecordCalls(cbs, last, rec) == []
  {
    FlagBits(rec.flags);
    if cbs != [] {
      NoWatchdogNoCalls(cbs[..|cbs| - 1], last, rec);
    }
  }

  /** The previous level after a record: a level record's level; any other
      record leaves it. */
  function NextLast(last: u32, rec: Record): u32
  {
    if rec.flags == 0 then rec.level else last
  }

  /** With previous level 0b0010 and the level record (5, 0, 1000, 0b1010), a
      RISING callback on GPIO 3 is called with level 1 and tick 1000, one on
      GPIO 1, whose level did not change, is not called, and 0b1010 becomes
      the previous level. */
  lemma LevelRecordExample(cb3: CallbackEntry, cb1: CallbackEntry)
    requires cb3.gpio == 3 && cb3.edge == RISING_EDGE && cb1.gpio == 1
    ensures var rec := Record(5, 0, 1000, 0x0A);
      && CallFor(cb3, 0x02, rec) == Some(Call(cb3, 3, 1, 1000))
      && CallFor(cb1, 0x02, rec) == None
      && NextLast(0x02, rec) == 0x0A
  {
    assert cb3.bit == 8 && cb1.bit == 2;
    assert Xor(0x0A, 0x02) == 8;
    assert And(8, 8) == 8 && And(8, 0x0A) == 8 && And(2, 8) == 0;
    assert Xor(0, 1) == 1;
  }

  // ---- notification streams ----

  /** The calls caused by the complete records at the front of a notification
      stream, record by record, starting from the previous level `last`. */
  function StreamCalls(cbs: seq<CallbackEntry>, last: u32, stream: seq<byte>): seq<Call>
    decreases |stream|
  {
    if |stream| < MSG_SIZ then []
    else
      var rec := DecodeRecord(stream[..MSG_SIZ]).value;
      RecordCalls(cbs, last, rec) + StreamCalls(cbs, NextLast(last, rec), stream[MSG_SIZ..])
  }

  /** What is left of a notification stream once its complete records are
      read. */
  function StreamRest(stream: seq<byte>): (rest: seq<byte>)
    ensures |rest| < MSG_SIZ
    decreases |stream|
  {
    if |stream| < MSG_SIZ then stream else StreamRest(stream[MSG_SIZ..])
  }

  /** Records are processed strictly in arrival order, each against the level
      left by the records before it. */
  lemma StreamOfRecords(cbs: seq<CallbackEntry>, last: u32, r: Record, rest: seq<byte>)
    ensures StreamCalls(cbs, last, EncodeRecord(r) + rest) ==
            RecordCalls(cbs, last, r) + StreamCalls(cbs, NextLast(last, r), rest)
    ensures StreamRest(EncodeRecord(r) + rest) == StreamRest(rest)
  {
    var s := EncodeRecord(r) + rest;
    assert s[..MSG_SIZ] == EncodeRecord(r);
    assert s[MSG_SIZ..] == rest;
    RecordRoundTrip(r);
  }

  // ---- the short-read loop ----

  /** The short-read loop as written: each pass receives the missing bytes
      and discards them, so `buf` never grows. The pair is the buffer and the
      bytes still pending after `passes` passes. */
  function ShortReadPasses(buf: seq<byte>, incoming: seq<byte>, passes: nat): (s: (seq<byte>, seq<byte>))
    requires |buf| <= MSG_SIZ
  {
    if passes == 0 then (buf, incoming)
    else ShortReadPasses(buf, Drop(incoming, MSG_SIZ - |buf|), passes - 1)
  }

  /** Once a record arrives short, the loop as written never leaves: after
      any number of passes the buffer is still the short one, while the
      pending bytes are used up. */
  lemma {:induction false} ShortReadNeverCompletes(buf: seq<byte>, incoming: seq<byte>, passes: nat)
    requires |buf| < MSG_SIZ
    ensures ShortReadPasses(buf, incoming, passes).0 == buf
    ensures |ShortReadPasses(buf, incoming, passes).1| <= |incoming|
  {
    if passes > 0 {
      var rest := Drop(incoming, MSG_SIZ - |buf|);
      assert incoming == Take(incoming, MSG_SIZ - |buf|) + rest;
      ShortReadNeverCompletes(buf, rest, passes - 1);
    }
  }

  /** A record whose first 4 bytes arrive alone: the 8 pending bytes that
      would complete it are received and lost, and the buffer stays short. */
  lemma ShortReadExample(buf: seq<byte>, more: seq<byte>)
    requires |buf| == 4 && |more| == 8
    ensures ShortReadPasses(buf, more, 1) == (buf, [])
    ensures forall passes: nat :: |ShortReadPasses(buf, more, passes).0| == 4
  {
    forall passes: nat
      ensures |ShortReadPasses(buf, more, passes).0| == 4
    {
      ShortReadNeverCompletes(buf, more, passes);
    }
  }

  // ---- the registry mask ----

  /** The OR of the callbacks' bits. */
  function Mask(cbs: seq<CallbackEntry>): nat
  {
    if cbs == [] then 0 else Or(Mask(cbs[..|cbs| - 1]), cbs[|cbs| - 1].bit)
  }

  /** Some callback of the list is on GPIO g. */
  ghost predicate Listed(cbs: seq<CallbackEntry>, g: nat)
  {
    exists k :: 0 <= k < |cbs| && cbs[k].gpio == g
  }

  lemma ListedLast(cbs: seq<CallbackEntry>, g: nat)
    requires cbs != []
    ensures Listed(cbs, g) <==> Listed(cbs[..|cbs| - 1], g) || cbs[|cbs| - 1].gpio == g
  {
    var init := cbs[..|cbs| - 1];
    if Listed(init, g) {
      var k :| 0 <= k < |init| && init[k].gpio == g;
      assert cbs[k] == init[k];
    }
    if Listed(cbs, g) {
      var k :| 0 <= k < |cbs| && cbs[k].gpio == g;
      if k < |init| {
        assert init[k] == cbs[k];
      }
    }
  }

  /** Bit g of the mask is set exactly when some callback is on GPIO g. */
  lemma {:induction false} MaskCovers(cbs: seq<CallbackEntry>, g: nat)
    ensures Has(Mask(cbs), g) <==> Listed(cbs, g)
  {
    if cbs == [] {
      HasZero(g);
    } else {
      var init, cb := cbs[..|cbs| - 1], cbs[|cbs| - 1];
      MaskCovers(init, g);
      ListedLast(cbs, g);
      HasOr(Mask(init), cb.bit, g);
      HasBit(cb.gpio, g);
    }
  }

  /** The mask fits the unsigned 32-bit word NB sends. */
  lemma {:induction false} MaskBelow(cbs: seq<CallbackEntry>)
    ensures Mask(cbs) < TWO_32
  {
    Bit32();
    if cbs != [] {
      var cb := cbs[|cbs| - 1];
      MaskBelow(cbs[..|cbs| - 1]);
      BitBelow(cb.gpio, 32);
      OrBelow(Mask(cbs[..|cbs| - 1]), cb.bit, 32);
    }
  }

  /** Registering one more callback ORs its bit into the mask. */
  lemma MaskSnoc(cbs: seq<CallbackEntry>, e: CallbackEntry)
    ensures Mask(cbs + [e]) == Or(Mask(cbs), e.bit)
  {
    assert (cbs + [e])[..|cbs|] == cbs;
  }

  /** The position `list.remove(x)` takes `x` out of: its first occurrence. */
  function FirstIndex(s: seq<CallbackEntry>, x: CallbackEntry): (i: nat)
    requires x in s
    ensures i < |s| && s[i] == x
    ensures forall j :: 0 <= j < i ==> s[j] != x
  {
    if s[0] == x then 0 else 1 + FirstIndex(s[1..], x)
  }

  /** The list after `list.remove(x)`. */
  function RemoveFirst(s: seq<CallbackEntry>, x: CallbackEntry): seq<CallbackEntry>
    requires x in s
  {
    var i := FirstIndex(s, x);
    s[..i] + s[i + 1..]
  }

  /** Removal takes out one occurrence and keeps the others in order. */
  lemma RemoveFirstContents(s: seq<CallbackEntry>, x: CallbackEntry)
    requires x in s
    ensures |RemoveFirst(s, x)| == |s| - 1
    ensures multiset(RemoveFirst(s, x)) == multiset(s) - multiset{x}
    ensures var i := FirstIndex(s, x);
      forall j :: 0 <= j < |s| - 1 ==> RemoveFirst(s, x)[j] == (if j < i then s[j] else s[j + 1])
  {
    var i := FirstIndex(s, x);
    var a, b := s[..i], s[i + 1..];
    assert RemoveFirst(s, x) == a + b;
    SplitMultiset(s, i);
  }

  /** Cutting out position i takes one s[i] out of the multiset. */
  lemma SplitMultiset(s: seq<CallbackEntry>, i: nat)
    requires i < |s|
    ensures multiset(s[..i] + s[i + 1..]) == multiset(s) - multiset{s[i]}
  {
    var a, b := s[..i], s[i + 1..];
    assert s == a + [s[i]] + b;
    assert multiset(s) == multiset(a) + multiset{s[i]} + multiset(b);
  }

  /** A GPIO is listed before a removal iff it is listed after it or is the
      removed callback's. */
  lemma ListedRemove(s: seq<CallbackEntry>, x: CallbackEntry, g: nat)
    requires x in s
    ensures Listed(s, g) <==> Listed(RemoveFirst(s, x), g) || x.gpio == g
  {
    var i := FirstIndex(s, x);
    var t := RemoveFirst(s, x);
    RemoveFirstContents(s, x);
    if Listed(s, g) && x.gpio != g {
      var k :| 0 <= k < |s| && s[k].gpio == g;
      assert k != i;
      if k < i {
        assert t[k] == s[k];
      } else {
        assert t[k - 1] == s[k];
      }
    }
    if Listed(t, g) {
      var k :| 0 <= k < |t| && t[k].gpio == g;
      if k < i {
        assert s[k] == t[k];
      } else {
        assert s[k + 1] == t[k];
      }
    }
    if x.gpio == g {
      assert s[i].gpio == g;
    }
  }

  /** Removing a callback keeps the mask exactly when another remaining
      callback is on the same GPIO: that is when `remove` sends no NB. */
  lemma RemoveKeepsMask(s: seq<CallbackEntry>, x: CallbackEntry)
    requires x in s
    ensures Mask(RemoveFirst(s, x)) == Mask(s) <==> Listed(RemoveFirst(s, x), x.gpio)
  {
    var t := RemoveFirst(s, x);
    MaskCovers(s, x.gpio);
    MaskCovers(t, x.gpio);
    ListedRemove(s, x, x.gpio);
    if Listed(t, x.gpio) {
      forall g: nat
        ensures Has(Mask(t), g) <==> Has(Mask(s), g)
      {
        MaskCovers(s, g);
        MaskCovers(t, g);
        ListedRemove(s, x, g);
      }
      Extensional(Mask(t), Mask(s));
    }
  }

  // ---- call counts ----

  /** How many of the calls went to entry `e`. */
  function CallsTo(calls: seq<Call>, e: CallbackEntry): (n: nat)
    ensures n <= |calls|
  {
    if calls == [] then 0
    else CallsTo(calls[..|calls| - 1], e) + (if calls[|calls| - 1].entry == e then 1 else 0)
  }

  lemma {:induction false} CallsToAppend(a: seq<Call>, b: seq<Call>, e: CallbackEntry)
    ensures CallsTo(a + b, e) == CallsTo(a, e) + CallsTo(b, e)
  {
    if b == [] {
      assert a + b == a;
    } else {
      var init := b[..|b| - 1];
      assert (a + b)[..|a + b| - 1] == a + init;
      assert (a + b)[|a + b| - 1] == b[|b| - 1];
      CallsToAppend(a, init, e);
    }
  }

  /** A record calls an entry once for each time the entry is registered
      when its rule fires, and not at all otherwise. */
  lemma {:induction false} CallsToRecord(cbs: seq<CallbackEntry>, last: nat, rec: Record, e: CallbackEntry)
    ensures CallsTo(RecordCalls(cbs, last, rec), e) == if CallFor(e, last, rec).Some? then multiset(cbs)[e] else 0
  {
    if cbs != [] {
      var init, cb := cbs[..|cbs| - 1], cbs[|cbs| - 1];
      var o := CallFor(cb, last, rec);
      var before := RecordCalls(init, last, rec);
      assert RecordCalls(cbs, last, rec) == before + OptionSeq(o);
      var whole, part: multiset<CallbackEntry> := multiset(cbs), multiset(init);
      assert whole[e] == part[e] + (if cb == e then 1 else 0) by {
        assert cbs == init + [cb];
        assert whole == part + multiset{cb};
      }
      assert CallsTo(OptionSeq(o), e) == if cb == e && CallFor(e, last, rec).Some? then 1 else 0 by {
        CallsToOption(o, e);
      }
      assert CallsTo(before, e) == if CallFor(e, last, rec).Some? then part[e] else 0 by {
        CallsToRecord(init, last, rec, e);
      }
      CallsToAppend(before, OptionSeq(o), e);
    }
  }

  lemma CallsToOption(o: Option<Call>, e: CallbackEntry)
    ensures CallsTo(OptionSeq(o), e) == if o.Some? && o.value.entry == e then 1 else 0
  {
    if o.Some? {
      assert OptionSeq(o)[..0] == [];
    }
  }

  // ---- the handler ----

  /** `_callback_handler`: a second connection to the daemon that is used
      only for notifications, the registered callbacks and the mask of the
      GPIOs they watch. `handle` is `None` until `_connect` has stored the
      NOIB result, `stopped` stands for the `f_stop` future being done, and
      `lastLevel` is the level of the last level record, which the reader
      loop keeps in a local. */
  class CallbackHandler {
    const pi: Pi
    const sock: Socket
    var handle: Option<u32>
    var monitor: u32
    var callbacks: seq<CallbackEntry>
    var lastLevel: u32
    var stopped: bool

    /** The mask is the OR of the registered callbacks' bits. */
    ghost predicate Valid()
      reads this
    {
      monitor == Mask(callbacks)
    }

    constructor (pi: Pi, sock: Socket)
      ensures this.pi == pi && this.sock == sock
      ensures handle == None && monitor == 0 && callbacks == [] && lastLevel == 0 && !stopped
      ensures Valid()
    {
      this.pi := pi;
      this.sock := sock;
      handle := None;
      monitor := 0;
      callbacks := [];
      lastLevel := 0;
      stopped := false;
    }

    /** `_pigpio_aio_command` on the notification socket: the raw result
        word, without `_u2i`. */
    method Command(cmd: u32, p1: u32, p2: u32) returns (r: Result<u32>)
      modifies sock
      ensures Exchanged(sock, CommandFrame(cmd, p1, p2), r)
    {
      sock.SendAll(CommandFrame(cmd, p1, p2));
      var response := sock.Recv(16);
      r := ParseResponse(response);
    }

    /** `_connect` once the socket is connected: NOIB turns the connection
        into a notification stream and its result is the handle. */
    method Connect() returns (r: Result<u32>)
      modifies this, sock
      ensures Exchanged(sock, CommandFrame(PI_CMD_NOIB, 0, 0), r)
      ensures handle == if r.Ok? then Some(r.value) else old(handle)
      ensures monitor == old(monitor) && callbacks == old(callbacks)
      ensures lastLevel == old(lastLevel) && stopped == old(stopped)
    {
      r := Command(PI_CMD_NOIB, 0, 0);
      if r.Ok? {
        handle := Some(r.value);
      }
    }

    /** `close`: once only, NC with the handle; the handle becomes NC's
        result. Without a handle packing fails before anything is sent. */
    method Close() returns (r: Option<Result<u32>>)
      modifies this, sock
      ensures old(stopped) ==> r == None && sock.sent == old(sock.sent) && sock.incoming == old(sock.incoming)
      ensures !old(stopped) && old(handle).None? ==>
                r == Some(Err(StructError)) && sock.sent == old(sock.sent) && sock.incoming == old(sock.incoming)
      ensures !old(stopped) && old(handle).Some? ==>
                r.Some? && Exchanged(sock, CommandFrame(PI_CMD_NC, old(handle).value, 0), r.value)
      ensures stopped <==> old(stopped) || (r.Some? && r.value.Ok?)
      ensures handle == if r.Some? && r.value.Ok? then Some(r.value.value) else old(handle)
      ensures monitor == old(monitor) && callbacks == old(callbacks) && lastLevel == old(lastLevel)
    {
      if stopped {
        return None;
      }
      if handle.None? {
        return Some(Err(StructError));
      }
      var res := Command(PI_CMD_NC, handle.value, 0);
      r := Some(res);
      if res.Ok? {
        handle := Some(res.value);
        stopped := true;
      }
    }

    /** The list and mask update of `append`. */
    method Register(entry: CallbackEntry)
      modifies this
      ensures callbacks == old(callbacks) + [entry] && monitor == Or(old(monitor), entry.bit)
      ensures old(Valid()) ==> Valid()
      ensures handle == old(handle) && lastLevel == old(lastLevel) && stopped == old(stopped)
    {
      Bit32();
      BitBelow(entry.gpio, 32);
      OrBelow(monitor, entry.bit, 32);
      MaskSnoc(callbacks, entry);
      callbacks := callbacks + [entry];
      monitor := Or(monitor, entry.bit);
    }

    /** NB with the handle and the current mask, through the command socket;
        without a handle packing fails and nothing is sent. */
    method SendMask() returns (r: Result<u32>)
      modifies pi.sock
      ensures handle.None? ==>
                r == Err(StructError) && pi.sock.sent == old(pi.sock.sent) && pi.sock.incoming == old(pi.sock.incoming)
      ensures handle.Some? ==> Exchanged(pi.sock, CommandFrame(PI_CMD_NB, handle.value, monitor), r)
    {
      if handle.None? {
        return Err(StructError);
      }
      r := pi.Command(PI_CMD_NB, handle.value, monitor);
    }

    /** `append`: register the entry of `cb` at the end, OR its bit into the
        mask and send the new mask with NB. */
    method Append(cb: Callback) returns (r: Result<u32>)
      modifies this, pi.sock
      ensures Appended(this, cb.callb, r)
    {
      Register(cb.callb);
      r := SendMask();
    }

    /** `remove`: drop the first registration of `entry`, recompute the mask
        from the remaining callbacks and send it with NB only if it
        changed. */
    method Remove(entry: CallbackEntry) returns (sent: Option<Result<u32>>)
      modifies this, pi.sock
      ensures Removed(this, entry, sent)
    {
      if entry !in callbacks {
        return None;
      }
      callbacks := RemoveFirst(callbacks, entry);
      var newMonitor: nat := 0;
      for i := 0 to |callbacks|
        invariant newMonitor == Mask(callbacks[..i])
      {
        assert callbacks[..i + 1][..i] == callbacks[..i];
        newMonitor := Or(newMonitor, callbacks[i].bit);
      }
      assert callbacks[..|callbacks|] == callbacks;
      MaskBelow(callbacks);
      RemoveKeepsMask(old(callbacks), entry);
      if newMonitor == monitor {
        return None;
      }
      monitor := newMonitor;
      var res := SendMask();
      sent := Some(res);
    }

    /** The short-read loop as evidently intended: keep receiving and
        appending until the record is complete or nothing more is pending.
        No byte is lost or reordered. */
    method FillRecord(buf: seq<byte>) returns (full: seq<byte>)
      requires |buf| <= MSG_SIZ
      modifies sock
      ensures buf + old(sock.incoming) == full + sock.incoming
      ensures |full| == if |buf| + |old(sock.incoming)| < MSG_SIZ then |buf| + |old(sock.incoming)| else MSG_SIZ
      ensures sock.sent == old(sock.sent)
    {
      full := buf;
      while |full| < MSG_SIZ && sock.incoming != []
        invariant |buf| <= |full| <= MSG_SIZ
        invariant buf + old(sock.incoming) == full + sock.incoming
        invariant sock.sent == old(sock.sent)
        decreases MSG_SIZ - |full|
      {
        ghost var before := sock.incoming;
        var more := sock.Recv(MSG_SIZ - |full|);
        assert before == more + sock.incoming;
        full := full + more;
      }
      assert |buf| + |old(sock.incoming)| == |full| + |sock.incoming|;
    }

    /** The body of the reader loop for one record: the calls it makes, in
        order, and the new previous level. */
    method ProcessRecord(rec: Record) returns (calls: seq<Call>)
      modifies this
      ensures calls == RecordCalls(callbacks, old(lastLevel), rec)
      ensures lastLevel == NextLast(old(lastLevel), rec)
      ensures handle == old(handle) && monitor == old(monitor) && callbacks == old(callbacks)
      ensures stopped == old(stopped)
    {
      var last := lastLevel;
      calls := [];
      if rec.flags == 0 {
        var changed := Xor(rec.level, last);
        lastLevel := rec.level;
        for i := 0 to |callbacks|
          invariant calls == RecordCalls(callbacks[..i], last, rec)
        {
          var cb := callbacks[i];
          assert callbacks[..i + 1][..i] == callbacks[..i];
          if And(cb.bit, changed) != 0 {
            var newLevel := 0;
            if And(cb.bit, rec.level) != 0 {
              newLevel := 1;
            }
            if Xor(cb.edge, newLevel) != 0 {
              calls := calls + [Call(cb, cb.gpio, newLevel, rec.tick)];
            }
          }
        }
      } else if And(rec.flags, NTFY_FLAGS_WDOG) != 0 {
        var g := And(rec.flags, NTFY_FLAGS_GPIO);
        for i := 0 to |callbacks|
          invariant calls == RecordCalls(callbacks[..i], last, rec)
        {
          var cb := callbacks[i];
          assert callbacks[..i + 1][..i] == callbacks[..i];
          if cb.gpio == g {
            calls := calls + [Call(cb, cb.gpio, TIMEOUT, rec.tick)];
          }
        }
      } else {
        // A keep-alive is only reported, never dispatched.
        FlagBits(rec.flags);
        NoWatchdogNoCalls(callbacks, last, rec);
      }
      assert callbacks[..|callbacks|] == callbacks;
    }

    /** `_wait_for_notif`: from a previous level of 0, read and process the
        complete records pending on the notification socket, in order, until
        fewer than 12 bytes remain; nothing at all once stopped. */
    method WaitForNotif() returns (calls: seq<Call>)
      modifies this, sock
      ensures old(stopped) ==> calls == [] && sock.incoming == old(sock.incoming)
      ensures !old(stopped) ==>
                calls == StreamCalls(callbacks, 0, old(sock.incoming)) &&
                sock.incoming == StreamRest(old(sock.incoming))
      ensures sock.sent == old(sock.sent)
      ensures handle == old(handle) && monitor == old(monitor) && callbacks == old(callbacks)
      ensures stopped == old(stopped)
    {
      lastLevel := 0;
      calls := [];
      while !stopped && |sock.incoming| >= MSG_SIZ
        invariant handle == old(handle) && monitor == old(monitor) && callbacks == old(callbacks)
        invariant stopped == old(stopped) && sock.sent == old(sock.sent)
        invariant old(stopped) ==> calls == [] && sock.incoming == old(sock.incoming)
        invariant !old(stopped) ==>
                    calls + StreamCalls(callbacks, lastLevel, sock.incoming) == StreamCalls(callbacks, 0, old(sock.incoming)) &&
                    StreamRest(sock.incoming) == StreamRest(old(sock.incoming))
        decreases |sock.incoming|
      {
        ghost var before := sock.incoming;
        ghost var last := lastLevel;
        var buf := sock.Recv(MSG_SIZ);
        assert buf == before[..MSG_SIZ];
        buf := FillRecord(buf);
        assert buf == before[..MSG_SIZ] && sock.incoming == before[MSG_SIZ..] by {
          assert buf + sock.incoming == before[..MSG_SIZ] + before[MSG_SIZ..];
          assert buf == (buf + sock.incoming)[..MSG_SIZ];
        }
        var rec := DecodeRecord(buf).value;
        var step := ProcessRecord(rec);
        assert StreamCalls(callbacks, last, before) == step + StreamCalls(callbacks, lastLevel, sock.incoming);
        calls := calls + step;
      }
    }
  }

  /** What `append` does: the entry goes at the end, its bit joins the mask
      (so the mask stays the OR of the bits), and NB carries the new mask
      through the command socket, or packing fails for want of a handle. */
  twostate predicate Appended(h: CallbackHandler, new entry: CallbackEntry, new r: Result<u32>)
    reads h, h.pi.sock
  {
    && h.callbacks == old(h.callbacks) + [entry]
    && h.monitor == Or(old(h.monitor), entry.bit)
    && (old(h.Valid()) ==> h.Valid())
    && h.handle == old(h.handle) && h.lastLevel == old(h.lastLevel) && h.stopped == old(h.stopped)
    && (h.handle.None? ==>
          r == Err(StructError) && h.pi.sock.sent == old(h.pi.sock.sent) && h.pi.sock.incoming == old(h.pi.sock.incoming))
    && (h.handle.Some? ==> Exchanged(h.pi.sock, CommandFrame(PI_CMD_NB, h.handle.value, h.monitor), r))
  }

  /** What `remove` does: an absent entry changes nothing and sends nothing;
      a present one loses its first registration, the mask becomes the OR
      of the remaining bits, and NB is sent exactly when that mask differs
      from the old one, which for a consistent handler is exactly when no
      other callback remains on the entry's GPIO. */
  twostate predicate Removed(h: CallbackHandler, entry: CallbackEntry, new sent: Option<Result<u32>>)
    reads h, h.pi.sock
  {
    && h.handle == old(h.handle) && h.lastLevel == old(h.lastLevel) && h.stopped == old(h.stopped)
    && (entry !in old(h.callbacks) ==>
          h.callbacks == old(h.callbacks) && h.monitor == old(h.monitor) && sent == None)
    && (entry in old(h.callbacks) ==>
          && h.callbacks == RemoveFirst(old(h.callbacks), entry)
          && h.Valid()
          && (sent.Some? <==> h.monitor != old(h.monitor))
          && (old(h.Valid()) ==> (sent.Some? <==> !Listed(h.callbacks, entry.gpio))))
    && (sent.None? || h.handle.None? ==>
          h.pi.sock.sent == old(h.pi.sock.sent) && h.pi.sock.incoming == old(h.pi.sock.incoming))
    && (sent.Some? && h.handle.None? ==> sent.value == Err(StructError))
    && (sent.Some? && h.handle.Some? ==>
          Exchanged(h.pi.sock, CommandFrame(PI_CMD_NB, h.handle.value, h.monitor), sent.value))
  }

  // ---- callback objects ----

  /** `Callback`: a registered entry and, when no user function was given
      (`tallies`), the count kept by the default `_tally` function. `heard`
      is the calls the reader loop has dispatched while this callback
      existed, so its own share of them is `CallsTo(heard, callb)`. */
  class Callback {
    const notify: CallbackHandler
    const callb: CallbackEntry
    const tallies: bool
    var count: nat
    ghost var heard: seq<Call>

    /** The count is the number of calls made to this callback's entry when
        `_tally` is its function, and stays zero for a user function. */
    ghost predicate Valid()
      reads this
    {
      count == if tallies then CallsTo(heard, callb) else 0
    }

    constructor (notify: CallbackHandler, userGpio: Gpio, edge: nat, tallies: bool)
      ensures this.notify == notify && this.tallies == tallies && count == 0 && heard == []
      ensures fresh(callb) && callb.gpio == userGpio && callb.edge == edge
      ensures Valid()
    {
      this.notify := notify;
      this.tallies := tallies;
      count := 0;
      heard := [];
      callb := new CallbackEntry(userGpio, edge);
    }

    /** `_tally`, run for a call made to this callback's entry: one more
        call counted. */
    method CountCall(c: Call)
      requires tallies && c.entry == callb && Valid()
      modifies this
      ensures count == old(count) + 1 && heard == old(heard) + [c]
      ensures Valid()
    {
      CallsToAppend(heard, [c], callb);
      assert [c][..0] == [];
      heard := heard + [c];
      count := count + 1;
    }

    /** The calls `cb.func(cb.gpio, level, tick)` of the reader loop, as this
        callback receives them: each call made to its entry runs `_tally`
        when no user function was given, and nothing else changes. */
    method Deliver(calls: seq<Call>)
      requires Valid()
      modifies this
      ensures heard == old(heard) + calls
      ensures count == old(count) + (if tallies then CallsTo(calls, callb) else 0)
      ensures Valid()
    {
      for i := 0 to |calls|
        invariant Valid()
        invariant heard == old(heard) + calls[..i]
        invariant count == old(count) + (if tallies then CallsTo(calls[..i], callb) else 0)
      {
        var c := calls[i];
        assert calls[..i + 1] == calls[..i] + [c];
        assert [c][..0] == [];
        CallsToAppend(calls[..i], [c], callb);
        if tallies && c.entry == callb {
          CountCall(c);
        } else {
          CallsToAppend(heard, [c], callb);
          heard := heard + [c];
        }
      }
      assert calls[..|calls|] == calls;
    }

    /** `tally`: how many times the default `_tally` function has been
        called, which is zero when a user function was supplied. */
    function Tally(): (n: nat)
      requires Valid()
      reads this
      ensures n == if tallies then CallsTo(heard, callb) else 0
      ensures !tallies ==> n == 0
    {
      count
    }

    /** `cancel`: remove this callback's entry from the handler. */
    method Cancel() returns (sent: Option<Result<u32>>)
      modifies notify, notify.pi.sock
      ensures Removed(notify, callb, sent)
    {
      sent := notify.Remove(callb);
    }
  }

  /** The reader loop with the callbacks' functions attached: each call of
      `_wait_for_notif` runs the function of the `Callback` it is addressed
      to, so every tallying callback counts exactly the calls that the
      pending records make to its entry. */
  method WaitAndDeliver(h: CallbackHandler, cbs: seq<Callback>) returns (calls: seq<Call>)
    requires forall i, j :: 0 <= i < j < |cbs| ==> cbs[i] != cbs[j]
    requires forall k :: 0 <= k < |cbs| ==> cbs[k].Valid()
    modifies h, h.sock, cbs
    ensures calls == if old(h.stopped) then [] else StreamCalls(old(h.callbacks), 0, old(h.sock.incoming))
    ensures forall k :: 0 <= k < |cbs| ==> cbs[k].Valid() && cbs[k].heard == old(cbs[k].heard) + calls
    ensures forall k :: 0 <= k < |cbs| ==>
              cbs[k].count == old(cbs[k].count) + if cbs[k].tallies then CallsTo(calls, cbs[k].callb) else 0
    ensures h.callbacks == old(h.callbacks) && h.monitor == old(h.monitor)
    ensures h.handle == old(h.handle) && h.stopped == old(h.stopped)
    ensures old(h.Valid()) ==> h.Valid()
    ensures h.sock.sent == old(h.sock.sent)
    ensures h.sock.incoming == if old(h.stopped) then old(h.sock.incoming) else StreamRest(old(h.sock.incoming))
  {
    calls := h.WaitForNotif();
    ghost var sent, rest := h.sock.sent, h.sock.incoming;
    for i := 0 to |cbs|
      invariant forall k :: 0 <= k < i ==>
                  && cbs[k].Valid() && cbs[k].heard == old(cbs[k].heard) + calls
                  && cbs[k].count == old(cbs[k].count) + if cbs[k].tallies then CallsTo(calls, cbs[k].callb) else 0
      invariant forall k :: i <= k < |cbs| ==>
                  cbs[k].Valid() && cbs[k].heard == old(cbs[k].heard) && cbs[k].count == old(cbs[k].count)
      invariant h.callbacks == old(h.callbacks) && h.monitor == old(h.monitor)
      invariant h.handle == old(h.handle) && h.stopped == old(h.stopped)
      invariant h.sock.sent == sent && h.sock.incoming == rest
    {
      cbs[i].Deliver(calls);
    }
  }

  /** `Pi.add_callback`: a new callback on `userGpio` whose entry is appended
      to the handler. */
  method AddCallback(notify: CallbackHandler, userGpio: Gpio, edge: nat, tallies: bool)
    returns (cb: Callback, r: Result<u32>)
    modifies notify, notify.pi.sock
    ensures fresh(cb) && fresh(cb.callb) && cb.notify == notify && cb.tallies == tallies && cb.count == 0
    ensures cb.heard == [] && cb.Valid()
    ensures cb.callb.gpio == userGpio && cb.callb.edge == edge
    ensures Appended(notify, cb.callb, r)
  {
    cb := new Callback(notify, userGpio, edge, tallies);
    r := notify.Append(cb);
  }
}
