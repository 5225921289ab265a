/** The 64-bit SUID of `suid.go`: sign(1)-group(3)-time(34)-seq(19)-host(7).

    The word is Go's `int64`, modelled as an integer in the int64 range.
    Go's `x >> k & (2^w - 1)` on an int64 is `(x / 2^k) % 2^w` here: the
    shift is arithmetic (a floor division) and the all-ones mask keeps the
    remainder modulo 2^w, for negative words too.  The per-group builder
    keeps a free-running sequence and a per-second count; `create` is a pure
    transition from a builder and a clock reading (whole seconds) to the
    next builder and the emitted SUID.  The wall clock, the forced sleep to
    the next second and its log line are not modelled: the clock is a
    parameter and the sleep does nothing. */
module Suid {

  import opened Wrappers
  import opened Words

  const MAX_HOST: int := 0x7f
  const MAX_SEQ: int := 0x7ffff
  const MAX_TIME: int := 0x3_ffff_ffff
  const MAX_GROUP: int := 0x7

  /** Field widths.  Go derives them at start-up as the number of binary
      digits of the maxima; `WidthsAreDigitCounts` proves the values. */
  const WID_SEQ: nat := 19
  const WID_HOST: nat := 7
  const WID_TIME: nat := 34

  /** The weights of the fields' lowest bits: 2^7, 2^26 and 2^60. */
  const SEQ_UNIT: int := 0x80
  const TIME_UNIT: int := 0x400_0000
  const GROUP_UNIT: int := 0x1000_0000_0000_0000

  /** The earliest second `Verify` accepts (2025-04-23 17:20:00 UTC). */
  const VERIFY_FLOOR: int := 1745400000

  datatype SUID = SUID(value: Int64)

  lemma {:induction false} BinaryDigitsOfMask(k: nat)
    requires k >= 1
    ensures BinaryDigits(Pow2(k) - 1) == k
  {
    if k > 1 {
      BinaryDigitsOfMask(k - 1);
      assert (Pow2(k) - 1) / 2 == Pow2(k - 1) - 1;
    }
  }

  lemma {:induction false} Pow2Add(a: nat, b: nat)
    ensures Pow2(a + b) == Pow2(a) * Pow2(b)
  {
    if a > 0 {
      Pow2Add(a - 1, b);
    }
  }

  /** Each maximum is all ones in its width, each field's weight is the
      power of two of the widths below it, and the four fields with the sign
      bit fill the 64-bit word exactly. */
  lemma MaximaFillWidths()
    ensures MAX_HOST == Pow2(WID_HOST) - 1 && MAX_SEQ == Pow2(WID_SEQ) - 1
    ensures MAX_TIME == Pow2(WID_TIME) - 1 && MAX_GROUP == Pow2(3) - 1
    ensures SEQ_UNIT == Pow2(WID_HOST) && TIME_UNIT == Pow2(WID_SEQ + WID_HOST)
    ensures GROUP_UNIT == Pow2(WID_TIME + WID_SEQ + WID_HOST)
    ensures 1 + 3 + WID_TIME + WID_SEQ + WID_HOST == 64
  {
    assert Pow2(3) == 8;
    assert Pow2(7) == 0x80;
    Pow2Add(7, 7);
    Pow2Add(14, 5);
    Pow2Add(19, 7);
    Pow2Add(14, 14);
    Pow2Add(28, 6);
    Pow2Add(34, 26);
  }

  /** The widths are the binary digit counts of 0x7ffff, 0x7f and
      0x3ffffffff (the values of MAX_SEQ, MAX_HOST and MAX_TIME). */
  lemma WidthsAreDigitCounts()
    ensures WID_SEQ == BinaryDigits(MAX_SEQ)
    ensures WID_HOST == BinaryDigits(MAX_HOST)
    ensures WID_TIME == BinaryDigits(MAX_TIME)
  {
    MaximaFillWidths();
    BinaryDigitsOfMask(19);
    BinaryDigitsOfMask(7);
    BinaryDigitsOfMask(34);
  }

  /** `FromInt` wraps an int64 unchanged, so `Int` gives it back. */
  function FromInt(value: Int64): (s: SUID)
    ensures Int(s) == value
  {
    SUID(value)
  }

  function Int(s: SUID): Int64 {
    s.value
  }

  lemma IntFromInt(s: SUID)
    ensures FromInt(Int(s)) == s
  {
  }

  /** The low 7 bits: within [0, MAX_HOST] for every word. */
  function Host(s: SUID): (h: int)
    ensures 0 <= h <= MAX_HOST
  {
    s.value % (MAX_HOST + 1)
  }

  /** Bits 7..25: within [0, MAX_SEQ] for every word. */
  function Seq(s: SUID): (q: int)
    ensures 0 <= q <= MAX_SEQ
  {
    (s.value / SEQ_UNIT) % (MAX_SEQ + 1)
  }

  /** Bits 26..59: within [0, MAX_TIME] for every word. */
  function Time(s: SUID): (t: int)
    ensures 0 <= t <= MAX_TIME
  {
    (s.value / TIME_UNIT) % (MAX_TIME + 1)
  }

  /** Bits 60..62: within [0, MAX_GROUP] for every word. */
  function Group(s: SUID): (g: int)
    ensures 0 <= g <= MAX_GROUP
  {
    (s.value / GROUP_UNIT) % (MAX_GROUP + 1)
  }

  /** Go's `Verify`.  Since every extractor stays within its field for every
      word, only the time floor can fail. */
  function Verify(s: SUID): (ok: bool)
    ensures ok <==> Time(s) > VERIFY_FLOOR
  {
    && Group(s) >= 0 && Group(s) <= MAX_GROUP
    && Seq(s) >= 0 && Seq(s) <= MAX_SEQ
    && Time(s) >= 0 && Time(s) <= MAX_TIME
    && Time(s) > VERIFY_FLOOR
  }

  /** Bitwise or of two 4-bit numbers. */
  function Or4(a: int, b: int): (r: int)
    requires 0 <= a < 16 && 0 <= b < 16
    ensures 0 <= r < 16
    ensures a == 0 ==> r == b
  {
    ((a as bv8) | (b as bv8)) as int
  }

  /** The word `create` returns, `group<<60 | time<<26 | seq<<7 | host`, for
      a group, sequence and host within their fields (the only ones a
      builder ever holds) and any int64 time.  The time's low 34 bits fill
      bits 26..59; its next four bits land on bits 60..63, where Go ors them
      with the group; the rest is shifted out; the 64-bit pattern is read
      back as an int64. */
  function Pack(group: int, time: Int64, sequence: int, host: int): (s: SUID)
    requires 0 <= group <= MAX_GROUP && 0 <= sequence <= MAX_SEQ && 0 <= host <= MAX_HOST
  {
    var top := Or4((time / (MAX_TIME + 1)) % 16, group);
    SUID(FromUnsigned(host + sequence * SEQ_UNIT + (time % (MAX_TIME + 1)) * TIME_UNIT + top * GROUP_UNIT))
  }

  /** A word laid out as host, sequence and time fields below an arbitrary
      integer `hi` at bit 60 reads back host, sequence and time exactly. */
  lemma LowFieldsOfWord(v: Int64, host: int, sequence: int, low: int, hi: int)
    requires 0 <= host <= MAX_HOST && 0 <= sequence <= MAX_SEQ && 0 <= low <= MAX_TIME
    requires v == host + SEQ_UNIT * sequence + TIME_UNIT * low + GROUP_UNIT * hi
    ensures Host(SUID(v)) == host && Seq(SUID(v)) == sequence && Time(SUID(v)) == low
  {
    var upper := low + (MAX_TIME + 1) * hi;
    var middle := sequence + (MAX_SEQ + 1) * upper;
    assert v == host + SEQ_UNIT * middle;
    DivMod(v, SEQ_UNIT, middle, host);
    DivMod(middle, MAX_SEQ + 1, upper, sequence);
    DivMod(v, TIME_UNIT, upper, host + SEQ_UNIT * sequence);
    DivMod(upper, MAX_TIME + 1, hi, low);
  }

  /** The same word reads back the group `hi` when `hi` is a group number. */
  lemma GroupOfWord(v: Int64, below: int, hi: int)
    requires 0 <= below < GROUP_UNIT && 0 <= hi <= MAX_GROUP
    requires v == below + GROUP_UNIT * hi
    ensures Group(SUID(v)) == hi && v >= 0
  {
    DivMod(v, GROUP_UNIT, hi, below);
    DivMod(hi, MAX_GROUP + 1, 0, hi);
  }

  /** The extractors give back what `Pack` put in: host and sequence always,
      the time modulo 2^34, and for a time within 34 bits also the group,
      in a non-negative word. */
  lemma PackFields(group: int, time: Int64, sequence: int, host: int)
    requires 0 <= group <= MAX_GROUP && 0 <= sequence <= MAX_SEQ && 0 <= host <= MAX_HOST
    ensures var s := Pack(group, time, sequence, host);
      && Host(s) == host && Seq(s) == sequence && Time(s) == time % (MAX_TIME + 1)
      && (0 <= time <= MAX_TIME ==> Group(s) == group && s.value >= 0)
  {
    var s := Pack(group, time, sequence, host);
    var top := Or4((time / (MAX_TIME + 1)) % 16, group);
    var low := time % (MAX_TIME + 1);
    var below := host + SEQ_UNIT * sequence + TIME_UNIT * low;
    var u := below + top * GROUP_UNIT;
    var wrap := if u < TWO_63 then 0 else 1;
    assert s.value == u - TWO_64 * wrap;
    assert s.value == below + GROUP_UNIT * (top - 16 * wrap);
    LowFieldsOfWord(s.value, host, sequence, low, top - 16 * wrap);
    if 0 <= time <= MAX_TIME {
      DivMod(time, MAX_TIME + 1, 0, time);
      assert top == group && wrap == 0;
      GroupOfWord(s.value, below, group);
    }
  }

  /** One builder per group.  `sequence` runs freely through 0..MAX_SEQ;
      `seqCount` counts the IDs issued in the second `zeroTime` after the
      first; `thisTime` is the second stamped into the last ID. */
  datatype Builder = Builder(sequence: Int64, thisTime: Int64, zeroTime: Int64, seqCount: Int64, group: Int64)

  /** The builder invariant that `getBuilder` establishes and `create` keeps. */
  predicate WellFormed(b: Builder) {
    0 <= b.sequence <= MAX_SEQ && 0 <= b.seqCount <= MAX_SEQ && 0 <= b.group <= MAX_GROUP
  }

  /** `newBuilder`: counters at zero, zero time at the current clock `now`. */
  function NewBuilder(group: Int64, now: Int64): (b: Builder)
    ensures 0 <= group <= MAX_GROUP ==> WellFormed(b)
    ensures b.group == group && b.zeroTime == now
    ensures b.sequence == 0 && b.seqCount == 0
  {
    Builder(0, 0, now, 0, group)
  }

  /** The registry of builders, keyed by group number. */
  type Registry = map<int, Builder>

  /** What `getBuilder` guarantees of every stored builder: well formed and
      filed under its own group. */
  predicate RegistryWellFormed(reg: Registry) {
    forall k :: k in reg ==> WellFormed(reg[k]) && reg[k].group == k
  }

  /** `getBuilder`: a group outside [0, MAX_GROUP] is rejected (a panic in
      Go); a known group gets its existing builder; an unknown group gets a
      fresh builder, which is also stored.  No other group's entry changes,
      and a well-formed registry stays well formed. */
  function GetBuilder(reg: Registry, g: Int64, now: Int64): (r: Result<(Registry, Builder), Error>)
    ensures r.Err? <==> g < 0 || g > MAX_GROUP
    ensures r.Err? ==> r.error == InvalidGroup
    ensures r.Ok? && g in reg ==> r.value == (reg, reg[g])
    ensures r.Ok? && g !in reg ==>
      var b := r.value.1;
      && b.sequence == 0 && b.seqCount == 0 && b.group == g && b.zeroTime == now
      && r.value.0 == reg[g := b]
    ensures r.Ok? ==> r.value.0.Keys == reg.Keys + {g as int}
    ensures r.Ok? ==> forall k :: k in reg && k != g ==> r.value.0[k] == reg[k]
    ensures r.Ok? && RegistryWellFormed(reg) ==>
      WellFormed(r.value.1) && r.value.1.group == g && RegistryWellFormed(r.value.0)
  {
    if g < 0 || g > MAX_GROUP then Err(InvalidGroup)
    else if g in reg then Ok((reg, reg[g]))
    else
      var b := NewBuilder(g, now);
      Ok((reg[g := b], b))
  }

  /** `seq++` with the reset to 0 past MAX_SEQ: one step modulo MAX_SEQ+1. */
  function NextSequence(sequence: Int64): (next: Int64)
    requires 0 <= sequence <= MAX_SEQ
    ensures next == (sequence + 1) % (MAX_SEQ + 1)
  {
    var next := sequence + 1;
    if next > MAX_SEQ then 0 else next
  }

  /** The builder after a successful `create` at second `clock`, which is
      not behind the zero time.  A later second resets the per-second count;
      the same second increments it, and once it would exceed MAX_SEQ the
      count restarts and the ID is stamped with the next second, which
      becomes the new zero time. */
  function Advance(b: Builder, clock: Int64): (b': Builder)
    requires WellFormed(b) && b.zeroTime <= clock
    ensures WellFormed(b') && b'.group == b.group && b'.thisTime == b'.zeroTime
    ensures b'.sequence == (b.sequence + 1) % (MAX_SEQ + 1)
    ensures clock > b.zeroTime ==> b'.seqCount == 0 && b'.zeroTime == clock
    ensures clock == b.zeroTime && b.seqCount < MAX_SEQ ==>
      b'.seqCount == b.seqCount + 1 && b'.zeroTime == b.zeroTime
    ensures clock == b.zeroTime && b.seqCount == MAX_SEQ ==>
      b'.seqCount == 0 && b'.zeroTime == Inc64(b.zeroTime)
    ensures b.zeroTime < INT64_MAX ==> b.zeroTime <= b'.zeroTime
  {
    var sequence := NextSequence(b.sequence);
    if clock == b.zeroTime then
      var count := b.seqCount + 1;
      if count > MAX_SEQ then
        var next := Inc64(b.zeroTime);
        Builder(sequence, next, next, 0, b.group)
      else Builder(sequence, clock, b.zeroTime, count, b.group)
    else Builder(sequence, clock, clock, 0, b.group)
  }

  /** `create` as a transition: the builder before, the clock reading in
      seconds and the host id give the builder after and the new SUID, or an
      error (a panic in Go) when the clock is behind the builder's zero time.
      The SUID carries the builder's group, the new zero time (when it fits
      34 bits), the new sequence and the host. */
  function Create(b: Builder, clock: Int64, host: int): (r: Result<(Builder, SUID), Error>)
    requires WellFormed(b) && 0 <= host <= MAX_HOST
    ensures r.Err? <==> clock < b.zeroTime
    ensures r.Err? ==> r.error == ClockMovedBackwards
    ensures r.Ok? ==> r.value.0 == Advance(b, clock)
    ensures r.Ok? ==>
      var (b', id) := r.value;
      && Seq(id) == b'.sequence && Host(id) == host
      && (0 <= b'.zeroTime <= MAX_TIME ==> Group(id) == b.group && Time(id) == b'.zeroTime && id.value >= 0)
  {
    if clock < b.zeroTime then Err(ClockMovedBackwards)
    else
      var b' := Advance(b, clock);
      PackFields(b.group, b'.thisTime, b'.sequence, host);
      Ok((b', Pack(b.group, b'.thisTime, b'.sequence, host)))
  }

  /** Go's `New(group...)`: no argument means group 0, one argument is the
      group, more is an error (a panic in Go).  The group's builder is fetched
      or created, `create` runs on it, and the updated builder is stored back
      (Go mutates it through its pointer).  When the clock has moved
      backwards, `create` has already stamped the clock reading into
      `thisTime` before it panics, and a builder `getBuilder` created is
      already filed: the registry comes back with both changes next to the
      error.  The registry is the package's own
      state, well formed from the start, and the host id is masked to 7 bits
      by `getHostID`. */
  function New(reg: Registry, groups: seq<Int64>, now: Int64, clock: Int64, host: int): (r: (Registry, Result<SUID, Error>))
    requires RegistryWellFormed(reg) && 0 <= host <= MAX_HOST
    ensures |groups| > 1 ==> r == (reg, Err(InvalidParameterCount))
    ensures |groups| <= 1 ==>
      var g := if |groups| == 0 then 0 else groups[0];
      && (g < 0 || g > MAX_GROUP ==> r == (reg, Err(InvalidGroup)))
      && (0 <= g <= MAX_GROUP ==>
            var before := if g in reg then reg[g] else NewBuilder(g, now);
            && r.0.Keys == reg.Keys + {g as int}
            && (forall k :: k in reg && k != g ==> r.0[k] == reg[k])
            && RegistryWellFormed(r.0)
            && (r.1.Ok? <==> before.zeroTime <= clock)
            && (r.1.Err? ==> r.1.error == ClockMovedBackwards && r.0[g] == before.(thisTime := clock))
            && (r.1.Ok? ==> r.0[g] == Advance(before, clock))
            && (r.1.Ok? ==>
                  var id := r.1.value;
                  && Host(id) == host && Seq(id) == r.0[g].sequence
                  && (0 <= r.0[g].zeroTime <= MAX_TIME ==> Group(id) == g && Time(id) == r.0[g].zeroTime)))
  {
    if |groups| > 1 then (reg, Err(InvalidParameterCount))
    else
      var g := if |groups| == 0 then 0 else groups[0];
      match GetBuilder(reg, g, now)
      case Err(e) => (reg, Err(e))
      case Ok((reg', b)) =>
        match Create(b, clock, host)
        case Err(e) => (reg'[g := b.(thisTime := clock)], Err(e))
        case Ok((b', id)) => (reg'[g := b'], Ok(id))
  }

}
