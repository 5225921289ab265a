/** The 10-byte GUID of `guid/guid.go`: group(4)-time(54)-seq(14)-host(8).

    The time is Go's `int64` microsecond clock reading, taken as its 64-bit
    pattern: every byte sliced out of it keeps bits below 56, so Go's
    arithmetic shift gives the same bits as a logical one.  The package-wide
    `uint64` counter is a parameter and a result of `New`; the clock reading
    and the host byte `coder.HOSTID` are parameters. */
module GuidV2 {

  import opened Wrappers
  import opened Words
  import Coder
  import Base32
  import opened Json

  const MAX_GROUP: bv8 := 0x0f
  const MAX_SEQ: int := 0x3fff
  const MAX_TIME: int := 0x3f_ffff_ffff_ffff

  /** The earliest microsecond `Verify` accepts. */
  const VERIFY_FLOOR: int := 1770904743122773

  type GUID = Base32.Block

  /** The sequence number `New` derives from the counter value it has just
      stored: the counter modulo MAX_SEQ, so MAX_SEQ itself never occurs. */
  function SeqNumber(counter: Uint64): (s: int)
    ensures 0 <= s < MAX_SEQ
  {
    counter % MAX_SEQ
  }

  /** Successive counter values give successive sequence numbers, modulo
      MAX_SEQ, unless the counter has just wrapped to zero. */
  lemma SeqNumberStep(counter: Uint64)
    requires counter < TWO_64 - 1
    ensures SeqNumber(IncU64(counter)) == (SeqNumber(counter) + 1) % MAX_SEQ
  {
    var q, r := counter / MAX_SEQ, counter % MAX_SEQ;
    if r + 1 < MAX_SEQ {
      DivMod(counter + 1, MAX_SEQ, q, r + 1);
    } else {
      DivMod(counter + 1, MAX_SEQ, q + 1, 0);
    }
  }

  /** At the wrap the sequence jumps: 2^64 is not a multiple of MAX_SEQ,
      so the last counter value before zero leaves 255 and the next
      sequence number is 0, not 256. */
  lemma SeqNumberWrap()
    ensures SeqNumber(TWO_64 - 1) == 255 && SeqNumber(IncU64(TWO_64 - 1)) == 0
  {
    DivMod(TWO_64 - 1, MAX_SEQ, (TWO_64 - 1) / MAX_SEQ, 255);
  }

  function Group(u: GUID): (g: bv8)
    ensures g <= MAX_GROUP
  {
    u[0] >> 4
  }

  function HostID(u: GUID): bv8 {
    u[9]
  }

  function Seq(u: GUID): (s: int)
    ensures 0 <= s <= MAX_SEQ
  {
    (u[7] & 0x3f) as int * 0x100 + u[8] as int
  }

  function Time(u: GUID): (t: int)
    ensures 0 <= t <= MAX_TIME
  {
    (u[0] & 0x0f) as int * 0x4_0000_0000_0000 + u[1] as int * 0x400_0000_0000
    + u[2] as int * 0x4_0000_0000 + u[3] as int * 0x400_0000 + u[4] as int * 0x4_0000
    + u[5] as int * 0x400 + u[6] as int * 4 + ((u[7] >> 6) & 0x3f) as int
  }

  /** Every 10 bytes pass the group and sequence tests of `Verify`, so only
      the time decides. */
  function Verify(u: GUID): (ok: bool)
    ensures ok <==> Time(u) >= VERIFY_FLOOR
  {
    Group(u) <= MAX_GROUP && Seq(u) <= MAX_SEQ && Time(u) >= VERIFY_FLOOR
  }

  /** The bytes `New` writes.  Byte 7 holds `byte(time<<6 & 0xc0)`, the
      time's two lowest bits moved to the top of the byte. */
  function Pack(g: bv8, time: Int64, sequence: Uint64, host: bv8): (u: GUID)
  {
    [ (g << 4) | (ShiftByte(time, 0x4_0000_0000_0000) & 0x0f),
      ShiftByte(time, 0x400_0000_0000), ShiftByte(time, 0x4_0000_0000),
      ShiftByte(time, 0x400_0000), ShiftByte(time, 0x4_0000),
      ShiftByte(time, 0x400), ShiftByte(time, 4),
      ByteOf((time % 4) * 0x40) | ByteOf((sequence / 0x100) % 0x40),
      ShiftByte(sequence, 1), host ]
  }

  /** The extractors read back what `Pack` wrote: the group's low four
      bits, the time modulo 2^54 (the time itself when it lies in
      [0, MAX_TIME]), the sequence modulo 2^14 and the host. */
  lemma PackRoundTrip(g: bv8, time: Int64, sequence: Uint64, host: bv8)
    ensures var u := Pack(g, time, sequence, host);
      && Group(u) == g & 0x0f
      && Time(u) == time % 0x40_0000_0000_0000
      && Seq(u) == sequence % 0x4000
      && HostID(u) == host
  {
    var u := Pack(g, time, sequence, host);
    PackBytes(g, time, sequence, host);
    TimeOfBytes(u, time);
    SeqOfBytes(u, sequence);
  }

  lemma PackBytes(g: bv8, time: Int64, sequence: Uint64, host: bv8)
    ensures var u := Pack(g, time, sequence, host);
      && u[0] >> 4 == g & 0x0f
      && (u[0] & 0x0f) as int == (time / 0x4_0000_0000_0000) % 0x100 % 16
      && ((u[7] >> 6) & 0x3f) as int == time % 4
      && (u[7] & 0x3f) as int == (sequence / 0x100) % 0x40
  {
    var u := Pack(g, time, sequence, host);
    var top := ShiftByte(time, 0x4_0000_0000_0000);
    var mid := (sequence / 0x100) % 0x40;
    TopByte(g, top);
    LowByte(time % 4, mid);
  }

  /** `Time` of bytes holding the time's digits is the time modulo 2^54. */
  lemma TimeOfBytes(u: GUID, time: int)
    requires (u[0] & 0x0f) as int == (time / 0x4_0000_0000_0000) % 0x100 % 16
    requires u[1] as int == (time / 0x400_0000_0000) % 0x100
    requires u[2] as int == (time / 0x4_0000_0000) % 0x100
    requires u[3] as int == (time / 0x400_0000) % 0x100
    requires u[4] as int == (time / 0x4_0000) % 0x100
    requires u[5] as int == (time / 0x400) % 0x100
    requires u[6] as int == (time / 4) % 0x100
    requires ((u[7] >> 6) & 0x3f) as int == time % 4
    ensures Time(u) == time % 0x40_0000_0000_0000
  {
    ModMod(time / 0x4_0000_0000_0000, 16, 16);
    TimeDigits(time);
  }

  /** `Seq` of bytes holding the sequence's digits is the sequence modulo 2^14. */
  lemma SeqOfBytes(u: GUID, sequence: int)
    requires (u[7] & 0x3f) as int == (sequence / 0x100) % 0x40
    requires u[8] as int == sequence % 0x100
    ensures Seq(u) == sequence % 0x4000
  {
    Digit(sequence, 0x100, 0x40);
  }

  /** The time modulo 2^54 reassembled from the digits `Pack` stores. */
  lemma TimeDigits(time: int)
    ensures ((time / 0x4_0000_0000_0000) % 16) * 0x4_0000_0000_0000
      + ((time / 0x400_0000_0000) % 0x100) * 0x400_0000_0000
      + ((time / 0x4_0000_0000) % 0x100) * 0x4_0000_0000
      + ((time / 0x400_0000) % 0x100) * 0x400_0000
      + ((time / 0x4_0000) % 0x100) * 0x4_0000
      + ((time / 0x400) % 0x100) * 0x400
      + ((time / 4) % 0x100) * 4
      + time % 4
      == time % 0x40_0000_0000_0000
  {
    Digit(time, 4, 0x100);
    Digit(time, 0x400, 0x100);
    Digit(time, 0x4_0000, 0x100);
    Digit(time, 0x400_0000, 0x100);
    Digit(time, 0x4_0000_0000, 0x100);
    Digit(time, 0x400_0000_0000, 0x100);
    Digit(time, 0x4_0000_0000_0000, 16);
  }

  /** Byte 0: the group above the time's top nibble. */
  lemma TopByte(g: bv8, t: bv8)
    ensures ((g << 4) | (t & 0x0f)) >> 4 == g & 0x0f
    ensures (((g << 4) | (t & 0x0f)) & 0x0f) as int == t as int % 16
  {
  }

  /** Byte 7: two time bits above six sequence bits. */
  lemma LowByte(a: int, b: int)
    requires 0 <= a < 4 && 0 <= b < 0x40
    ensures (((ByteOf(a * 0x40) | ByteOf(b)) >> 6) & 0x3f) as int == a
    ensures ((ByteOf(a * 0x40) | ByteOf(b)) & 0x3f) as int == b
  {
  }

  /** `New(group...)`: the first group, or 0 when none is given (further
      groups are ignored), must fit four bits, else Go panics before it
      touches the counter.  On success: the counter after the increment and
      the GUID, whose fields read back as the group, the clock's low 54
      bits, the new sequence number and the host. */
  function New(groups: seq<bv8>, time: Int64, counter: Uint64, host: bv8): (r: Result<(Uint64, GUID), Error>)
    ensures r.Err? <==> |groups| > 0 && groups[0] > MAX_GROUP
    ensures r.Err? ==> r.error == InvalidGroup
    ensures r.Ok? ==> r.value.0 == IncU64(counter)
    ensures r.Ok? ==> var u := r.value.1;
      && Group(u) == (if |groups| > 0 then groups[0] else 0)
      && Time(u) == time % 0x40_0000_0000_0000
      && (0 <= time <= MAX_TIME ==> Time(u) == time)
      && Seq(u) == SeqNumber(r.value.0) && Seq(u) < MAX_SEQ
      && HostID(u) == host
  {
    var g := if |groups| > 0 then groups[0] else 0;
    if g > MAX_GROUP then Err(InvalidGroup)
    else
      var next := IncU64(counter);
      var sequence := SeqNumber(next);
      PackRoundTrip(g, time, sequence, host);
      DivMod(sequence, 0x4000, 0, sequence);
      FieldKeepsSmall(time, 0x40_0000_0000_0000);
      Ok((next, Pack(g, time, sequence, host)))
  }

  /** `String`/`MarshalText`/`encodeInto`: 16 bytes of the alphabet of
      `internal/coder`. */
  function Text(u: GUID): (s: seq<bv8>)
    ensures |s| == 16
    ensures forall i :: 0 <= i < 16 ==> Coder.Lookup(Coder.DECODE, s[i]).Some?
  {
    Base32.StandardIsValid();
    Base32.EncodeIsInAlphabet(Base32.STANDARD, u);
    Base32.Encode(Base32.STANDARD, u)
  }

  /** What `decodeFrom` (and `UnmarshalText`, `UnmarshalJSON`) leaves
      behind: the receiver, the caller's byte slice and the error. */
  datatype Outcome = Outcome(receiver: GUID, buffer: seq<bv8>, err: Option<Error>)

  /** `decodeFrom`: the receiver is assigned only when every check passes;
      on a failure it keeps its old value, though the bytes looked up before
      the bad one have already been overwritten with their groups. */
  function DecodeFrom(receiver: GUID, d: seq<bv8>): (r: Outcome)
    ensures |r.buffer| == |d|
    ensures r.err.None? <==> |d| == 16 && forall i :: 0 <= i < 16 ==> Coder.Lookup(Coder.DECODE, d[i]).Some?
    ensures r.err.Some? ==> r.receiver == receiver
    ensures r.err.Some? ==> r.err.value == InvalidLength || r.err.value.InvalidCharacter?
    ensures r.err == Some(InvalidLength) <==> |d| != 16
    ensures r.err.None? ==> Text(r.receiver) == d
  {
    var dec := Base32.Decode(Coder.DECODE, d);
    match dec.value
    case Ok(u) =>
      Base32.StandardIsValid();
      Base32.EncodeDecode(Base32.STANDARD, d);
      Outcome(u, dec.buffer, None)
    case Err(e) => Outcome(receiver, dec.buffer, Some(e))
  }

  /** `Parse(String(u)) == u`, whatever the receiver held before. */
  lemma ParseText(receiver: GUID, u: GUID)
    ensures DecodeFrom(receiver, Text(u)).receiver == u
    ensures DecodeFrom(receiver, Text(u)).err.None?
  {
    Base32.StandardIsValid();
    Base32.DecodeEncode(Base32.STANDARD, u);
  }

  /** The zero GUID, the value `Parse` decodes into. */
  const ZERO: GUID := [0, 0, 0, 0, 0, 0, 0, 0, 0, 0]

  /** `Parse`: the decoded GUID, or the zero GUID with the error. */
  function Parse(str: seq<bv8>): (r: (GUID, Option<Error>))
    ensures r.1.None? ==> Text(r.0) == str
    ensures r.1.Some? ==> r.0 == ZERO
  {
    var o := DecodeFrom(ZERO, str);
    (o.receiver, o.err)
  }

  /** `MarshalJSON`: the text between two double quotes. */
  function MarshalJson(u: GUID): (j: seq<bv8>)
    ensures Framed(j) && j[1..17] == Text(u)
  {
    Quote(Text(u))
  }

  /** `UnmarshalJSON`: 18 bytes framed by double quotes, else an error with
      nothing changed; otherwise `decodeFrom` on the 16 bytes between the
      quotes, which share storage with the caller's slice. */
  function UnmarshalJson(receiver: GUID, data: seq<bv8>): (r: Outcome)
    ensures |r.buffer| == |data|
    ensures r.err == Some(InvalidJson) <==> !Framed(data)
    ensures r.err == Some(InvalidJson) ==> r.receiver == receiver && r.buffer == data
    ensures r.err.Some? ==> r.receiver == receiver
    ensures r.err.None? ==> Text(r.receiver) == data[1..17]
  {
    if !Framed(data) then
      Outcome(receiver, data, Some(InvalidJson))
    else
      var o := DecodeFrom(receiver, data[1..17]);
      assert o.err != Some(InvalidJson);
      Outcome(o.receiver, data[..1] + o.buffer + data[17..], o.err)
  }

  /** JSON round trip: unmarshalling the marshalled GUID gives it back. */
  lemma UnmarshalMarshal(receiver: GUID, u: GUID)
    ensures UnmarshalJson(receiver, MarshalJson(u)).receiver == u
    ensures UnmarshalJson(receiver, MarshalJson(u)).err.None?
  {
    var j := MarshalJson(u);
    assert j[1..17] == Text(u);
    ParseText(receiver, u);
  }

  /** Reverse JSON round trip: JSON that unmarshals without error is the
      marshalling of the GUID it yields. */
  lemma MarshalUnmarshal(receiver: GUID, data: seq<bv8>)
    requires UnmarshalJson(receiver, data).err.None?
    ensures MarshalJson(UnmarshalJson(receiver, data).receiver) == data
  {
    FramedIsQuoted(data);
  }
}
