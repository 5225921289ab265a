/** The older 10-byte GUID of `guid.go`: group(3)-time(53)-seq(17)-host(7).

    The package-wide `int64` counter is a parameter and a result of
    `NewGUID`; the microsecond clock reading and the host number `_HOST_ID`
    (an `int64` of `suid.go`) are parameters.  The root package refers to an
    alphabet and inverse table it never defines, so the text codec takes the
    alphabet as a parameter, and its round trips hold for every alphabet
    that behaves like the one of `internal/coder` (`Base32.Valid`). */
module RootGuid {

  import opened Wrappers
  import opened Words
  import Coder
  import Base32
  import opened Json
  import Suid

  /** `uint8(MAX_GROUP)`, the SUID group limit of `suid.go`. */
  const MAX_GROUP: bv8 := Suid.MAX_GROUP as bv8
  /** `MAX_HOST` and `MAX_SEQ` of `suid.go`, which `Verify` compares with. */
  const MAX_HOST: int := Suid.MAX_HOST
  const MAX_SEQ: int := Suid.MAX_SEQ
  /** `_max_seq`, the modulus of the sequence number. */
  const SEQ_MODULUS: int := 0x1ffff

  const VERIFY_FLOOR: int := 1770904743122773

  type GUID = Base32.Block

  const ZERO: GUID := [0, 0, 0, 0, 0, 0, 0, 0, 0, 0]

  /** The sequence number `NewGUID` derives from the counter value it has
      just stored: Go's signed remainder by `_max_seq`, negative once the
      counter has wrapped past the largest int64. */
  function SeqNumber(counter: Int64): (s: int)
    ensures counter >= 0 ==> 0 <= s < SEQ_MODULUS
    ensures counter < 0 ==> -SEQ_MODULUS < s <= 0
  {
    TruncRem(counter, SEQ_MODULUS)
  }

  function Group(u: GUID): (g: bv8)
    ensures g <= MAX_GROUP
  {
    u[0] >> 5
  }

  function HostID(u: GUID): (h: int)
    ensures 0 <= h <= MAX_HOST
  {
    (u[9] & 0x7f) as int
  }

  function Seq(u: GUID): (s: int)
    ensures 0 <= s < 0x2_0000
  {
    u[7] as int * 0x200 + u[8] as int * 2 + (u[9] >> 7) as int
  }

  function Time(u: GUID): (t: int)
    ensures 0 <= t < 0x20_0000_0000_0000
  {
    u[6] as int + u[5] as int * 0x100 + u[4] as int * 0x1_0000 + u[3] as int * 0x100_0000
    + u[2] as int * 0x1_0000_0000 + u[1] as int * 0x100_0000_0000
    + (u[0] & 0x1f) as int * 0x1_0000_0000_0000
  }

  /** Group, host and sequence of any 10 bytes are within the limits
      `Verify` tests (the 17-bit sequence field is far below MAX_SEQ), so
      only the time decides. */
  function Verify(u: GUID): (ok: bool)
    ensures ok <==> Time(u) >= VERIFY_FLOOR
  {
    Group(u) <= MAX_GROUP && HostID(u) <= MAX_HOST && Seq(u) <= MAX_SEQ && Time(u) >= VERIFY_FLOOR
  }

  /** The bytes `NewGUID` writes.  Byte 9 is `byte((seq<<7 & 0x80) | _HOST_ID)`:
      the sequence's lowest bit on top of the host's low byte. */
  function Pack(g: bv8, time: Int64, sequence: int, host: Int64): GUID {
    [ (g << 5) | (ShiftByte(time, 0x1_0000_0000_0000) & 0x1f),
      ShiftByte(time, 0x100_0000_0000), ShiftByte(time, 0x1_0000_0000),
      ShiftByte(time, 0x100_0000), ShiftByte(time, 0x1_0000),
      ShiftByte(time, 0x100), ShiftByte(time, 1),
      ShiftByte(sequence, 0x200), ShiftByte(sequence, 2),
      ByteOf((sequence % 2) * 0x80) | ShiftByte(host, 1) ]
  }

  /** The extractors read back what `Pack` wrote: the group's low three
      bits, the time modulo 2^53, the host modulo 2^7, and the sequence
      modulo 2^17 as long as the host byte leaves the top bit free. */
  lemma PackRoundTrip(g: bv8, time: Int64, sequence: int, host: Int64)
    ensures var u := Pack(g, time, sequence, host);
      && Group(u) == g & 0x7
      && Time(u) == time % 0x20_0000_0000_0000
      && HostID(u) == host % 0x80
      && (host % 0x100 < 0x80 ==> Seq(u) == sequence % 0x2_0000)
  {
    var u := Pack(g, time, sequence, host);
    PackBytes(g, time, sequence, host);
    TimeOfBytes(u, time);
    ModMod(host, 0x80, 2);
    if host % 0x100 < 0x80 {
      SeqOfBytes(u, sequence);
    }
  }

  /** The bytes of `Pack` that share several fields. */
  lemma PackBytes(g: bv8, time: Int64, sequence: int, host: Int64)
    ensures var u := Pack(g, time, sequence, host);
      && u[0] >> 5 == g & 0x7
      && (u[0] & 0x1f) as int == (time / 0x1_0000_0000_0000) % 0x100 % 32
      && (u[9] & 0x7f) as int == host % 0x100 % 0x80
      && (host % 0x100 < 0x80 ==> (u[9] >> 7) as int == sequence % 2)
  {
    var top := ShiftByte(time, 0x1_0000_0000_0000);
    var h := ShiftByte(host, 1);
    TopByte(g, top);
    LowByte(sequence % 2, h);
  }

  /** Byte 0: the group above the time's top five bits. */
  lemma TopByte(g: bv8, t: bv8)
    ensures ((g << 5) | (t & 0x1f)) >> 5 == g & 0x7
    ensures (((g << 5) | (t & 0x1f)) & 0x1f) as int == t as int % 32
  {
  }

  /** Byte 9: one sequence bit or'ed onto the host byte. */
  lemma LowByte(a: int, h: bv8)
    requires 0 <= a < 2
    ensures (((ByteOf(a * 0x80) | h) & 0x7f) as int) == h as int % 0x80
    ensures h < 0x80 ==> ((ByteOf(a * 0x80) | h) >> 7) as int == a
  {
  }

  /** `Time` of bytes holding the time's digits is the time modulo 2^53. */
  lemma TimeOfBytes(u: GUID, time: int)
    requires (u[0] & 0x1f) as int == (time / 0x1_0000_0000_0000) % 0x100 % 32
    requires u[1] as int == (time / 0x100_0000_0000) % 0x100
    requires u[2] as int == (time / 0x1_0000_0000) % 0x100
    requires u[3] as int == (time / 0x100_0000) % 0x100
    requires u[4] as int == (time / 0x1_0000) % 0x100
    requires u[5] as int == (time / 0x100) % 0x100
    requires u[6] as int == time % 0x100
    ensures Time(u) == time % 0x20_0000_0000_0000
  {
    ModMod(time / 0x1_0000_0000_0000, 32, 8);
    Digit(time, 0x100, 0x100);
    Digit(time, 0x1_0000, 0x100);
    Digit(time, 0x100_0000, 0x100);
    Digit(time, 0x1_0000_0000, 0x100);
    Digit(time, 0x100_0000_0000, 0x100);
    Digit(time, 0x1_0000_0000_0000, 32);
  }

  /** `Seq` of bytes holding the sequence's digits is the sequence modulo 2^17. */
  lemma SeqOfBytes(u: GUID, sequence: int)
    requires u[7] as int == (sequence / 0x200) % 0x100
    requires u[8] as int == (sequence / 2) % 0x100
    requires (u[9] >> 7) as int == sequence % 2
    ensures Seq(u) == sequence % 0x2_0000
  {
    Digit(sequence, 2, 0x100);
    Digit(sequence, 0x200, 0x100);
  }

  /** `NewGUID(group...)`: the first group, or 0 when none is given, must
      not exceed MAX_GROUP, else Go panics before it touches the counter.
      On success: the counter after the increment and the GUID, whose
      fields read back as the group, the clock's low 53 bits and the host's
      low 7 bits; while the counter is non-negative and the host fits 7 bits
      (as `getHostID` guarantees) the sequence number reads back exactly. */
  function New(groups: seq<bv8>, time: Int64, counter: Int64, host: Int64): (r: Result<(Int64, GUID), Error>)
    ensures r.Err? <==> |groups| > 0 && groups[0] > MAX_GROUP
    ensures r.Err? ==> r.error == InvalidGroup
    ensures r.Ok? ==> r.value.0 == Inc64(counter)
    ensures r.Ok? ==> var u := r.value.1;
      && Group(u) == (if |groups| > 0 then groups[0] else 0)
      && Time(u) == time % 0x20_0000_0000_0000
      && (0 <= time < 0x20_0000_0000_0000 ==> Time(u) == time)
      && HostID(u) == host % 0x80
      && (0 <= host <= MAX_HOST && r.value.0 >= 0 ==> Seq(u) == SeqNumber(r.value.0) < SEQ_MODULUS)
  {
    var g := if |groups| > 0 then groups[0] else 0;
    if g > MAX_GROUP then Err(InvalidGroup)
    else
      var next := Inc64(counter);
      var sequence := SeqNumber(next);
      PackRoundTrip(g, time, sequence, host);
      FieldKeepsSmall(sequence, 0x2_0000);
      FieldKeepsSmall(host, 0x100);
      FieldKeepsSmall(time, 0x20_0000_0000_0000);
      Ok((next, Pack(g, time, sequence, host)))
  }

  /** `encodeGUID`: the text of a GUID in the alphabet `a`. */
  function Encode(a: Base32.Alphabet, u: GUID): (s: seq<bv8>)
    requires |a.encode| == 32
    ensures |s| == 16
    ensures forall i :: 0 <= i < 16 ==> s[i] in a.encode
  {
    Base32.Encode(a, u)
  }

  /** What a decoder leaves behind: the GUID its caller ends up with, the
      caller's byte slice, and the error. */
  datatype Decoded = Decoded(value: GUID, buffer: seq<bv8>, err: Option<Error>)

  /** `decodeGUID`: the zero GUID with an error on a length other than 16
      or on a byte the table lacks, else the GUID the text spells; the
      bytes it looked up are overwritten with their groups either way. */
  function Decode(a: Base32.Alphabet, d: seq<bv8>): (r: Decoded)
    ensures |r.buffer| == |d|
    ensures r.err.Some? ==> r.value == ZERO
    ensures r.err.None? <==> |d| == 16 && forall i :: 0 <= i < 16 ==> Coder.Lookup(a.decode, d[i]).Some?
    ensures r.err == Some(InvalidLength) <==> |d| != 16
    ensures r.err.Some? ==> r.err.value == InvalidLength || r.err.value.InvalidCharacter?
    ensures |d| != 16 ==> r.buffer == d
    ensures r.err.None? ==> forall i :: 0 <= i < 16 ==> Coder.Lookup(a.decode, d[i]) == Some(r.buffer[i])
  {
    var dec := Base32.Decode(a.decode, d);
    match dec.value
    case Ok(u) => Decoded(u, dec.buffer, None)
    case Err(e) => Decoded(ZERO, dec.buffer, Some(e))
  }

  /** `ParseGUID(String(u)) == u` for every alphabet that behaves like the
      one of `internal/coder`. */
  lemma DecodeEncode(a: Base32.Alphabet, u: GUID)
    requires Base32.Valid(a)
    ensures Decode(a, Encode(a, u)).value == u
    ensures Decode(a, Encode(a, u)).err.None?
  {
    Base32.DecodeEncode(a, u);
  }

  /** Reverse round trip: text that decodes without error is the encoding
      of the GUID it decodes to. */
  lemma EncodeDecode(a: Base32.Alphabet, d: seq<bv8>)
    requires Base32.Valid(a) && Decode(a, d).err.None?
    ensures Encode(a, Decode(a, d).value) == d
  {
    Base32.EncodeDecode(a, d);
  }

  /** `UnmarshalText`: the receiver takes the decoded GUID only on success,
      which needs 16 bytes all in the table; a wrong length leaves the
      caller's bytes untouched. */
  function UnmarshalText(a: Base32.Alphabet, receiver: GUID, data: seq<bv8>): (r: Decoded)
    ensures |r.buffer| == |data|
    ensures r.err.None? <==> |data| == 16 && forall i :: 0 <= i < 16 ==> Coder.Lookup(a.decode, data[i]).Some?
    ensures r.err.Some? ==> r.value == receiver
    ensures r.err.Some? ==> r.err.value == InvalidLength || r.err.value.InvalidCharacter?
    ensures r.err == Some(InvalidLength) <==> |data| != 16
    ensures |data| != 16 ==> r.buffer == data
    ensures r.err.None? ==> forall i :: 0 <= i < 16 ==> Coder.Lookup(a.decode, data[i]) == Some(r.buffer[i])
    ensures r.err.None? ==> r.value == Decode(a, data).value
  {
    var d := Decode(a, data);
    if d.err.None? then d else Decoded(receiver, d.buffer, d.err)
  }

  /** `MarshalJSON`: the text between two double quotes. */
  function MarshalJson(a: Base32.Alphabet, u: GUID): (j: seq<bv8>)
    requires |a.encode| == 32
    ensures Framed(j) && j[1..17] == Encode(a, u)
  {
    Quote(Encode(a, u))
  }

  /** `UnmarshalJSON`: 18 bytes framed by double quotes, else an error with
      nothing changed; otherwise `UnmarshalText` on the bytes between. */
  function UnmarshalJson(a: Base32.Alphabet, receiver: GUID, data: seq<bv8>): (r: Decoded)
    ensures |r.buffer| == |data|
    ensures r.err == Some(InvalidJson) <==> !Framed(data)
    ensures r.err.Some? ==> r.value == receiver
    ensures !Framed(data) ==> r.buffer == data
    ensures r.err.None? ==> r.value == Decode(a, data[1..17]).value
  {
    if !Framed(data) then Decoded(receiver, data, Some(InvalidJson))
    else
      var t := UnmarshalText(a, receiver, data[1..17]);
      assert t.err != Some(InvalidJson);
      Decoded(t.value, data[..1] + t.buffer + data[17..], t.err)
  }

  /** JSON round trip for every alphabet that behaves like the one of
      `internal/coder`. */
  lemma UnmarshalMarshal(a: Base32.Alphabet, receiver: GUID, u: GUID)
    requires Base32.Valid(a)
    ensures UnmarshalJson(a, receiver, MarshalJson(a, u)).value == u
    ensures UnmarshalJson(a, receiver, MarshalJson(a, u)).err.None?
  {
    var j := MarshalJson(a, u);
    assert j[1..17] == Encode(a, u);
    DecodeEncode(a, u);
  }
}
