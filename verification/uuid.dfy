/** The 10-byte UUID of `uuid.go`: group(6)-time(34)-seq(32)-host(8).

    The package-wide `uint32` counter is a parameter and a result of
    `NewUUID`; the clock reading (whole seconds) and `_HOST_ID` are
    parameters, and the alphabet is a parameter as for `guid.go`.  Three
    members model the code as it stands and show where it departs from what
    the rest of the package does (`NewAsWritten`, `DecodeAsWritten`,
    `UnmarshalJsonAsWritten`); their corrected counterparts (`New`,
    `Decode`, `UnmarshalJson`) carry the round trips. */
module Uuid {

  import opened Wrappers
  import opened Words
  import Coder
  import Base32
  import opened Json

  const MAX_GROUP: bv8 := 0x3f

  type UUID = Base32.Block

  const ZERO: UUID := [0, 0, 0, 0, 0, 0, 0, 0, 0, 0]

  function Group(u: UUID): (g: bv8)
    ensures g <= MAX_GROUP
  {
    u[0] >> 2
  }

  function HostID(u: UUID): (h: int)
    ensures 0 <= h < 0x100
  {
    u[9] as int
  }

  function Seq(u: UUID): (s: int)
    ensures 0 <= s < TWO_32
  {
    u[8] as int + u[7] as int * 0x100 + u[6] as int * 0x1_0000 + u[5] as int * 0x100_0000
  }

  function Time(u: UUID): (t: int)
    ensures 0 <= t < 0x4_0000_0000
  {
    u[4] as int + u[3] as int * 0x100 + u[2] as int * 0x1_0000 + u[1] as int * 0x100_0000
    + (u[0] & 0x3) as int * 0x1_0000_0000
  }

  /** The bytes `NewUUID` writes.  `g<<2` is a `uint8` shift: the group's
      two top bits fall off. */
  function Pack(g: bv8, time: Int64, sequence: Uint32, host: Int64): UUID {
    [ (g << 2) | (ShiftByte(time, 0x1_0000_0000) & 0x3),
      ShiftByte(time, 0x100_0000), ShiftByte(time, 0x1_0000),
      ShiftByte(time, 0x100), ShiftByte(time, 1),
      ShiftByte(sequence, 0x100_0000), ShiftByte(sequence, 0x1_0000),
      ShiftByte(sequence, 0x100), ShiftByte(sequence, 1),
      ShiftByte(host, 1) ]
  }

  /** The extractors read back what `Pack` wrote: the group's low six bits,
      the time modulo 2^34, the whole 32-bit sequence number and the host's
      low byte. */
  lemma PackRoundTrip(g: bv8, time: Int64, sequence: Uint32, host: Int64)
    ensures var u := Pack(g, time, sequence, host);
      && Group(u) == g & 0x3f
      && Time(u) == time % 0x4_0000_0000
      && Seq(u) == sequence
      && HostID(u) == host % 0x100
  {
    var u := Pack(g, time, sequence, host);
    PackTopByte(g, time);
    TimeOfBytes(u, time);
    SeqOfBytes(u, sequence);
  }

  lemma PackTopByte(g: bv8, time: Int64)
    ensures var u0 := Pack(g, time, 0, 0)[0];
      && u0 >> 2 == g & 0x3f
      && (u0 & 0x3) as int == (time / 0x1_0000_0000) % 0x100 % 4
  {
    var t := ShiftByte(time, 0x1_0000_0000);
    TopByte(g, t);
  }

  /** Byte 0: the group above the time's top two bits. */
  lemma TopByte(g: bv8, t: bv8)
    ensures ((g << 2) | (t & 0x3)) >> 2 == g & 0x3f
    ensures (((g << 2) | (t & 0x3)) & 0x3) as int == t as int % 4
  {
  }

  /** `Time` of bytes holding the time's digits is the time modulo 2^34. */
  lemma TimeOfBytes(u: UUID, time: int)
    requires (u[0] & 0x3) as int == (time / 0x1_0000_0000) % 0x100 % 4
    requires u[1] as int == (time / 0x100_0000) % 0x100
    requires u[2] as int == (time / 0x1_0000) % 0x100
    requires u[3] as int == (time / 0x100) % 0x100
    requires u[4] as int == time % 0x100
    ensures Time(u) == time % 0x4_0000_0000
  {
    ModMod(time / 0x1_0000_0000, 4, 0x40);
    Digit(time, 0x100, 0x100);
    Digit(time, 0x1_0000, 0x100);
    Digit(time, 0x100_0000, 0x100);
    Digit(time, 0x1_0000_0000, 4);
  }

  /** `Seq` of bytes holding the digits of a 32-bit number is that number. */
  lemma SeqOfBytes(u: UUID, sequence: Uint32)
    requires u[5] as int == (sequence / 0x100_0000) % 0x100
    requires u[6] as int == (sequence / 0x1_0000) % 0x100
    requires u[7] as int == (sequence / 0x100) % 0x100
    requires u[8] as int == sequence % 0x100
    ensures Seq(u) == sequence
  {
    Digit(sequence, 0x100, 0x100);
    Digit(sequence, 0x1_0000, 0x100);
    Digit(sequence, 0x100_0000, 0x100);
    FieldKeepsSmall(sequence, TWO_32);
  }

  /** `NewUUID(group...)` as written: no group is refused.  The counter
      after the increment and the UUID, whose group field holds only the
      group's low six bits, so a group above MAX_GROUP reads back as a
      different one. */
  function NewAsWritten(groups: seq<bv8>, time: Int64, counter: Uint32, host: Int64): (r: (Uint32, UUID))
    ensures r.0 == IncU32(counter)
    ensures var g := if |groups| > 0 then groups[0] else 0;
      && Group(r.1) == g & 0x3f
      && Time(r.1) == time % 0x4_0000_0000
      && Seq(r.1) == r.0
      && HostID(r.1) == host % 0x100
  {
    var g := if |groups| > 0 then groups[0] else 0;
    var next := IncU32(counter);
    PackRoundTrip(g, time, next, host);
    (next, Pack(g, time, next, host))
  }

  /** Group 64 comes back as group 0. */
  lemma NewAsWrittenLosesGroup(time: Int64, counter: Uint32, host: Int64)
    ensures Group(NewAsWritten([0x40], time, counter, host).1) == 0
  {
  }

  /** `NewUUID` with the group check `NewGUID` and `New` make: a group
      above MAX_GROUP is refused before the counter moves; otherwise every
      field reads back exactly (the time modulo 2^34). */
  function New(groups: seq<bv8>, time: Int64, counter: Uint32, host: Int64): (r: Result<(Uint32, UUID), Error>)
    ensures r.Err? <==> |groups| > 0 && groups[0] > MAX_GROUP
    ensures r.Err? ==> r.error == InvalidGroup
    ensures r.Ok? ==> r.value == NewAsWritten(groups, time, counter, host)
    ensures r.Ok? ==> Group(r.value.1) == (if |groups| > 0 then groups[0] else 0)
  {
    var g := if |groups| > 0 then groups[0] else 0;
    if g > MAX_GROUP then Err(InvalidGroup) else Ok(NewAsWritten(groups, time, counter, host))
  }

  /** `encodeUUID`: the same slicing as `encodeGUID`. */
  function Encode(a: Base32.Alphabet, u: UUID): (s: seq<bv8>)
    requires |a.encode| == 32
    ensures |s| == 16
    ensures forall i :: 0 <= i < 16 ==> s[i] in a.encode
  {
    Base32.Encode(a, u)
  }

  /** Go's `m[k]` on a `map[byte]byte`: the zero byte when `k` is absent,
      so the result is either zero or a value the table holds, and a table
      of 5-bit groups only ever yields 5-bit groups. */
  function Find(table: map<int, bv8>, c: bv8): (x: bv8)
    ensures x == 0 || x in table.Values
    ensures (forall c': bv8 :: Coder.Lookup(table, c').Some? ==> Coder.Lookup(table, c').value < 32) ==> x < 32
  {
    match Coder.Lookup(table, c)
    case Some(x) => x
    case None => 0
  }

  /** `decodeUUID` as written: after the length check it glues the raw
      characters together with the decoder's shifts and only then looks the
      glued bytes up in the table.  It fails on the length alone, and with
      a valid alphabet every byte it returns is a 5-bit group. */
  function DecodeAsWritten(a: Base32.Alphabet, d: seq<bv8>): (r: (UUID, Option<Error>))
    ensures r.1.Some? <==> |d| != 16
    ensures r.1.Some? ==> r.1.value == InvalidLength && r.0 == ZERO
    ensures Base32.Valid(a) ==> forall j :: 0 <= j < 10 ==> r.0[j] < 32
  {
    if |d| != 16 then (ZERO, Some(InvalidLength))
    else (seq(10, j requires 0 <= j < 10 => Find(a.decode, Base32.ByteAt(d, j))), None)
  }

  /** The round trip `ParseUUID(u.String()) == u` fails for every UUID with
      a byte of 32 or more, whatever the alphabet. */
  lemma DecodeAsWrittenBreaksRoundTrip(a: Base32.Alphabet, u: UUID, j: nat)
    requires Base32.Valid(a) && j < 10 && u[j] >= 32
    ensures DecodeAsWritten(a, Encode(a, u)).0 != u
  {
    assert DecodeAsWritten(a, Encode(a, u)).0[j] < 32;
  }

  /** Every UUID made at a second from 2^29 (January 1987) up to 2^32 has
      byte 1 = `byte(time >> 24)` of 32 or more, so none of them survives
      its own text. */
  lemma NewAsWrittenNeverParses(a: Base32.Alphabet, groups: seq<bv8>, time: Int64, counter: Uint32, host: Int64)
    requires Base32.Valid(a)
    requires 0x2000_0000 <= time < 0x1_0000_0000
    ensures var u := NewAsWritten(groups, time, counter, host).1;
      DecodeAsWritten(a, Encode(a, u)).0 != u
  {
    var u := NewAsWritten(groups, time, counter, host).1;
    var hi := time / 0x100_0000;
    DivMod(time, 0x100_0000, hi, time % 0x100_0000);
    DivMod(hi, 0x100, 0, hi);
    assert u[1] as int == hi;
    DecodeAsWrittenBreaksRoundTrip(a, u, 1);
  }

  /** `decodeUUID` as `decodeGUID` does it: every character through the
      table first, then the groups glued into bytes. */
  function Decode(a: Base32.Alphabet, d: seq<bv8>): (r: (UUID, Option<Error>))
    ensures r.1.Some? ==> r.0 == ZERO
    ensures r.1 == Some(InvalidLength) <==> |d| != 16
    ensures r.1.None? <==> |d| == 16 && forall i :: 0 <= i < 16 ==> Coder.Lookup(a.decode, d[i]).Some?
  {
    match Base32.Decode(a.decode, d).value
    case Ok(u) => (u, None)
    case Err(e) => (ZERO, Some(e))
  }

  /** With the corrected decoder the round trip holds for every UUID. */
  lemma DecodeEncode(a: Base32.Alphabet, u: UUID)
    requires Base32.Valid(a)
    ensures Decode(a, Encode(a, u)) == (u, None)
  {
    Base32.DecodeEncode(a, u);
  }

  /** The other direction: whatever the corrected decoder accepts is the
      text of the UUID it returns. */
  lemma EncodeDecode(a: Base32.Alphabet, d: seq<bv8>)
    requires Base32.Valid(a) && Decode(a, d).1.None?
    ensures Encode(a, Decode(a, d).0) == d
  {
    Base32.EncodeDecode(a, d);
  }

  /** `UnmarshalText`: the receiver takes the decoded UUID only on success. */
  function UnmarshalText(a: Base32.Alphabet, receiver: UUID, data: seq<bv8>): (r: (UUID, Option<Error>))
    ensures r.1.Some? <==> |data| != 16
    ensures r.1.Some? ==> r.1 == Some(InvalidLength) && r.0 == receiver
    ensures r.1.None? && Base32.Valid(a) ==> forall j :: 0 <= j < 10 ==> r.0[j] < 32
    ensures r.1 == DecodeAsWritten(a, data).1
    ensures r.1.None? ==> r.0 == DecodeAsWritten(a, data).0
  {
    var (u, err) := DecodeAsWritten(a, data);
    if err.None? then (u, None) else (receiver, err)
  }

  /** `MarshalJSON`: the text between two double quotes. */
  function MarshalJson(a: Base32.Alphabet, u: UUID): (j: seq<bv8>)
    requires |a.encode| == 32
    ensures Framed(j) && j[1..17] == Encode(a, u)
  {
    Quote(Encode(a, u))
  }

  /** No symbol of the alphabet is a double quote. */
  ghost predicate QuoteFree(a: Base32.Alphabet) {
    |a.encode| == 32 && forall x: bv8 :: x < 32 ==> a.encode[x] != QUOTE
  }

  lemma StandardIsQuoteFree()
    ensures QuoteFree(Base32.STANDARD)
  {
    Coder.EncodeIsSymbol();
  }

  /** `UnmarshalJSON` as written: it looks for the closing quote at index 14
      instead of 17, then hands bytes 1..16 to `UnmarshalText`. */
  function UnmarshalJsonAsWritten(a: Base32.Alphabet, receiver: UUID, data: seq<bv8>): (r: (UUID, Option<Error>))
    ensures r.1 == Some(InvalidJson) <==> !(|data| == 18 && data[0] == QUOTE && data[14] == QUOTE)
    ensures r.1.Some? ==> r.1 == Some(InvalidJson) && r.0 == receiver
    ensures r.1.None? ==> r.0 == DecodeAsWritten(a, data[1..17]).0
  {
    if |data| != 18 || data[0] != QUOTE || data[14] != QUOTE then (receiver, Some(InvalidJson))
    else UnmarshalText(a, receiver, data[1..17])
  }

  /** The check at index 14 refuses everything `MarshalJSON` produces: byte
      14 of the JSON is a symbol of the text, never a quote. */
  lemma UnmarshalAsWrittenRefusesMarshal(a: Base32.Alphabet, receiver: UUID, u: UUID)
    requires QuoteFree(a)
    ensures UnmarshalJsonAsWritten(a, receiver, MarshalJson(a, u)) == (receiver, Some(InvalidJson))
  {
    var j := MarshalJson(a, u);
    var s := Encode(a, u);
    assert j[14] == s[13];
    var d := Base32.Slice(u);
    assert s[13] == a.encode[d[13]];
  }

  /** `UnmarshalJSON` with the closing quote checked at index 17 and the
      corrected decoder. */
  function UnmarshalJson(a: Base32.Alphabet, receiver: UUID, data: seq<bv8>): (r: (UUID, Option<Error>))
    ensures r.1 == Some(InvalidJson) <==> !Framed(data)
    ensures r.1.Some? ==> r.0 == receiver
    ensures r.1.None? <==> Framed(data) && forall i :: 1 <= i < 17 ==> Coder.Lookup(a.decode, data[i]).Some?
    ensures Framed(data) ==> r.1 == Decode(a, data[1..17]).1
    ensures r.1.None? ==> r.0 == Decode(a, data[1..17]).0
  {
    if !Framed(data) then (receiver, Some(InvalidJson))
    else
      var text := data[1..17];
      assert forall i :: 1 <= i < 17 ==> data[i] == text[i - 1];
      var (u, err) := Decode(a, text);
      assert err != Some(InvalidJson);
      if err.None? then (u, None) else (receiver, err)
  }

  /** With both corrections the JSON round trip holds. */
  lemma UnmarshalMarshal(a: Base32.Alphabet, receiver: UUID, u: UUID)
    requires Base32.Valid(a)
    ensures UnmarshalJson(a, receiver, MarshalJson(a, u)) == (u, None)
  {
    var j := MarshalJson(a, u);
    assert j[1..17] == Encode(a, u);
    DecodeEncode(a, u);
  }
}
