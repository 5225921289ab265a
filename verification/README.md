# go-suid in Dafny

A model of the identifier core of `go-suid`. Each identifier packs a group, a
time, a sequence number and a host id into a fixed-width value. The 10-byte
kinds also convert to and from a 16-character base32 text and its JSON
string.

- `Suid` (suid.dfy) — the 64-bit SUID, laid out as
  sign(1)-group(3)-time(34)-seq(19)-host(7).
  - Models the field widths, the extractors and `Verify`.
  - Models the per-group builder registry (`getBuilder`).
  - Models `create` as a pure transition from builder and clock reading to
    the next builder and a SUID, or an error where Go panics.
  - `SuidUniqueness` (suid_uniqueness.dfy) proves that a builder never
    repeats an ID while the clock does not move backwards.
- `Coder` (coder.dfy) — the 32-symbol `ENCODE` alphabet of
  `internal/coder` and the `DECODE` table its `init` loop builds.
- `Base32` (base32.dfy) — the 10-byte ↔ 16-character codec.
  - `guid/guid.go`, `guid.go` and `uuid.go` repeat the same slicing
    expressions, so the codec is defined once here.
  - Its decoder returns the bytes it overwrote in place alongside the result.
  - `DecodeInPlace` is Go's lookup loop written as a loop.
- `Json` (json.dfy) — the `"`…`"` framing shared by the `MarshalJSON` and
  `UnmarshalJSON` methods.
- `GuidV2` (guidv2.dfy) — the GUID of `guid/guid.go`, laid out as
  group(4)-time(54)-seq(14)-host(8).
- `RootGuid` (rootguid.dfy) — the older GUID of `guid.go`, laid out as
  group(3)-time(53)-seq(17)-host(7).
- `Uuid` (uuid.dfy) — the UUID of `uuid.go`, laid out as
  group(6)-time(34)-seq(32)-host(8).
- `Words` (words.dfy) and `Wrappers` (wrappers.dfy) — shared helpers. `Words`
  holds the Go integer types and shift/mask arithmetic. `Wrappers` holds
  `Option`, `Result` and the error values.

How Go's integers are modelled:
- Go's `int64`, `uint64` and `uint32` values are integers restricted to their
  ranges. These are `Int64`, `Uint64` and `Uint32`.
- Bytes are `bv8`.
- A shift-and-mask on a word is a floor division and a remainder. Go's `>>`
  on a signed word is arithmetic, i.e. a floor division, so this is exact for
  negative words too.
- `|` of disjoint fields is `+`.
- `byte(x >> k)` is `ShiftByte(x, 2^k)`.
- Counter increments wrap explicitly (`IncU64`, `IncU32`, `Inc64`).
- Go's signed `%` rounds toward zero and is modelled by `TruncRem`.
- Go's comma-ok map read `v, ok := m[k]` on a `map[byte]byte` is
  `Coder.Lookup`, an `Option` that is present exactly when the key is.

What comes in as parameters:
- The wall clock, the package counters of the three 10-byte kinds, and the
  host id. The counters also come back as results.
- The alphabet of `guid.go` and `uuid.go`. Those files use `_ENCODE` and
  `_DECODE`, which the root package never defines.
  - Their codecs take an alphabet as a parameter.
  - Their round trips are proved for every alphabet that behaves like the one
    in `internal/coder` (`Base32.Valid`). `Base32.StandardIsValid` proves that
    the real alphabet qualifies.

Notes on the code's behaviour:
- The GUID sequence numbers are the counter modulo `MAX_SEQ`, not modulo
  `MAX_SEQ + 1`. For `guid.go` the modulus is `_max_seq` = 0x1ffff.
- The SUID sequence is kept per group, not shared. Once a second's sequence
  is used up, `create` moves on to the next second instead of repeating an ID.
- `decodeFrom` and `decodeGUID` write each group over its character in the
  caller's slice as they go. On success the slice holds the 16 groups. On a
  bad character the characters before it have already been replaced. A
  wrong length leaves the slice untouched. `decodeUUID` never writes to it.
- `NewUUID` does not reject a group wider than 6 bits.
- Text order is not value order (`Coder.IndexOrderIsNotByteOrder`).

## Model

| member | source | states |
|---|---|---|
| Suid.MaximaFillWidths | suid.go:154-159 | each maximum is all ones in its width (7, 19, 34 and 3 bits); each field's unit is 2 to the power of the widths below it; sign + group + time + seq + host make exactly 64 bits |
| Suid.WidthsAreDigitCounts | suid.go:161-164 | the widths 19, 7 and 34 are the binary digit counts of MAX_SEQ, MAX_HOST and MAX_TIME, as Go derives them at start-up |
| Suid.FromInt | suid.go:47-50 | wrapping an int64 and reading it back with `Int` gives the same int64 |
| Suid.Int | suid.go:71-73 | reading the int64 back; its contract is in Suid.FromInt and Suid.IntFromInt: `Int` and `FromInt` are inverse both ways |
| Suid.IntFromInt | suid.go:71-73 | `FromInt(s.Int()) == s` for every SUID |
| Suid.Host | suid.go:81-83 | the host field of every int64 word, negative ones included, lies in [0, MAX_HOST] |
| Suid.Seq | suid.go:86-88 | the sequence field of every word lies in [0, MAX_SEQ] |
| Suid.Time | suid.go:91-93 | the time field of every word lies in [0, MAX_TIME] |
| Suid.Group | suid.go:96-98 | the group field of every word lies in [0, MAX_GROUP] |
| Suid.Verify | suid.go:114-116 | every range test in `Verify` always passes, so a SUID verifies exactly when its time is after 1745400000 |
| Suid.LowFieldsOfWord | suid.go:81-93 | a word built from host, sequence and time fields, with anything at all above bit 60, gives those three fields back |
| Suid.GroupOfWord | suid.go:96-98 | a word with a group number at bit 60 and a 60-bit rest is non-negative and gives that group back |
| Suid.Pack | suid.go:227 | the word `create` assembles; its contract is Suid.PackFields: the word gives back its host and sequence, its time modulo 2^34 and, for a time within 34 bits, its group |
| Suid.PackFields | suid.go:227 | the word `create` assembles gives back its host and sequence, and its time modulo 2^34; for a time within 34 bits it also gives back its group and is non-negative |
| Suid.NewBuilder | suid.go:195-197 | a fresh builder carries its group, both counters at zero and the current clock as its zero time, and is well formed when the group is valid |
| Suid.GetBuilder | suid.go:180-197 | a group outside [0, 7] is rejected; a known group gets its stored builder; an unknown group gets a fresh builder with zero counters at the current clock, which is also stored; no other group's entry changes; a well-formed registry stays well formed |
| Suid.NextSequence | suid.go:207-210 | the sequence advances by one modulo MAX_SEQ + 1, wrapping to 0 after MAX_SEQ |
| Suid.Advance | suid.go:203-226 | the builder stays well formed and keeps its group; a later clock resets the count and becomes the zero time; the same second increments the count; a count past MAX_SEQ restarts it and moves the zero time one second on; the zero time never decreases |
| Suid.Create | suid.go:200-228 | fails exactly when the clock is behind the zero time; otherwise returns the advanced builder and a SUID whose sequence is the new sequence and whose host is the host id; when the new zero time fits 34 bits, the SUID's group and time are the builder's and it is non-negative |
| Suid.New | suid.go:31-40 | more than one group argument is an error and no argument means group 0, with the registry unchanged; an invalid group is an error, registry unchanged; otherwise the group's builder is filed (a fresh one if absent), other entries are kept and the registry stays well formed; success exactly when the clock is not behind the builder's zero time, the stored builder then being advanced to the clock and the SUID carrying the host, its sequence and, within 34 bits, the group and zero time; on a backward clock the error comes back with the builder stamped with the clock reading |
| SuidUniqueness.SeqLag | suid.go:207-210 | the distance back from one sequence number to another lies in [0, MAX_SEQ], is zero only for equal numbers, and adding it to the older number gives the newer one modulo MAX_SEQ + 1 |
| SuidUniqueness.LagAfterStep | suid.go:207-210 | one sequence step moves every earlier sequence number that is not yet the furthest back one step further back |
| SuidUniqueness.AppendDistinct | suid.go:22 | appending an ID that differs from all earlier ones keeps all IDs distinct |
| SuidUniqueness.FreshBuilderInv | suid.go:195-197 | a fresh builder created at a second within 34 bits satisfies the uniqueness invariant with nothing issued |
| SuidUniqueness.SameSecondStep | suid.go:211-214 | an ID issued in the zero-time second before the count runs out differs from every earlier ID, and the invariant holds afterwards |
| SuidUniqueness.NewSecondStep | suid.go:215-225 | an ID issued at a later second differs from every earlier ID, and the invariant holds afterwards |
| SuidUniqueness.CreateKeepsInv | suid.go:200-228 | each successful `create` keeps the uniqueness invariant, with the new SUID appended to the issued ones |
| SuidUniqueness.Run | suid.go:200-228 | a run of `create` calls, stopping at the first failure, leaves a well-formed builder of the same group and issues at most one ID per clock reading |
| SuidUniqueness.RunKeepsInv | suid.go:200-228 | the uniqueness invariant survives any run of clock readings below MAX_TIME |
| SuidUniqueness.FreshBuilderNeverRepeats | suid.go:211-227 | a builder fed clock readings below MAX_TIME issues pairwise distinct SUIDs, all carrying its group and the host id, until the clock moves backwards |
| Words.IncU64 | guid/guid.go:48 | an atomic add on a uint64 counter gives one more, taken modulo 2^64 |
| Words.IncU32 | uuid.go:31 | an atomic add on a uint32 counter gives one more, taken modulo 2^32 |
| Words.Inc64 | guid.go:36 | an atomic add on an int64 counter gives the int64 congruent to one more modulo 2^64 |
| Words.TruncRem | guid.go:36 | Go's signed remainder lies strictly between -m and m, has the sign of the dividend, and differs from the dividend by a multiple of m |
| Words.ShiftByte | guid/guid.go:50-55 | `byte(x >> k)` is the byte of x's bits k..k+7, for negative x too; that byte times 2^k, plus x's bits below k, is x's bits below k+8 |
| Words.ByteMasks | guid/guid.go:91-96 | the byte masks and shifts the extractors use are remainders and quotients by powers of two |
| Words.Digit | guid/guid.go:96 | one more byte of digits below a multiple of a power gives the remainder modulo the larger power; this is what lets or'ed byte fields be read back as a number |
| Coder.EncodeIsSymbol | internal/coder/coder.go:14 | the alphabet byte at index x is 'a' + x for the first 26 indices and '1' + (x - 26) after that |
| Coder.EncodeIsAlphabet | internal/coder/coder.go:14 | `ENCODE` holds 32 pairwise distinct bytes spelling "abcdefghijklmnopqrstuvwxyz123456" |
| Coder.Table | internal/coder/coder.go:20-22 | the table after n rounds of `init`; its contract is in Coder.TableMapsSymbols and Coder.TableHoldsOnlySymbols: exactly the first n symbols are found, each at its own index |
| Coder.TableMapsSymbols | internal/coder/coder.go:20-22 | after n rounds of the `init` loop, each of the first n symbols maps to its index |
| Coder.TableHoldsOnlySymbols | internal/coder/coder.go:20-22 | after n rounds, a byte that is found at all is one of the first n symbols and maps to its own index |
| Coder.TableKeysAreBytes | internal/coder/coder.go:15 | every key of the table is a byte value |
| Coder.DecodeInvertsEncode | internal/coder/coder.go:18-23 | `DECODE[ENCODE[i]] == i` for every i < 32; every byte that decodes gives an index below 32 whose symbol is that byte, so the keys are exactly the 32 symbols |
| Coder.IndexOrderIsNotByteOrder | internal/coder/coder.go:14 | index 26 ('1') is a smaller byte than index 0 ('a'), so the text of an identifier does not sort like its value |
| Base32.StandardIsValid | internal/coder/coder.go:14-23 | the alphabet of `internal/coder` has 32 symbols, each decoding to its index, and decodes nothing else |
| Base32.GroupAt | guid/guid.go:156-172 | every text position of `encodeInto` indexes the alphabet with a 5-bit group |
| Base32.Slice | guid/guid.go:155-173 | slicing 10 bytes gives sixteen 5-bit groups |
| Base32.ByteAt | guid/guid.go:188-197 | byte j glued from the groups; its contract is in Base32.JoinSlice and Base32.SliceJoin: gluing inverts the slicing of `encodeGUID` |
| Base32.Join | guid/guid.go:188-197 | gluing the sixteen groups gives 10 bytes, and with Base32.JoinSlice and Base32.SliceJoin it inverts the slicing of `encodeGUID` |
| Base32.JoinSlice | guid/guid.go:187-197 | gluing the sixteen groups of 10 bytes back with `decodeFrom`'s expressions gives those 10 bytes |
| Base32.SliceJoin | guid/guid.go:155-173 | slicing the 10 bytes glued from sixteen 5-bit groups gives those groups back |
| Base32.Encode | guid/guid.go:155-173 | the text is 16 bytes, every one a symbol of the alphabet |
| Base32.Indices | guid/guid.go:180-186 | either every byte is found and the results are its groups, or the error is the first position whose byte the table lacks |
| Base32.IndicesFound | guid/guid.go:180-186 | when every byte is found with the given groups, the lookups succeed with exactly those groups |
| Base32.IndicesStop | guid/guid.go:181-184 | when byte k is the first byte the table lacks, the lookups fail with position k |
| Base32.IndicesOfEncode | guid/guid.go:155-186 | a valid alphabet's table maps the text of 10 bytes back to their 5-bit groups |
| Base32.EncodeOfIndices | guid/guid.go:155-197 | text a valid alphabet accepts is the encoding of the bytes its groups glue into |
| Base32.EncodeIsInAlphabet | guid/guid.go:155-173 | every byte of a valid alphabet's text is found by its table |
| Base32.Overwritten | guid/guid.go:181-185 | the slice after the loop stopped at position k: each byte before k replaced by its table entry, the bytes from k on unchanged |
| Base32.Decode | guid/guid.go:176-199 | fails on a length other than 16, with the buffer untouched; succeeds exactly when every byte is found, leaving each byte's group in the buffer; otherwise fails on the first unknown byte with the bytes before it already overwritten and the rest unchanged |
| Base32.DecodeInPlace | guid/guid.go:180-186 | Go's in-place lookup loop computes the same result and buffer as `Decode` |
| Base32.DecodeEncode | guid/guid.go:155-199 | decoding the text of any 10 bytes with a valid alphabet gives those bytes back |
| Base32.EncodeDecode | guid/guid.go:155-199 | any text that a valid alphabet decodes without error is the encoding of its result |
| Json.Quote | guid/guid.go:108-114 | 18 bytes from 16: a double quote, the text, a double quote |
| Json.FramedIsQuoted | guid/guid.go:118 | 18 bytes with quotes at 0 and 17 are the quoting of the 16 bytes between them |
| GuidV2.SeqNumber | guid/guid.go:48 | the sequence number lies in [0, 0x3ffe]; MAX_SEQ itself never occurs |
| GuidV2.SeqNumberStep | guid/guid.go:48 | below the wrap, each counter step moves the sequence one step on, modulo MAX_SEQ |
| GuidV2.SeqNumberWrap | guid/guid.go:48 | when the uint64 counter wraps, the sequence jumps from 255 to 0 |
| GuidV2.Group | guid/guid.go:80-82 | the group of any 10 bytes is at most MAX_GROUP |
| GuidV2.Seq | guid/guid.go:90-92 | the sequence of any 10 bytes is at most MAX_SEQ |
| GuidV2.Time | guid/guid.go:95-97 | the time of any 10 bytes is at most MAX_TIME |
| GuidV2.Verify | guid/guid.go:98-100 | group and sequence always pass, so a GUID verifies exactly when its time is at least 1770904743122773 |
| GuidV2.Pack | guid/guid.go:49-58 | the bytes `New` writes; its contract is GuidV2.PackRoundTrip: they read back as the group's low 4 bits, the time modulo 2^54, the sequence modulo 2^14 and the host |
| GuidV2.HostID | guid/guid.go:85-87 | the host id is byte 9; its contract is GuidV2.PackRoundTrip: it reads back the host `New` stored |
| GuidV2.PackRoundTrip | guid/guid.go:49-58 | the bytes `New` writes read back as the group's low 4 bits, the time modulo 2^54, the sequence modulo 2^14 and the host |
| GuidV2.PackBytes | guid/guid.go:49-56 | byte 0 carries the group above the time's top nibble; byte 7 carries two time bits above six sequence bits |
| GuidV2.TimeOfBytes | guid/guid.go:95-97 | `Time` of bytes holding the time's digits is the time modulo 2^54 |
| GuidV2.SeqOfBytes | guid/guid.go:90-92 | `Seq` of bytes holding the sequence's digits is the sequence modulo 2^14 |
| GuidV2.TimeDigits | guid/guid.go:49-56 | the digits `New` stores reassemble to the time modulo 2^54 |
| GuidV2.TopByte | guid/guid.go:49 | byte 0, formed as group<<4 or nibble, gives the group's low 4 bits in its top half and the nibble in its low half |
| GuidV2.LowByte | guid/guid.go:56 | byte 7, formed from two time bits and six sequence bits, gives the time bits in its top 2 bits and the sequence bits in its low 6 |
| GuidV2.New | guid/guid.go:39-60 | fails exactly when the given group exceeds 0x0f, leaving the counter alone; otherwise the counter goes one on and the GUID reads back the group (0 by default), the clock's low 54 bits (the clock itself within range), the new sequence number below MAX_SEQ and the host |
| GuidV2.Text | guid/guid.go:72-77 | the text is 16 bytes, each found in `DECODE` |
| GuidV2.DecodeFrom | guid/guid.go:176-199 | succeeds exactly on 16 alphabet bytes, giving the GUID whose text they are; on any error the receiver is unchanged; the error is the length exactly when the length is not 16, and otherwise the bad character |
| GuidV2.ParseText | guid/guid.go:67-77 | parsing the text of any GUID gives it back without error, whatever the receiver held |
| GuidV2.Parse | guid/guid.go:67-70 | on success the result's text is the input; on error the result is the zero GUID |
| GuidV2.MarshalJson | guid/guid.go:108-114 | the JSON is framed by quotes at 0 and 17 with the GUID's text between |
| GuidV2.UnmarshalJson | guid/guid.go:117-122 | the JSON error occurs exactly when the input is not 18 bytes framed by quotes, and then nothing changes; on any error the receiver is unchanged; on success the receiver's text is the 16 bytes between the quotes |
| GuidV2.UnmarshalMarshal | guid/guid.go:108-122 | unmarshalling the JSON of any GUID gives it back without error |
| GuidV2.MarshalUnmarshal | guid/guid.go:108-122 | JSON that unmarshals without error is exactly the JSON of the GUID it yields |
| RootGuid.SeqNumber | guid.go:36 | the sequence number lies in [0, 0x1fffe] for a non-negative counter and in (-0x1ffff, 0] once the counter has wrapped negative |
| RootGuid.Group | guid.go:65-67 | the group of any 10 bytes is at most 7 |
| RootGuid.HostID | guid.go:70-72 | the host of any 10 bytes is at most MAX_HOST |
| RootGuid.Seq | guid.go:75-77 | the sequence of any 10 bytes is below 2^17 |
| RootGuid.Time | guid.go:80-82 | the time of any 10 bytes is below 2^53 |
| RootGuid.Verify | guid.go:83-85 | group, host and sequence always pass (the 17-bit field is far below MAX_SEQ), so a GUID verifies exactly when its time is at least 1770904743122773 |
| RootGuid.Pack | guid.go:37-46 | the bytes `NewGUID` writes; its contract is RootGuid.PackRoundTrip: they read back as the group's low 3 bits, the time modulo 2^53, the host modulo 2^7 and, with the top bit free, the sequence modulo 2^17 |
| RootGuid.PackRoundTrip | guid.go:37-46 | the bytes `NewGUID` writes read back as the group's low 3 bits, the time modulo 2^53 and the host modulo 2^7; the sequence comes back modulo 2^17 when the host byte leaves the top bit free |
| RootGuid.PackBytes | guid.go:37-46 | byte 0 carries the group above the time's top five bits; byte 9 carries the sequence's low bit above the host's low seven bits |
| RootGuid.TopByte | guid.go:37 | byte 0, formed as group<<5 or the time's top five bits, gives the group's low 3 bits in its top 3 and the time bits in its low 5 |
| RootGuid.LowByte | guid.go:46 | byte 9, formed from the sequence bit and the host, gives the host's low 7 bits in its low 7 and, for a host below 0x80, the sequence bit in its top bit |
| RootGuid.TimeOfBytes | guid.go:80-82 | `Time` of bytes holding the time's digits is the time modulo 2^53 |
| RootGuid.SeqOfBytes | guid.go:75-77 | `Seq` of bytes holding the sequence's digits is the sequence modulo 2^17 |
| RootGuid.New | guid.go:27-48 | fails exactly when the given group exceeds 7, leaving the counter alone; otherwise the counter goes one on and the GUID reads back the group, the clock's low 53 bits and the host's low 7 bits, and, for a 7-bit host and a non-negative counter, the new sequence number |
| RootGuid.Encode | guid.go:149-169 | the text is 16 bytes of the alphabet |
| RootGuid.Decode | guid.go:172-194 | on an error the result is the zero GUID; succeeds exactly on 16 bytes all found in the table; the error is the length exactly when the length is not 16, and otherwise the bad character |
| RootGuid.DecodeEncode | guid.go:149-194 | for a valid alphabet, decoding the text of any GUID gives it back without error |
| RootGuid.EncodeDecode | guid.go:149-194 | for a valid alphabet, text that decodes without error is the encoding of its result |
| RootGuid.UnmarshalText | guid.go:115-122 | success exactly on 16 bytes that are all in the table, and then the slice holds each byte's group; the length error exactly on another length, with the slice untouched; any other error is a bad character; on any error the receiver is unchanged |
| RootGuid.MarshalJson | guid.go:93-99 | the JSON is framed by quotes at 0 and 17 with the GUID's text between |
| RootGuid.UnmarshalJson | guid.go:102-107 | the JSON error occurs exactly when the input is not 18 bytes framed by quotes, and then nothing changes; on any error the receiver is unchanged; on success the receiver is the decoding of the 16 bytes between |
| RootGuid.UnmarshalMarshal | guid.go:93-107 | for a valid alphabet, unmarshalling the JSON of any GUID gives it back without error |
| Uuid.Group | uuid.go:45-47 | the group of any 10 bytes is at most 0x3f |
| Uuid.HostID | uuid.go:48-50 | the host of any 10 bytes is one byte |
| Uuid.Seq | uuid.go:51-53 | the sequence of any 10 bytes fits 32 bits |
| Uuid.Time | uuid.go:54-56 | the time of any 10 bytes is below 2^34 |
| Uuid.Pack | uuid.go:25-36 | the bytes `NewUUID` writes; its contract is Uuid.PackRoundTrip: they read back as the group's low 6 bits, the time modulo 2^34, the whole sequence and the host's low byte |
| Uuid.PackRoundTrip | uuid.go:25-36 | the bytes `NewUUID` writes read back as the group's low 6 bits, the time modulo 2^34, the whole 32-bit sequence and the host's low byte |
| Uuid.PackTopByte | uuid.go:26 | byte 0 carries the group's low 6 bits above the time's bits 32 and 33 |
| Uuid.TopByte | uuid.go:26 | the group's low 6 bits survive the or with the time's two top bits, and so do those bits |
| Uuid.TimeOfBytes | uuid.go:54-56 | `Time` of bytes holding the time's digits is the time modulo 2^34 |
| Uuid.SeqOfBytes | uuid.go:51-53 | `Seq` of the four bytes of a 32-bit number is that number |
| Uuid.NewAsWritten | uuid.go:20-38 | the counter goes one on, wrapping at 2^32; the UUID reads back the group's low 6 bits, the time modulo 2^34, the new counter and the host's low byte |
| Uuid.NewAsWrittenLosesGroup | uuid.go:26 | group 64 is accepted and reads back as group 0 |
| Uuid.New | uuid.go:20-38 | with the group check added, fails exactly when the group exceeds 0x3f; otherwise it agrees with the code as written, and the group reads back exactly |
| Uuid.Encode | uuid.go:118-138 | the text is 16 bytes of the alphabet |
| Uuid.Find | uuid.go:145 | a plain map read gives zero or a value stored in the table, so a table of 5-bit groups only yields 5-bit groups |
| Uuid.DecodeAsWritten | uuid.go:141-157 | fails on the length alone, with the zero UUID; with a valid alphabet every byte it returns is below 32 |
| Uuid.DecodeAsWrittenBreaksRoundTrip | uuid.go:141-157 | any UUID with a byte of 32 or more does not survive its own text |
| Uuid.NewAsWrittenNeverParses | uuid.go:27 | every UUID made at a second from 2^29 up to 2^32 has byte 1 of 32 or more, so its text does not parse back to it |
| Uuid.Decode | uuid.go:141-157 | with lookups before gluing, as `decodeGUID` does, the result is the zero UUID on any error; the length error occurs exactly on a length other than 16; it succeeds exactly on 16 alphabet bytes |
| Uuid.DecodeEncode | uuid.go:118-157 | with the corrected decoder, decoding the text of any UUID gives it back without error |
| Uuid.EncodeDecode | uuid.go:141-157 | with the corrected decoder, text that decodes without error is the text of the UUID it decodes to |
| Uuid.UnmarshalText | uuid.go:84-91 | as written it fails exactly on a length other than 16, with the length error and the receiver unchanged; with an alphabet that behaves like the standard one every byte it accepts is below 32 |
| Uuid.MarshalJson | uuid.go:62-68 | the JSON is framed by quotes at 0 and 17 with the UUID's text between |
| Uuid.StandardIsQuoteFree | internal/coder/coder.go:14 | no symbol of the real alphabet is a double quote |
| Uuid.UnmarshalJsonAsWritten | uuid.go:71-76 | the JSON error occurs exactly when the input is not 18 bytes with quotes at 0 and 14, and it is the only error; on it the receiver is unchanged; otherwise the receiver is the as-written decoding of bytes 1..16 |
| Uuid.UnmarshalAsWrittenRefusesMarshal | uuid.go:72 | for any alphabet without a quote symbol, the check at index 14 rejects the JSON of every UUID |
| Uuid.UnmarshalJson | uuid.go:71-76 | with the closing quote checked at 17, the JSON error occurs exactly when the input is not framed by quotes; success exactly on framed input whose 16 inner bytes are all in the table, the receiver then being their decoding; otherwise the error is the decoder's and the receiver is unchanged |
| Uuid.UnmarshalMarshal | uuid.go:62-76 | with both corrections, unmarshalling the JSON of any UUID gives it back without error |

## Left out

- Host-id resolution (`getHostID` in `suid.go` and in `internal/coder`, and `getLocalIP`). It reads environment variables, the hostname and network interfaces, with a random fallback. The host id is a parameter: 7 bits for the SUID, as the masks of `getHostID` guarantee, and a full byte or `int64` for the 10-byte kinds.
- The wall clock, `time.Sleep` and the warning `Printf` in `create`, and `time.Now()` in the constructors. The clock reading is a parameter, and the wait for the next second does nothing.
- Mutexes and atomic counters. The model is sequential: each counter is passed in and handed back.
- `FromStr`, `FromHex`, `String`, `Hex` and SUID JSON, which are `strconv`/`encoding/json` calls; `Value`, `Scan` and `GormDataType`, which are database glue; `Description`, which is formatting. `Parse`/`ParseGUID`/`ParseUUID` only wrap the decoders; of these only `GuidV2.Parse` is modelled separately.
- `cmd/main.go`, the tests and the benchmarks.
- Suid.Create: requires a well-formed builder and a 7-bit host. These are the only states `getBuilder`, `create` and `getHostID` produce, and `GetBuilder` and `Advance` prove that they preserve them. The group and time of the SUID are stated only while the zero time fits 34 bits; beyond that, Go shifts the time's high bits into the group and sign bits.
- Suid.New: requires a well-formed registry and a 7-bit host, for the same reason. As for Suid.Create, the group and time of the SUID are stated only while the zero time fits 34 bits.
- Suid.Advance: requires a clock not behind the zero time, since `create` has failed before that point otherwise.
- SuidUniqueness.FreshBuilderNeverRepeats: proved for clock readings below MAX_TIME. Later seconds no longer fit the 34-bit field, so IDs can repeat there.
- Suid.PackFields: Go's `|` of the group with the shifted time is modelled as an or of the group with the time's bits 34..37. Bits above 63 are dropped. This covers every int64 time.
- GuidV2.DecodeFrom: its contract states only the length of the buffer it leaves behind. The buffer's contents are stated by `Base32.Decode`, whose buffer it returns.
- Uuid.Decode: the corrected decoder returns no buffer. `decodeUUID` as written never writes to its input.
- Uuid.Find: models `_DECODE` as a `map[byte]byte`, like the one in `internal/coder`. The root package never defines it.
- GuidV2.PackRoundTrip: proves only the direction from fields to bytes and back. The converse, that every GUID is the packing of its own fields, is not proved.
- The SUID word is modelled as an `int64`-ranged integer, not a 64-bit bit-vector. Every property above is stated on that integer.

## Findings

| source | as written | input that shows it | evidently intended | confidence | as-written member | corrected member |
|---|---|---|---|---|---|---|
| uuid.go:145-155 | `decodeUUID` glues the raw characters together with the decoder's shifts and only then looks the glued bytes up in `_DECODE`. A missing key yields 0 and no character is ever rejected. | any UUID with a byte of 32 or more, e.g. any `NewUUID` result at a second in [2^29, 2^32), whose byte 1 is `time >> 24` ≥ 32 | look up each character first, then glue the groups, as `decodeGUID` does, so that `ParseUUID(u.String()) == u` | high; not executed | Uuid.DecodeAsWritten (Uuid.DecodeAsWrittenBreaksRoundTrip, Uuid.NewAsWrittenNeverParses) | Uuid.Decode (Uuid.DecodeEncode) |
| uuid.go:72 | `UnmarshalJSON` tests `data[14]` for the closing quote | the JSON of any UUID, which has a symbol at index 14 and the quote at 17 | test `data[17]`, as the GUID kinds do | high; not executed | Uuid.UnmarshalJsonAsWritten (Uuid.UnmarshalAsWrittenRefusesMarshal) | Uuid.UnmarshalJson (Uuid.UnmarshalMarshal) |
| uuid.go:21-26 | `NewUUID` never checks the group; `g<<2` on a `uint8` drops its two top bits | group 0x40, which reads back as group 0 | refuse groups above `MAX_UUID_GROUP`, as `NewGUID` and `New` refuse theirs | medium; not executed | Uuid.NewAsWritten (Uuid.NewAsWrittenLosesGroup) | Uuid.New |
