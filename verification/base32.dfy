/** The 16-character text codec shared by every 10-byte identifier kind.

    A 10-byte identifier holds 80 bits, exactly sixteen 5-bit groups.  The
    encoder cuts the bytes into those groups most-significant bit first, by
    per-byte shifts that straddle byte boundaries, and maps each group through
    an alphabet; the decoder maps each character back to its group and glues
    the groups into bytes again.  `guid/guid.go`, `guid.go` and `uuid.go`
    spell out the very same slicing expressions, so they are written once
    here.  The alphabet is a parameter: `guid/guid.go` uses the one of
    `internal/coder`, while `guid.go` and `uuid.go` refer to an alphabet that
    the root package never defines. */
module Base32 {

  import opened Wrappers
  import Coder

  /** A 10-byte identifier (Go's `[10]byte`). */
  type Block = g: seq<bv8> | |g| == 10 witness [0, 0, 0, 0, 0, 0, 0, 0, 0, 0]

  /** An alphabet: the symbol string and its inverse table (keyed by byte value). */
  datatype Alphabet = Alphabet(encode: seq<bv8>, decode: map<int, bv8>)

  /** The alphabet behaves like the one `internal/coder` builds: 32 symbols,
      each decoding to its own index, and every decodable byte is a symbol. */
  ghost predicate Valid(a: Alphabet) {
    && |a.encode| == 32
    && (forall x: bv8 :: x < 32 ==> Coder.Lookup(a.decode, a.encode[x]) == Some(x))
    && (forall c: bv8 :: Coder.Lookup(a.decode, c).Some? ==>
          Coder.Lookup(a.decode, c).value < 32 && a.encode[Coder.Lookup(a.decode, c).value] == c)
  }

  /** The alphabet of `internal/coder`. */
  const STANDARD: Alphabet := Alphabet(Coder.ENCODE, Coder.DECODE)

  lemma StandardIsValid()
    ensures Valid(STANDARD)
  {
    Coder.EncodeIsSymbol();
    Coder.DecodeInvertsEncode();
  }

  /** True when every element of `d` is a 5-bit group. */
  predicate AllGroups(d: seq<bv8>) {
    forall i :: 0 <= i < |d| ==> d[i] < 32
  }

  /** The `i`-th 5-bit group of a 10-byte value, most significant first:
      the expression `encodeInto` passes to the alphabet at text position `i`. */
  function GroupAt(g: seq<bv8>, i: nat): (x: bv8)
    requires |g| == 10 && i < 16
    ensures x < 32
  {
    match i
    case 0 => g[0] >> 3
    case 1 => ((g[0] << 2) & 0x1f) | (g[1] >> 6)
    case 2 => (g[1] >> 1) & 0x1f
    case 3 => ((g[1] << 4) & 0x1f) | (g[2] >> 4)
    case 4 => ((g[2] << 1) & 0x1f) | (g[3] >> 7)
    case 5 => (g[3] >> 2) & 0x1f
    case 6 => ((g[3] << 3) & 0x1f) | (g[4] >> 5)
    case 7 => g[4] & 0x1f
    case 8 => g[5] >> 3
    case 9 => ((g[5] << 2) & 0x1f) | (g[6] >> 6)
    case 10 => (g[6] >> 1) & 0x1f
    case 11 => ((g[6] << 4) & 0x1f) | (g[7] >> 4)
    case 12 => ((g[7] << 1) & 0x1f) | (g[8] >> 7)
    case 13 => (g[8] >> 2) & 0x1f
    case 14 => ((g[8] << 3) & 0x1f) | (g[9] >> 5)
    case _ => g[9] & 0x1f
  }

  /** The sixteen 5-bit groups of a 10-byte value. */
  function Slice(g: seq<bv8>): (d: seq<bv8>)
    requires |g| == 10
    ensures |d| == 16 && AllGroups(d)
  {
    seq(16, i requires 0 <= i < 16 => GroupAt(g, i))
  }

  /** The `j`-th byte glued from sixteen 5-bit groups: the expression
      `decodeFrom` stores at byte `j`. */
  function ByteAt(d: seq<bv8>, j: nat): bv8
    requires |d| == 16 && j < 10
  {
    match j
    case 0 => (d[0] << 3) | (d[1] >> 2)
    case 1 => (d[1] << 6) | (d[2] << 1) | (d[3] >> 4)
    case 2 => (d[3] << 4) | (d[4] >> 1)
    case 3 => (d[4] << 7) | (d[5] << 2) | (d[6] >> 3)
    case 4 => (d[6] << 5) | d[7]
    case 5 => (d[8] << 3) | (d[9] >> 2)
    case 6 => (d[9] << 6) | (d[10] << 1) | (d[11] >> 4)
    case 7 => (d[11] << 4) | (d[12] >> 1)
    case 8 => (d[12] << 7) | (d[13] << 2) | (d[14] >> 3)
    case _ => (d[14] << 5) | d[15]
  }

  /** The 10 bytes glued back from sixteen 5-bit groups. */
  function Join(d: seq<bv8>): (g: seq<bv8>)
    requires |d| == 16
    ensures |g| == 10
  {
    seq(10, j requires 0 <= j < 10 => ByteAt(d, j))
  }

  /** Slicing and re-gluing a 10-byte value gives it back. */
  lemma JoinSlice(g: seq<bv8>)
    requires |g| == 10
    ensures Join(Slice(g)) == g
  {
    var d := Slice(g);
    forall j | 0 <= j < 10
      ensures Join(d)[j] == g[j]
    {
    }
  }

  /** Gluing and re-slicing sixteen 5-bit groups gives them back: no bit is
      lost or duplicated, since 16 x 5 = 80 = 10 x 8. */
  lemma SliceJoin(d: seq<bv8>)
    requires |d| == 16 && AllGroups(d)
    ensures Slice(Join(d)) == d
  {
    var g := Join(d);
    forall i | 0 <= i < 16
      ensures Slice(g)[i] == d[i]
    {
    }
  }

  /** The text of a 10-byte value: each 5-bit group through the alphabet. */
  function Encode(a: Alphabet, g: seq<bv8>): (s: seq<bv8>)
    requires |a.encode| == 32 && |g| == 10
    ensures |s| == 16
    ensures forall i :: 0 <= i < 16 ==> s[i] in a.encode
  {
    var d := Slice(g);
    seq(16, i requires 0 <= i < 16 => a.encode[d[i]])
  }

  /** The per-character table lookups of a decoder: either every byte of `s`
      is found, giving its group, or the error names the first byte that is
      not. */
  function Indices(table: map<int, bv8>, s: seq<bv8>): (r: Result<seq<bv8>, nat>)
    ensures r.Ok? ==> (|r.value| == |s| &&
                       forall i :: 0 <= i < |s| ==> Coder.Lookup(table, s[i]) == Some(r.value[i]))
    ensures r.Err? ==> (r.error < |s| && Coder.Lookup(table, s[r.error]).None? &&
                        forall i :: 0 <= i < r.error ==> Coder.Lookup(table, s[i]).Some?)
  {
    if |s| == 0 then Ok([])
    else match Coder.Lookup(table, s[0])
      case None => Err(0)
      case Some(x) =>
        match Indices(table, s[1..])
        case Ok(rest) => Ok([x] + rest)
        case Err(k) => Err(k + 1)
  }

  /** The lookups succeed, giving `d`, when every byte of `s` is found
      with the matching element of `d`. */
  lemma {:induction false} IndicesFound(table: map<int, bv8>, s: seq<bv8>, d: seq<bv8>)
    requires |d| == |s|
    requires forall i :: 0 <= i < |s| ==> Coder.Lookup(table, s[i]) == Some(d[i])
    ensures Indices(table, s) == Ok(d)
  {
    if |s| > 0 {
      assert Coder.Lookup(table, s[0]) == Some(d[0]);
      IndicesFound(table, s[1..], d[1..]);
      assert [d[0]] + d[1..] == d;
    }
  }

  /** Round trip: the table of a valid alphabet maps the text of `g` back to
      the groups of `g`. */
  lemma IndicesOfEncode(a: Alphabet, g: seq<bv8>)
    requires Valid(a) && |g| == 10
    ensures Indices(a.decode, Encode(a, g)) == Ok(Slice(g))
  {
    var s := Encode(a, g);
    var d := Slice(g);
    forall i | 0 <= i < 16
      ensures Coder.Lookup(a.decode, s[i]) == Some(d[i])
    {
      assert s[i] == a.encode[d[i]];
    }
    IndicesFound(a.decode, s, d);
  }

  /** Reverse round trip: text that the table of a valid alphabet accepts is
      the encoding of the value its groups glue into. */
  lemma EncodeOfIndices(a: Alphabet, s: seq<bv8>)
    requires Valid(a) && |s| == 16 && Indices(a.decode, s).Ok?
    ensures AllGroups(Indices(a.decode, s).value)
    ensures Encode(a, Join(Indices(a.decode, s).value)) == s
  {
    var d := Indices(a.decode, s).value;
    forall i | 0 <= i < 16
      ensures d[i] < 32 && a.encode[d[i]] == s[i]
    {
      assert Coder.Lookup(a.decode, s[i]) == Some(d[i]);
    }
    SliceJoin(d);
    var e := Encode(a, Join(d));
    forall i | 0 <= i < 16
      ensures e[i] == s[i]
    {
      assert e[i] == a.encode[Slice(Join(d))[i]];
    }
  }

  /** Every byte of a valid alphabet's text is accepted by its table. */
  lemma EncodeIsInAlphabet(a: Alphabet, g: seq<bv8>)
    requires Valid(a) && |g| == 10
    ensures forall i :: 0 <= i < 16 ==> Coder.Lookup(a.decode, Encode(a, g)[i]).Some?
  {
    IndicesOfEncode(a, g);
  }

  /** What a decoder leaves behind: the identifier or the failure, and its
      input buffer, whose bytes the lookup loop overwrites in place with
      their 5-bit groups. */
  datatype Decoding = Decoding(value: Result<Block, Error>, buffer: seq<bv8>)

  /** The buffer after the lookup loop stopped at position `k`: groups
      before it, the original bytes from it on. */
  function Overwritten(table: map<int, bv8>, d: seq<bv8>, k: nat): (b: seq<bv8>)
    requires k <= |d|
    requires forall i :: 0 <= i < k ==> Coder.Lookup(table, d[i]).Some?
    ensures |b| == |d|
    ensures forall i :: 0 <= i < k ==> Coder.Lookup(table, d[i]) == Some(b[i])
    ensures b[k..] == d[k..]
  {
    seq(|d|, i requires 0 <= i < |d| => if i < k then Coder.Lookup(table, d[i]).value else d[i])
  }

  /** The decoder of `decodeFrom` and `decodeGUID`: a length check, then
      every byte replaced by its group, stopping at the first byte the table
      lacks, then the groups glued into 10 bytes. */
  function Decode(table: map<int, bv8>, d: seq<bv8>): (r: Decoding)
    ensures |r.buffer| == |d|
    ensures r.value == Err(InvalidLength) <==> |d| != 16
    ensures |d| != 16 ==> r.buffer == d
    ensures r.value.Ok? <==> |d| == 16 && forall i :: 0 <= i < 16 ==> Coder.Lookup(table, d[i]).Some?
    ensures r.value.Ok? ==> forall i :: 0 <= i < 16 ==> Coder.Lookup(table, d[i]) == Some(r.buffer[i])
    ensures r.value.Err? ==> r.value.error == InvalidLength || r.value.error.InvalidCharacter?
    ensures r.value.Err? && |d| == 16 ==>
      && Indices(table, d).Err?
      && r.value.error == InvalidCharacter(d[Indices(table, d).error])
      && (forall i :: 0 <= i < Indices(table, d).error ==> Coder.Lookup(table, d[i]) == Some(r.buffer[i]))
      && r.buffer[Indices(table, d).error..] == d[Indices(table, d).error..]
  {
    if |d| != 16 then Decoding(Err(InvalidLength), d)
    else match Indices(table, d)
      case Ok(groups) => Decoding(Ok(Join(groups)), groups)
      case Err(k) => Decoding(Err(InvalidCharacter(d[k])), Overwritten(table, d, k))
  }

  /** Go's lookup loop, which writes each group over its byte in place and
      returns at the first byte the table lacks, computes `Decode`. */
  method DecodeInPlace(table: map<int, bv8>, d: seq<bv8>) returns (r: Decoding)
    ensures r == Decode(table, d)
  {
    if |d| != 16 {
      return Decoding(Err(InvalidLength), d);
    }
    var buffer := d;
    var i := 0;
    while i < |buffer|
      invariant 0 <= i <= |buffer| == 16
      invariant forall j :: 0 <= j < i ==> Coder.Lookup(table, d[j]) == Some(buffer[j])
      invariant buffer[i..] == d[i..]
    {
      match Coder.Lookup(table, buffer[i]) {
        case None =>
          assert buffer[i] == d[i];
          IndicesStop(table, d, i);
          assert buffer == Overwritten(table, d, i);
          return Decoding(Err(InvalidCharacter(buffer[i])), buffer);
        case Some(x) =>
          assert buffer[i] == d[i];
          buffer := buffer[i := x];
      }
      i := i + 1;
    }
    IndicesFound(table, d, buffer);
    r := Decoding(Ok(Join(buffer)), buffer);
  }

  /** The lookups stop at the first byte the table lacks. */
  lemma {:induction false} IndicesStop(table: map<int, bv8>, s: seq<bv8>, k: nat)
    requires k < |s| && Coder.Lookup(table, s[k]).None?
    requires forall i :: 0 <= i < k ==> Coder.Lookup(table, s[i]).Some?
    ensures Indices(table, s) == Err(k)
  {
    if k > 0 {
      IndicesStop(table, s[1..], k - 1);
    }
  }

  /** Round trip: decoding the text of a 10-byte value with a valid
      alphabet gives the value back. */
  lemma DecodeEncode(a: Alphabet, g: Block)
    requires Valid(a)
    ensures Decode(a.decode, Encode(a, g)).value == Ok(g)
  {
    IndicesOfEncode(a, g);
    JoinSlice(g);
  }

  /** Reverse round trip: whatever text a valid alphabet's table accepts is
      the encoding of the value it decodes to. */
  lemma EncodeDecode(a: Alphabet, s: seq<bv8>)
    requires Valid(a) && Decode(a.decode, s).value.Ok?
    ensures Encode(a, Decode(a.decode, s).value.value) == s
  {
    EncodeOfIndices(a, s);
  }
}
