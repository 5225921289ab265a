/** The custom base32 alphabet of `internal/coder`: the 32-symbol `ENCODE`
    string and the inverse `DECODE` table that `init` fills in.  Bytes are
    `bv8`; an alphabet index is a `bv8` below 32, the type Go indexes with. */
module Coder {

  import opened Wrappers

  /** "abcdefghijklmnopqrstuvwxyz123456" as bytes: 'a'..'z' then '1'..'6'. */
  const ENCODE: seq<bv8> := [
    0x61, 0x62, 0x63, 0x64, 0x65, 0x66, 0x67, 0x68, 0x69, 0x6a, 0x6b, 0x6c, 0x6d,
    0x6e, 0x6f, 0x70, 0x71, 0x72, 0x73, 0x74, 0x75, 0x76, 0x77, 0x78, 0x79, 0x7a,
    0x31, 0x32, 0x33, 0x34, 0x35, 0x36]

  /** The same alphabet as text, for stating that the bytes spell it. */
  const ENCODE_TEXT: string := "abcdefghijklmnopqrstuvwxyz123456"

  /** The byte at alphabet index `x`, by arithmetic: 26 lower-case letters from
      'a', then six digits from '1'.  Used to reason about `ENCODE` without
      unfolding the literal. */
  function Symbol(x: bv8): bv8
    requires x < 32
  {
    if x < 26 then 0x61 + x else 0x31 + (x - 26)
  }

  lemma EncodeIsSymbol()
    ensures |ENCODE| == 32
    ensures forall x: bv8 :: x < 32 ==> ENCODE[x] == Symbol(x)
  {
  }

  /** `ENCODE` holds exactly 32 bytes, pairwise distinct, spelling the
      alphabet text. */
  lemma EncodeIsAlphabet()
    ensures |ENCODE| == |ENCODE_TEXT| == 32
    ensures forall x: bv8 :: x < 32 ==> ENCODE[x] as int == ENCODE_TEXT[x] as int
    ensures forall x: bv8, y: bv8 :: x < 32 && y < 32 && x != y ==> ENCODE[x] != ENCODE[y]
  {
    EncodeIsSymbol();
  }

  /** The table after the first `n` rounds of the `init` loop
      `DECODE[ENCODE[i]] = byte(i)`.  Go's `map[byte]byte` is keyed here by
      the byte's numeric value. */
  function Table(n: bv8): (t: map<int, bv8>)
    requires n <= 32
    decreases n
  {
    if n == 0 then map[] else Table(n - 1)[ENCODE[n - 1] as int := n - 1]
  }

  /** The table as `init` leaves it: all 32 rounds. */
  const DECODE: map<int, bv8> := Table(32)

  /** Go's comma-ok read `idx, ok := table[c]`. */
  function Lookup(table: map<int, bv8>, c: bv8): (r: Option<bv8>)
    ensures r.Some? <==> c as int in table
  {
    if c as int in table then Some(table[c as int]) else None
  }

  /** After `n` rounds every one of the first `n` symbols maps to its index. */
  lemma {:induction false} TableMapsSymbols(n: bv8)
    requires n <= 32
    ensures forall x: bv8 :: x < n ==> Lookup(Table(n), ENCODE[x]) == Some(x)
  {
    if n > 0 {
      EncodeIsSymbol();
      TableMapsSymbols(n - 1);
      forall x: bv8 | x < n - 1
        ensures Lookup(Table(n), ENCODE[x]) == Some(x)
      {
        assert ENCODE[x] != ENCODE[n - 1];
        assert Lookup(Table(n - 1), ENCODE[x]) == Some(x);
      }
    }
  }

  /** After `n` rounds a byte that is found at all is one of the first `n`
      symbols, found at its own index. */
  lemma {:induction false} TableHoldsOnlySymbols(n: bv8, c: bv8)
    requires n <= 32
    requires Lookup(Table(n), c).Some?
    ensures Lookup(Table(n), c).value < n && ENCODE[Lookup(Table(n), c).value] == c
  {
    if c != ENCODE[n - 1] {
      assert c as int != ENCODE[n - 1] as int;
      TableHoldsOnlySymbols(n - 1, c);
    }
  }

  /** Every key of the table is a byte value. */
  lemma {:induction false} TableKeysAreBytes(n: bv8)
    requires n <= 32
    ensures forall k :: k in Table(n) ==> 0 <= k < 256
  {
    if n > 0 {
      TableKeysAreBytes(n - 1);
    }
  }

  /** `DECODE` inverts `ENCODE` in both directions: every symbol decodes to
      its index, and every byte that decodes at all decodes to an index below
      32 whose symbol is that byte.  So the keys are exactly the 32 symbols. */
  lemma DecodeInvertsEncode()
    ensures forall x: bv8 :: x < 32 ==> Lookup(DECODE, ENCODE[x]) == Some(x)
    ensures forall c: bv8 :: Lookup(DECODE, c).Some? ==>
              Lookup(DECODE, c).value < 32 && ENCODE[Lookup(DECODE, c).value] == c
    ensures forall k :: k in DECODE ==> 0 <= k < 256
  {
    TableMapsSymbols(32);
    TableKeysAreBytes(32);
    forall c: bv8 | Lookup(DECODE, c).Some?
      ensures Lookup(DECODE, c).value < 32 && ENCODE[Lookup(DECODE, c).value] == c
    {
      TableHoldsOnlySymbols(32, c);
    }
  }

  /** Index order is not byte order: index 26 ('1') is a smaller byte than
      index 0 ('a'), so the text of an identifier does not sort like its
      value. */
  lemma IndexOrderIsNotByteOrder()
    ensures ENCODE[26] < ENCODE[0]
    ensures exists x: bv8, y: bv8 :: x < y < 32 && ENCODE[y] < ENCODE[x]
  {
    assert ENCODE[0 as bv8] == 0x61 && ENCODE[26 as bv8] == 0x31;
  }
}
