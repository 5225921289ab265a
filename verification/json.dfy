/** The JSON form shared by every 10-byte identifier kind: the 16-byte text
    between two double quotes, 18 bytes in all. */
module Json {

  const QUOTE: bv8 := 0x22

  /** `MarshalJSON`'s framing: a quote, the text, a quote. */
  function Quote(text: seq<bv8>): (j: seq<bv8>)
    ensures |j| == |text| + 2 && j[0] == QUOTE && j[|j| - 1] == QUOTE
    ensures j[1..|j| - 1] == text
  {
    [QUOTE] + text + [QUOTE]
  }

  /** What `UnmarshalJSON` accepts as framing: 18 bytes with a double quote
      first and last. */
  predicate Framed(data: seq<bv8>) {
    |data| == 18 && data[0] == QUOTE && data[17] == QUOTE
  }

  /** Framed bytes are exactly the quoted 16 bytes between the quotes. */
  lemma FramedIsQuoted(data: seq<bv8>)
    requires Framed(data)
    ensures Quote(data[1..17]) == data
  {
    var j := Quote(data[1..17]);
    forall i | 0 <= i < 18
      ensures j[i] == data[i]
    {
      if 1 <= i < 17 {
        assert j[i] == j[1..17][i - 1];
      }
    }
  }
}
