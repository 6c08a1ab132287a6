/** The bitmaps one bit a node that other tasks read without a lock. */
module Bitmap {
  type Word = w: seq<bool> | |w| == 32 witness seq(32, _ => false)
  type Words = s: seq<Word> | |s| == 4 witness seq(4, _ => seq(32, _ => false))

  predicate HasBit(words: Words, nodeId: nat)
    requires nodeId < 128
  {
    words[nodeId / 32][nodeId % 32]
  }

  function WithBit(words: Words, nodeId: nat): Words
    requires nodeId < 128
  {
    words[nodeId / 32 := words[nodeId / 32][nodeId % 32 := true]]
  }

  lemma BitSet(words: Words, nodeId: nat, n: nat)
    requires nodeId < 128 && n < 128
    ensures HasBit(WithBit(words, nodeId), n) <==> n == nodeId || HasBit(words, n)
  {
    if n / 32 == nodeId / 32 && n % 32 == nodeId % 32 {
      assert n == 32 * (n / 32) + n % 32 && nodeId == 32 * (nodeId / 32) + nodeId % 32;
    }
  }
}
