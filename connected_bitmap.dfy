// The liveness bitmap shared by the radio and the server processes: light
// `id` owns bit `id % 4` of 32-bit word `id / 4` (the word size in bytes is
// used as the number of bits per word, so only the four low bits of each
// word are ever used and ids 0..255 spread over words 0..63).
//
// A `uint32_t` word is represented by the set of positions of its one bits:
// `w |= 1 << b` adds `b`, `w &= ~(1 << b)` removes it, `(w & (1 << b)) != 0`
// tests membership and `w != 0` tests for the empty set.
module ConnectedBitmap {
  import opened Common

  /** Bits in a `uint32_t`. */
  const WORD_BITS: nat := 32

  /** `sizeof(uint32_t)`, the divisor the index and bit computations use. */
  const WORD_SIZE: nat := 4

  /** Words that ids 0..255 can reach. */
  const USED_WORDS: nat := NUM_IDS / WORD_SIZE

  /** A 32-bit word as the set of its one bits. */
  type Word = w: set<nat> | forall b | b in w :: b < WORD_BITS witness {}

  function Index(id: byte): nat { id / WORD_SIZE }

  function BitOf(id: byte): nat { id % WORD_SIZE }

  /** isLightConnected: whether the id's bit is set. */
  predicate IsLightConnected(words: seq<Word>, id: byte)
    requires Index(id) < |words|
  {
    BitOf(id) in words[Index(id)]
  }

  /** `w |= 1 << bit` or `w &= ~(1 << bit)`. */
  function SetBit(w: Word, bit: nat, on: bool): (r: Word)
    requires bit < WORD_BITS
    ensures bit in r <==> on
    ensures forall b :: b != bit ==> (b in r <==> b in w)
  {
    if on then w + {bit} else w - {bit}
  }

  /** setLightConnected on the words. */
  function SetLightConnected(words: seq<Word>, id: byte, on: bool): (r: seq<Word>)
    requires Index(id) < |words|
    ensures |r| == |words|
    ensures forall j :: 0 <= j < |words| && j != Index(id) ==> r[j] == words[j]
  {
    words[Index(id) := SetBit(words[Index(id)], BitOf(id), on)]
  }

  /** Two ids never share a bit. */
  lemma DistinctIdsDistinctBits(a: byte, b: byte)
    requires a != b
    ensures Index(a) != Index(b) || BitOf(a) != BitOf(b)
  {
  }

  /** Reading back what was set gives the new state; no other bit of the word moves. */
  lemma SetThenGet(words: seq<Word>, id: byte, on: bool)
    requires Index(id) < |words|
    ensures IsLightConnected(SetLightConnected(words, id, on), id) == on
    ensures forall b :: b != BitOf(id) ==>
      (b in SetLightConnected(words, id, on)[Index(id)] <==> b in words[Index(id)])
  {
  }

  /** Every other id keeps its state. */
  lemma SetKeepsOthers(words: seq<Word>, id: byte, on: bool, other: byte)
    requires Index(id) < |words| && Index(other) < |words| && other != id
    ensures IsLightConnected(SetLightConnected(words, id, on), other) == IsLightConnected(words, other)
  {
    DistinctIdsDistinctBits(id, other);
  }

  /** Setting an id twice to the same state is the same as setting it once. */
  lemma SetIdempotent(words: seq<Word>, id: byte, on: bool)
    requires Index(id) < |words|
    ensures SetLightConnected(SetLightConnected(words, id, on), id, on) == SetLightConnected(words, id, on)
  {
    var once := SetLightConnected(words, id, on);
    assert SetBit(once[Index(id)], BitOf(id), on) == once[Index(id)];
  }

  /** Setting two different ids gives the same words in either order. */
  lemma SetCommute(words: seq<Word>, a: byte, x: bool, b: byte, y: bool)
    requires Index(a) < |words| && Index(b) < |words| && a != b
    ensures SetLightConnected(SetLightConnected(words, a, x), b, y)
         == SetLightConnected(SetLightConnected(words, b, y), a, x)
  {
    var i, j := Index(a), Index(b);
    DistinctIdsDistinctBits(a, b);
    if i == j {
      var w := words[i];
      assert SetBit(SetBit(w, BitOf(a), x), BitOf(b), y) == SetBit(SetBit(w, BitOf(b), y), BitOf(a), x);
    } else {
      var wa, wb := SetBit(words[i], BitOf(a), x), SetBit(words[j], BitOf(b), y);
      assert words[i := wa][j := wb] == words[j := wb][i := wa];
    }
  }

  /** Ids 0..255 touch only the four low bits of words 0..63. */
  lemma OnlyLowBitsUsed(id: byte)
    ensures Index(id) < USED_WORDS && BitOf(id) < WORD_SIZE
  {
  }
}
