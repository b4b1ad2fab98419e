/** `HashCode.ForArray`: the 31-multiplier hash of an array of unsigned words, folded in
    unchecked 32-bit arithmetic and returned as a signed int. */
module HashCode {
  import opened FixedWidth

  /** One step of the hash: `(h * 31) ^ v` with the product wrapping at 2^32. */
  function Step(h: bv32, v: bv32): bv32
  {
    (h * 31) ^ v
  }

  /** The hash of `words` continued from the running value `seed`, folding from the
      left. */
  function FoldFrom(seed: bv32, words: seq<bv32>): bv32
  {
    if |words| == 0 then seed else Step(FoldFrom(seed, words[..|words| - 1]), words[|words| - 1])
  }

  /** The unsigned hash value of `words`, starting from 0. */
  function Hash(words: seq<bv32>): bv32
  {
    FoldFrom(0, words)
  }

  /** `ForArray(uint[])`: folds the words in order and reinterprets the unsigned result as
      a signed int, without an overflow error. */
  method ForArray(words: array<bv32>) returns (r: int32)
    ensures r == AsInt32(Hash(words[..]))
    ensures r % 0x1_0000_0000 == Hash(words[..]) as int
  {
    var result: bv32 := 0;
    var i := 0;
    while i < words.Length
      invariant 0 <= i <= words.Length
      invariant result == Hash(words[..i])
    {
      assert words[..i + 1] == words[..i] + [words[i]];
      HashSnoc(words[..i], words[i]);
      result := Step(result, words[i]);
      i := i + 1;
    }
    assert words[..] == words[..words.Length];
    r := AsInt32(result);
    AsInt32Wraps(result);
  }

  /** The hash of the empty array is 0. */
  lemma HashOfEmpty()
    ensures Hash([]) == 0
  {
  }

  /** The hash of a single word is that word: 0 * 31 contributes nothing. */
  lemma HashOfSingle(v: bv32)
    ensures Hash([v]) == v
    ensures AsInt32(Hash([v])) % 0x1_0000_0000 == v as int
  {
    assert [v][..0] == [];
    assert FoldFrom(0, [v]) == Step(FoldFrom(0, []), v);
    assert (0 as bv32) * 31 == 0;
    AsInt32Wraps(v);
  }

  /** Hashing a concatenation is hashing the second part from the hash of the first, so an
      array can be hashed piece by piece. */
  lemma {:induction false} FoldAppend(seed: bv32, a: seq<bv32>, b: seq<bv32>)
    ensures FoldFrom(seed, a + b) == FoldFrom(FoldFrom(seed, a), b)
  {
    if |b| == 0 {
      assert a + b == a;
    } else {
      assert (a + b)[..|a + b| - 1] == a + b[..|b| - 1];
      FoldAppend(seed, a, b[..|b| - 1]);
    }
  }

  /** Appending one word to the array applies one more step to the previous hash. */
  lemma HashSnoc(words: seq<bv32>, v: bv32)
    ensures Hash(words + [v]) == Step(Hash(words), v)
  {
    assert (words + [v])[..|words|] == words;
  }
}
