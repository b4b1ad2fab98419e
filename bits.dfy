/** `Bits.GetBits`: a byte array read as consecutive little-endian 32-bit words. */
module Bits {
  import opened FixedWidth

  /** The little-endian words of `s`, four bytes each; fewer than four trailing bytes
      make no word. */
  function Words(s: seq<byte>): (r: seq<bv32>)
    ensures |r| == |s| / 4
    decreases |s|
  {
    if |s| < 4 then [] else [LittleEndian(s[0], s[1], s[2], s[3])] + Words(s[4..])
  }

  /** The word that starts at byte `4 * k`. */
  function WordAt(s: seq<byte>, k: nat): bv32
    requires 4 * k + 4 <= |s|
  {
    LittleEndian(s[4 * k], s[4 * k + 1], s[4 * k + 2], s[4 * k + 3])
  }

  /** Word `k` of `Words(s)` is made of bytes `4k` to `4k + 3`. */
  lemma {:induction false} WordsAt(s: seq<byte>, k: nat)
    requires k < |s| / 4
    ensures Words(s)[k] == WordAt(s, k)
    decreases k
  {
    if k > 0 {
      WordsAt(s[4..], k - 1);
      assert WordAt(s[4..], k - 1) == WordAt(s, k);
    }
  }

  /** `GetBits(bytes)`: a new array of `bytes.Length / 4` words, word `i` made of bytes
      `4i` to `4i + 3`, least significant first. The C# method pins `&bytes[0]`, which
      fails on an empty array. */
  method GetBits(bytes: array<byte>) returns (result: array<bv32>)
    requires bytes.Length > 0
    ensures fresh(result)
    ensures result[..] == Words(bytes[..])
  {
    var blocks := bytes.Length / 4;
    result := new bv32[blocks];
    var curBlock := 0;
    while curBlock < blocks
      invariant 0 <= curBlock <= blocks
      invariant forall k :: 0 <= k < curBlock ==> result[k] == WordAt(bytes[..], k)
    {
      result[curBlock] := LittleEndian(bytes[4 * curBlock], bytes[4 * curBlock + 1],
                                       bytes[4 * curBlock + 2], bytes[4 * curBlock + 3]);
      curBlock := curBlock + 1;
    }
    forall k | 0 <= k < blocks
      ensures result[k] == Words(bytes[..])[k]
    {
      WordsAt(bytes[..], k);
    }
  }

  /** The bytes of `ws`, each word least significant byte first. */
  function BytesOf(ws: seq<bv32>): (r: seq<byte>)
    ensures |r| == 4 * |ws|
  {
    if ws == [] then [] else LittleEndianBytes(ws[0]) + BytesOf(ws[1..])
  }

  /** Reading words back from their bytes gives the same words, whatever fewer than four
      bytes follow them. */
  lemma {:induction false} WordsOfBytes(ws: seq<bv32>, tail: seq<byte>)
    requires |tail| < 4
    ensures Words(BytesOf(ws) + tail) == ws
  {
    if ws == [] {
      assert BytesOf(ws) + tail == tail;
    } else {
      var s := BytesOf(ws) + tail;
      var b := LittleEndianBytes(ws[0]);
      assert s == b + (BytesOf(ws[1..]) + tail);
      assert s[4..] == BytesOf(ws[1..]) + tail;
      WordsOfBytes(ws[1..], tail);
    }
  }

  /** Trailing bytes that do not fill a word are ignored. */
  lemma {:induction false} WordsIgnoreTail(s: seq<byte>, tail: seq<byte>)
    requires |s| % 4 == 0 && |tail| < 4
    ensures Words(s + tail) == Words(s)
    decreases |s|
  {
    if |s| >= 4 {
      assert (s + tail)[4..] == s[4..] + tail;
      WordsIgnoreTail(s[4..], tail);
    } else {
      assert |s| == 0;
    }
  }
}
