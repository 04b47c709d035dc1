/** The Huffman coder with its two losses repaired, beside the coder as
    written: `encode` also pushes the last, partly filled byte, the archive
    records how many bits are meaningful, and a tree that is a single leaf
    gives its character the code `0` instead of the empty code. With both
    repairs, decompressing a compressed text gives back the whole text. */
module HuffmanRepair {
  import opened HuffmanTree
  import opened HuffmanCode

  // ---------------------------------------------------------------------
  // Packing every bit

  /** The bytes needed for n bits when the last group is kept. */
  function Groups(n: nat): (k: nat)
    ensures n <= 8 * k < n + 8
  {
    (n + 7) / 8
  }

  /** The bits, filled up with zeros to a whole number of bytes. */
  function Padded(bits: string): (p: string)
    ensures |p| == 8 * Groups(|bits|) && p[..|bits|] == bits
  {
    bits + Zeros(8 * Groups(|bits|) - |bits|)
  }

  /** Every group of eight bits as a byte, most significant bit first, the
      last group filled up with zeros. */
  function PackAll(bits: string): (packed: seq<Byte>)
    ensures |packed| == Groups(|bits|)
  {
    seq(Groups(|bits|), k requires 0 <= k < Groups(|bits|) => ByteOf(Padded(bits)[8 * k..8 * k + 8]))
  }

  /** A byte with z zeros shifted in, one at a time. */
  function ShiftedZeros(b: Byte, z: nat): Byte
  {
    if z == 0 then b else ShiftIn(ShiftedZeros(b, z - 1), '0')
  }

  /** Zeros after some bits shift the byte they make. */
  lemma {:induction false} ByteOfZeros(w: string, z: nat)
    ensures ByteOf(w + Zeros(z)) == ShiftedZeros(ByteOf(w), z)
  {
    if z == 0 {
      assert w + Zeros(0) == w;
    } else {
      ByteOfZeros(w, z - 1);
      ZerosSnoc(w, z);
      ByteOfSnoc(w + Zeros(z - 1), '0');
    }
  }

  lemma ZerosSnoc(w: string, z: nat)
    requires z >= 1
    ensures w + Zeros(z) == (w + Zeros(z - 1)) + ['0']
  {
  }

  /** Shifting in z zeros is a left shift by z. */
  lemma ShiftedZerosShift(b: Byte, z: nat)
    requires z <= 8
    ensures ShiftedZeros(b, z) == b << z
  {
    if z == 0 {
    } else if z == 1 {
    } else if z == 2 {
    } else if z == 3 {
    } else if z == 4 {
    } else if z == 5 {
    } else if z == 6 {
    } else if z == 7 {
    } else {
      assert ShiftedZeros(b, 8) == ShiftIn(ShiftIn(ShiftIn(ShiftIn(ShiftIn(ShiftIn(ShiftIn(ShiftIn(b, '0'), '0'), '0'), '0'), '0'), '0'), '0'), '0');
    }
  }

  lemma GroupsAfter(p: nat, cursor: nat)
    requires 1 <= cursor <= 8
    ensures Groups(8 * p + cursor) == p + 1
  {
  }

  /** A complete group of eight bits is packed as it is. */
  lemma PackAllFull(done: string, k: nat)
    requires 8 * k + 8 <= |done|
    ensures k < Groups(|done|) && PackAll(done)[k] == ByteOf(done[8 * k..8 * k + 8])
  {
    assert Padded(done)[8 * k..8 * k + 8] == done[8 * k..8 * k + 8];
  }

  /** The last group is packed with zeros shifted in after its bits. */
  lemma PackAllLast(done: string, p: nat)
    requires 8 * p < |done| <= 8 * p + 8
    ensures Groups(|done|) == p + 1
    ensures PackAll(done)[p] == ShiftedZeros(ByteOf(done[8 * p..]), 8 * p + 8 - |done|)
  {
    GroupsAfter(p, |done| - 8 * p);
    assert Padded(done)[8 * p..8 * p + 8] == done[8 * p..] + Zeros(8 * p + 8 - |done|);
    ByteOfZeros(done[8 * p..], 8 * p + 8 - |done|);
  }

  /** What the packing loop leaves behind, flushed: the bytes pushed and,
      when it holds bits, the current byte with its bits moved to the top
      are every group of the bits. */
  lemma Flush(done: string, packed: seq<Byte>, current: Byte, cursor: nat)
    requires Packing(done, packed, current, cursor)
    ensures cursor <= 8 && 8 * |packed| + cursor == |done|
    ensures cursor == 0 ==> packed == PackAll(done)
    ensures cursor > 0 ==> packed + [current << (8 - cursor)] == PackAll(done)
  {
    var p := |packed|;
    if cursor > 0 {
      var flushed := packed + [current << (8 - cursor)];
      forall k | 0 <= k < p
        ensures flushed[k] == PackAll(done)[k]
      {
        PackAllFull(done, k);
      }
      PackAllLast(done, p);
      ShiftedZerosShift(current, 8 - cursor);
      assert flushed == PackAll(done);
    }
  }

  /** Unpacking every group gives back every bit, and zeros after them. */
  lemma UnpackPackAll(bits: string)
    requires Binary(bits)
    ensures Unpack(PackAll(bits))[..|bits|] == bits
  {
    var w := Padded(bits) + "0";
    assert Binary(w);
    assert PackedCount(|w|) == Groups(|bits|);
    forall k | 0 <= k < Groups(|bits|)
      ensures PackAll(bits)[k] == Pack(w)[k]
    {
      assert w[8 * k..8 * k + 8] == Padded(bits)[8 * k..8 * k + 8];
    }
    assert PackAll(bits) == Pack(w);
    UnpackPack(w);
    assert w[..8 * Groups(|bits|)] == Padded(bits);
  }

  /** The repaired `encode`: the loop of `encode`, then the current byte,
      when it holds bits, pushed with its bits moved to the top; also the
      number of meaningful bits. */
  method EncodeAll(s: string, table: map<char, string>) returns (packed: seq<Byte>, bitCount: nat)
    requires forall k :: 0 <= k < |s| ==> s[k] in table
    ensures packed == PackAll(Bits(s, table))
    ensures bitCount == |Bits(s, table)|
  {
    var currentByte, bitCursor;
    packed, currentByte, bitCursor := PackText(s, table);
    Flush(Bits(s, table), packed, currentByte, bitCursor);
    bitCount := 8 * |packed| + bitCursor;
    if bitCursor > 0 {
      packed := packed + [currentByte << (8 - bitCursor)];
    }
  }

  /** With every group packed, decoding the meaningful bits of a text's
      codes gives back the whole text. */
  lemma PaddedRoundTrip(decodingTable: map<string, char>, table: map<char, string>, msg: string)
    requires InverseOf(decodingTable, table) && PrefixFree(table)
    requires forall c :: c in table ==> |table[c]| > 0 && Binary(table[c])
    requires forall k :: 0 <= k < |msg| ==> msg[k] in table
    ensures Decode(decodingTable, Unpack(PackAll(Bits(msg, table)))[..|Bits(msg, table)|], []) == msg
  {
    BitsBinary(msg, table);
    UnpackPackAll(Bits(msg, table));
    DecodeBits(decodingTable, table, msg);
  }

  // ---------------------------------------------------------------------
  // A code for the single leaf

  /** The repaired code table: the leaf codes of a tree, except that a tree
      that is one leaf gives its character the code `0`. */
  function FixedCodes(root: Node): map<char, string>
    requires Full(root)
  {
    if root.value.Some? then map[root.value.value := "0"] else Codes(root, "")
  }

  /** The repaired table has what decoding needs for every tree: prefix-free,
      non-empty, binary codes for exactly the leaf characters. */
  lemma FixedCodesDecodable(root: Node)
    requires Full(root)
    ensures FixedCodes(root).Keys == LeafChars(root)
    ensures PrefixFree(FixedCodes(root))
    ensures forall c :: c in FixedCodes(root) ==> |FixedCodes(root)[c]| > 0 && Binary(FixedCodes(root)[c])
  {
    if root.value.Some? {
      LeafOfOne(root);
      assert LeafList(root) == [(root.value.value, root.frequency)];
    } else {
      TreeCodes(root);
    }
  }

  /** `build_encoding_table`, repaired for the one-leaf tree. */
  method BuildFixedTable(root: Node) returns (table: map<char, string>)
    requires Full(root)
    ensures table == FixedCodes(root)
  {
    table := BuildEncodingTable(root);
    if root.value.Some? {
      table := map[root.value.value := "0"];
    }
  }

  // ---------------------------------------------------------------------
  // The repaired archive

  /** The header, the number of meaningful bits and the packed bytes. */
  datatype Archive = Archive(header: seq<(string, string)>, bitCount: nat, packed: seq<Byte>)

  /** The meaningful bits of an archive: no more than the bytes hold. */
  function Meaningful(a: Archive): nat
  {
    if a.bitCount <= 8 * |a.packed| then a.bitCount else 8 * |a.packed|
  }

  /** The repaired `decompress`: the decoding table from the header, then
      the decoding loop over the meaningful bits only; `None` where a
      header name does not read back as a character. */
  function Expand(a: Archive): Option<string>
  {
    match DecodingTableOf(a.header)
    case None => None
    case Some(m) => Some(Decode(m, Unpack(a.packed)[..Meaningful(a)], []))
  }

  /** Bit i of the unpacked bytes is bit i % 8 of byte i / 8. */
  lemma {:induction false} UnpackAt(bytes: seq<Byte>, i: nat)
    requires i < 8 * |bytes|
    ensures Unpack(bytes)[i] == BitChar(bytes[i / 8], i % 8)
  {
    assert Unpack(bytes) == ByteBits(bytes[0]) + Unpack(bytes[1..]);
    if i >= 8 {
      UnpackAt(bytes[1..], i - 8);
      assert (i - 8) / 8 == i / 8 - 1 && (i - 8) % 8 == i % 8;
    }
  }

  /** One step of the decoding loop: the bit is appended to the pattern,
      and a pattern that is a code emits its character and starts over. */
  method DecodeBit(next: char, decodingTable: map<string, char>, output: string, pattern: string,
                   ghost after: string)
    returns (output': string, pattern': string)
    ensures output' + Decode(decodingTable, after, pattern') ==
            output + Decode(decodingTable, [next] + after, pattern)
  {
    assert ([next] + after)[1..] == after;
    output', pattern' := output, pattern + [next];
    if pattern' in decodingTable {
      output' := output' + [decodingTable[pattern']];
      pattern' := [];
    }
  }

  lemma ByteIndex(i: nat, n: nat)
    requires i < 8 * n
    ensures i / 8 < n && i % 8 < 8
  {
  }

  lemma HeadBit(bits: string, i: nat)
    requires i < |bits|
    ensures bits[i..] == [bits[i]] + bits[i + 1..]
  {
  }

  /** The repaired decoding loop: one bit at a time, up to the count. */
  method ExpandBits(bytes: seq<Byte>, count: nat, decodingTable: map<string, char>) returns (output: string)
    requires count <= 8 * |bytes|
    ensures output == Decode(decodingTable, Unpack(bytes)[..count], [])
  {
    output := [];
    var pattern: string := [];
    ghost var bits := Unpack(bytes)[..count];
    assert bits[0..] == bits;
    assert output + Decode(decodingTable, bits, []) == Decode(decodingTable, bits, []);
    for i := 0 to count
      invariant output + Decode(decodingTable, bits[i..], pattern) == Decode(decodingTable, bits, [])
    {
      ByteIndex(i, |bytes|);
      var next := BitChar(bytes[i / 8], i % 8);
      UnpackAt(bytes, i);
      HeadBit(bits, i);
      output, pattern := DecodeBit(next, decodingTable, output, pattern, bits[i + 1..]);
    }
    assert bits[count..] == [];
    assert output + [] == output;
  }

  /** The repaired `decompress` as a loop. */
  method DecompressFixed(a: Archive) returns (r: Option<string>)
    ensures r == Expand(a)
  {
    var decodingTable := BuildDecodingTable(a.header);
    if decodingTable.None? {
      return None;
    }
    var output := ExpandBits(a.packed, Meaningful(a), decodingTable.value);
    return Some(output);
  }

  /** The repaired `compress`: every non-empty text comes back whole. */
  method CompressFixed(s: string) returns (r: Option<Archive>)
    ensures r.None? <==> s == []
    ensures r.Some? ==> Expand(r.value) == Some(s)
  {
    var frequencies := GetFrequencyTable(s);
    var tree, order, bags, merges := BuildTree(frequencies);
    assert s != [] ==> s[0] in frequencies;
    if tree.Err? {
      return None;
    }
    var root := tree.value;
    var codes := BuildFixedTable(root);
    LeavesAreTable(root, order, frequencies);
    FixedCodesDecodable(root);
    forall k | 0 <= k < |s|
      ensures s[k] in codes
    {
      assert s[k] in frequencies;
      assert (s[k], frequencies[s[k]]) in LeafList(root);
    }
    var packed, bitCount := EncodeAll(s, codes);
    var header, keys := HeaderOf(codes);
    HeaderInverts(codes, keys);
    PaddedRoundTrip(DecodingTableOf(header).value, codes, s);
    return Some(Archive(header, bitCount, packed));
  }
}
