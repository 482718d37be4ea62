/** DecodeRLE (decompressor.h): a run-length decoder over a byte stream made
    of blocks. Each block starts with a header byte whose low bit says whether
    it is a run (1) or a literal (0) and whose upper seven bits hold the block
    length minus one. A run block is followed by one byte to repeat; a literal
    block by the bytes to copy. The file streams are replaced by the byte
    sequence read from the source and the byte sequence written to the
    destination. */
module Rle {
  import opened Arithmetic

  datatype Option<T> = None | Some(value: T)

  /** An unsigned char. */
  newtype byte = x: int | 0 <= x < 256

  /** The byte a run block repeats when the input ends right after its header:
      `get()` returns end-of-file (-1), which becomes the char 0xFF. */
  const EOF_BYTE: byte := 0xFF

  /** The length of a block, `(header >> 1) + 1`: on an unsigned byte the
      shift is a division by 2. */
  function BlockLength(header: byte): (n: nat)
    ensures 1 <= n <= 128
  {
    header as int / 2 + 1
  }

  /** The block type: the header's low bit, `header & 1`. */
  predicate IsRun(header: byte)
  {
    header % 2 == 1
  }

  /** The type test above is the source's bit test on the unsigned header
      byte. */
  lemma HeaderTypeBit(header: byte)
    ensures IsRun(header) <==> (header as bv8) & 1 == 1
  {
  }

  function Repeat(value: byte, n: nat): (r: seq<byte>)
    ensures |r| == n && forall i :: 0 <= i < n ==> r[i] == value
  {
    seq(n, _ => value)
  }

  /** What the decoder writes for a given input, block by block. Decoding
      stops when no header can be read. A run block whose byte is missing
      writes BlockLength copies of EOF_BYTE; a literal block cut short copies
      the bytes that are left. Either way the stream has then failed and
      decoding ends. */
  function Decode(input: seq<byte>): (output: seq<byte>)
    decreases |input|
  {
    if input == [] then []
    else
      var header := input[0];
      var size := BlockLength(header);
      if IsRun(header) then
        if |input| >= 2 then Repeat(input[1], size) + Decode(input[2..])
        else Repeat(EOF_BYTE, size)
      else if 1 + size <= |input| then input[1..1 + size] + Decode(input[1 + size..])
      else input[1..]
  }

  /** One block read at `pos`: it writes `emitted` and leaves the stream at
      `next`. A truncated block leaves it at the end. */
  lemma DecodeStep(input: seq<byte>, pos: nat, emitted: seq<byte>, next: nat)
    requires pos < |input|
    requires var size := BlockLength(input[pos]);
      if IsRun(input[pos]) then
        if pos + 1 < |input| then emitted == Repeat(input[pos + 1], size) && next == pos + 2
        else emitted == Repeat(EOF_BYTE, size) && next == |input|
      else
        var gcount := Min(size, |input| - (pos + 1));
        emitted == input[pos + 1..pos + 1 + gcount] && next == pos + 1 + gcount
    ensures pos < next <= |input|
    ensures Decode(input[pos..]) == emitted + Decode(input[next..])
  {
    if IsRun(input[pos]) {
      DecodeRunStep(input, pos);
    } else {
      DecodeLiteralStep(input, pos);
    }
  }

  /** A run block at `pos`: its byte repeated, or EOF_BYTE repeated when the
      input ends after the header. */
  lemma DecodeRunStep(input: seq<byte>, pos: nat)
    requires pos < |input| && IsRun(input[pos])
    ensures pos + 1 < |input| ==>
      Decode(input[pos..]) == Repeat(input[pos + 1], BlockLength(input[pos])) + Decode(input[pos + 2..])
    ensures pos + 1 == |input| ==>
      Decode(input[pos..]) == Repeat(EOF_BYTE, BlockLength(input[pos])) + Decode(input[|input|..])
  {
    var rest := input[pos..];
    assert rest[0] == input[pos];
    if pos + 1 < |input| {
      assert rest[1] == input[pos + 1] && rest[2..] == input[pos + 2..];
    } else {
      assert input[|input|..] == [];
    }
  }

  /** A literal block at `pos`: the bytes that follow, up to its length. */
  lemma DecodeLiteralStep(input: seq<byte>, pos: nat)
    requires pos < |input| && !IsRun(input[pos])
    ensures var gcount := Min(BlockLength(input[pos]), |input| - (pos + 1));
      Decode(input[pos..]) == input[pos + 1..pos + 1 + gcount] + Decode(input[pos + 1 + gcount..])
  {
    var rest := input[pos..];
    var size := BlockLength(input[pos]);
    var gcount := Min(size, |input| - (pos + 1));
    assert rest[0] == input[pos];
    assert rest[1..1 + gcount] == input[pos + 1..pos + 1 + gcount];
    assert rest[1 + gcount..] == input[pos + 1 + gcount..];
    if gcount == size {
      assert Decode(rest) == rest[1..1 + size] + Decode(rest[1 + size..]);
    } else {
      assert rest[1..] == rest[1..1 + gcount];
      assert Decode(rest) == rest[1..];
      assert rest[1 + gcount..] == [];
    }
  }

  /** The do-while loop of DecodeRLE over the bytes of the source. */
  method DecodeBlocks(input: seq<byte>) returns (output: seq<byte>)
    ensures output == Decode(input)
  {
    output := [];
    var pos: nat := 0;
    // A truncated block consumes the rest of the input; the stream has then
    // failed and the loop ends, as it does when no header is left.
    while pos < |input|
      invariant 0 <= pos <= |input|
      invariant output + Decode(input[pos..]) == Decode(input)
      decreases |input| - pos
    {
      var header := input[pos];
      var dataSize := BlockLength(header);
      var emitted: seq<byte>;
      var next: nat;
      if IsRun(header) {
        if pos + 1 < |input| {
          emitted, next := Repeat(input[pos + 1], dataSize), pos + 2;
        } else {
          emitted, next := Repeat(EOF_BYTE, dataSize), |input|;
        }
        DecodeStep(input, pos, emitted, next);
      } else {
        // read(buff, data_size) stores at most the bytes left; gcount() of them are written.
        var gcount := Min(dataSize, |input| - (pos + 1));
        emitted, next := input[pos + 1..pos + 1 + gcount], pos + 1 + gcount;
        DecodeStep(input, pos, emitted, next);
      }
      AppendBlock(output, emitted, Decode(input[pos..]), Decode(input[next..]), Decode(input));
      output := output + emitted;
      pos := next;
    }
    assert input[pos..] == [];
  }

  /** Writing a block's bytes moves them from what is left to decode to what
      has been written. */
  lemma AppendBlock(written: seq<byte>, emitted: seq<byte>, left: seq<byte>, after: seq<byte>, total: seq<byte>)
    requires written + left == total && left == emitted + after
    ensures (written + emitted) + after == total
  {
  }

  /** DecodeRLE: false when the source cannot be opened, and then nothing is
      written; otherwise true, with the decoded bytes written. `source` is the
      content of the source file, None when it cannot be opened. */
  method DecodeRLE(source: Option<seq<byte>>) returns (ok: bool, written: Option<seq<byte>>)
    ensures ok <==> source.Some?
    ensures !ok ==> written.None?
    ensures ok ==> written == Some(Decode(source.value))
  {
    if source.None? {
      return false, None;
    }
    var output := DecodeBlocks(source.value);
    return true, Some(output);
  }

  /** A block as an encoder would produce it. */
  datatype Block = Run(count: nat, value: byte) | Literal(bytes: seq<byte>)

  /** Lengths a header can express: 1 to 128. */
  predicate WellFormed(block: Block)
  {
    match block
    case Run(count, _) => 1 <= count <= 128
    case Literal(bytes) => 1 <= |bytes| <= 128
  }

  function Length(block: Block): (n: nat)
  {
    match block
    case Run(count, _) => count
    case Literal(bytes) => |bytes|
  }

  /** The length minus one in the upper seven bits, the type in the low bit. */
  function Header(block: Block): (header: byte)
    requires WellFormed(block)
  {
    match block
    case Run(count, _) => ((count - 1) * 2 + 1) as byte
    case Literal(bytes) => ((|bytes| - 1) * 2) as byte
  }

  function EncodeBlock(block: Block): (encoded: seq<byte>)
    requires WellFormed(block)
  {
    match block
    case Run(_, value) => [Header(block), value]
    case Literal(bytes) => [Header(block)] + bytes
  }

  function Encode(blocks: seq<Block>): (encoded: seq<byte>)
    requires forall i :: 0 <= i < |blocks| ==> WellFormed(blocks[i])
  {
    if blocks == [] then [] else EncodeBlock(blocks[0]) + Encode(blocks[1..])
  }

  /** What a block stands for. */
  function Expand(block: Block): (expanded: seq<byte>)
  {
    match block
    case Run(count, value) => Repeat(value, count)
    case Literal(bytes) => bytes
  }

  function ExpandAll(blocks: seq<Block>): (expanded: seq<byte>)
  {
    if blocks == [] then [] else Expand(blocks[0]) + ExpandAll(blocks[1..])
  }

  function TotalLength(blocks: seq<Block>): (total: nat)
  {
    if blocks == [] then 0 else Length(blocks[0]) + TotalLength(blocks[1..])
  }

  /** The header of a block carries its type in the low bit and its length
      in the upper seven. */
  lemma HeaderFields(block: Block)
    requires WellFormed(block)
    ensures IsRun(Header(block)) <==> block.Run?
    ensures BlockLength(Header(block)) == Length(block)
  {
  }

  /** One encoded block decodes to what it stands for, whatever follows. */
  lemma DecodeBlock(block: Block, rest: seq<byte>)
    requires WellFormed(block)
    ensures Decode(EncodeBlock(block) + rest) == Expand(block) + Decode(rest)
  {
    HeaderFields(block);
    var input := EncodeBlock(block) + rest;
    match block
    case Run(count, value) =>
      assert input[0] == Header(block) && input[1] == value && input[2..] == rest;
    case Literal(bytes) =>
      assert input[0] == Header(block);
      assert input[1..1 + |bytes|] == bytes && input[1 + |bytes|..] == rest;
  }

  /** Round trip: decoding the encoding of well-formed blocks gives the
      in-order concatenation of what the blocks stand for. */
  lemma {:induction false} DecodeEncode(blocks: seq<Block>)
    requires forall i :: 0 <= i < |blocks| ==> WellFormed(blocks[i])
    ensures Decode(Encode(blocks)) == ExpandAll(blocks)
  {
    if blocks != [] {
      DecodeBlock(blocks[0], Encode(blocks[1..]));
      DecodeEncode(blocks[1..]);
    }
  }

  lemma {:induction false} ExpandAllLength(blocks: seq<Block>)
    ensures |ExpandAll(blocks)| == TotalLength(blocks)
  {
    if blocks != [] {
      ExpandAllLength(blocks[1..]);
    }
  }

  /** For well-formed input the output length is the sum of the block
      lengths. */
  lemma DecodedLength(blocks: seq<Block>)
    requires forall i :: 0 <= i < |blocks| ==> WellFormed(blocks[i])
    ensures |Decode(Encode(blocks))| == TotalLength(blocks)
  {
    DecodeEncode(blocks);
    ExpandAllLength(blocks);
  }
}
