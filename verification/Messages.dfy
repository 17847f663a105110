/** The messages of the wire protocol: an eight-byte header, with the type in its first byte and
    the size of the payload, low byte first, in its last four, and then the payload. */
module Messages {
  import opened Bytes
  import opened Options

  const HEADER: nat := 8
  const CONFIG_FIXED: nat := 12
  const BLOCK: nat := 12
  const ALLOC_INFO: nat := 8
  const U32: nat := 0x1_0000_0000

  const CONFIG: Byte := 1
  const CONFIG_RESP: Byte := 2
  const DATA: Byte := 3

  const SUCCESS: Byte := 0
  const ERROR: Byte := 1

  datatype Block = Block(controlBase: nat, inputBase: nat, outputBase: nat) {
    predicate Valid() {
      controlBase < U32 && inputBase < U32 && outputBase < U32
    }
  }

  // ---- Little-endian words ----

  function Word(n: nat): (w: seq<Byte>)
    ensures |w| == 4
  {
    [n % 256, n / 256 % 256, n / 65536 % 256, n / 16777216 % 256]
  }

  function WordAt(raw: seq<Byte>, at: nat): (n: nat)
    requires at + 4 <= |raw|
    ensures n < U32
  {
    var a: nat, b: nat, c: nat, d: nat := raw[at], raw[at + 1], raw[at + 2], raw[at + 3];
    a + 256 * b + 65536 * c + 16777216 * d
  }

  lemma WordRoundTrip(n: nat)
    ensures WordAt(Word(n), 0) == n % U32
  {
    var a := n / 256;
    var b := a / 256;
    var c := b / 256;
    assert n / 65536 == b && n / 16777216 == c;
    assert n == n % 256 + 256 * (a % 256) + 65536 * (b % 256) + 16777216 * c;
    assert c == 256 * (c / 256) + c % 256;
  }

  lemma WordFound(raw: seq<Byte>, at: nat, n: nat)
    requires at + 4 <= |raw| && raw[at..at + 4] == Word(n)
    ensures WordAt(raw, at) == n % U32
  {
    WordRoundTrip(n);
    var w := raw[at..at + 4];
    assert w[0] == raw[at] && w[1] == raw[at + 1] && w[2] == raw[at + 2] && w[3] == raw[at + 3];
  }

  // ---- What a message is, as bytes ----

  function Kind(raw: seq<Byte>): Byte
    requires HEADER <= |raw|
  {
    raw[0]
  }

  function PayloadSize(raw: seq<Byte>): nat
    requires HEADER <= |raw|
  {
    WordAt(raw, 4)
  }

  predicate ValidHeader(raw: seq<Byte>)
    requires HEADER <= |raw|
  {
    (Kind(raw) == CONFIG || Kind(raw) == CONFIG_RESP || Kind(raw) == DATA) && PayloadSize(raw) > 0
  }

  /** The size of a message, in 32-bit arithmetic. */
  function MessageSize(raw: seq<Byte>): nat
    requires HEADER <= |raw|
  {
    (HEADER + PayloadSize(raw)) % U32
  }

  predicate ValidMessage(raw: seq<Byte>) {
    HEADER <= |raw| && ValidHeader(raw) && ALLOC_INFO + |raw| == ALLOC_INFO + MessageSize(raw)
  }

  lemma SizeWraps(n: nat)
    requires n < U32
    ensures (HEADER + n) % U32 == if HEADER + n < U32 then HEADER + n else HEADER + n - U32
  {
  }

  /** What has room for its payload is valid exactly when the size does not wrap around. */
  lemma ValidWhenItFits(raw: seq<Byte>)
    requires HEADER <= |raw| && |raw| == HEADER + PayloadSize(raw)
    ensures ValidMessage(raw) <==> ValidHeader(raw) && PayloadSize(raw) <= U32 - 9
  {
    SizeWraps(PayloadSize(raw));
  }

  /** The answer to a configuration: one byte, which says whether it has succeeded. */
  predicate ValidConfigResp(raw: seq<Byte>) {
    && ValidMessage(raw) && Kind(raw) == CONFIG_RESP && PayloadSize(raw) == 1
    && |raw| == HEADER + 1 && (raw[8] == SUCCESS || raw[8] == ERROR)
  }

  predicate ValidData(raw: seq<Byte>) {
    ValidMessage(raw) && Kind(raw) == DATA
  }

  /** The number is in the four bytes from there on, low byte first, as far as they can hold it. */
  predicate Stored(raw: seq<Byte>, at: nat, n: nat) {
    && at + 4 <= |raw|
    && var b0: int, b1: int, b2: int, b3: int := raw[at], raw[at + 1], raw[at + 2], raw[at + 3];
       b0 + 256 * b1 + 65536 * b2 + 16777216 * b3 == n % 0x1_0000_0000
  }

  /** Which bytes are a message, down to the numbers on the wire. */
  lemma AcceptedExactlyWhen(raw: seq<Byte>)
    ensures ValidMessage(raw) <==>
            8 < |raw| < 0x1_0000_0000 && 1 <= raw[0] <= 3 && Stored(raw, 4, |raw| - 8)
    ensures ValidConfig(raw) ==> raw[0] == 1
    ensures ValidConfigResp(raw) <==> |raw| == 9 && raw[0] == 2 && Stored(raw, 4, 1) && raw[8] < 2
    ensures ValidData(raw) <==> ValidMessage(raw) && raw[0] == 3
  {
    if HEADER <= |raw| { SizeWraps(PayloadSize(raw)); }
  }

  // ---- Configurations ----

  /** Reads the block count only from a payload that has one. */
  predicate ValidConfig(raw: seq<Byte>) {
    && ValidMessage(raw) && Kind(raw) == CONFIG
    && CONFIG_FIXED <= PayloadSize(raw) && HEADER + CONFIG_FIXED <= |raw|
    && PayloadSize(raw) >= CONFIG_FIXED + BlockCount(raw) * BLOCK
  }

  function InputSize(raw: seq<Byte>): nat
    requires HEADER + CONFIG_FIXED <= |raw|
  {
    WordAt(raw, HEADER)
  }

  function OutputSize(raw: seq<Byte>): nat
    requires HEADER + CONFIG_FIXED <= |raw|
  {
    WordAt(raw, HEADER + 4)
  }

  function BlockCount(raw: seq<Byte>): nat
    requires HEADER + CONFIG_FIXED <= |raw|
  {
    WordAt(raw, HEADER + 8)
  }

  function BlockOffset(k: nat): nat {
    HEADER + CONFIG_FIXED + k * BLOCK
  }

  function BlockInfo(raw: seq<Byte>, k: nat): Block
    requires BlockOffset(k) + BLOCK <= |raw|
  {
    var at := BlockOffset(k);
    Block(WordAt(raw, at), WordAt(raw, at + 4), WordAt(raw, at + 8))
  }

  /** Offset and size of the bitstream, in 32-bit arithmetic. */
  function RbfOffset(raw: seq<Byte>): nat
    requires HEADER + CONFIG_FIXED <= |raw|
  {
    BlockCount(raw) * BLOCK % U32
  }

  function RbfSize(raw: seq<Byte>): nat
    requires HEADER + CONFIG_FIXED <= |raw|
  {
    (PayloadSize(raw) - CONFIG_FIXED - RbfOffset(raw)) % U32
  }

  /** In a valid configuration the blocks and the bitstream fill the payload, and none of the
      arithmetic wraps. */
  lemma ConfigLayout(raw: seq<Byte>)
    requires ValidConfig(raw)
    ensures RbfOffset(raw) == BlockCount(raw) * BLOCK
    ensures |raw| == HEADER + CONFIG_FIXED + RbfOffset(raw) + RbfSize(raw)
    ensures forall k: nat | k < BlockCount(raw) :: BlockOffset(k) + BLOCK <= |raw|
  {
    var n := PayloadSize(raw);
    SizeWraps(n);
    var blocks := BlockCount(raw) * BLOCK;
    FitsWord(blocks);
    FitsWord(n - CONFIG_FIXED - blocks);
  }

  // ---- A message in memory ----

  /** A message as it lies in memory from its header on. */
  class Message {
    const bytes: array<Byte>

    constructor (size: nat)
      ensures fresh(bytes) && bytes.Length == size
    {
      bytes := new Byte[size](_ => 0);
    }

    /** With what was in the memory that has been allocated. */
    constructor Allocated(memory: seq<Byte>)
      ensures fresh(bytes) && bytes[..] == memory
    {
      bytes := new Byte[|memory|](i requires 0 <= i < |memory| => memory[i]);
    }

    /** Type and size; the reserved bytes between them are not touched. */
    method PutHeader(kind: Byte, payloadSize: nat)
      requires HEADER <= bytes.Length
      modifies bytes
      ensures bytes[..] == Header(kind, payloadSize, old(bytes[1..4])) + old(bytes[HEADER..])
    {
      bytes[0] := kind;
      PutWord(4, payloadSize);
    }

    method PutWord(at: nat, n: nat)
      requires at + 4 <= bytes.Length
      modifies bytes
      ensures bytes[..] == old(bytes[..at]) + Word(n) + old(bytes[at + 4..])
    {
      var w := Word(n);
      bytes[at], bytes[at + 1], bytes[at + 2], bytes[at + 3] := w[0], w[1], w[2], w[3];
    }

    method PutBytes(at: nat, data: seq<Byte>)
      requires at + |data| <= bytes.Length
      modifies bytes
      ensures bytes[..] == old(bytes[..at]) + data + old(bytes[at + |data|..])
    {
      forall i | 0 <= i < |data| {
        bytes[at + i] := data[i];
      }
    }

    /** The header and the fixed words of a configuration. */
    method PutFixed(payloadSize: nat, inputSize: nat, outputSize: nat, count: nat)
      requires HEADER + CONFIG_FIXED <= bytes.Length
      modifies bytes
      ensures bytes[..] == ConfigHead(payloadSize, inputSize, outputSize, count, old(bytes[1..4]))
                           + old(bytes[HEADER + CONFIG_FIXED..])
    {
      ghost var behind := bytes[HEADER + CONFIG_FIXED..];
      PutHeader(CONFIG, payloadSize);
      ghost var head := bytes[..HEADER];
      PutWord(8, inputSize);
      assert bytes[..12] == head + Word(inputSize) && bytes[20..] == behind;
      PutWord(12, outputSize);
      assert bytes[..16] == head + Word(inputSize) + Word(outputSize) && bytes[20..] == behind;
      PutWord(16, count);
    }

    /** The blocks one by one, behind the fixed words. */
    method PutBlocks(blocks: seq<Block>, ghost head: seq<Byte>)
      requires Begins(bytes[..], head) && BlockOffset(|blocks|) <= bytes.Length
      modifies bytes
      ensures bytes[..BlockOffset(|blocks|)] == head + BlocksBytes(blocks)
      ensures bytes[BlockOffset(|blocks|)..] == old(bytes[BlockOffset(|blocks|)..])
    {
      assert bytes[..BlockOffset(0)] == bytes[..][..|head|] == head;
      for i := 0 to |blocks|
        invariant bytes[..BlockOffset(i)] == head + BlocksBytes(blocks[..i])
        invariant bytes[BlockOffset(|blocks|)..] == old(bytes[BlockOffset(|blocks|)..])
      {
        PutBlock(BlockOffset(i), blocks[i]);
        OneMoreBlock(head, blocks, i);
      }
      assert blocks[..|blocks|] == blocks;
    }

    /** Everything of a configuration; without a bitstream its bytes stay as they are. */
    method PutConfig(
      blocks: seq<Block>, inputSize: nat, outputSize: nat, rbf: Option<seq<Byte>>, rbfSize: nat)
      requires bytes.Length == BlockOffset(|blocks|) + rbfSize && (rbf.Some? ==> |rbf.value| == rbfSize)
      modifies bytes
      ensures bytes[..] == ConfigBytes(blocks, inputSize, outputSize,
                                       BitstreamOf(rbf, old(bytes[BlockOffset(|blocks|)..])), old(bytes[1..4]))
    {
      var payloadSize := CONFIG_FIXED + |blocks| * BLOCK + rbfSize;
      ghost var head := ConfigHead(payloadSize, inputSize, outputSize, |blocks|, bytes[1..4]);
      PutFixed(payloadSize, inputSize, outputSize, |blocks|);
      PutBlocks(blocks, head);
      if rbf.Some? {
        PutBytes(BlockOffset(|blocks|), rbf.value);
      }
      assert bytes[..] == head + BlocksBytes(blocks) + bytes[BlockOffset(|blocks|)..];
    }

    method PutBlock(at: nat, b: Block)
      requires at + BLOCK <= bytes.Length
      modifies bytes
      ensures bytes[..at + BLOCK] == old(bytes[..at]) + BlockBytes(b)
      ensures bytes[at + BLOCK..] == old(bytes[at + BLOCK..])
    {
      ghost var behind := bytes[at + BLOCK..];
      PutWord(at, b.controlBase);
      assert bytes[..at + 4] == old(bytes[..at]) + Word(b.controlBase) && bytes[at + BLOCK..] == behind;
      PutWord(at + 4, b.inputBase);
      assert bytes[..at + 8] == old(bytes[..at]) + Word(b.controlBase) + Word(b.inputBase);
      assert bytes[at + BLOCK..] == behind;
      PutWord(at + 8, b.outputBase);
      assert bytes[at + BLOCK..] == behind;
    }
  }

  /** What is already there when the blocks are put behind it. */
  ghost predicate Begins(bytes: seq<Byte>, head: seq<Byte>) {
    head <= bytes && |head| == HEADER + CONFIG_FIXED
  }

  /** The three bytes of a header that are never set: whatever the allocation left there. */
  type Reserved = r: seq<Byte> | |r| == 3 witness [0, 0, 0]

  function Header(kind: Byte, payloadSize: nat, reserved: Reserved): (h: seq<Byte>)
    ensures |h| == HEADER
  {
    [kind] + reserved + Word(payloadSize)
  }

  function BlockBytes(b: Block): seq<Byte> {
    Word(b.controlBase) + Word(b.inputBase) + Word(b.outputBase)
  }

  function BlocksBytes(blocks: seq<Block>): (r: seq<Byte>)
    ensures |r| == |blocks| * BLOCK
  {
    if blocks == [] then [] else BlocksBytes(blocks[..|blocks| - 1]) + BlockBytes(blocks[|blocks| - 1])
  }

  /** The bytes of a configuration. */
  function ConfigBytes(blocks: seq<Block>, inputSize: nat, outputSize: nat, rbf: seq<Byte>,
      reserved: Reserved): seq<Byte> {
    ConfigHead(ConfigPayload(blocks, rbf), inputSize, outputSize, |blocks|, reserved) + BlocksBytes(blocks) + rbf
  }

  function ConfigPayload(blocks: seq<Block>, rbf: seq<Byte>): nat {
    CONFIG_FIXED + |blocks| * BLOCK + |rbf|
  }

  /** Header and fixed words of a configuration. */
  function ConfigHead(payloadSize: nat, inputSize: nat, outputSize: nat, count: nat, reserved: Reserved): (h: seq<Byte>)
    ensures |h| == HEADER + CONFIG_FIXED
  {
    Header(CONFIG, payloadSize, reserved) + Word(inputSize) + Word(outputSize) + Word(count)
  }

  lemma OneMoreBlock(head: seq<Byte>, blocks: seq<Block>, i: nat)
    requires i < |blocks|
    ensures BlockOffset(i + 1) == BlockOffset(i) + BLOCK
    ensures head + BlocksBytes(blocks[..i]) + BlockBytes(blocks[i]) == head + BlocksBytes(blocks[..i + 1])
  {
    assert blocks[..i + 1][..i] == blocks[..i];
  }

  /** The bitstream of a configuration: the one given, or what the memory held. */
  function BitstreamOf(rbf: Option<seq<Byte>>, left: seq<Byte>): seq<Byte> {
    if rbf.Some? then rbf.value else left
  }

  /** Fills a new configuration: the fixed words, the blocks one by one, and the bitstream unless
      there is none, in which case its bytes stay as the allocation left them. */
  method NewConfig(
    blocks: seq<Block>, inputSize: nat, outputSize: nat, rbf: Option<seq<Byte>>, rbfSize: nat, memory: seq<Byte>)
    returns (m: Message)
    requires |memory| == HEADER + CONFIG_FIXED + |blocks| * BLOCK + rbfSize && (rbf.Some? ==> |rbf.value| == rbfSize)
    ensures fresh(m) && fresh(m.bytes)
    ensures m.bytes[..] ==
            ConfigBytes(blocks, inputSize, outputSize, BitstreamOf(rbf, memory[BlockOffset(|blocks|)..]), memory[1..4])
    ensures ConfigOnTheWire(m.bytes[..], blocks, inputSize, outputSize,
                            BitstreamOf(rbf, memory[BlockOffset(|blocks|)..]))
  {
    m := new Message.Allocated(memory);
    m.PutConfig(blocks, inputSize, outputSize, rbf, rbfSize);
    WireFormat(blocks, inputSize, outputSize, BitstreamOf(rbf, memory[BlockOffset(|blocks|)..]), memory[1..4]);
  }

  // ---- A configuration comes back as it was made ----

  lemma SubSlice(raw: seq<Byte>, at: nat, w: seq<Byte>, i: nat, part: seq<Byte>)
    requires at + |w| <= |raw| && raw[at..at + |w|] == w && i + |part| <= |w| && w[i..i + |part|] == part
    ensures raw[at + i..at + i + |part|] == part
  {
    assert forall k | 0 <= k < |w| :: raw[at + k] == raw[at..at + |w|][k] == w[k];
    assert forall k | 0 <= k < |part| :: raw[at + i + k] == w[i + k] == w[i..i + |part|][k] == part[k];
  }

  lemma ThreeWords(a: nat, b: nat, c: nat)
    ensures var w := Word(a) + Word(b) + Word(c);
            |w| == 12 && w[0..4] == Word(a) && w[4..8] == Word(b) && w[8..12] == Word(c)
  {
  }

  lemma HeadParts(payloadSize: nat, inputSize: nat, outputSize: nat, count: nat, reserved: Reserved, raw: seq<Byte>)
    requires ConfigHead(payloadSize, inputSize, outputSize, count, reserved) <= raw
    ensures Kind(raw) == CONFIG && PayloadSize(raw) == payloadSize % U32
    ensures InputSize(raw) == inputSize % U32 && OutputSize(raw) == outputSize % U32 && BlockCount(raw) == count % U32
  {
    var head := ConfigHead(payloadSize, inputSize, outputSize, count, reserved);
    var words := Word(inputSize) + Word(outputSize) + Word(count);
    ThreeWords(inputSize, outputSize, count);
    assert raw[0..20] == head && head[4..8] == Word(payloadSize) && head[8..20] == words && head[0] == CONFIG;
    assert raw[0] == raw[0..20][0];
    SubSlice(raw, 0, head, 4, Word(payloadSize));
    SubSlice(raw, 0, head, 8, words);
    SubSlice(raw, 8, words, 0, Word(inputSize));
    SubSlice(raw, 8, words, 4, Word(outputSize));
    SubSlice(raw, 8, words, 8, Word(count));
    WordFound(raw, 4, payloadSize);
    WordFound(raw, 8, inputSize);
    WordFound(raw, 12, outputSize);
    WordFound(raw, 16, count);
  }

  lemma {:induction false} BlocksAt(blocks: seq<Block>, k: nat)
    requires k < |blocks|
    ensures BlocksBytes(blocks)[k * BLOCK..(k + 1) * BLOCK] == BlockBytes(blocks[k])
    decreases |blocks|
  {
    var n := |blocks| - 1;
    var front := BlocksBytes(blocks[..n]);
    if k < n {
      BlocksAt(blocks[..n], k);
      assert BlocksBytes(blocks)[k * BLOCK..(k + 1) * BLOCK] == front[k * BLOCK..(k + 1) * BLOCK];
    }
  }

  /** Word n of w, which lies in raw. */
  lemma FieldFound(raw: seq<Byte>, at: nat, w: seq<Byte>, i: nat, word: seq<Byte>, n: nat)
    requires at + |w| <= |raw| && raw[at..at + |w|] == w && i + 4 <= |w| && w[i..i + 4] == word == Word(n)
    ensures WordAt(raw, at + i) == n % U32
  {
    SubSlice(raw, at, w, i, word);
    WordFound(raw, at + i, n);
  }

  lemma BlockFound(raw: seq<Byte>, at: nat, b: Block)
    requires at + 12 <= |raw| && raw[at..at + 12] == BlockBytes(b)
    ensures WordAt(raw, at) == b.controlBase % U32 && WordAt(raw, at + 4) == b.inputBase % U32
    ensures WordAt(raw, at + 8) == b.outputBase % U32
  {
    var w := BlockBytes(b);
    ThreeWords(b.controlBase, b.inputBase, b.outputBase);
    FieldFound(raw, at, w, 0, Word(b.controlBase), b.controlBase);
    FieldFound(raw, at, w, 4, Word(b.inputBase), b.inputBase);
    FieldFound(raw, at, w, 8, Word(b.outputBase), b.outputBase);
  }

  /** The third part of a concatenation, and a piece of the second. */
  lemma Parts(head: seq<Byte>, middle: seq<Byte>, tail: seq<Byte>, i: nat, j: nat)
    requires i <= j <= |middle|
    ensures head <= head + middle + tail && (head + middle + tail)[|head| + |middle|..] == tail
    ensures (head + middle + tail)[|head| + i..|head| + j] == middle[i..j]
  {
  }

  /** A new configuration is valid exactly when its payload fits in 32 bits with the header. */
  lemma ConfigValidWhenItFits(blocks: seq<Block>, inputSize: nat, outputSize: nat, rbf: seq<Byte>, reserved: Reserved)
    ensures ValidConfig(ConfigBytes(blocks, inputSize, outputSize, rbf, reserved)) <==>
            ConfigPayload(blocks, rbf) <= U32 - 9
  {
    var raw, n := ConfigBytes(blocks, inputSize, outputSize, rbf, reserved), ConfigPayload(blocks, rbf);
    Parts(ConfigHead(n, inputSize, outputSize, |blocks|, reserved), BlocksBytes(blocks), rbf, 0, 0);
    HeadParts(n, inputSize, outputSize, |blocks|, reserved, raw);
    assert |raw| == HEADER + n;
    if n <= U32 - 9 {
      FitsWord(n);
      FitsWord(|blocks|);
      FitsWord(HEADER + n);
    }
  }

  lemma ConfigBlock(blocks: seq<Block>, inputSize: nat, outputSize: nat, rbf: seq<Byte>, reserved: Reserved, k: nat)
    requires k < |blocks|
    ensures var raw, at := ConfigBytes(blocks, inputSize, outputSize, rbf, reserved), BlockOffset(k);
            && at + BLOCK <= |raw|
            && WordAt(raw, at) == blocks[k].controlBase % U32 && WordAt(raw, at + 4) == blocks[k].inputBase % U32
            && WordAt(raw, at + 8) == blocks[k].outputBase % U32
  {
    var raw := ConfigBytes(blocks, inputSize, outputSize, rbf, reserved);
    BlocksAt(blocks, k);
    Parts(ConfigHead(ConfigPayload(blocks, rbf), inputSize, outputSize, |blocks|, reserved), BlocksBytes(blocks), rbf,
          k * BLOCK, (k + 1) * BLOCK);
    BlockFound(raw, BlockOffset(k), blocks[k]);
  }

  /** Every accessor of a new configuration that is valid gives back what it was made from. */
  lemma ConfigRoundTrip(
    blocks: seq<Block>, inputSize: nat, outputSize: nat, rbf: seq<Byte>, reserved: Reserved, raw: seq<Byte>)
    requires raw == ConfigBytes(blocks, inputSize, outputSize, rbf, reserved) && ValidConfig(raw)
    requires inputSize < U32 && outputSize < U32
    ensures InputSize(raw) == inputSize && OutputSize(raw) == outputSize && BlockCount(raw) == |blocks|
    ensures forall k: nat | k < |blocks| && blocks[k].Valid() ::
              BlockOffset(k) + BLOCK <= |raw| && BlockInfo(raw, k) == blocks[k]
    ensures RbfSize(raw) == |rbf| && HEADER + CONFIG_FIXED + RbfOffset(raw) <= |raw|
    ensures raw[HEADER + CONFIG_FIXED + RbfOffset(raw)..] == rbf
  {
    ConfigScalars(blocks, inputSize, outputSize, rbf, reserved, raw);
    forall k: nat | k < |blocks| && blocks[k].Valid()
      ensures BlockOffset(k) + BLOCK <= |raw| && BlockInfo(raw, k) == blocks[k]
    {
      ConfigBlock(blocks, inputSize, outputSize, rbf, reserved, k);
      FitsWord(blocks[k].controlBase);
      FitsWord(blocks[k].inputBase);
      FitsWord(blocks[k].outputBase);
    }
  }

  /** The bytes of block k of a configuration. */
  predicate BlockStored(raw: seq<Byte>, k: nat, b: Block) {
    && Stored(raw, 20 + 12 * k, b.controlBase)
    && Stored(raw, 24 + 12 * k, b.inputBase)
    && Stored(raw, 28 + 12 * k, b.outputBase)
  }

  /** Byte for byte what goes over the wire for a configuration; three bytes of it are whatever was
      in the memory. */
  predicate ConfigOnTheWire(raw: seq<Byte>, blocks: seq<Block>, inputSize: nat, outputSize: nat, rbf: seq<Byte>) {
    && |raw| == 20 + 12 * |blocks| + |rbf|
    && raw[0] == 1
    && Stored(raw, 4, 12 + 12 * |blocks| + |rbf|) && Stored(raw, 8, inputSize) && Stored(raw, 12, outputSize)
    && Stored(raw, 16, |blocks|)
    && (forall k: nat | k < |blocks| :: BlockStored(raw, k, blocks[k]))
    && raw[20 + 12 * |blocks|..] == rbf
  }

  lemma HeadStored(payloadSize: nat, inputSize: nat, outputSize: nat, count: nat, reserved: Reserved, raw: seq<Byte>)
    requires ConfigHead(payloadSize, inputSize, outputSize, count, reserved) <= raw
    ensures raw[0] == 1 && Stored(raw, 4, payloadSize)
    ensures Stored(raw, 8, inputSize) && Stored(raw, 12, outputSize) && Stored(raw, 16, count)
  {
    HeadParts(payloadSize, inputSize, outputSize, count, reserved, raw);
  }

  lemma BlocksStored(blocks: seq<Block>, inputSize: nat, outputSize: nat, rbf: seq<Byte>, reserved: Reserved, k: nat)
    requires k < |blocks|
    ensures BlockStored(ConfigBytes(blocks, inputSize, outputSize, rbf, reserved), k, blocks[k])
  {
    ConfigBlock(blocks, inputSize, outputSize, rbf, reserved, k);
  }

  /** Every configuration that is made is laid out like that. */
  lemma WireFormat(blocks: seq<Block>, inputSize: nat, outputSize: nat, rbf: seq<Byte>, reserved: Reserved)
    ensures ConfigOnTheWire(ConfigBytes(blocks, inputSize, outputSize, rbf, reserved), blocks, inputSize, outputSize,
                            rbf)
  {
    var raw, n := ConfigBytes(blocks, inputSize, outputSize, rbf, reserved), ConfigPayload(blocks, rbf);
    Parts(ConfigHead(n, inputSize, outputSize, |blocks|, reserved), BlocksBytes(blocks), rbf, 0, 0);
    HeadStored(n, inputSize, outputSize, |blocks|, reserved, raw);
    forall k: nat | k < |blocks| ensures BlockStored(raw, k, blocks[k]) {
      BlocksStored(blocks, inputSize, outputSize, rbf, reserved, k);
    }
  }

  lemma ConfigScalars(
    blocks: seq<Block>, inputSize: nat, outputSize: nat, rbf: seq<Byte>, reserved: Reserved, raw: seq<Byte>)
    requires raw == ConfigBytes(blocks, inputSize, outputSize, rbf, reserved) && ValidConfig(raw)
    requires inputSize < U32 && outputSize < U32
    ensures InputSize(raw) == inputSize && OutputSize(raw) == outputSize && BlockCount(raw) == |blocks|
    ensures RbfSize(raw) == |rbf| && HEADER + CONFIG_FIXED + RbfOffset(raw) <= |raw|
    ensures raw[HEADER + CONFIG_FIXED + RbfOffset(raw)..] == rbf
  {
    var n := ConfigPayload(blocks, rbf);
    ConfigValidWhenItFits(blocks, inputSize, outputSize, rbf, reserved);
    Parts(ConfigHead(n, inputSize, outputSize, |blocks|, reserved), BlocksBytes(blocks), rbf, 0, 0);
    HeadParts(n, inputSize, outputSize, |blocks|, reserved, raw);
    FitsWord(inputSize);
    FitsWord(outputSize);
    FitsWord(|blocks|);
    ConfigLayout(raw);
  }

  lemma FitsWord(n: nat)
    requires n < U32
    ensures n % U32 == n
  {
  }
}
