/** The cartridge image and its address scheme.

    The image is an immutable sequence of bytes. Words are unsigned and
    little-endian; a pointer word holds a bus address, which becomes a file
    offset once the cartridge's load address is subtracted.
 */
module Rom {

  /** One byte of the image. */
  type byte = x: int | 0 <= x < 256

  /** Address at which the cartridge is mapped; pointer words are biased by it. */
  const LoadBase: int := 0x800_0000

  /** Exclusive bound of an unsigned 32-bit word. */
  const WordLimit: int := 0x1_0000_0000

  /** Why a decode stopped. Each corresponds to an exception the decoder raises. */
  datatype DecodeError =
    | ShortRead(offset: int)          // struct.unpack was given fewer bytes than its format needs
    | NegativeOffset(offset: int)     // a resolved offset below zero (see README, "Left out")
    | IndexOutOfRange(index: int)     // a list index at or past the end of the buffer

  datatype Result<+T> = Ok(value: T) | Err(error: DecodeError) {
    predicate IsFailure() { Err? }

    function PropagateFailure<U>(): Result<U>
      requires Err?
    {
      Err(error)
    }

    function Extract(): T
      requires Ok?
    {
      value
    }
  }

  /** Puts `x` in front of a successful list and passes a failure through. */
  function Cons<T>(x: T, r: Result<seq<T>>): Result<seq<T>>
  {
    match r
    case Ok(xs) => Ok([x] + xs)
    case Err(e) => Err(e)
  }

  /** Puts `xs` in front of a successful list and passes a failure through. */
  function Prepend<T>(xs: seq<T>, r: Result<seq<T>>): Result<seq<T>>
  {
    match r
    case Ok(ys) => Ok(xs + ys)
    case Err(e) => Err(e)
  }

  // ---------------------------------------------------------------------------
  // Fixed-width reads

  /** read_int: the unsigned 32-bit little-endian word stored at `o`. */
  function ReadInt(b: seq<byte>, o: nat): (w: nat)
    requires o + 4 <= |b|
    ensures w < WordLimit
  {
    b[o] as int + 0x100 * (b[o + 1] as int) + 0x1_0000 * (b[o + 2] as int) + 0x100_0000 * (b[o + 3] as int)
  }

  /** The unsigned 16-bit little-endian value stored at `o` (struct format '<H'). */
  function ReadU16(b: seq<byte>, o: nat): (v: nat)
    requires o + 2 <= |b|
    ensures v < 0x1_0000
  {
    b[o] as int + 0x100 * (b[o + 1] as int)
  }

  /** read_pointer: the file offset a pointer word at `o` refers to. */
  function ReadPointer(b: seq<byte>, o: nat): (p: int)
    requires o + 4 <= |b|
    ensures -LoadBase <= p < WordLimit - LoadBase
  {
    ReadInt(b, o) - LoadBase
  }

  /** is_pointer: the word at `o` refers to a positive offset. A word at or
      below the load address (in particular a zero word) ends a pointer table. */
  function IsPointer(b: seq<byte>, o: nat): (v: bool)
    requires o + 4 <= |b|
    ensures v <==> ReadInt(b, o) > LoadBase

  {
    ReadPointer(b, o) > 0
  }

  // ---------------------------------------------------------------------------
  // Encoders: the inverse direction, used to state the round trips

  /** The four little-endian bytes of a 32-bit word. */
  function IntBytes(w: nat): (s: seq<byte>)
    requires w < WordLimit
  {
    [w % 0x100, w / 0x100 % 0x100, w / 0x1_0000 % 0x100, w / 0x100_0000]
  }

  /** The two little-endian bytes of a 16-bit value. */
  function U16Bytes(v: nat): (s: seq<byte>)
    requires v < 0x1_0000
  {
    [v % 0x100, v / 0x100]
  }

  /** Reading back an encoded word gives the word. */
  lemma ReadIntBytes(w: nat)
    requires w < WordLimit
    ensures ReadInt(IntBytes(w), 0) == w
  {
    var s := IntBytes(w);
    assert w == w % 0x100 + 0x100 * (w / 0x100);
    assert w / 0x100 == w / 0x100 % 0x100 + 0x100 * (w / 0x1_0000);
    assert w / 0x1_0000 == w / 0x1_0000 % 0x100 + 0x100 * (w / 0x100_0000);
  }

  /** Encoding the word read at `o` reproduces the four bytes it was read from. */
  lemma IntBytesReadInt(b: seq<byte>, o: nat)
    requires o + 4 <= |b|
    ensures IntBytes(ReadInt(b, o)) == b[o..o + 4]
  {
    var w := ReadInt(b, o);
    DivModByte(b[o + 1] as int + 0x100 * (b[o + 2] as int) + 0x1_0000 * (b[o + 3] as int), b[o]);
    DivModByte(b[o + 2] as int + 0x100 * (b[o + 3] as int), b[o + 1]);
    DivModByte(b[o + 3], b[o + 2]);
  }

  /** Reading back an encoded 16-bit value gives the value, and encoding the
      value read at `o` reproduces its two bytes. */
  lemma U16RoundTrip(v: nat, b: seq<byte>, o: nat)
    requires v < 0x1_0000
    requires o + 2 <= |b|
    ensures ReadU16(U16Bytes(v), 0) == v
    ensures U16Bytes(ReadU16(b, o)) == b[o..o + 2]
  {
    DivModByte(b[o + 1], b[o]);
  }

  /** Splitting `0x100 * q + r` at a byte boundary gives back `q` and `r`. */
  lemma DivModByte(q: nat, r: byte)
    ensures (0x100 * q + r) / 0x100 == q
    ensures (0x100 * q + r) % 0x100 == r
  {
  }

  /** Adding the load address back to a resolved pointer gives the stored
      word, byte for byte. */
  lemma PointerRoundTrip(b: seq<byte>, o: nat)
    requires o + 4 <= |b|
    ensures 0 <= ReadPointer(b, o) + LoadBase < WordLimit
    ensures IntBytes(ReadPointer(b, o) + LoadBase) == b[o..o + 4]
  {
    IntBytesReadInt(b, o);
  }

  /** A word written for offset `p` reads back as `p`, and it counts as a
      pointer exactly when `p` is positive. */
  lemma EncodedPointer(p: int)
    requires 0 <= p + LoadBase < WordLimit
    ensures ReadPointer(IntBytes(p + LoadBase), 0) == p
    ensures IsPointer(IntBytes(p + LoadBase), 0) <==> p > 0
  {
    ReadIntBytes(p + LoadBase);
  }

  // ---------------------------------------------------------------------------
  // Checked reads: the reads above, failing where the decoder would raise

  /** The word at `o`, or the error raised for a read outside the image. */
  function IntAt(b: seq<byte>, o: int): (r: Result<nat>)
    ensures r.Ok? <==> 0 <= o && o + 4 <= |b|
  {
    if o < 0 then Err(NegativeOffset(o))
    else if o + 4 > |b| then Err(ShortRead(o))
    else Ok(ReadInt(b, o))
  }

  /** The resolved pointer at `o`, or the error raised for a read outside the image. */
  function PointerAt(b: seq<byte>, o: int): (r: Result<int>)
    ensures r.Ok? <==> 0 <= o && o + 4 <= |b|
  {
    if o < 0 then Err(NegativeOffset(o))
    else if o + 4 > |b| then Err(ShortRead(o))
    else Ok(ReadPointer(b, o))
  }
}
