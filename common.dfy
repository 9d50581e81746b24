/** Failure-carrying results shared by every module, and the kinds of failure
    the steganography core signals.  Each failure kind stands for the Java
    exception the source throws in that situation. */
module Common {

  datatype Option<+T> = None | Some(value: T)

  datatype Result<+T, +E> = Success(value: T) | Failure(error: E)

  datatype Outcome<+E> = Pass | Fail(error: E)

  /** The exceptions of the core, one constructor per distinct throw site kind. */
  datatype Error =
    | CapacityExceeded        // IndexOutOfBoundsException thrown by PixelBit.encode
    | NoSuchElement           // the overlay ran out of units (NoSuchElementException)
    | IndexOutOfBounds        // any other array or list index out of range
    | IllegalArgument         // bad bit depth, data that is not a GIF89a file
    | UnknownStegFormat       // the header signature was not found
    | UnsupportedImageType    // image type or format outside the supported set
    | NullPointer             // a missing colour table handed on to the couple builder
    | NoImage                 // no image reader recognised the carrier
    | NumberFormat            // Integer.parseInt rejected a string

  /** The unsigned value of one Java byte (its bit pattern read as 0..255). */
  type Byte = x: int | 0 <= x < 256

  /** The values of a Java int. */
  type Int32 = x: int | -0x8000_0000 <= x < 0x8000_0000

  /** A Java int operation's result: the mathematical value reduced into the
      int range, two's complement wrap-around. */
  function Wrap32(x: int): (r: Int32)
    ensures (r - x) % 0x1_0000_0000 == 0
    ensures -0x8000_0000 <= x < 0x8000_0000 ==> r == x
  {
    var m := x % 0x1_0000_0000;
    if m < 0x8000_0000 then m else m - 0x1_0000_0000
  }

  function Pow2(n: nat): (r: nat)
    ensures r >= 1
  {
    if n == 0 then 1 else 2 * Pow2(n - 1)
  }
}
