/** Types shared by the whole codec: optional values, the program's error
    conditions as a result type, and single bits. */
module Common {

  datatype Option<T> = None | Some(value: T)

  /** The ways a compress or decompress run ends without producing its output.
      The program reports the first three through its user interface and exits;
      the last one is a null-pointer dereference in the source. */
  datatype Error =
    | InputMissingOrEmpty   // "Input file doesn't exists, or it's empty."
    | OutputUnwritable      // "Cannot create or write to output file."
    | ZeroUniqueBytes       // "Cannot create tree with 0 unique bytes."
    | NullChildDereference  // the decode cursor stepped to an absent child and was used again

  datatype Result<T> = Ok(value: T) | Err(error: Error)

  /** An unsigned 8-bit value (uint8_t). */
  type Byte = x: int | 0 <= x < 256

  /** A bit as the source stores it: a byte that is 0 or 1. */
  type Bit = x: int | x == 0 || x == 1

  function Min(a: nat, b: nat): nat { if a <= b then a else b }

  function Max(a: nat, b: nat): nat { if a <= b then b else a }

  /** n zero bits. */
  function ZeroBits(n: nat): (z: seq<Bit>)
    ensures |z| == n && forall i :: 0 <= i < n ==> z[i] == 0
  {
    seq(n, _ => 0)
  }

  /** Concatenation regrouped, for proofs that append one piece at a time. */
  lemma Assoc<T>(a: seq<T>, b: seq<T>, c: seq<T>)
    ensures a + b + c == a + (b + c)
  {
  }
}
