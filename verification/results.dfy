/** Failure values for the bit I/O and entropy-coding layer.

    The C code reports failures by raising an exception or by calling EXIT;
    here every such failure is a value of `Error`, carried by `Result`.
 */
module Results {

  /** The failure kinds the modelled code can raise. */
  datatype Error =
    | WriteOnReadStream   // put_bit on a stream opened with a mode starting with 'r'
    | ReadOnWriteStream   // get_bit on a stream opened for writing
    | EndOfInput          // get_bit when the file has no byte left
    | ValueTooLarge       // put_entier of a value with 16 significant bits or more
    | RunOverflow         // a zero run that goes past the end of the output array

  /** A success value or an error; usable with `:-`. */
  datatype Result<+T> = Ok(value: T) | Err(error: Error) {

    predicate IsFailure() {
      Err?
    }

    function PropagateFailure<U>(): Result<U>
      requires Err?
    {
      Err(error)
    }

    function Extract(): T
      requires Ok?
    {
      value
    }
  }

  /** Concatenation regroups freely; the decoders' proofs split their
      input at the end of each field. */
  lemma AppendAssoc<T>(a: seq<T>, b: seq<T>, c: seq<T>)
    ensures (a + b) + c == a + (b + c)
  {
  }

  /** A non-empty sequence is its head followed by its tail. */
  lemma HeadTail<T>(s: seq<T>)
    requires |s| > 0
    ensures [s[0]] + s[1..] == s
  {
  }
}
