/** Outcomes of the codec's operations. The Java code signals failure by throwing;
    each exception it can raise on the modelled paths is one `Error` value, and one more
    value stands for the decoding loop that never finishes. */
module Results {

  /** The exceptions the codec can end in, and the decoding loop that never finishes. */
  datatype Error =
    | NoSuchElement   // Queue.remove() on an empty priority queue (empty frequency table)
    | EndOfFile       // ObjectInputStream.readChar() after the last written char
    | NonTerminating  // decodeMessage never advances its cursor and grows its output until memory runs out

  datatype Result<+T> = Success(value: T) | Failure(error: Error)

  datatype Option<+T> = None | Some(value: T)
}
