/** What the two byte decoders share: reading from the bytes that remain, and from a position in the whole message. */
module Reading {
  import opened Bytes

  /** What was read and the bytes left, or why reading stopped. */
  datatype Parsing<+T, +E> = Got(value: T, rest: seq<byte>) | Fail(error: E) {
    predicate IsFailure() { Fail? }
    function PropagateFailure<U>(): Parsing<U, E>
      requires Fail?
    {
      Fail(error)
    }
    function Extract(): (T, seq<byte>)
      requires Got?
    {
      (value, rest)
    }
  }

  /** The same at a position: the value and the position after it. */
  datatype Position<+T, +E> = At(value: T, pos: nat) | Stopped(error: E)

  /** The position stays inside the message and stands where reading the remaining bytes ends. */
  predicate Agrees<T(==), E(==)>(data: seq<byte>, c: Position<T, E>, r: Parsing<T, E>) {
    match r
    case Got(v, rest) => c.At? && c.value == v && c.pos <= |data| && data[c.pos..] == rest
    case Fail(e) => c == Stopped(e)
  }

  /** What reading goes on to give, once some elements have been read. */
  function Prepend<T, E>(sofar: seq<T>, r: Parsing<seq<T>, E>): Parsing<seq<T>, E> {
    match r
    case Got(vs, rest) => Got(sofar + vs, rest)
    case Fail(e) => Fail(e)
  }

  lemma PrependFacts<T, E>(sofar: seq<T>, v: T, r: Parsing<seq<T>, E>)
    ensures Prepend([], r) == r
    ensures Prepend(sofar, Prepend([v], r)) == Prepend(sofar + [v], r)
  {
    match r {
      case Got(vs, _) =>
        assert [] + vs == vs;
        assert sofar + ([v] + vs) == (sofar + [v]) + vs;
      case Fail(_) =>
    }
  }

  lemma Associate(a: seq<byte>, b: seq<byte>, c: seq<byte>)
    ensures (a + b) + c == a + (b + c)
  {
  }
}
