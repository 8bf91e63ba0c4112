/** The leading byte of every datagram: which of the five wire formats it carries. */
module Formats {

  /** An octet of a buffer or datagram. */
  type byte = b: int | 0 <= b < 256

  /** The closed enumeration of wire formats: two control formats and three payload formats. */
  datatype Format = Connect | Disconnect | String | Buffer | Object

  /** The byte that stands for each format on the wire. The concrete numbers live in
      lib/formats.js, which is not part of this model; only their distinctness matters. */
  function ByteOf(f: Format): (b: byte)
  {
    match f
    case Connect => 0
    case Disconnect => 1
    case String => 2
    case Buffer => 3
    case Object => 4
  }

  /** A control format changes the peer registry instead of carrying a payload. */
  predicate IsControl(b: byte)
    ensures forall f :: ByteOf(f) == b ==> (IsControl(b) <==> f == Connect || f == Disconnect)
  {
    b == ByteOf(Connect) || b == ByteOf(Disconnect)
  }

  /** Distinct formats are written as distinct bytes. */
  lemma ByteOfInjective(f: Format, g: Format)
    ensures ByteOf(f) == ByteOf(g) <==> f == g
  {
  }
}
