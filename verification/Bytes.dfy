/** Byte strings and byte streams. */
module Bytes {

  type byte = x: int | 0 <= x < 256

  /** The bytes of an ASCII text. */
  function Ascii(text: string): (r: seq<byte>)
    ensures |r| == |text|
    ensures forall i :: 0 <= i < |text| && text[i] < 128 as char ==> r[i] == text[i] as int
  {
    seq(|text|, i requires 0 <= i < |text| => if text[i] < 128 as char then text[i] as int else 63)
  }

  /** How a stream is cut into pieces: the size of the piece that starts at each position. */
  type Cutting = nat -> nat

  const BYTE_BY_BYTE: Cutting := at => 1

  /** The size of the piece a read gets, with `left` bytes to come: at least one byte until the end. */
  function PieceSize(cut: Cutting, at: nat, left: nat, limit: nat): (n: nat)
    requires limit > 0
    ensures n <= left && n <= limit
    ensures n == 0 <==> left == 0
  {
    var wanted := if cut(at) == 0 then 1 else cut(at);
    var most := if left <= limit then left else limit;
    if wanted <= most then wanted else most
  }

  /** A stream hands out what is left of its data in the pieces of some cutting: what is proved of a reader
      holds for every way of cutting the data. */
  class ByteStream {
    const cut: Cutting
    var position: nat
    var data: seq<byte>

    constructor (data: seq<byte>, cut: Cutting)
      ensures this.data == data && this.cut == cut && position == 0
    {
      this.data, this.cut := data, cut;
      position := 0;
    }

    /** Nothing is returned only at the end of the stream. */
    method Read(limit: nat) returns (chunk: seq<byte>)
      requires limit > 0
      modifies this
      ensures chunk + data == old(data)
      ensures |chunk| == PieceSize(cut, old(position), |old(data)|, limit)
      ensures position == old(position) + |chunk|
    {
      var n := PieceSize(cut, position, |data|, limit);
      chunk := data[..n];
      data := data[n..];
      position := position + n;
    }
  }
}
