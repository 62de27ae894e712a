/**
  The wire, one level above RESP bytes: a reply is the sequence of values the
  RESP reader yields, one per read call, and the writer accepts the same
  values one per write call.
*/
module Wire {
  import opened Slots

  /** What one read or write call of the codec moves across the wire. */
  datatype Token =
    | ArrayHead(n: nat)               // a RESP array header announcing n elements
    | Integer(v: u16)                 // an integer, read into or written from a uint16
    | StringArray(strs: seq<string>)  // a whole array of bulk strings (a node entry)
    | Unreadable                      // anything the reader cannot turn into the requested Go value

  /** Why a decode failed. */
  datatype DecodeError =
    | ReadFailure(pos: nat)                     // the reader failed on the value at `pos`
    | MalformedNodeArray(strs: seq<string>)     // a node entry with fewer than two strings

  predicate IsHeaderAt(input: seq<Token>, pos: nat) {
    pos < |input| && input[pos].ArrayHead?
  }

  predicate IsIntegerAt(input: seq<Token>, pos: nat) {
    pos < |input| && input[pos].Integer?
  }

  predicate IsStringArrayAt(input: seq<Token>, pos: nat) {
    pos < |input| && input[pos].StringArray?
  }

  /**
    The transport the encoder writes to. Which write fails is not up to the
    codec; `room` is the number of further writes the transport accepts, and
    the write after those fails. The codec never writes again after a
    failure, so only the first failing write matters.
  */
  class Writer {
    var written: seq<Token>
    var room: nat

    constructor (room: nat)
      ensures written == [] && this.room == room
    {
      written := [];
      this.room := room;
    }

    method Write(t: Token) returns (ok: bool)
      modifies this
      ensures ok == (old(room) > 0)
      ensures ok ==> written == old(written) + [t] && room == old(room) - 1
      ensures !ok ==> written == old(written) && room == old(room)
    {
      ok := room > 0;
      if ok {
        written := written + [t];
        room := room - 1;
      }
    }
  }
}
