/** The parts of Rack the middleware touches: the response triple, the
    request verb and the rewindable body stream (rack.input). */
module Rack {

  /** The [status, headers, body] triple a Rack application returns. */
  datatype Response = Response(status: int, headers: map<string, string>, body: seq<string>)

  /** A request as a value: its verb and the body text a reader gets from
      the stream's cursor onwards. This is what the wrapped app sees. */
  datatype Request = Request(requestMethod: string, body: string)

  /** Rack::Request#post? */
  predicate IsPost(requestMethod: string) {
    requestMethod == "POST"
  }

  /** Rack::Request#put? */
  predicate IsPut(requestMethod: string) {
    requestMethod == "PUT"
  }

  /** The rewindable request body: fixed text and a read cursor. */
  class InputStream {
    const data: string
    var pos: nat
    /** How many times the stream has been read; specification only. */
    ghost var readCount: nat

    ghost predicate Valid()
      reads this
    {
      pos <= |data|
    }

    constructor (data: string)
      ensures this.data == data && pos == 0 && readCount == 0
      ensures Valid()
    {
      this.data := data;
      pos := 0;
      readCount := 0;
    }

    /** What a reader gets from the cursor onwards. */
    function Unread(): (rest: string)
      reads this
      requires Valid()
    {
      data[pos..]
    }

    /** rack.input#rewind */
    method Rewind()
      modifies this`pos
      ensures Valid() && pos == 0
      ensures Unread() == data
    {
      pos := 0;
    }

    /** rack.input#read with no length: the rest of the body, leaving the
        cursor at end-of-body (an empty string when already there). */
    method Read() returns (s: string)
      requires Valid()
      modifies this`pos, this`readCount
      ensures Valid()
      ensures s == old(Unread())
      ensures pos == |data| && Unread() == ""
      ensures readCount == old(readCount) + 1
    {
      s := data[pos..];
      pos := |data|;
      readCount := readCount + 1;
    }
  }

  /** The Rack env as far as the middleware reads it: REQUEST_METHOD and rack.input. */
  datatype Env = Env(requestMethod: string, input: InputStream)
}
