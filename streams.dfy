/** The server's view of a call's streams. Everything the client writes
    before it closes its direction is a finite sequence that `Recv`
    consumes in order; every `Send` appends to the sequence of messages
    handed to the transport. */
module Streams {

  /** What `stream.Recv()` yields: a message, `io.EOF`, or a transport error. */
  datatype RecvResult<M> = Msg(msg: M) | EOF | TransportError

  /** The send side of a server-streaming call. */
  class SendStream<M> {
    var sent: seq<M>

    constructor ()
      ensures sent == []
    {
      sent := [];
    }

    method Send(m: M)
      modifies this
      ensures sent == old(sent) + [m]
    {
      sent := sent + [m];
    }
  }

  /** A bidirectional stream. `inbound` is what the client sends; the
      client's direction then ends cleanly (`io.EOF`) when `endsWithEOF`,
      and with a transport error otherwise. */
  class BidiStream<Req, Resp> {
    const inbound: seq<Req>
    const endsWithEOF: bool
    var consumed: nat
    var sent: seq<Resp>

    ghost predicate Valid()
      reads this
    {
      consumed <= |inbound|
    }

    constructor (inbound: seq<Req>, endsWithEOF: bool)
      ensures Valid()
      ensures this.inbound == inbound && this.endsWithEOF == endsWithEOF
      ensures consumed == 0 && sent == []
    {
      this.inbound := inbound;
      this.endsWithEOF := endsWithEOF;
      consumed := 0;
      sent := [];
    }

    /** Messages come out in the order they were sent; once the client's
        direction is exhausted every further call returns the same end
        marker again and changes nothing. */
    method Recv() returns (r: RecvResult<Req>)
      requires Valid()
      modifies this`consumed
      ensures Valid()
      ensures old(consumed) < |inbound| ==>
                r == Msg(inbound[old(consumed)]) && consumed == old(consumed) + 1
      ensures old(consumed) == |inbound| ==>
                consumed == old(consumed) && r == (if endsWithEOF then EOF else TransportError)
    {
      if consumed < |inbound| {
        r := Msg(inbound[consumed]);
        consumed := consumed + 1;
      } else {
        r := if endsWithEOF then EOF else TransportError;
      }
    }

    method Send(m: Resp)
      modifies this`sent
      ensures sent == old(sent) + [m]
      ensures consumed == old(consumed)
    {
      sent := sent + [m];
    }
  }
}
