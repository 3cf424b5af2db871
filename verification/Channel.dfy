/**
 The arithmetic coder as its clients see it: a channel of bits, each coded in
 a context. A bit comes back as it was sent when the decoder asks for it in
 the context it was sent in; asked for in another context it, and everything
 after it, is arbitrary.
 */
module Channel {

  /** The number of adaptive contexts a stream owns. */
  const CONTEXTS := 300

  /** A coded bit. Context -1 is the pass-through coder, which adapts to nothing. */
  datatype Event = Event(ctx: int, bit: bool)

  class Sender {
    var sent: seq<Event>

    constructor ()
      ensures sent == []
    {
      sent := [];
    }

    method Put(ctx: int, bit: bool)
      requires -1 <= ctx < CONTEXTS
      modifies this
      ensures sent == old(sent) + [Event(ctx, bit)]
    {
      sent := sent + [Event(ctx, bit)];
    }
  }

  class Receiver {
    var pending: seq<Event>

    constructor (events: seq<Event>)
      ensures pending == events
    {
      pending := events;
    }

    method Get(ctx: int) returns (bit: bool)
      requires -1 <= ctx < CONTEXTS
      modifies this
      ensures old(pending) != [] && old(pending)[0].ctx == ctx ==>
        bit == old(pending)[0].bit && pending == old(pending)[1..]
    {
      if pending != [] && pending[0].ctx == ctx {
        bit := pending[0].bit;
        pending := pending[1..];
      } else {
        bit := *;
        pending := [];
      }
    }
  }
}
