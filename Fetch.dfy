/** The fetch transport, which the core only invokes: a finite script of
    replies, answered one per request, with a record of every request sent. */
module Fetch {
  import opened Http

  class Transport {
    /** The replies still to come, one per request. */
    var script: seq<Reply>
    /** Every request handed to the transport, oldest first. */
    var sent: seq<Outgoing>

    constructor (script: seq<Reply>)
      ensures this.script == script && sent == []
    {
      this.script := script;
      this.sent := [];
    }

    /** `Fetch::send`: records the request and answers with the next scripted
        reply, or with nothing once the script has run out. */
    method Send(request: Outgoing) returns (reply: Option<Reply>)
      modifies this
      ensures sent == old(sent) + [request]
      ensures old(script) == [] ==> reply == None && script == []
      ensures old(script) != [] ==> reply == Some(old(script)[0]) && script == old(script)[1..]
    {
      sent := sent + [request];
      if script == [] {
        reply := None;
      } else {
        reply := Some(script[0]);
        script := script[1..];
      }
    }
  }
}
