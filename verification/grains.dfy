/** The client's view of the grains it addresses. The ChatRoom and Ticker
    grain implementations are not part of this model: a call is an opaque
    event naming the grain (type and key) and the method with its
    arguments, and a client session is judged by the sequence of calls it
    issues. */
module Grains {

  /** `Guid.Empty`, the key of the one ticker grain the client uses. */
  const EmptyGuid: nat := 0

  /** A chat message as the client builds it; the creation timestamp the
      message type assigns itself is not modelled. */
  datatype ChatMsg = ChatMsg(author: string, text: string)

  /** `GetGrain<IChatRoom>(channel)` and `GetGrain<ITicker>(guid)`. */
  datatype GrainId =
    | ChatRoom(channel: string)
    | Ticker(key: nat)

  /** The grain methods the client invokes, with their arguments. */
  datatype Invocation =
    | Join(participant: string)
    | Leave(participant: string)
    | Message(msg: ChatMsg)
    | ReadHistory(maxCount: int)
    | Tick(units: int)

  datatype GrainCall = Call(grain: GrainId, invocation: Invocation)

  /** The message a single call posts, if it is a `Message` call. */
  function PostedBy(c: GrainCall): seq<ChatMsg> {
    if c.invocation.Message? then [c.invocation.msg] else []
  }

  /** The messages posted by a trace of calls, in order. */
  function Posted(calls: seq<GrainCall>): seq<ChatMsg>
    decreases |calls|
  {
    if calls == [] then [] else PostedBy(calls[0]) + Posted(calls[1..])
  }

  lemma {:induction false} PostedAppend(a: seq<GrainCall>, b: seq<GrainCall>)
    ensures Posted(a + b) == Posted(a) + Posted(b)
    decreases |a|
  {
    if a == [] {
      assert a + b == b;
    } else {
      var ab := a + b;
      assert ab[0] == a[0];
      assert ab[1..] == a[1..] + b;
      PostedAppend(a[1..], b);
      calc {
        Posted(ab);
        PostedBy(a[0]) + Posted(a[1..] + b);
        PostedBy(a[0]) + (Posted(a[1..]) + Posted(b));
        (PostedBy(a[0]) + Posted(a[1..])) + Posted(b);
      }
    }
  }

  /** A trace without `Message` calls posts nothing. */
  lemma {:induction false} PostsNothing(calls: seq<GrainCall>)
    requires forall k :: 0 <= k < |calls| ==> !calls[k].invocation.Message?
    ensures Posted(calls) == []
    decreases |calls|
  {
    if calls != [] {
      PostsNothing(calls[1..]);
    }
  }

  lemma PostedOne(c: GrainCall)
    ensures Posted([c]) == PostedBy(c)
  {
    assert [c][1..] == [];
  }
}
