/**
 * The slice of MPI point-to-point messaging that both programs rely on,
 * as a sequential model: a message is a value, a send appends it to the
 * list of messages in flight, and a blocking receive copies its payload
 * into the receiver's buffer.
 */
module Mpi {

  /** One point-to-point message: who sent it, to whom, with which tag, and the integers it carries. */
  datatype Message = Message(source: int, dest: int, tag: int, payload: seq<int>)

  /** `s` with the cells `[offset, offset + |p|)` replaced by `p`. */
  function Overwrite(s: seq<int>, offset: nat, p: seq<int>): (r: seq<int>)
    requires offset + |p| <= |s|
    ensures |r| == |s|
  {
    s[..offset] + p + s[offset + |p|..]
  }

  /**
   * A blocking receive of at most `count` integers into `buffer + offset`.
   * A message longer than `count` is an error in MPI (truncation), so the
   * caller must pass one that fits; a shorter one leaves the rest of the
   * receive window as it was.
   */
  method Recv(buffer: array<int>, offset: nat, count: nat, msg: Message)
    requires offset + count <= buffer.Length
    requires |msg.payload| <= count
    modifies buffer
    ensures buffer[..] == Overwrite(old(buffer[..]), offset, msg.payload)
  {
    var i := 0;
    while i < |msg.payload|
      invariant 0 <= i <= |msg.payload|
      invariant forall q :: 0 <= q < offset ==> buffer[q] == old(buffer[q])
      invariant forall q :: 0 <= q < i ==> buffer[offset + q] == msg.payload[q]
      invariant forall q :: offset + i <= q < buffer.Length ==> buffer[q] == old(buffer[q])
    {
      buffer[offset + i] := msg.payload[i];
      i := i + 1;
    }
    assert buffer[..] == Overwrite(old(buffer[..]), offset, msg.payload) by {
      var o := Overwrite(old(buffer[..]), offset, msg.payload);
      forall q | 0 <= q < buffer.Length
        ensures buffer[q] == o[q]
      {
        if offset <= q < offset + |msg.payload| {
          assert buffer[offset + (q - offset)] == msg.payload[q - offset];
        }
      }
    }
  }

  /**
   * The messages addressed to `dest`, in the order they were sent. MPI does
   * not let two messages from one sender to one receiver overtake each other,
   * so this is the order in which `dest` receives them.
   */
  function Inbox(sent: seq<Message>, dest: int): (r: seq<Message>)
    ensures |r| <= |sent|
    ensures forall m :: m in r ==> m in sent && m.dest == dest
  {
    if sent == [] then []
    else
      var last := sent[|sent| - 1];
      Inbox(sent[..|sent| - 1], dest) + (if last.dest == dest then [last] else [])
  }

  /** Sending one more message only extends the inbox of its destination. */
  lemma InboxSend(sent: seq<Message>, m: Message, dest: int)
    ensures Inbox(sent + [m], dest) == Inbox(sent, dest) + (if m.dest == dest then [m] else [])
  {
    assert (sent + [m])[..|sent|] == sent;
  }

  /**
   * Sending two messages to a receiver whose inbox was empty leaves exactly
   * those two there, in order, and changes no other inbox.
   */
  lemma InboxSendPair(sent: seq<Message>, first: Message, second: Message, dest: int)
    requires first.dest == dest && second.dest == dest && Inbox(sent, dest) == []
    ensures Inbox(sent + [first] + [second], dest) == [first, second]
    ensures forall other :: other != dest ==> Inbox(sent + [first] + [second], other) == Inbox(sent, other)
  {
    InboxSend(sent, first, dest);
    InboxSend(sent + [first], second, dest);
    forall other | other != dest
      ensures Inbox(sent + [first] + [second], other) == Inbox(sent, other)
    {
      InboxSend(sent, first, other);
      InboxSend(sent + [first], second, other);
      assert Inbox(sent, other) + [] == Inbox(sent, other);
    }
  }

  /** A receiver to which nothing was addressed finds its inbox empty. */
  lemma {:induction false} InboxEmpty(sent: seq<Message>, dest: int)
    requires forall m :: m in sent ==> m.dest != dest
    ensures Inbox(sent, dest) == []
  {
    if sent != [] {
      var init := sent[..|sent| - 1];
      assert forall m :: m in init ==> m in sent;
      InboxEmpty(init, dest);
    }
  }
}
