/** Preservation of the invariant: requests and their replies. */
module Answering {
  import opened Bytes
  import opened Messages
  import opened MessagesOut
  import opened Senders
  import opened Receivers
  import opened Network
  import opened Invariants
  import opened Delivery

  /** Every reply frame on its way to y is for a request that y has sent completely. */
  lemma NoReplyToLive(x: Peer, y: Peer, replies: seq<Frame>, xAll: Receiver, k: Key)
    requires Answers(x, replies) && Extends(x.recv, xAll) && Mirrors(y, xAll) && k in y.live && !k.reply
    ensures NoReplyFrame(replies, k.number)
  {
    assert InTransit(k, y.live[k], y.sent[k], xAll);
    assert k !in x.recv.delivered;
  }

  /** No reply to a request that is still being sent has been delivered. */
  lemma NotReplied(x: Peer, y: Peer, replies: seq<Frame>, xAll: Receiver, yAll: Receiver, k: Key)
    requires Answers(x, replies) && Extends(x.recv, xAll) && Mirrors(y, xAll) && k in y.live && !k.reply
    requires Mirrors(x, yAll) && Extends(y.recv, yAll)
    ensures Key(true, k.number) !in y.recv.delivered
  {
    assert InTransit(k, y.live[k], y.sent[k], xAll);
    assert Key(true, k.number) in yAll.delivered ==> Key(true, k.number) in x.sent;
  }

  /** A receiver that starts to await a reply still mirrors the other end. */
  lemma AwaitMirrors(y: Peer, r: Receiver, n: MessageNo)
    requires Mirrors(y, r)
    ensures Mirrors(y, Await(r, n))
  {
    hide Match, DeliveredAs, Content;
    var r' := Await(r, n);
    forall k | k in y.live
      ensures InTransit(k, y.live[k], y.sent[k], r')
    {
      OthersKept(k, y.live[k], y.sent[k], r, r');
    }
    forall k | k in y.sent && k !in y.live
      ensures DeliveredAs(k, y.sent[k], r')
    {
      StillDelivered(k, y.sent[k], r, r');
    }
  }

  // ---------------------------------------------------------------- the answering peer writes

  lemma WriteAnswers(x: Peer, x': Peer, replies: seq<Frame>, f: Frame)
    requires Answers(x, replies)
    requires x'.sent == x.sent && x'.responded == x.responded && x'.recv.delivered == x.recv.delivered
    requires IsReplyFrame(f, f.number) ==> Key(true, f.number) in x.sent
    ensures Answers(x', replies + [f])
  {
    var all := replies + [f];
    forall i | 0 <= i < |all| && IsReplyFrame(all[i], all[i].number)
      ensures all[i].number in x.responded
    {
      if i < |replies| {
        assert all[i] == replies[i];
      } else {
        assert Key(true, f.number) in x.sent;
      }
    }
  }

  lemma WriteKeepsReplies(x: Peer, x': Peer, y: Peer, replies: seq<Frame>, f: Frame,
                          xAll: Receiver, xAll': Receiver, yAll: Receiver)
    requires Replies(x, y, replies, xAll, yAll) && ReceiverInv(yAll) && Receive(yAll, f).Accepted?
    requires x'.sent == x.sent && x'.responded == x.responded && x'.recv.delivered == x.recv.delivered
    requires xAll'.delivered == xAll.delivered
    requires IsReplyFrame(f, f.number) ==> Key(true, f.number) in x.sent
    ensures Replies(x', y, replies + [f], xAll', Receive(yAll, f).recv)
  {
    hide Receive;
    WriteAnswers(x, x', replies, f);
    ReceiveKeeps(yAll, f);
    var o := Receive(yAll, f);
    forall n | Key(false, n) in xAll.delivered && !xAll.delivered[Key(false, n)].noReply && n !in x.responded
      ensures n in o.recv.pendingResponses && o.recv.pendingResponses[n] == AwaitedReply(n)
    {
      assert Untouched(yAll, o, f, n);
      assert Key(true, n) !in x.sent;
    }
  }

  // ---------------------------------------------------------------- the asking peer writes

  /** y' has written frame f, its first message being m; xAll' and yAll' are the receivers then. */
  lemma AskKeepsReplies(x: Peer, y: Peer, y': Peer, replies: seq<Frame>, m: OutMsg, awaiting: Option<MessageNo>,
                        xAll: Receiver, xAll': Receiver, yAll: Receiver)
    requires Replies(x, y, replies, xAll, yAll) && SenderInv(y)
    requires Extends(y.recv, yAll)
    requires y'.recv == AwaitReply(y.recv, awaiting) && y'.send.lastMessageNo == y.send.lastMessageNo
    requires forall k :: k in y'.live ==> k in y.live
    requires awaiting.Some? ==> var k := Key(false, awaiting.value);
      k in y.live && k in y.sent && k !in y'.live
    requires forall k :: k in xAll'.delivered && !k.reply ==>
      || (k in xAll.delivered && xAll'.delivered[k] == xAll.delivered[k])
      || (k in y.live && (xAll'.delivered[k].noReply || awaiting == Some(k.number)))
    ensures Replies(x, y', replies, xAll', AwaitReply(yAll, awaiting))
  {
    hide Represents, FlowInvariant;
    var yAll' := AwaitReply(yAll, awaiting);
    forall n | Key(false, n) in xAll'.delivered && !xAll'.delivered[Key(false, n)].noReply && n !in x.responded
      ensures n in yAll'.pendingResponses && yAll'.pendingResponses[n] == AwaitedReply(n)
    {
      var k := Key(false, n);
      if k in xAll.delivered && xAll'.delivered[k] == xAll.delivered[k] {
        assert n in yAll.pendingResponses && yAll.pendingResponses[n] == AwaitedReply(n);
      } else {
        assert k in y.live && awaiting == Some(n);
        assert n !in y.recv.pendingResponses;
        assert n !in yAll.pendingResponses;
      }
    }
  }

  // ---------------------------------------------------------------- frames come in

  lemma DeliverKeepsAnswers(x: Peer, x': Peer, y: Peer, replies: seq<Frame>, xAll: Receiver, yAll: Receiver)
    requires Replies(x, y, replies, xAll, yAll)
    requires x'.sent == x.sent && x'.responded == x.responded && Extends(x.recv, x'.recv)
    ensures Replies(x', y, replies, xAll, yAll)
  {
  }

  lemma DeliverKeepsAsks(x: Peer, y: Peer, y': Peer, replies: seq<Frame>, xAll: Receiver, yAll: Receiver)
    requires Replies(x, y, replies, xAll, yAll) && replies != []
    requires y'.live.Keys == y.live.Keys && Extends(y.recv, y'.recv)
    requires y'.send.lastMessageNo == y.send.lastMessageNo
    ensures Replies(x, y', replies[1..], xAll, yAll)
  {
    assert forall i :: 0 <= i < |replies[1..]| ==> replies[1..][i] == replies[i + 1];
  }

  // ---------------------------------------------------------------- messages are queued

  lemma QueueKeepsAnswers(x: Peer, x': Peer, y: Peer, replies: seq<Frame>, xAll: Receiver, yAll: Receiver)
    requires Replies(x, y, replies, xAll, yAll) && x'.recv == x.recv && x.responded <= x'.responded
    requires forall n :: n in x'.responded && n !in x.responded ==>
      Key(false, n) in x.recv.delivered && !x.recv.delivered[Key(false, n)].noReply
    requires forall k :: k in x'.sent && k.reply ==> k in x.sent || k.number in x'.responded
    ensures Replies(x', y, replies, xAll, yAll)
  {
  }

  lemma QueueKeepsAsks(x: Peer, y: Peer, y': Peer, replies: seq<Frame>, xAll: Receiver, yAll: Receiver)
    requires Replies(x, y, replies, xAll, yAll) && y'.recv == y.recv
    requires y'.send.lastMessageNo >= y.send.lastMessageNo
    requires forall k :: k in y'.live && !k.reply ==> k in y.live || k.number > y.send.lastMessageNo
    ensures Replies(x, y', replies, xAll, yAll)
  {
  }
}
