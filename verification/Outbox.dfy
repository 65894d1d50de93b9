/** The outbox: where requeue puts a message, who waits how long, and who begins first
    (MessageQueue and BLIPIO::requeue in src/blip/BLIPConnection.cc). */
module Outbox {
  import opened Bytes
  import opened MessagesOut

  // ---------------------------------------------------------------- insertion

  /** The backward scan of requeue from position j: where an urgent message goes. */
  function ScanBack(q: seq<OutMsg>, isNew: bool, j: nat): nat
    requires j < |q|
  {
    if q[j].urgent then (if j + 1 != |q| then j + 2 else j + 1)
    else if isNew && q[j].bytesSent == 0 then j + 1
    else if j == 0 then 1
    else ScanBack(q, isNew, j - 1)
  }

  /** The position before which requeue inserts m. */
  function InsertPos(q: seq<OutMsg>, m: OutMsg): (i: nat)
    ensures i <= |q|
  {
    if m.urgent && |q| > 1 then
      ScanBackRule(q, m.bytesSent == 0, |q| - 1);
      ScanBack(q, m.bytesSent == 0, |q| - 1)
    else |q|
  }

  function InsertAt(q: seq<OutMsg>, i: nat, m: OutMsg): seq<OutMsg>
    requires i <= |q|
  {
    q[..i] + [m] + q[i..]
  }

  function Requeue(q: seq<OutMsg>, m: OutMsg): seq<OutMsg> {
    InsertAt(q, InsertPos(q, m), m)
  }

  /** The place of an urgent message: behind every urgent one and, if it is new, behind every message
      that has not begun. Right before it stands a normal message, unless the queue ends with an urgent
      one; that is the first after the last urgent message, or the last that has not begun, or the
      first of the queue. */
  ghost predicate UrgentPlace(q: seq<OutMsg>, isNew: bool, top: nat, i: nat) {
    && 1 <= i <= |q|
    && (forall k :: i <= k <= top && k < |q| ==> !q[k].urgent && (isNew ==> q[k].bytesSent != 0))
    && (i < |q| ==> !q[i - 1].urgent)
    && (|| (i == |q| && q[i - 1].urgent)
        || (i >= 2 && q[i - 2].urgent)
        || (isNew && q[i - 1].bytesSent == 0)
        || i == 1)
  }

  lemma {:induction false} ScanBackRule(q: seq<OutMsg>, isNew: bool, j: nat)
    requires 1 < |q| && j < |q|
    requires forall k :: j < k < |q| ==> !q[k].urgent && (isNew ==> q[k].bytesSent != 0)
    ensures UrgentPlace(q, isNew, |q| - 1, ScanBack(q, isNew, j))
    decreases j
  {
    if !q[j].urgent && !(isNew && q[j].bytesSent == 0) && j > 0 {
      ScanBackRule(q, isNew, j - 1);
    }
  }

  /** The rule of section 3.2 of the BLIP protocol holds of every insertion. */
  lemma InsertPosRule(q: seq<OutMsg>, m: OutMsg)
    ensures !m.urgent || |q| <= 1 ==> InsertPos(q, m) == |q|
    ensures m.urgent && |q| > 1 ==> UrgentPlace(q, m.bytesSent == 0, |q| - 1, InsertPos(q, m))
  {
    if m.urgent && |q| > 1 {
      ScanBackRule(q, m.bytesSent == 0, |q| - 1);
    }
  }

  /** No two places obey it. */
  lemma OnePlace(q: seq<OutMsg>, isNew: bool, i: nat, j: nat)
    requires |q| > 1 && UrgentPlace(q, isNew, |q| - 1, i) && UrgentPlace(q, isNew, |q| - 1, j)
    ensures i == j
  {
  }

  /** So the rule tells the place. */
  lemma PlaceIff(q: seq<OutMsg>, m: OutMsg, i: nat)
    requires m.urgent && |q| > 1
    ensures UrgentPlace(q, m.bytesSent == 0, |q| - 1, i) <==> i == InsertPos(q, m)
  {
    hide UrgentPlace, InsertPos;
    InsertPosRule(q, m);
    if UrgentPlace(q, m.bytesSent == 0, |q| - 1, i) {
      OnePlace(q, m.bytesSent == 0, i, InsertPos(q, m));
    }
  }

  lemma RequeueMultiset(q: seq<OutMsg>, m: OutMsg)
    ensures multiset(Requeue(q, m)) == multiset(q) + multiset{m}
  {
    var i := InsertPos(q, m);
    assert q == q[..i] + q[i..];
  }

  // ---------------------------------------------------------------- no starvation

  datatype Op = Pop | Put(msg: OutMsg)

  function Apply(q: seq<OutMsg>, op: Op): seq<OutMsg> {
    match op
    case Pop => if q == [] then [] else q[1..]
    case Put(m) => Requeue(q, m)
  }

  function Run(q: seq<OutMsg>, ops: seq<Op>): seq<OutMsg>
    decreases |ops|
  {
    if ops == [] then q else Run(Apply(q, ops[0]), ops[1..])
  }

  function Pops(ops: seq<Op>): nat
    decreases |ops|
  {
    if ops == [] then 0 else (if ops[0].Pop? then 1 else 0) + Pops(ops[1..])
  }

  /** Where the message at position p is after op; None once it is popped. */
  function Track(q: seq<OutMsg>, p: nat, op: Op): Option<nat> {
    match op
    case Pop => if p == 0 then None else Some(p - 1)
    case Put(m) => Some(if InsertPos(q, m) <= p then p + 1 else p)
  }

  function TrackAll(q: seq<OutMsg>, p: nat, ops: seq<Op>): Option<nat>
    decreases |ops|
  {
    if ops == [] then Some(p)
    else match Track(q, p, ops[0])
      case None => None
      case Some(p') => TrackAll(Apply(q, ops[0]), p', ops[1..])
  }

  lemma TrackFollows(q: seq<OutMsg>, p: nat, op: Op)
    requires p < |q|
    ensures var t := Track(q, p, op);
      t.Some? ==> t.value < |Apply(q, op)| && Apply(q, op)[t.value] == q[p]
  {
  }

  /** TrackAll follows one and the same message. */
  lemma {:induction false} TrackAllFollows(q: seq<OutMsg>, p: nat, ops: seq<Op>)
    requires p < |q|
    ensures var t := TrackAll(q, p, ops);
      t.Some? ==> t.value < |Run(q, ops)| && Run(q, ops)[t.value] == q[p]
    decreases |ops|
  {
    if ops != [] {
      TrackFollows(q, p, ops[0]);
      var t := Track(q, p, ops[0]);
      if t.Some? {
        TrackAllFollows(Apply(q, ops[0]), t.value, ops[1..]);
      }
    }
  }

  /** How many normal messages stand right before position p. */
  function NormalsBefore(q: seq<OutMsg>, p: nat): (k: nat)
    requires p <= |q|
    ensures k <= p
  {
    if p == 0 || q[p - 1].urgent then 0 else 1 + NormalsBefore(q, p - 1)
  }

  lemma {:induction false} NormalsBeforeRange(q: seq<OutMsg>, a: nat, p: nat)
    requires a <= p <= |q| && forall k :: a <= k < p ==> !q[k].urgent
    ensures NormalsBefore(q, p) >= p - a
    ensures a > 0 && q[a - 1].urgent ==> NormalsBefore(q, p) == p - a
    decreases p
  {
    if p > a {
      NormalsBeforeRange(q, a, p - 1);
    }
  }

  lemma {:induction false} NormalsBeforePrefix(q: seq<OutMsg>, r: seq<OutMsg>, p: nat)
    requires p <= |q| && p <= |r| && q[..p] == r[..p]
    ensures NormalsBefore(q, p) == NormalsBefore(r, p)
  {
    if p > 0 {
      assert q[p - 1] == q[..p][p - 1] == r[..p][p - 1] == r[p - 1];
      assert q[..p - 1] == q[..p][..p - 1] == r[..p][..p - 1] == r[..p - 1];
      NormalsBeforePrefix(q, r, p - 1);
    }
  }

  lemma {:induction false} NormalsBeforeTail(q: seq<OutMsg>, p: nat)
    requires 0 < p <= |q|
    ensures NormalsBefore(q[1..], p - 1) <= NormalsBefore(q, p)
    decreases p
  {
    if p > 1 {
      NormalsBeforeTail(q, p - 1);
    }
  }

  function Wait(q: seq<OutMsg>, p: nat): nat
    requires p <= |q|
  {
    p + NormalsBefore(q, p)
  }

  /** Inserting any message never lengthens the wait of a normal one; popping shortens it. */
  lemma WaitStep(q: seq<OutMsg>, p: nat, op: Op)
    requires p < |q| && !q[p].urgent && !(op.Pop? && p == 0)
    ensures var r := Apply(q, op);
      var p' := Track(q, p, op).value;
      p' < |r| && Wait(r, p') + (if op.Pop? then 1 else 0) <= Wait(q, p)
  {
    hide InsertPos, ScanBack;
    match op
    case Pop => NormalsBeforeTail(q, p);
    case Put(m) =>
      var i := InsertPos(q, m);
      var r := Requeue(q, m);
      InsertPosRule(q, m);
      if i <= p {
        NormalsBeforeRange(q, i - 1, p);
        assert forall k :: i + 1 <= k < p + 1 ==> r[k] == q[k - 1];
        NormalsBeforeRange(r, i + 1, p + 1);
      } else {
        NormalsBeforePrefix(q, r, p);
      }
  }

  /** Whatever is inserted meanwhile, the pops survived by a normal message are paid for by its wait. */
  lemma {:induction false} WaitBound(q: seq<OutMsg>, p: nat, ops: seq<Op>)
    requires p < |q| && !q[p].urgent
    ensures var t := TrackAll(q, p, ops);
      t.Some? ==> t.value < |Run(q, ops)| && Pops(ops) + Wait(Run(q, ops), t.value) <= Wait(q, p)
    decreases |ops|
  {
    if ops != [] {
      var t := Track(q, p, ops[0]);
      if t.Some? {
        TrackFollows(q, p, ops[0]);
        WaitStep(q, p, ops[0]);
        WaitBound(Apply(q, ops[0]), t.value, ops[1..]);
      }
    }
  }

  /** No starvation: a normal message at position p is popped within 2p + 1 pops. */
  lemma {:induction false} NormalIsPopped(q: seq<OutMsg>, p: nat, ops: seq<Op>)
    requires p < |q| && !q[p].urgent && Pops(ops) >= 2 * p + 1
    ensures TrackAll(q, p, ops) == None
  {
    WaitBound(q, p, ops);
  }

  /** An urgent message at position p is popped by exactly the (p+1)th pop. */
  lemma {:induction false} UrgentIsPopped(q: seq<OutMsg>, p: nat, ops: seq<Op>)
    requires p < |q| && q[p].urgent
    ensures TrackAll(q, p, ops) == if Pops(ops) <= p then Some(p - Pops(ops)) else None
    decreases |ops|
  {
    if ops != [] {
      TrackFollows(q, p, ops[0]);
      var t := Track(q, p, ops[0]);
      if ops[0].Put? {
        InsertPosRule(q, ops[0].msg);
        assert InsertPos(q, ops[0].msg) > p;
      }
      if t.Some? {
        UrgentIsPopped(Apply(q, ops[0]), t.value, ops[1..]);
      }
    }
  }

  // ---------------------------------------------------------------- requests begin in order

  predicate IsNewRequest(m: OutMsg) {
    m.typ.RequestType? && m.bytesSent == 0
  }

  /** The numbers of the requests in q that have not sent a frame yet, in queue order. */
  function NewRequests(q: seq<OutMsg>): seq<nat> {
    if q == [] then [] else (if IsNewRequest(q[0]) then [q[0].number] else []) + NewRequests(q[1..])
  }

  lemma {:induction false} NewRequestsAppend(a: seq<OutMsg>, b: seq<OutMsg>)
    ensures NewRequests(a + b) == NewRequests(a) + NewRequests(b)
  {
    if a == [] {
      assert a + b == b;
    } else {
      NewRequestsAppend(a[1..], b);
      assert (a + b)[0] == a[0] && (a + b)[1..] == a[1..] + b;
      var head: seq<nat> := if IsNewRequest(a[0]) then [a[0].number] else [];
      assert head + (NewRequests(a[1..]) + NewRequests(b)) == head + NewRequests(a[1..]) + NewRequests(b);
    }
  }

  lemma {:induction false} NewRequestsNone(a: seq<OutMsg>)
    requires forall k :: 0 <= k < |a| ==> a[k].bytesSent != 0
    ensures NewRequests(a) == []
  {
    if a != [] {
      NewRequestsNone(a[1..]);
    }
  }

  /** A message that is queued for the first time begins after all those waiting to begin, urgent or
      not; a message that has begun does not change their order. */
  lemma BeginOrder(q: seq<OutMsg>, m: OutMsg)
    ensures NewRequests(Requeue(q, m)) == NewRequests(q) + (if IsNewRequest(m) then [m.number] else [])
  {
    var i := InsertPos(q, m);
    InsertPosRule(q, m);
    assert q == q[..i] + q[i..];
    NewRequestsAppend(q[..i], q[i..]);
    NewRequestsAppend(q[..i] + [m], q[i..]);
    NewRequestsAppend(q[..i], [m]);
    if m.bytesSent == 0 {
      NewRequestsNone(q[i..]);
    }
    assert NewRequests([m]) == if IsNewRequest(m) then [m.number] else [];
  }
}
