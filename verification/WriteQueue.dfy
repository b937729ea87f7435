/** The linked write queue of an HTTP session (http.c): buffers sent piecemeal, in order. */
module WriteQueue {
  import opened Bytes

  datatype Ret = RetOk | RetSent | RetSentClose | RetSentFragment | ErrSend

  class Session {
    /** The data buffers of the list, and how far the first has been sent. */
    var wBuffer: seq<seq<byte>>
    var wCurr: nat
    ghost var queued: seq<byte>
    ghost var sent: seq<byte>

    /** What was sent, followed by what is left of the buffers, is what was queued. */
    ghost predicate Valid()
      reads this
    {
      && (wBuffer == [] ==> wCurr == 0)
      && (wBuffer != [] ==> wCurr <= |wBuffer[0]|)
      && wCurr <= |Flatten(wBuffer)|
      && queued == sent + Flatten(wBuffer)[wCurr..]
    }

    constructor ()
      ensures Valid() && queued == [] && sent == []
    {
      wBuffer := [];
      wCurr := 0;
      queued, sent := [], [];
    }

    /** A data buffer joins the end of the list. */
    method Append(data: seq<byte>)
      requires Valid()
      modifies this
      ensures Valid() && queued == old(queued) + data && sent == old(sent)
    {
      FlattenSnoc(wBuffer, data);
      assert (Flatten(wBuffer) + data)[wCurr..] == Flatten(wBuffer)[wCurr..] + data;
      Regroup(sent, Flatten(wBuffer)[wCurr..], data);
      FirstStays(wBuffer, data);
      hide Flatten;
      wBuffer := wBuffer + [data];
      queued := queued + data;
    }

    /** How much one call offers to the socket. */
    function Offer(maxWLen: int): (n: nat)
      requires wBuffer != [] && wCurr <= |wBuffer[0]|
      reads this
      ensures n <= |wBuffer[0]| - wCurr && (n == |wBuffer[0]| - wCurr || (n == maxWLen && maxWLen > 0))
      ensures maxWLen > 0 ==> n <= maxWLen
    {
      if maxWLen > 0 && |wBuffer[0]| - wCurr > maxWLen then maxWLen else |wBuffer[0]| - wCurr
    }

    /** HTTP_sess_write, with what send returned and what the callback that asks for write events returned. */
    method Write(maxWLen: int, idleTimeout: int, accepted: int, callbackFails: bool) returns (r: Ret)
      requires Valid() && (wBuffer != [] ==> accepted <= Offer(maxWLen))
      modifies this
      ensures Valid() && queued == old(queued)
      ensures old(wBuffer) == [] ==> r == RetOk && unchanged(this)
      ensures old(wBuffer) != [] && accepted < 0 ==> r == ErrSend && unchanged(this)
      ensures old(wBuffer) != [] && accepted >= 0 ==>
                && sent == old(sent) + old(wBuffer[0][wCurr..wCurr + accepted])
                && (old(wCurr) + accepted == |old(wBuffer[0])| ==>
                      wBuffer == old(wBuffer)[1..] && r == if idleTimeout == 0 then RetSentClose else RetSent)
                && (old(wCurr) + accepted < |old(wBuffer[0])| ==>
                      wBuffer == old(wBuffer) && r == if callbackFails then ErrSend else RetSentFragment)
    {
      hide *;
      if wBuffer == [] {
        return RetOk;
      }
      if accepted < 0 {
        return ErrSend;
      }
      ValidIs();
      Sending(wBuffer, wCurr, accepted);
      Regroup(sent, wBuffer[0][wCurr..wCurr + accepted], Flatten(wBuffer)[wCurr + accepted..]);
      sent := sent + wBuffer[0][wCurr..wCurr + accepted];
      wCurr := wCurr + accepted;
      if wCurr >= |wBuffer[0]| {
        wCurr := 0;
        wBuffer := wBuffer[1..];
        r := if idleTimeout == 0 then RetSentClose else RetSent;
      } else {
        r := if callbackFails then ErrSend else RetSentFragment;
      }
      ValidIs();
    }

    lemma ValidIs()
      ensures Valid() <==>
              && (wBuffer == [] ==> wCurr == 0)
              && (wBuffer != [] ==> wCurr <= |wBuffer[0]|)
              && wCurr <= |Flatten(wBuffer)|
              && queued == sent + Flatten(wBuffer)[wCurr..]
      ensures Flatten(wBuffer)[0..] == Flatten(wBuffer)
    {
    }

    /** Once the list is empty, everything queued was sent, in order. */
    lemma Drained()
      requires Valid()
      ensures sent <= queued && (wBuffer == [] ==> sent == queued)
    {
    }
  }

  lemma FirstStays(buffers: seq<seq<byte>>, data: seq<byte>)
    ensures (buffers + [data])[0] == if buffers == [] then data else buffers[0]
    ensures |Flatten(buffers + [data])| == |Flatten(buffers)| + |data|
  {
    FlattenSnoc(buffers, data);
  }

  /** What one send takes off the front. */
  lemma Sending(buffers: seq<seq<byte>>, curr: nat, accepted: nat)
    requires buffers != [] && curr + accepted <= |buffers[0]|
    ensures curr + accepted <= |Flatten(buffers)|
    ensures Flatten(buffers)[curr..] == buffers[0][curr..curr + accepted] + Flatten(buffers)[curr + accepted..]
    ensures curr + accepted == |buffers[0]| ==> Flatten(buffers)[curr + accepted..] == Flatten(buffers[1..])
    ensures Flatten(buffers[1..])[0..] == Flatten(buffers[1..])
  {
    assert Flatten(buffers) == buffers[0] + Flatten(buffers[1..]);
  }

  /** Any sequence of calls keeps the octets in order: what was sent is a prefix of what was queued. */
  datatype Event = Queues(data: seq<byte>) | Writes(accepted: int, callbackFails: bool)

  method Run(maxWLen: int, idleTimeout: int, events: seq<Event>) returns (s: Session)
    ensures s.Valid() && s.queued == Flatten(Queued(events)) && s.sent <= s.queued
    ensures s.wBuffer == [] ==> s.sent == Flatten(Queued(events))
  {
    hide Flatten, Queued;
    s := new Session();
    var k := 0;
    assert events[..0] == [];
    QueuedNone();
    while k < |events|
      invariant k <= |events| && fresh(s) && s.Valid() && s.queued == Flatten(Queued(events[..k]))
    {
      QueuedNext(events, k);
      match events[k] {
        case Queues(data) =>
          s.Append(data);
        case Writes(accepted, callbackFails) =>
          var offer := if s.wBuffer == [] then 0 else s.Offer(maxWLen);
          var r := s.Write(maxWLen, idleTimeout, if accepted > offer then offer else accepted, callbackFails);
      }
      k := k + 1;
    }
    assert events[..|events|] == events;
    s.Drained();
  }

  /** The buffers queued by a run. */
  function Queued(events: seq<Event>): seq<seq<byte>> {
    if events == [] then []
    else
      var e := events[|events| - 1];
      Queued(events[..|events| - 1]) + if e.Queues? then [e.data] else []
  }

  lemma QueuedNone()
    ensures Flatten(Queued([])) == []
  {
  }

  lemma QueuedNext(events: seq<Event>, k: nat)
    requires k < |events|
    ensures var before := Flatten(Queued(events[..k]));
            Flatten(Queued(events[..k + 1])) == if events[k].Queues? then before + events[k].data else before
  {
    assert events[..k + 1][..k] == events[..k];
    var q := Queued(events[..k]);
    if events[k].Queues? {
      FlattenSnoc(q, events[k].data);
    } else {
      assert q + [] == q;
    }
  }
}
