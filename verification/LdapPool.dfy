/** The LDAP client's pool of connections (ldap_client.c): states, queues, limits and write buffers. */
module LdapPool {
  import opened Bytes
  import opened RoundRobin

  const MAX_CLIENT := 1024
  const READ_BUFFER := 131072
  const WRITE_BUFFER := 131072

  datatype State = Open | Connecting | Ready | Waiting

  datatype Ret = RetOk | RetSent | RetReady | ErrSend | ErrConnect | ErrUnavailable | MaxConnection | UnexpectedReceive

  /** ADJUST_SIZE: up to a multiple. */
  function AdjustSize(len: nat): (n: nat)
    ensures len <= n < len + 131072 && n % 131072 == 0
  {
    if len % WRITE_BUFFER > 0 then len + (WRITE_BUFFER - len % WRITE_BUFFER) else len
  }

  /** LDAP_CLNT */
  class Client {
    const no: nat
    var state: State
    var concurrentCount: int
    var wBuffer: seq<byte>
    var wSize: nat
    var wCurr: nat
    var wLen: nat
    ghost var queued: seq<byte>
    ghost var sent: seq<byte>

    /** What was sent, followed by what the buffer still holds, is what was queued. */
    ghost predicate Conserves()
      reads `wBuffer, `wSize, `wCurr, `wLen, `queued, `sent
    {
      && wCurr <= wLen <= wSize <= |wBuffer|
      && queued == sent + wBuffer[wCurr..wLen]
    }

    constructor (i: nat)
      ensures no == i && state == Open && concurrentCount == 0
      ensures Conserves() && queued == [] && sent == []
    {
      no := i;
      state := Open;
      concurrentCount := 0;
      wBuffer := Zeros(READ_BUFFER);
      wSize, wCurr, wLen := 0, 0, 0;
      queued, sent := [], [];
    }

    /** Append a message to the write buffer, growing it first when it is too small. */
    method Store(ber: seq<byte>)
      requires Conserves()
      modifies `wBuffer, `wSize, `wLen, `queued
      ensures Conserves() && queued == old(queued) + ber
    {
      ghost var unsent := wBuffer[wCurr..wLen];
      if wLen + |ber| > wSize {
        var len := AdjustSize(wLen + |ber|);
        wSize := len;
        wBuffer := wBuffer[..wLen] + Zeros(len - wLen);
      }
      wBuffer := wBuffer[..wLen] + ber + wBuffer[wLen + |ber|..];
      wLen := wLen + |ber|;
      queued := queued + ber;
      assert wBuffer[wCurr..wLen] == unsent + ber;
      Regroup(sent, unsent, ber);
    }

    /** How much one call offers to the socket. */
    function Offer(limit: int): (n: nat)
      requires wCurr <= wLen
      reads this
      ensures n <= wLen - wCurr && (n == wLen - wCurr || (n == limit && limit > 0))
      ensures limit > 0 ==> n <= limit
    {
      if limit > 0 && wLen - wCurr > limit then limit else wLen - wCurr
    }

    /** The buffer part of LDAP_clnt_write, with what send returned; LDAP_sess_write has a fixed limit. */
    method Drain(limit: int, accepted: int) returns (r: Ret)
      requires Conserves() && accepted <= Offer(limit)
      modifies `wCurr, `wLen, `sent
      ensures Conserves()
      ensures wLen == old(wLen) || (r == RetSent && wLen == 0)
      ensures old(wLen) == 0 ==> r == RetOk && sent == old(sent)
      ensures old(wLen) > 0 && accepted < 0 ==> r == ErrSend && sent == old(sent)
      ensures old(wLen) > 0 && accepted >= 0 ==>
                && sent == old(sent) + old(wBuffer[wCurr..wCurr + accepted])
                && (r == RetSent <==> sent == queued) && (r == RetSent || r == RetOk)
    {
      if wLen == 0 {
        return RetOk;
      }
      if accepted < 0 {
        return ErrSend;
      }
      ghost var was := wCurr;
      Regroup(sent, wBuffer[was..was + accepted], wBuffer[was + accepted..wLen]);
      assert wBuffer[was..wLen] == wBuffer[was..was + accepted] + wBuffer[was + accepted..wLen];
      sent := sent + wBuffer[was..was + accepted];
      wCurr := wCurr + accepted;
      if wCurr < wLen {
        r := RetOk;
        assert |queued| > |sent|;
      } else {
        wCurr := 0;
        wLen := 0;
        r := RetSent;
      }
    }
  }

  // ---- Queues of connections ----

  /** LINKEDLIST_REMOVE on the sequence a list stands for. */
  function Removed(s: seq<Client>, c: Client): seq<Client> {
    if s == [] then [] else if s[0] == c then s[1..] else [s[0]] + Removed(s[1..], c)
  }

  lemma {:induction false} RemovedFacts(s: seq<Client>, c: Client)
    requires Distinct(s)
    ensures Distinct(Removed(s, c)) && c !in Removed(s, c)
    ensures forall x :: x in Removed(s, c) ==> x in s && x != c
    ensures forall x :: x in s && x != c ==> x in Removed(s, c)
    ensures |Removed(s, c)| == |s| - if c in s then 1 else 0
  {
    if s != [] {
      var t := s[1..];
      assert s == [s[0]] + t;
      assert forall i :: 0 <= i < |t| ==> t[i] == s[i + 1] != s[0];
      assert s[0] !in t && forall x :: x in s <==> x == s[0] || x in t;
      RemovedFacts(t, c);
      if s[0] == c {
        assert Removed(s, c) == t;
      } else {
        assert Removed(s, c) == [s[0]] + Removed(t, c);
        assert forall x :: x in Removed(s, c) <==> x == s[0] || x in Removed(t, c);
      }
    }
  }

  /** What is left is what stood in front of c and what stood behind it. */
  lemma {:induction false} RemovedAt(a: seq<Client>, c: Client, b: seq<Client>)
    requires c !in a
    ensures Removed(a + [c] + b, c) == a + b
  {
    var s := a + [c] + b;
    if a == [] {
      assert s[0] == c && s[1..] == b && a + b == b;
    } else {
      assert s[0] == a[0] && s[1..] == a[1..] + [c] + b;
      RemovedAt(a[1..], c, b);
      assert [a[0]] + (a[1..] + b) == a + b;
    }
  }

  lemma RemovedSplit(s: seq<Client>, c: Client)
    requires Distinct(s)
    ensures forall i :: 0 <= i < |s| && s[i] == c ==> Removed(s, c) == s[..i] + s[i + 1..]
  {
    forall i | 0 <= i < |s| && s[i] == c
      ensures Removed(s, c) == s[..i] + s[i + 1..]
    {
      assert s == s[..i] + [c] + s[i + 1..];
      assert forall j :: 0 <= j < i ==> s[j] != c;
      RemovedAt(s[..i], c, s[i + 1..]);
    }
  }

  lemma {:induction false} RemovedMembers(s: seq<Client>, c: Client?)
    ensures c != null ==> forall x :: x in Removed(s, c) ==> x in s
  {
    if s != [] {
      assert s == [s[0]] + s[1..];
      RemovedMembers(s[1..], c);
    }
  }

  /** The seats of the ready connections, each with room. */
  lemma {:induction false} SeatsSeated(s: seq<Client>, limit: int)
    requires Distinct(s) && forall c :: c in s ==> c.concurrentCount < limit
    ensures Seated(Seats(s, limit)) && |Seats(s, limit)| == |s|
    ensures forall i :: 0 <= i < |s| ==> Seats(s, limit)[i] == Seat(s[i], limit - s[i].concurrentCount, 0)
  {
    if s != [] {
      assert s == [s[0]] + s[1..];
      SeatsSeated(s[1..], limit);
    }
  }

  /** However many messages a flush deals, none of two ready connections is dealt two more than one that stays ready. */
  lemma FairShare(s: seq<Client>, limit: int, n: nat, i: nat, j: nat)
    requires Distinct(s) && (forall c :: c in s ==> c.concurrentCount < limit) && i < |s| && j < |s|
    requires s[j].concurrentCount + Count(Deal(Seats(s, limit), n), s[j]) < limit
    ensures Count(Deal(Seats(s, limit), n), s[i]) <= Count(Deal(Seats(s, limit), n), s[j]) + 1
  {
    SeatsSeated(s, limit);
    Fair(Seats(s, limit), n, i, j);
  }

  lemma RemovedHead(s: seq<Client>)
    requires s != []
    ensures Removed(s, s[0]) == s[1..]
  {
  }

  /** A live connection is in exactly one queue, and in the slot it names. */
  ghost predicate Linked(slots: seq<Client?>, ready: seq<Client>, wait: seq<Client>) {
    && |slots| == MAX_CLIENT
    && Distinct(ready) && Distinct(wait)
    && (forall c :: c in ready ==> c !in wait && c.no < MAX_CLIENT && slots[c.no] == c)
    && (forall c :: c in wait ==> c.no < MAX_CLIENT && slots[c.no] == c)
    && (forall i :: 0 <= i < |slots| && slots[i] != null ==>
          slots[i].no == i && (slots[i] in ready || slots[i] in wait))
  }

  lemma LinkedParts(slots: seq<Client?>, ready: seq<Client>, wait: seq<Client>)
    requires Linked(slots, ready, wait)
    ensures |slots| == MAX_CLIENT && Distinct(ready) && Distinct(wait)
  {
  }

  lemma LinkedSlot(slots: seq<Client?>, ready: seq<Client>, wait: seq<Client>, i: nat)
    requires Linked(slots, ready, wait) && i < |slots| && slots[i] != null
    ensures slots[i].no == i && (slots[i] in ready || slots[i] in wait)
  {
  }

  lemma LinkedMember(slots: seq<Client?>, ready: seq<Client>, wait: seq<Client>, c: Client)
    requires Linked(slots, ready, wait) && (c in ready || c in wait)
    ensures c.no < |slots| == MAX_CLIENT && slots[c.no] == c && !(c in ready && c in wait)
  {
  }

  lemma LinkedAdd(slots: seq<Client?>, ready: seq<Client>, wait: seq<Client>, c: Client)
    requires Linked(slots, ready, wait) && c.no < |slots| && slots[c.no] == null
    ensures Linked(slots[c.no := c], ready, wait + [c])
  {
  }

  lemma LinkedToWait(slots: seq<Client?>, ready: seq<Client>, wait: seq<Client>, c: Client)
    requires Linked(slots, ready, wait) && c in ready
    ensures Linked(slots, Removed(ready, c), wait + [c]) && |Removed(ready, c)| == |ready| - 1
  {
    RemovedFacts(ready, c);
  }

  lemma LinkedToReady(slots: seq<Client?>, ready: seq<Client>, wait: seq<Client>, c: Client)
    requires Linked(slots, ready, wait) && c in wait
    ensures Linked(slots, ready + [c], Removed(wait, c)) && |Removed(wait, c)| == |wait| - 1
  {
    RemovedFacts(wait, c);
  }

  lemma LinkedRotate(slots: seq<Client?>, ready: seq<Client>, wait: seq<Client>, c: Client)
    requires Linked(slots, ready, wait) && c in ready
    ensures Linked(slots, Removed(ready, c) + [c], wait) && |Removed(ready, c)| == |ready| - 1
  {
    RemovedFacts(ready, c);
  }

  lemma LinkedDropReady(slots: seq<Client?>, ready: seq<Client>, wait: seq<Client>, c: Client)
    requires Linked(slots, ready, wait) && c in ready && c.no < |slots|
    ensures Linked(slots[c.no := null], Removed(ready, c), wait) && |Removed(ready, c)| == |ready| - 1
  {
    RemovedFacts(ready, c);
  }

  lemma LinkedDropWait(slots: seq<Client?>, ready: seq<Client>, wait: seq<Client>, c: Client)
    requires Linked(slots, ready, wait) && c in wait && c.no < |slots|
    ensures Linked(slots[c.no := null], ready, Removed(wait, c)) && |Removed(wait, c)| == |wait| - 1
  {
    RemovedFacts(wait, c);
  }

  /** The requests outstanding on the connections of a queue. */
  ghost function Load(s: seq<Client>): int
    reads s`concurrentCount
  {
    if s == [] then 0 else s[0].concurrentCount + Load(s[1..])
  }

  lemma {:induction false} LoadAppend(s: seq<Client>, c: Client)
    ensures Load(s + [c]) == Load(s) + c.concurrentCount
  {
    if s == [] {
      assert s + [c] == [c];
    } else {
      assert (s + [c])[1..] == s[1..] + [c];
      LoadAppend(s[1..], c);
    }
  }

  lemma {:induction false} LoadRemoved(s: seq<Client>, c: Client)
    requires c in s
    ensures Load(s) == Load(Removed(s, c)) + c.concurrentCount
  {
    if s[0] != c {
      assert Removed(s, c)[1..] == Removed(s[1..], c);
      LoadRemoved(s[1..], c);
    }
  }

  /** A live connection's share of the load. */
  lemma LoadBoth(slots: seq<Client?>, ready: seq<Client>, wait: seq<Client>, c: Client)
    requires Linked(slots, ready, wait) && (c in ready || c in wait)
    ensures Load(ready) + Load(wait) == Load(Removed(ready, c)) + Load(Removed(wait, c)) + c.concurrentCount
    ensures c !in Removed(ready, c) && c !in Removed(wait, c)
  {
    RemovedFacts(ready, c);
    RemovedFacts(wait, c);
    RemovedNone(ready, c);
    RemovedNone(wait, c);
    if c in ready {
      LoadRemoved(ready, c);
    } else {
      LoadRemoved(wait, c);
    }
  }

  /** The slots in use. */
  ghost function Occupied(slots: seq<Client?>): nat {
    if slots == [] then 0 else (if slots[0] == null then 0 else 1) + Occupied(slots[1..])
  }

  lemma {:induction false} OccupiedUpdate(slots: seq<Client?>, i: nat, c: Client?)
    requires i < |slots|
    ensures Occupied(slots[i := c])
            == Occupied(slots) - (if slots[i] == null then 0 else 1) + if c == null then 0 else 1
  {
    if i == 0 {
      assert slots[i := c][1..] == slots[1..];
    } else {
      assert slots[i := c][1..] == slots[1..][i - 1 := c];
      OccupiedUpdate(slots[1..], i - 1, c);
    }
  }

  lemma {:induction false} OccupiedAll(slots: seq<Client?>)
    ensures Occupied(slots) <= |slots|
    ensures Occupied(slots) == |slots| <==> forall i :: 0 <= i < |slots| ==> slots[i] != null
  {
    if slots != [] {
      OccupiedAll(slots[1..]);
      assert slots == [slots[0]] + slots[1..];
    }
  }

  // ---- Who gets what ----

  /** The ready queue as seats with room up to the limit. */
  ghost function Seats(s: seq<Client>, limit: int): seq<Seat<Client>>
    reads s`concurrentCount
  {
    if s == [] then []
    else [Seat(s[0], if s[0].concurrentCount < limit then limit - s[0].concurrentCount else 0, 0)] + Seats(s[1..], limit)
  }

  lemma {:induction false} SeatsAppend(s: seq<Client>, c: Client, limit: int)
    ensures Seats(s + [c], limit)
            == Seats(s, limit) + [Seat(c, if c.concurrentCount < limit then limit - c.concurrentCount else 0, 0)]
  {
    if s == [] {
      assert s + [c] == [c];
    } else {
      assert (s + [c])[1..] == s[1..] + [c];
      SeatsAppend(s[1..], c, limit);
    }
  }

  lemma HeadSeat(slots: seq<Client?>, ready: seq<Client>, wait: seq<Client>, limit: int)
    requires Linked(slots, ready, wait) && ready != [] && ready[0].concurrentCount < limit
    ensures Seats(ready, limit)
            == [Seat(ready[0], limit - ready[0].concurrentCount, 0)] + Seats(ready[1..], limit)
    ensures ready[0] !in ready[1..]
  {
  }

  /** One turn of dealing, whatever was got before. */
  lemma DealStep<T>(seat: Seat<T>, rest: seq<Seat<T>>, next: seq<Seat<T>>, n: nat)
    requires n > 0 && seat.room > 0
    requires next == rest + if seat.room > 1 then [Seat(seat.who, seat.room - 1, 0)] else []
    ensures Deal([seat] + rest, n) == [seat.who] + Deal(next, n - 1)
  {
    assert ([seat] + rest)[1..] == rest;
    DealAlike(Turn([seat] + rest), next, n - 1);
  }

  /** The messages that went to c, in order. */
  ghost function Share(to: seq<Client>, msgs: seq<seq<byte>>, c: Client): seq<seq<byte>>
    requires |to| <= |msgs|
  {
    if to == [] then []
    else Share(to[..|to| - 1], msgs, c) + if to[|to| - 1] == c then [msgs[|to| - 1]] else []
  }

  /** What a connection has been dealt: its bytes in order, and one request outstanding for each message. */
  ghost predicate Served(c: Client, to: seq<Client>, msgs: seq<seq<byte>>, queued: seq<byte>, sent: seq<byte>, count: int)
    requires |to| <= |msgs|
    reads c
  {
    && c.queued == queued + Flatten(Share(to, msgs, c))
    && c.sent == sent && c.concurrentCount == count + Count(to, c)
  }

  /** What each connection had at some moment. */
  datatype Record = Record(queued: seq<byte>, sent: seq<byte>, count: int)

  ghost function Records(s: seq<Client>): (r: seq<Record>)
    reads s
    ensures |r| == |s|
    ensures forall i :: 0 <= i < |s| ==> r[i] == Record(s[i].queued, s[i].sent, s[i].concurrentCount)
  {
    if s == [] then [] else [Record(s[0].queued, s[0].sent, s[0].concurrentCount)] + Records(s[1..])
  }

  ghost predicate AllServed(s: seq<Client>, was: seq<Record>, to: seq<Client>, msgs: seq<seq<byte>>)
    requires |s| == |was| && |to| <= |msgs|
    reads s
  {
    forall i :: 0 <= i < |s| ==> Served(s[i], to, msgs, was[i].queued, was[i].sent, was[i].count)
  }

  lemma NoneServed(s: seq<Client>, msgs: seq<seq<byte>>)
    ensures AllServed(s, Records(s), [], msgs)
  {
    forall i | 0 <= i < |s|
      ensures Served(s[i], [], msgs, s[i].queued, s[i].sent, s[i].concurrentCount)
    {
      assert Flatten(Share([], msgs, s[i])) == [];
    }
  }

  lemma ServedNext(c: Client, lc: Client, to: seq<Client>, msgs: seq<seq<byte>>, queued: seq<byte>, sent: seq<byte>,
                   count: int, queuedBefore: seq<byte>, sentBefore: seq<byte>, countBefore: int)
    requires |to| < |msgs|
    requires queuedBefore == queued + Flatten(Share(to, msgs, c)) && sentBefore == sent
    requires countBefore == count + Count(to, c)
    requires c.queued == queuedBefore + (if c == lc then msgs[|to|] else []) && c.sent == sentBefore
    requires c.concurrentCount == countBefore + if c == lc then 1 else 0
    ensures Served(c, to + [lc], msgs, queued, sent, count)
  {
    assert (to + [lc])[..|to|] == to;
    CountSnoc(to, lc, c);
    if c == lc {
      FlattenSnoc(Share(to, msgs, c), msgs[|to|]);
      Regroup(queued, Flatten(Share(to, msgs, c)), msgs[|to|]);
    } else {
      assert Share(to, msgs, c) + [] == Share(to, msgs, c);
    }
  }

  lemma ServedRecords(s: seq<Client>, was: seq<Record>, to: seq<Client>, msgs: seq<seq<byte>>)
    requires |s| == |was| && |to| <= |msgs| && AllServed(s, was, to, msgs)
    ensures forall i :: 0 <= i < |s| ==>
              && Records(s)[i].queued == was[i].queued + Flatten(Share(to, msgs, s[i]))
              && Records(s)[i].sent == was[i].sent && Records(s)[i].count == was[i].count + Count(to, s[i])
    ensures forall i :: 0 <= i < |s| ==> Records(s)[i] == Record(s[i].queued, s[i].sent, s[i].concurrentCount)
  {
    forall i | 0 <= i < |s|
      ensures Records(s)[i].queued == was[i].queued + Flatten(Share(to, msgs, s[i]))
      ensures Records(s)[i].sent == was[i].sent && Records(s)[i].count == was[i].count + Count(to, s[i])
    {
      assert Served(s[i], to, msgs, was[i].queued, was[i].sent, was[i].count);
    }
  }

  /** One more message to lc, whose records before that were `before`. */
  lemma AllServedNext(s: seq<Client>, lc: Client, was: seq<Record>, to: seq<Client>, msgs: seq<seq<byte>>,
                      before: seq<Record>)
    requires |s| == |was| == |before| && |to| < |msgs|
    requires forall i :: 0 <= i < |s| ==>
               && before[i].queued == was[i].queued + Flatten(Share(to, msgs, s[i]))
               && before[i].sent == was[i].sent && before[i].count == was[i].count + Count(to, s[i])
    requires forall i :: 0 <= i < |s| ==>
               && s[i].queued == before[i].queued + (if s[i] == lc then msgs[|to|] else [])
               && s[i].sent == before[i].sent
               && s[i].concurrentCount == before[i].count + if s[i] == lc then 1 else 0
    ensures AllServed(s, was, to + [lc], msgs)
  {
    hide *;
    forall i | 0 <= i < |s|
      ensures Served(s[i], to + [lc], msgs, was[i].queued, was[i].sent, was[i].count)
    {
      ServedNext(s[i], lc, to, msgs, was[i].queued, was[i].sent, was[i].count, before[i].queued, before[i].sent,
                 before[i].count);
    }
    ServedAll(s, was, to + [lc], msgs);
  }

  lemma ServedAll(s: seq<Client>, was: seq<Record>, to: seq<Client>, msgs: seq<seq<byte>>)
    requires |s| == |was| && |to| <= |msgs|
    requires forall i :: 0 <= i < |s| ==> Served(s[i], to, msgs, was[i].queued, was[i].sent, was[i].count)
    ensures AllServed(s, was, to, msgs)
  {
  }

  /** LDAP_t */
  class Pool {
    const maxClient: int
    const maxConcurrent: int
    const maxWbuffer: int
    var clientCount: int
    var queueCount: int
    var sentCount: int
    var recvCount: int
    const clients: array<Client?>
    var readyQueue: seq<Client>
    var waitQueue: seq<Client>
    var sendQueue: seq<seq<byte>>
    /** Messages dealt, responses taken, and requests that were outstanding when their connection closed. */
    ghost var dealt: int
    ghost var answered: int
    ghost var dropped: int

    /** What a connection may have outstanding: one request even when the configured limit is lower. */
    ghost function Limit(): int {
      if maxConcurrent < 1 then 1 else maxConcurrent
    }

    ghost predicate ReadyOk(c: Client)
      reads c
    {
      c.state == Ready && 0 <= c.concurrentCount < Limit() && c.Conserves()
    }

    ghost predicate WaitOk(c: Client)
      reads c
    {
      && c.state != Ready && c.Conserves()
      && (c.state == Waiting ==> 0 <= c.concurrentCount && maxConcurrent <= c.concurrentCount <= Limit())
      && (c.state != Waiting ==> c.concurrentCount == 0)
    }

    ghost predicate Valid()
      reads this, clients, readyQueue, waitQueue
    {
      && Linked(clients[..], readyQueue, waitQueue)
      && (forall c :: c in readyQueue ==> ReadyOk(c))
      && (forall c :: c in waitQueue ==> WaitOk(c))
      && clientCount == |readyQueue| + |waitQueue| == Occupied(clients[..])
      && queueCount == |sendQueue|
      && Load(readyQueue) + Load(waitQueue) == dealt - answered - dropped
    }

    lemma ValidIs()
      ensures Valid() <==>
              && Linked(clients[..], readyQueue, waitQueue)
              && (forall c :: c in readyQueue ==> ReadyOk(c))
              && (forall c :: c in waitQueue ==> WaitOk(c))
              && clientCount == |readyQueue| + |waitQueue| == Occupied(clients[..])
              && queueCount == |sendQueue|
              && Load(readyQueue) + Load(waitQueue) == dealt - answered - dropped
    {
    }

    /** In the middle of a call: what is true of every connection but one. */
    ghost predicate ValidBut(lc: Client)
      reads this, clients, readyQueue, waitQueue
    {
      && Linked(clients[..], readyQueue, waitQueue)
      && (forall c :: c in readyQueue && c != lc ==> ReadyOk(c))
      && (forall c :: c in waitQueue && c != lc ==> WaitOk(c))
      && clientCount == |readyQueue| + |waitQueue| == Occupied(clients[..])
      && queueCount == |sendQueue|
      && Load(readyQueue) + Load(waitQueue) == dealt - answered - dropped
    }

    lemma ValidButIs(lc: Client)
      ensures ValidBut(lc) <==>
              && Linked(clients[..], readyQueue, waitQueue)
              && (forall c :: c in readyQueue && c != lc ==> ReadyOk(c))
              && (forall c :: c in waitQueue && c != lc ==> WaitOk(c))
              && clientCount == |readyQueue| + |waitQueue| == Occupied(clients[..])
              && queueCount == |sendQueue|
              && Load(readyQueue) + Load(waitQueue) == dealt - answered - dropped
      ensures ValidBut(lc) && (lc in readyQueue ==> ReadyOk(lc)) && (lc in waitQueue ==> WaitOk(lc)) ==> Valid()
    {
    }

    lemma StateIs(c: Client)
      ensures ReadyOk(c) <==> c.state == Ready && 0 <= c.concurrentCount < Limit() && c.Conserves()
      ensures WaitOk(c) <==>
              && c.state != Ready && c.Conserves()
              && (c.state == Waiting ==> 0 <= c.concurrentCount && maxConcurrent <= c.concurrentCount <= Limit())
              && (c.state != Waiting ==> c.concurrentCount == 0)
      ensures Limit() == if maxConcurrent < 1 then 1 else maxConcurrent
    {
    }

    /** LDAP_clnt_init */
    constructor (wbuffer: int, concurrent: int, max_client: int)
      ensures Valid() && fresh(clients) && readyQueue == [] && waitQueue == [] && sendQueue == []
      ensures maxClient == max_client && maxConcurrent == concurrent && maxWbuffer == wbuffer
      ensures dealt == 0 && answered == 0 && dropped == 0
    {
      maxClient, maxConcurrent, maxWbuffer := max_client, concurrent, wbuffer;
      clientCount, queueCount, sentCount, recvCount := 0, 0, 0, 0;
      clients := new Client?[MAX_CLIENT](_ => null);
      readyQueue, waitQueue, sendQueue := [], [], [];
      dealt, answered, dropped := 0, 0, 0;
      new;
      NoneOccupied(clients[..]);
    }

    /** LDAP_clnt_open, with whether the socket could be opened. */
    method Open(connected: bool) returns (r: Ret, lc: Client?)
      requires Valid()
      modifies this, clients
      ensures Valid()
      ensures r == RetOk ==>
                && lc != null && fresh(lc) && lc.state == State.Open
                && (var n := lc.no;
                    n < MAX_CLIENT && old(clients[n]) == null && forall i :: 0 <= i < n ==> old(clients[i]) != null)
                && readyQueue == old(readyQueue) && waitQueue == old(waitQueue) + [lc] && lc.queued == []
      ensures r != RetOk ==> lc == null && unchanged(this) && unchanged(clients)
      ensures r == MaxConnection <==> old(clientCount) >= maxClient
      ensures r == RetOk <==> old(clientCount) < maxClient && connected && old(clientCount) < 1024
      ensures r == ErrUnavailable ==> old(clientCount) == 1024
      ensures sendQueue == old(sendQueue) && dealt == old(dealt) && answered == old(answered) && dropped == old(dropped)
    {
      hide Linked, Removed, Occupied, Load, Distinct;
      LinkedParts(clients[..], readyQueue, waitQueue);
      assert |clients[..]| == clients.Length;
      lc := null;
      if clientCount >= maxClient {
        return MaxConnection, null;
      }
      if !connected {
        return ErrConnect, null;
      }
      var i := 0;
      while i < MAX_CLIENT && clients[i] != null
        invariant 0 <= i <= MAX_CLIENT
        invariant forall k :: 0 <= k < i ==> clients[k] != null
      {
        i := i + 1;
      }
      OccupiedAll(clients[..]);
      assert i < MAX_CLIENT ==> clients[..][i] == null;
      if i >= MAX_CLIENT {
        return ErrUnavailable, null;
      }
      lc := new Client(i);
      OccupiedUpdate(clients[..], i, lc);
      LinkedAdd(clients[..], readyQueue, waitQueue, lc);
      LoadAppend(waitQueue, lc);
      ghost var slots := clients[..];
      clients[i] := lc;
      assert clients[..] == slots[i := lc];
      waitQueue := waitQueue + [lc];
      clientCount := clientCount + 1;
      r := RetOk;
    }

    /** LDAP_clnt_close, with whether the close of the socket fails: the connection is given up all the same. */
    method Close(no: nat, closeFails: bool) returns (r: Ret)
      requires Valid() && no < MAX_CLIENT
      modifies this, clients
      ensures Valid()
      ensures r == ErrUnavailable <==> old(clients[no]) == null
      ensures r == ErrUnavailable ==> unchanged(this) && unchanged(clients)
      ensures r != ErrUnavailable ==>
                && r == (if closeFails then ErrConnect else RetOk) && clients[..] == old(clients[..])[no := null]
                && (var lc := old(clients[no]);
                    && readyQueue == Removed(old(readyQueue), lc) && waitQueue == Removed(old(waitQueue), lc)
                    && dropped == old(dropped) + lc.concurrentCount)
      ensures r != ErrUnavailable ==>
                && (forall i :: 0 <= i < |old(readyQueue)| && old(readyQueue[i]) == old(clients[no]) ==>
                      readyQueue == old(readyQueue[..i] + readyQueue[i + 1..]) && waitQueue == old(waitQueue))
                && (forall i :: 0 <= i < |old(waitQueue)| && old(waitQueue[i]) == old(clients[no]) ==>
                      waitQueue == old(waitQueue[..i] + waitQueue[i + 1..]) && readyQueue == old(readyQueue))
      ensures sendQueue == old(sendQueue) && dealt == old(dealt) && answered == old(answered)
    {
      hide Linked, Removed, Occupied, Load, Distinct;
      LinkedParts(clients[..], readyQueue, waitQueue);
      assert |clients[..]| == clients.Length;
      var lc := clients[no];
      if lc == null {
        return ErrUnavailable;
      }
      ghost var slots := clients[..];
      LinkedSlot(slots, readyQueue, waitQueue, no);
      LinkedMember(slots, readyQueue, waitQueue, lc);
      RemovedFacts(readyQueue, lc);
      RemovedFacts(waitQueue, lc);
      RemovedNone(readyQueue, lc);
      RemovedNone(waitQueue, lc);
      RemovedSplit(readyQueue, lc);
      RemovedSplit(waitQueue, lc);
      OccupiedUpdate(slots, no, null);
      clients[no] := null;
      assert clients[..] == slots[no := null];
      dropped := dropped + lc.concurrentCount;
      if lc.state == Ready {
        LinkedDropReady(slots, readyQueue, waitQueue, lc);
        LoadRemoved(readyQueue, lc);
        readyQueue := Removed(readyQueue, lc);
      } else {
        LinkedDropWait(slots, readyQueue, waitQueue, lc);
        LoadRemoved(waitQueue, lc);
        waitQueue := Removed(waitQueue, lc);
      }
      clientCount := clientCount - 1;
      r := if closeFails then ErrConnect else RetOk;
    }

    /** From the wait queue to the end of the ready queue. */
    method MakeReady(lc: Client)
      requires ValidBut(lc) && lc in waitQueue && lc.Conserves() && 0 <= lc.concurrentCount < Limit()
      modifies `readyQueue, `waitQueue, lc`state
      ensures Valid() && lc.state == Ready
      ensures readyQueue == old(readyQueue) + [lc] && waitQueue == Removed(old(waitQueue), lc)
      ensures forall i :: 0 <= i < |old(waitQueue)| && old(waitQueue[i]) == lc ==>
                waitQueue == old(waitQueue[..i] + waitQueue[i + 1..])
    {
      hide *;
      ValidButIs(lc);
      LinkedParts(clients[..], readyQueue, waitQueue);
      LinkedMember(clients[..], readyQueue, waitQueue, lc);
      LinkedToReady(clients[..], readyQueue, waitQueue, lc);
      RemovedFacts(waitQueue, lc);
      RemovedSplit(waitQueue, lc);
      LoadRemoved(waitQueue, lc);
      LoadAppend(readyQueue, lc);
      lc.state := Ready;
      waitQueue := Removed(waitQueue, lc);
      readyQueue := readyQueue + [lc];
      StateIs(lc);
      ValidButIs(lc);
    }

    /** The connection's part of LDAP_clnt_read: with whether the bind was accepted, it becomes ready. */
    method Read(lc: Client, bound: bool) returns (r: Ret)
      requires Valid() && (lc in readyQueue || lc in waitQueue)
      modifies this, lc
      ensures Valid()
      ensures old(lc.state) == State.Open ==> r == ErrConnect
      ensures old(lc.state) == Connecting ==> r == if bound then RetReady else ErrConnect
      ensures old(lc.state) == Ready || old(lc.state) == Waiting ==> r == RetOk
      ensures r == RetReady ==>
                && lc.state == Ready
                && readyQueue == old(readyQueue) + [lc] && waitQueue == Removed(old(waitQueue), lc)
      ensures r == RetReady ==>
                forall i :: 0 <= i < |old(waitQueue)| && old(waitQueue[i]) == lc ==>
                  waitQueue == old(waitQueue[..i] + waitQueue[i + 1..])
      ensures r != RetReady ==> unchanged(this) && unchanged(lc)
      ensures sendQueue == old(sendQueue) && dealt == old(dealt) && answered == old(answered) && dropped == old(dropped)
      ensures lc.queued == old(lc.queued) && lc.sent == old(lc.sent)
    {
      hide Linked, Removed, Occupied, Load, Distinct;
      LinkedParts(clients[..], readyQueue, waitQueue);
      assert |clients[..]| == clients.Length;
      if lc.state == State.Open {
        return ErrConnect;
      } else if lc.state == Connecting {
        if !bound {
          return ErrConnect;
        }
        MakeReady(lc);
        return RetReady;
      }
      r := RetOk;
    }

    /** LDAP_clnt_write, with whether the bind request went out and what send returned. */
    method Write(lc: Client, bound: bool, accepted: int) returns (r: Ret)
      requires Valid() && (lc in readyQueue || lc in waitQueue) && lc.wCurr <= lc.wLen
                && accepted <= lc.Offer(maxWbuffer)
      modifies `sentCount, lc`state, lc`wCurr, lc`wLen, lc`sent
      ensures Valid()
      ensures old(lc.state) == State.Open ==> r == (if bound then RetOk else ErrConnect) && lc.sent == old(lc.sent)
      ensures old(lc.state) == State.Open ==> lc.state == if bound then Connecting else State.Open
      ensures old(lc.state) != State.Open ==> lc.state == old(lc.state)
      ensures old(lc.state) == Connecting ==> r == RetOk && unchanged(lc)
      ensures (old(lc.state) == Ready || old(lc.state) == Waiting) && (old(lc.wLen) == 0 || accepted < 0) ==>
                r == (if old(lc.wLen) == 0 then RetOk else ErrSend) && lc.sent == old(lc.sent)
      ensures (old(lc.state) == Ready || old(lc.state) == Waiting) && old(lc.wLen) > 0 && accepted >= 0 ==>
                && lc.sent == old(lc.sent) + old(lc.wBuffer[lc.wCurr..lc.wCurr + accepted])
                && r == if lc.sent == lc.queued then RetSent else RetOk
      ensures sentCount == old(sentCount) + if r == RetSent then 1 else 0
    {
      hide *;
      if lc.state == State.Open {
        r := ErrConnect;
        if bound {
          MakeConnecting(lc);
          r := RetOk;
        }
      } else if lc.state == Connecting {
        r := RetOk;
      } else {
        r := SendSome(lc, accepted);
      }
    }

    /** The bind request is out. */
    method MakeConnecting(lc: Client)
      requires Valid() && (lc in readyQueue || lc in waitQueue) && lc.state == State.Open
      modifies lc`state
      ensures Valid() && lc.state == Connecting
    {
      hide *;
      ValidIs();
      StateIs(lc);
      LinkedMember(clients[..], readyQueue, waitQueue, lc);
      lc.state := Connecting;
      StateIs(lc);
      ValidIs();
    }

    /** The buffer part, with the count of buffers that went out whole. */
    method SendSome(lc: Client, accepted: int) returns (r: Ret)
      requires Valid() && (lc in readyQueue || lc in waitQueue) && lc.wCurr <= lc.wLen
                && accepted <= lc.Offer(maxWbuffer)
      modifies `sentCount, lc`wCurr, lc`wLen, lc`sent
      ensures Valid()
      ensures old(lc.wLen) == 0 || accepted < 0 ==>
                r == (if old(lc.wLen) == 0 then RetOk else ErrSend) && lc.sent == old(lc.sent)
      ensures old(lc.wLen) > 0 && accepted >= 0 ==>
                && lc.sent == old(lc.sent) + old(lc.wBuffer[lc.wCurr..lc.wCurr + accepted])
                && r == if lc.sent == lc.queued then RetSent else RetOk
      ensures sentCount == old(sentCount) + if r == RetSent then 1 else 0
    {
      hide *;
      ValidButAll(lc);
      r := lc.Drain(maxWbuffer, accepted);
      StateIs(lc);
      ValidButIs(lc);
      if r == RetSent {
        CountSent();
      }
    }

    method CountSent()
      requires Valid()
      modifies `sentCount
      ensures Valid() && sentCount == old(sentCount) + 1
    {
      sentCount := sentCount + 1;
    }

    lemma ValidButAll(lc: Client)
      requires Valid() && (lc in readyQueue || lc in waitQueue)
      ensures ValidBut(lc) && lc.Conserves()
      ensures lc in readyQueue ==> ReadyOk(lc)
      ensures lc in waitQueue ==> WaitOk(lc)
    {
    }

    /** The tail of LDAP_clnt_decode when a response has arrived on `lc`. */
    method Respond(lc: Client) returns (r: Ret)
      requires Valid() && (lc in readyQueue || lc in waitQueue)
      modifies this, lc
      ensures Valid()
      ensures r == UnexpectedReceive <==> old(lc.concurrentCount) <= 0
      ensures r == UnexpectedReceive ==> unchanged(this) && unchanged(lc)
      ensures r != UnexpectedReceive ==> r == RetOk && lc.concurrentCount == old(lc.concurrentCount) - 1
      ensures r != UnexpectedReceive ==> recvCount == old(recvCount) + 1 && answered == old(answered) + 1
      ensures lc.state == Ready <==>
              old(lc.state) == Ready || (old(lc.state) == Waiting && old(lc.concurrentCount) > 0 && maxConcurrent >= 1)
      ensures lc.state == Ready || lc.state == old(lc.state)
      ensures if old(lc.state) == Waiting && lc.state == Ready
              then readyQueue == old(readyQueue) + [lc] && waitQueue == Removed(old(waitQueue), lc)
              else readyQueue == old(readyQueue) && waitQueue == old(waitQueue)
      ensures old(lc.state) == Waiting && lc.state == Ready ==>
                forall i :: 0 <= i < |old(waitQueue)| && old(waitQueue[i]) == lc ==>
                  waitQueue == old(waitQueue[..i] + waitQueue[i + 1..])
      ensures sendQueue == old(sendQueue) && dealt == old(dealt) && dropped == old(dropped)
      ensures lc.queued == old(lc.queued) && lc.sent == old(lc.sent)
    {
      hide *;
      ValidButAll(lc);
      StateIs(lc);
      if lc.concurrentCount > 0 {
        CountAnswer(lc);
      } else {
        return UnexpectedReceive;
      }
      if lc.state == Waiting && lc.concurrentCount < maxConcurrent {
        MakeReady(lc);
      } else {
        StateIs(lc);
        ValidButIs(lc);
      }
      CountReceived();
      r := RetOk;
    }

    /** One request less is outstanding. */
    method CountAnswer(lc: Client)
      requires Valid() && (lc in readyQueue || lc in waitQueue) && lc.concurrentCount > 0
      modifies `answered, lc`concurrentCount
      ensures ValidBut(lc) && lc.concurrentCount == old(lc.concurrentCount) - 1 && answered == old(answered) + 1
      ensures lc.Conserves()
    {
      hide *;
      ValidButAll(lc);
      ValidButIs(lc);
      LoadBoth(clients[..], readyQueue, waitQueue, lc);
      lc.concurrentCount := lc.concurrentCount - 1;
      LoadBoth(clients[..], readyQueue, waitQueue, lc);
      answered := answered + 1;
      ValidButIs(lc);
    }

    method CountReceived()
      requires Valid()
      modifies `recvCount
      ensures Valid() && recvCount == old(recvCount) + 1
    {
      recvCount := recvCount + 1;
    }

    // ---- Sending ----

    /** One turn of the flush loop: the head of the message queue goes to the head of the ready queue. */
    method DealNext() returns (lc: Client)
      requires Valid() && readyQueue != [] && sendQueue != []
      modifies this, readyQueue[0]
      ensures Valid()
      ensures lc == old(readyQueue[0]) && sendQueue == old(sendQueue)[1..]
      ensures lc.queued == old(readyQueue[0].queued) + old(sendQueue)[0]
      ensures lc.sent == old(readyQueue[0].sent) && lc.concurrentCount == old(readyQueue[0].concurrentCount) + 1
      ensures readyQueue == old(readyQueue)[1..] + if lc.concurrentCount < Limit() then [lc] else []
      ensures waitQueue == old(waitQueue) + if lc.concurrentCount < Limit() then [] else [lc]
      ensures dealt == old(dealt) + 1 && answered == old(answered) && dropped == old(dropped)
    {
      hide *;
      Assign();
      lc := readyQueue[0];
      Requeue(lc);
    }

    /** Between the two halves of a turn: the head of the ready queue may have reached the limit. */
    ghost predicate Dealing(lc: Client)
      reads this, clients, readyQueue, waitQueue
    {
      && ValidBut(lc) && readyQueue != [] && readyQueue[0] == lc
      && lc.state == Ready && lc.Conserves() && 0 < lc.concurrentCount <= Limit()
    }

    lemma DealingIs(lc: Client)
      ensures Dealing(lc) <==>
              && ValidBut(lc) && readyQueue != [] && readyQueue[0] == lc
              && lc.state == Ready && lc.Conserves() && 0 < lc.concurrentCount <= Limit()
    {
    }

    /** The message goes into the write buffer of the connection. */
    method Assign()
      requires Valid() && readyQueue != [] && sendQueue != []
      modifies `sendQueue, `queueCount, `dealt, readyQueue[0]
      ensures Dealing(readyQueue[0])
      ensures sendQueue == old(sendQueue)[1..] && dealt == old(dealt) + 1
      ensures readyQueue[0].queued == old(readyQueue[0].queued) + old(sendQueue)[0]
      ensures readyQueue[0].sent == old(readyQueue[0].sent)
      ensures readyQueue[0].concurrentCount == old(readyQueue[0].concurrentCount) + 1
    {
      hide *;
      ValidIs();
      var lc := readyQueue[0];
      assert ReadyOk(lc);
      StateIs(lc);
      LinkedMember(clients[..], readyQueue, waitQueue, lc);
      lc.Store(sendQueue[0]);
      assert Load(readyQueue) == old(Load(readyQueue)) && Load(waitQueue) == old(Load(waitQueue));
      LoadBoth(clients[..], readyQueue, waitQueue, lc);
      lc.concurrentCount := lc.concurrentCount + 1;
      LoadBoth(clients[..], readyQueue, waitQueue, lc);
      sendQueue := sendQueue[1..];
      queueCount := queueCount - 1;
      dealt := dealt + 1;
      ValidButIs(lc);
      DealingIs(lc);
    }

    /** The connection waits when it has reached the limit, and goes to the end of the queue otherwise. */
    method Requeue(lc: Client)
      requires Dealing(lc)
      modifies `readyQueue, `waitQueue, lc`state
      ensures Valid()
      ensures readyQueue == old(readyQueue)[1..] + if lc.concurrentCount < Limit() then [lc] else []
      ensures waitQueue == old(waitQueue) + if lc.concurrentCount < Limit() then [] else [lc]
    {
      hide *;
      DealingIs(lc);
      ValidButIs(lc);
      StateIs(lc);
      LinkedParts(clients[..], readyQueue, waitQueue);
      LinkedMember(clients[..], readyQueue, waitQueue, lc);
      RemovedHead(readyQueue);
      RemovedFacts(readyQueue, lc);
      LoadRemoved(readyQueue, lc);
      if lc.concurrentCount >= maxConcurrent {
        LinkedToWait(clients[..], readyQueue, waitQueue, lc);
        LoadAppend(waitQueue, lc);
        lc.state := Waiting;
        readyQueue := Removed(readyQueue, lc);
        waitQueue := waitQueue + [lc];
      } else {
        LinkedRotate(clients[..], readyQueue, waitQueue, lc);
        readyQueue := Removed(readyQueue, lc);
        LoadAppend(readyQueue, lc);
        readyQueue := readyQueue + [lc];
      }
      StateIs(lc);
      ValidButIs(lc);
    }

    lemma ReadyHead()
      requires Valid() && readyQueue != []
      ensures Linked(clients[..], readyQueue, waitQueue) && readyQueue[0].concurrentCount < Limit()
    {
      assert ReadyOk(readyQueue[0]);
    }

    /** One turn, and what it means for the dealing so far. */
    method Turn(ghost s: seq<Client>, ghost was: seq<Record>, ghost to: seq<Client>, ghost msgs: seq<seq<byte>>,
                ghost all: seq<Client>)
      returns (lc: Client)
      requires Valid() && readyQueue != [] && sendQueue != [] && readyQueue[0] in s
      requires |s| == |was| && |to| < |msgs| && sendQueue == msgs[|to|..] && AllServed(s, was, to, msgs)
      requires to + Deal(Seats(readyQueue, Limit()), |sendQueue|) == all
      modifies this, readyQueue[0]
      ensures Valid() && sendQueue == msgs[|to| + 1..] && AllServed(s, was, to + [lc], msgs)
      ensures to + [lc] + Deal(Seats(readyQueue, Limit()), |sendQueue|) == all
      ensures lc == old(readyQueue[0])
      ensures forall c :: c in readyQueue ==> c in old(readyQueue)
      ensures forall c :: c in waitQueue ==> c in old(waitQueue) || c == lc
      ensures old(waitQueue) <= waitQueue
      ensures dealt == old(dealt) + 1 && answered == old(answered) && dropped == old(dropped)
    {
      hide *;
      ReadyHead();
      HeadSeat(clients[..], readyQueue, waitQueue, Limit());
      ghost var tail, room := readyQueue[1..], Limit() - readyQueue[0].concurrentCount;
      ghost var seats := Seats(tail, Limit());
      ghost var before := Records(s);
      ServedRecords(s, was, to, msgs);
      lc := DealNext();
      assert Seats(tail, Limit()) == seats && tail + [] == tail;
      SeatsAppend(tail, lc, Limit());
      DealStep(Seat(lc, room, 0), seats, Seats(readyQueue, Limit()), |sendQueue| + 1);
      Regroup(to, [lc], Deal(Seats(readyQueue, Limit()), |sendQueue|));
      AllServedNext(s, lc, was, to, msgs, before);
    }

    /**
     The flush loop of LDAP_clnt_send_message. The callback that asks for write events fails on call number
     `failing`, counted from 1, or never when that is 0. `to` is who got each message.
     */
    method Flush(failing: nat) returns (r: Ret, ghost to: seq<Client>)
      requires Valid()
      modifies this, readyQueue
      ensures Valid()
      ensures r == RetOk ==> sendQueue == [] || readyQueue == []
      ensures r == RetOk || (r == ErrSend && |to| == failing > 0)
      ensures |to| <= |old(sendQueue)| && sendQueue == old(sendQueue)[|to|..]
      ensures to + Deal(Seats(readyQueue, Limit()), |sendQueue|)
              == Deal(old(Seats(readyQueue, Limit())), |old(sendQueue)|)
      ensures AllServed(old(readyQueue), old(Records(readyQueue)), to, old(sendQueue))
      ensures forall c :: c in readyQueue ==> c in old(readyQueue)
      ensures forall c :: c in waitQueue ==> c in old(waitQueue) || c in old(readyQueue)
      ensures old(waitQueue) <= waitQueue
      ensures dealt == old(dealt) + |to| && answered == old(answered) && dropped == old(dropped)
    {
      hide *;
      ghost var s, was, msgs := readyQueue, Records(readyQueue), sendQueue;
      ghost var all := Deal(Seats(s, Limit()), |msgs|);
      NoneServed(s, msgs);
      to := [];
      assert msgs[0..] == msgs;
      var calls := 0;
      r := RetOk;
      while readyQueue != [] && sendQueue != []
        invariant Valid() && calls == |to| <= |msgs| && sendQueue == msgs[|to|..]
        invariant to + Deal(Seats(readyQueue, Limit()), |sendQueue|) == all
        invariant AllServed(s, was, to, msgs)
        invariant forall c :: c in readyQueue ==> c in s
        invariant forall c :: c in waitQueue ==> c in old(waitQueue) || c in s
        invariant old(waitQueue) <= waitQueue
        invariant dealt == old(dealt) + |to| && answered == old(answered) && dropped == old(dropped)
        decreases |sendQueue|
      {
        assert readyQueue[0] in readyQueue && readyQueue[0] in s;
        var lc := Turn(s, was, to, msgs, all);
        to := to + [lc];
        calls := calls + 1;
        if calls == failing {
          r := ErrSend;
          return;
        }
      }
    }

    /** LDAP_clnt_send_message for a message that may go to any connection, or for none: the queue is flushed. */
    method SendMessage(ber: seq<seq<byte>>, failing: nat) returns (r: Ret, ghost to: seq<Client>)
      requires Valid() && |ber| <= 1
      modifies this, readyQueue
      ensures Valid()
      ensures r == RetOk ==> sendQueue == [] || readyQueue == []
      ensures r == RetOk || (r == ErrSend && |to| == failing > 0)
      ensures var queue := old(sendQueue) + ber;
              && |to| <= |queue| && sendQueue == queue[|to|..]
              && to + Deal(Seats(readyQueue, Limit()), |sendQueue|) == Deal(old(Seats(readyQueue, Limit())), |queue|)
              && AllServed(old(readyQueue), old(Records(readyQueue)), to, queue)
      ensures to == Deal(old(Seats(readyQueue, Limit())), |to|)
      ensures forall c :: c in readyQueue ==> c in old(readyQueue)
      ensures forall c :: c in waitQueue ==> c in old(waitQueue) || c in old(readyQueue)
      ensures old(waitQueue) <= waitQueue
      ensures dealt == old(dealt) + |to| && answered == old(answered) && dropped == old(dropped)
    {
      hide *;
      if |ber| == 1 {
        assert ber == [ber[0]];
        Enqueue(ber[0]);
      } else {
        assert sendQueue + ber == sendQueue;
      }
      ghost var seats, n := Seats(readyQueue, Limit()), |sendQueue|;
      r, to := Flush(failing);
      DealPrefix(seats, |to|, n);
    }

    /** The message at the end of the queue. */
    method Enqueue(ber: seq<byte>)
      requires Valid()
      modifies `sendQueue, `queueCount
      ensures Valid() && sendQueue == old(sendQueue) + [ber]
    {
      sendQueue := sendQueue + [ber];
      queueCount := queueCount + 1;
    }

    /**
     In every state a run can reach: each queue holds the connections in its states, within the limit, and what is
     outstanding is what was dealt less what was answered or given up.
     */
    lemma Safety(c: Client)
      requires Valid() && (c in readyQueue || c in waitQueue)
      ensures c in readyQueue <==> c !in waitQueue
      ensures c in readyQueue <==> c.state == Ready
      ensures clients[c.no] == c
      ensures c.state == Ready ==> 0 <= c.concurrentCount < Limit()
      ensures c.state == Waiting && maxConcurrent >= 1 ==> c.concurrentCount == maxConcurrent
      ensures c.queued == c.sent + c.wBuffer[c.wCurr..c.wLen]
    {
      LinkedMember(clients[..], readyQueue, waitQueue, c);
    }

    lemma SlotLive(no: nat)
      requires Valid() && no < MAX_CLIENT
      ensures no < clients.Length
      ensures clients[no] != null ==>
                && (clients[no] in readyQueue || clients[no] in waitQueue)
                && clients[no].wCurr <= clients[no].wLen
    {
      LinkedParts(clients[..], readyQueue, waitQueue);
      assert clients[..][no] == clients[no];
      if clients[no] != null {
        LinkedSlot(clients[..], readyQueue, waitQueue, no);
        if clients[no] in readyQueue {
          assert ReadyOk(clients[no]);
        } else {
          assert WaitOk(clients[no]);
        }
      }
    }

    lemma QueuesApart()
      requires Valid()
      ensures Distinct(readyQueue) && Distinct(waitQueue)
      ensures forall c :: c in readyQueue ==> c !in waitQueue
    {
    }

    lemma Accounts()
      requires Valid()
      ensures Load(readyQueue) + Load(waitQueue) == dealt - answered - dropped
    {
    }

    lemma WithinLimit()
      requires Valid()
      ensures forall c :: c in readyQueue ==> c.concurrentCount <= Limit()
      ensures forall c :: c in waitQueue ==> c.concurrentCount <= Limit()
    {
      hide *;
      ValidIs();
      forall c | c in readyQueue
        ensures c.concurrentCount <= Limit()
      {
        StateIs(c);
      }
      forall c | c in waitQueue
        ensures c.concurrentCount <= Limit()
      {
        StateIs(c);
      }
    }

    /** The load never exceeds the limit for each connection. */
    lemma LoadBound()
      requires Valid()
      ensures dealt - answered - dropped <= clientCount * Limit()
    {
      hide *;
      WithinLimit();
      ValidIs();
      LoadAtMost(readyQueue, Limit());
      LoadAtMost(waitQueue, Limit());
      TimesSum(|readyQueue|, |waitQueue|, Limit());
    }
  }

  lemma TimesSum(n: nat, m: nat, limit: int)
    ensures n * limit + m * limit == (n + m) * limit
  {
  }

  lemma {:induction false} LoadAtMost(s: seq<Client>, limit: int)
    requires forall c :: c in s ==> c.concurrentCount <= limit
    ensures Load(s) <= |s| * limit
  {
    if s != [] {
      assert s == [s[0]] + s[1..];
      LoadAtMost(s[1..], limit);
      assert |s| * limit == limit + |s[1..]| * limit;
    }
  }

  lemma {:induction false} RemovedNone(s: seq<Client>, c: Client)
    ensures c !in s ==> Removed(s, c) == s
  {
    if s != [] && c !in s {
      RemovedNone(s[1..], c);
    }
  }

  lemma {:induction false} NoneOccupied(slots: seq<Client?>)
    requires forall i :: 0 <= i < |slots| ==> slots[i] == null
    ensures Occupied(slots) == 0
  {
    if slots != [] {
      NoneOccupied(slots[1..]);
    }
  }

  // ---- Runs ----

  /** Something that happens to a pool: a call, with what the socket or the callback answers. */
  datatype Event =
    | Opens(connected: bool)
    | Closes(no: nat, closeFails: bool)
    | Reads(no: nat, bound: bool)
    | Writes(no: nat, bound: bool, accepted: int)
    | Sends(ber: seq<seq<byte>>, failing: nat)
    | Responds(no: nat)

  /** The messages an event hands over. */
  function Handed(e: Event): seq<seq<byte>> {
    if e.Sends? && |e.ber| <= 1 then e.ber else []
  }

  /** The messages a run hands over, in order. */
  function AllHanded(events: seq<Event>): seq<seq<byte>> {
    if events == [] then [] else AllHanded(events[..|events| - 1]) + Handed(events[|events| - 1])
  }

  /**
   The messages dealt, and then the send queue, are the messages handed over, in order; every live connection was
   queued the bytes of the messages dealt to it, in order.
   */
  ghost predicate Logged(pool: Pool, log: seq<Client>, messages: seq<seq<byte>>)
    reads pool, pool.readyQueue, pool.waitQueue
  {
    && |log| <= |messages| && pool.sendQueue == messages[|log|..] && pool.dealt == |log|
    && (forall c :: c in pool.readyQueue ==> c.queued == Flatten(Share(log, messages, c)))
    && (forall c :: c in pool.waitQueue ==> c.queued == Flatten(Share(log, messages, c)))
  }

  /** A message dealt to c joins c's share, any other does not. */
  lemma ShareNext(log: seq<Client>, messages: seq<seq<byte>>, x: Client, c: Client)
    requires |log| < |messages|
    ensures Share([], messages, c) == []
    ensures Share(log + [x], messages, c) == Share(log, messages, c) + if x == c then [messages[|log|]] else []
  {
    assert (log + [x])[..|log|] == log;
  }

  /** Only an event that sends a message hands one over. */
  lemma HandedNow(events: seq<Event>, e: Event)
    ensures AllHanded([]) == []
    ensures AllHanded(events + [e])
            == AllHanded(events) + if e.Sends? && |e.ber| == 1 then [e.ber[0]] else []
  {
    assert (events + [e])[..|events|] == events;
    assert e.Sends? && |e.ber| == 1 ==> e.ber == [e.ber[0]];
  }

  lemma {:induction false} ShareAppend(log: seq<Client>, to: seq<Client>, messages: seq<seq<byte>>, c: Client)
    requires |log| + |to| <= |messages|
    ensures Share(log + to, messages, c) == Share(log, messages, c) + Share(to, messages[|log|..], c)
  {
    if to == [] {
      assert log + to == log;
    } else {
      var n := |to| - 1;
      assert (log + to)[..|log| + n] == log + to[..n];
      ShareAppend(log, to[..n], messages, c);
    }
  }

  lemma {:induction false} ShareMore(log: seq<Client>, messages: seq<seq<byte>>, more: seq<seq<byte>>, c: Client)
    requires |log| <= |messages|
    ensures Share(log, messages + more, c) == Share(log, messages, c)
  {
    if log != [] {
      ShareMore(log[..|log| - 1], messages, more, c);
    }
  }

  lemma {:induction false} ShareNone(log: seq<Client>, messages: seq<seq<byte>>, c: Client)
    requires |log| <= |messages| && c !in log
    ensures Share(log, messages, c) == []
  {
    if log != [] {
      ShareNone(log[..|log| - 1], messages, c);
    }
  }

  /** Only connections that sit in the queue are dealt messages. */
  lemma {:induction false} DealtSeats<T>(q: seq<Seat<T>>, n: nat, x: T)
    requires x in Deal(q, n)
    ensures exists i :: 0 <= i < |q| && q[i].who == x
    decreases n
  {
    if x != q[0].who {
      DealtSeats(Turn(q), n - 1, x);
      var i :| 0 <= i < |Turn(q)| && Turn(q)[i].who == x;
      assert i + 1 < |q| ==> Turn(q)[i] == q[i + 1];
    }
  }

  lemma {:induction false} SeatsAre(s: seq<Client>, limit: int)
    ensures |Seats(s, limit)| == |s| && forall i :: 0 <= i < |s| ==> Seats(s, limit)[i].who == s[i]
  {
    if s != [] {
      SeatsAre(s[1..], limit);
    }
  }

  lemma NoneDealt<T>(q: seq<Seat<T>>, n: nat, others: seq<T>)
    requires forall i :: 0 <= i < |q| ==> q[i].who !in others
    ensures forall x :: x in others ==> x !in Deal(q, n)
  {
    forall x | x in others && x in Deal(q, n)
      ensures false
    {
      DealtSeats(q, n, x);
    }
  }

  /** The share of a connection after a flush. */
  lemma LoggedNext(log: seq<Client>, to: seq<Client>, messages: seq<seq<byte>>, more: seq<seq<byte>>, c: Client,
                   before: seq<byte>, after: seq<byte>)
    requires |log| <= |messages| && |log| + |to| <= |messages + more|
    requires before == Flatten(Share(log, messages, c))
    requires after == before + Flatten(Share(to, messages[|log|..] + more, c))
    ensures after == Flatten(Share(log + to, messages + more, c))
  {
    assert (messages + more)[|log|..] == messages[|log|..] + more;
    ShareAppend(log, to, messages + more, c);
    ShareMore(log, messages, more, c);
    FlattenAppend(Share(log, messages, c), Share(to, messages[|log|..] + more, c));
  }

  lemma ReadyLogged(ready: seq<Client>, was: seq<Record>, log: seq<Client>, to: seq<Client>, messages: seq<seq<byte>>,
                    more: seq<seq<byte>>)
    requires |ready| == |was| && |log| <= |messages| && |log| + |to| <= |messages + more|
    requires AllServed(ready, was, to, messages[|log|..] + more)
    requires forall i :: 0 <= i < |ready| ==> was[i].queued == Flatten(Share(log, messages, ready[i]))
    ensures forall c :: c in ready ==> c.queued == Flatten(Share(log + to, messages + more, c))
  {
    hide *;
    forall c | c in ready
      ensures c.queued == Flatten(Share(log + to, messages + more, c))
    {
      var i := ReadyServed(ready, was, to, messages[|log|..] + more, c);
      LoggedNext(log, to, messages, more, c, was[i].queued, c.queued);
    }
  }

  lemma WaitLogged(wait: seq<Client>, log: seq<Client>, to: seq<Client>, messages: seq<seq<byte>>, more: seq<seq<byte>>)
    requires |log| <= |messages| && |log| + |to| <= |messages + more|
    requires forall c :: c in wait ==> c !in to && c.queued == Flatten(Share(log, messages, c))
    ensures forall c :: c in wait ==> c.queued == Flatten(Share(log + to, messages + more, c))
  {
    hide *;
    forall c | c in wait
      ensures c.queued == Flatten(Share(log + to, messages + more, c))
    {
      NotServed(to, messages[|log|..] + more, c);
      LoggedNext(log, to, messages, more, c, c.queued, c.queued);
    }
  }

  lemma ReadyServed(s: seq<Client>, was: seq<Record>, to: seq<Client>, msgs: seq<seq<byte>>, c: Client) returns (i: nat)
    requires |s| == |was| && |to| <= |msgs| && AllServed(s, was, to, msgs) && c in s
    ensures i < |s| && s[i] == c && c.queued == was[i].queued + Flatten(Share(to, msgs, c))
  {
    i :| i < |s| && s[i] == c;
    assert Served(s[i], to, msgs, was[i].queued, was[i].sent, was[i].count);
  }

  /** A flush, and who got what over the whole run. */
  method SendStep(pool: Pool, ber: seq<seq<byte>>, failing: nat, ghost log: seq<Client>, ghost messages: seq<seq<byte>>)
    returns (ghost to: seq<Client>)
    requires pool.Valid() && |ber| <= 1 && Logged(pool, log, messages)
    modifies pool, pool.readyQueue
    ensures pool.Valid() && Logged(pool, log + to, messages + ber)
    ensures forall c :: c in pool.readyQueue ==> c in old(pool.readyQueue)
    ensures forall c :: c in pool.waitQueue ==> c in old(pool.readyQueue) || c in old(pool.waitQueue)
    ensures old(pool.waitQueue) <= pool.waitQueue
    ensures forall c :: c in old(pool.waitQueue) ==> c.state == old(c.state)
    ensures pool.dropped == old(pool.dropped) && pool.answered == old(pool.answered)
  {
    hide *;
    ghost var ready, wait, limit := pool.readyQueue, pool.waitQueue, pool.Limit();
    ghost var was, seats := Records(ready), Seats(ready, limit);
    pool.QueuesApart();
    var r;
    LoggedIs(pool, log, messages);
    SeatsAre(ready, limit);
    r, to := pool.SendMessage(ber, failing);
    NoneDealt(seats, |to|, wait);
    ReadyLogged(ready, was, log, to, messages, ber);
    WaitLogged(wait, log, to, messages, ber);
    LoggedIs(pool, log + to, messages + ber);
  }

  lemma NotServed(to: seq<Client>, msgs: seq<seq<byte>>, c: Client)
    requires |to| <= |msgs| && c !in to
    ensures c.queued == c.queued + Flatten(Share(to, msgs, c))
  {
    ShareNone(to, msgs, c);
  }

  lemma NothingFlat()
    ensures Flatten<byte>([]) == []
  {
  }

  lemma LoggedIs(pool: Pool, log: seq<Client>, messages: seq<seq<byte>>)
    ensures Logged(pool, log, messages) <==>
            && |log| <= |messages| && pool.sendQueue == messages[|log|..] && pool.dealt == |log|
            && (forall c :: c in pool.readyQueue ==> c.queued == Flatten(Share(log, messages, c)))
            && (forall c :: c in pool.waitQueue ==> c.queued == Flatten(Share(log, messages, c)))
  {
  }

  /** Every other call; one on a slot that is not in use or does not exist is not made. */
  method CallStep(pool: Pool, e: Event)
    requires pool.Valid() && !e.Sends?
    modifies pool, pool.clients, pool.readyQueue, pool.waitQueue
    ensures pool.Valid() && pool.sendQueue == old(pool.sendQueue) && pool.dealt == old(pool.dealt)
    ensures forall c :: c in pool.readyQueue ==> c in old(pool.readyQueue) || c in old(pool.waitQueue)
    ensures forall c :: c in pool.waitQueue ==>
              c in old(pool.readyQueue) || c in old(pool.waitQueue) || (fresh(c) && c.queued == [])
    ensures forall c :: c in old(pool.readyQueue) || c in old(pool.waitQueue) ==> c.queued == old(c.queued)
    ensures !e.Closes? ==> pool.dropped == old(pool.dropped)
    ensures pool.maxConcurrent < 1 && !e.Closes? ==>
              forall c :: c in old(pool.waitQueue) && old(c.state) == Waiting ==>
                c in pool.waitQueue && c.state == Waiting
  {
    hide *;
    var r, lc;
    lc := null;
    if !e.Opens? && e.no < MAX_CLIENT {
      pool.SlotLive(e.no);
      lc := pool.clients[e.no];
    }
    pool.QueuesApart();
    if lc != null {
      RemovedFacts(pool.readyQueue, lc);
      RemovedFacts(pool.waitQueue, lc);
    }
    match e
    case Opens(connected) =>
      r, lc := pool.Open(connected);
    case Closes(no, closeFails) =>
      if no < MAX_CLIENT {
        r := pool.Close(no, closeFails);
      }
    case Reads(_, bound) =>
      if lc != null {
        r := pool.Read(lc, bound);
      }
    case Writes(_, bound, accepted) =>
      if lc != null {
        var offer := lc.Offer(pool.maxWbuffer);
        r := pool.Write(lc, bound, if accepted > offer then offer else accepted);
      }
    case Responds(_) =>
      if lc != null {
        r := pool.Respond(lc);
      }
  }

  /** One event, and who got what over the whole run. */
  method Step(pool: Pool, e: Event, ghost log: seq<Client>, ghost messages: seq<seq<byte>>)
    returns (ghost to: seq<Client>)
    requires pool.Valid() && Logged(pool, log, messages)
    modifies pool, pool.clients, pool.readyQueue, pool.waitQueue
    ensures pool.Valid() && Logged(pool, log + to, messages + Handed(e))
    ensures forall c :: c in pool.readyQueue ==> c in old(pool.readyQueue) || c in old(pool.waitQueue) || fresh(c)
    ensures forall c :: c in pool.waitQueue ==> c in old(pool.readyQueue) || c in old(pool.waitQueue) || fresh(c)
    ensures !e.Closes? ==> pool.dropped == old(pool.dropped)
    ensures pool.maxConcurrent < 1 && !e.Closes? ==>
              forall c :: c in old(pool.waitQueue) && old(c.state) == Waiting ==>
                c in pool.waitQueue && c.state == Waiting
  {
    hide *;
    HandedIs(e);
    to := [];
    assert log + [] == log && messages + [] == messages;
    if e.Sends? {
      if |e.ber| <= 1 {
        to := SendStep(pool, e.ber, e.failing, log, messages);
      }
    } else {
      LoggedIs(pool, log, messages);
      CallStep(pool, e);
      forall c | c in pool.waitQueue && fresh(c)
        ensures c.queued == Flatten(Share(log, messages, c))
      {
        ShareNone(log, messages, c);
        NothingFlat();
      }
      LoggedIs(pool, log, messages);
    }
  }

  lemma HandedIs(e: Event)
    ensures Handed(e) == if e.Sends? && |e.ber| <= 1 then e.ber else []
  {
  }

  lemma HandedNext(events: seq<Event>, k: nat)
    requires k < |events|
    ensures AllHanded(events[..k + 1]) == AllHanded(events[..k]) + Handed(events[k])
    ensures AllHanded(events[..0]) == [] && events[..|events|] == events
  {
    assert events[..k + 1][..k] == events[..k];
  }

  /**
   Every run keeps the invariant and the order of the messages: `log` is who got each. Without closes, what is
   outstanding is what was dealt less what was answered.
   */
  method Run(maxWbuffer: int, maxConcurrent: int, maxClient: int, events: seq<Event>)
    returns (pool: Pool, ghost log: seq<Client>)
    ensures pool.Valid() && pool.maxConcurrent == maxConcurrent && pool.maxClient == maxClient
    ensures Logged(pool, log, AllHanded(events))
    ensures (forall e :: e in events ==> !e.Closes?) ==>
              Load(pool.readyQueue) + Load(pool.waitQueue) == pool.dealt - pool.answered
    ensures pool.dealt - pool.answered - pool.dropped <= pool.clientCount * pool.Limit()
  {
    hide *;
    pool := new Pool(maxWbuffer, maxConcurrent, maxClient);
    log := [];
    assert events[..0] == [];
    NoneHanded();
    LoggedIs(pool, [], []);
    for k := 0 to |events|
      invariant fresh(pool) && fresh(pool.clients) && pool.Valid()
      invariant pool.maxConcurrent == maxConcurrent && pool.maxClient == maxClient
      invariant Logged(pool, log, AllHanded(events[..k]))
      invariant forall c :: c in pool.readyQueue ==> fresh(c)
      invariant forall c :: c in pool.waitQueue ==> fresh(c)
      invariant (forall j :: 0 <= j < k ==> !events[j].Closes?) ==> pool.dropped == 0
    {
      assert forall i :: 0 <= i < |pool.readyQueue| ==> pool.readyQueue[i] in pool.readyQueue;
      assert forall i :: 0 <= i < |pool.waitQueue| ==> pool.waitQueue[i] in pool.waitQueue;
      ghost var to := Step(pool, events[k], log, AllHanded(events[..k]));
      log := log + to;
      HandedNext(events, k);
    }
    assert events[..|events|] == events;
    pool.LoadBound();
    pool.Accounts();
  }

  lemma NoneHanded()
    ensures AllHanded([]) == []
  {
  }

  /** A pool with one connection, opened, bound and ready. */
  method OneReady(maxConcurrent: int, maxClient: int) returns (pool: Pool, c: Client)
    requires 1 <= maxClient
    ensures fresh(pool) && fresh(pool.clients) && fresh(c)
    ensures pool.Valid() && pool.maxConcurrent == maxConcurrent
    ensures pool.readyQueue == [c] && pool.waitQueue == [] && pool.sendQueue == []
    ensures pool.dealt == 0 && pool.answered == 0
  {
    hide *;
    pool := new Pool(0, maxConcurrent, maxClient);
    pool.ValidIs();
    SomeSlots();
    var r, lc := pool.Open(true);
    c := lc;
    pool.ValidButAll(c);
    pool.StateIs(c);
    OfferNothing(c);
    r := pool.Write(c, true, 0);
    r := pool.Read(c, true);
    RemovedHead([c]);
    assert [c][1..] == [] && [] + [c] == [c];
  }

  lemma SomeSlots()
    ensures 0 < MAX_CLIENT
  {
  }

  lemma OfferNothing(c: Client)
    requires c.Conserves()
    ensures c.wCurr <= c.wLen
  {
  }

  /**
   With a limit below one, a connection that was dealt its first message waits for good: the answer does not make it
   ready again, and neither does anything but its close.
   */
  method Starve(maxConcurrent: int, maxClient: int, m: seq<byte>) returns (pool: Pool)
    requires maxConcurrent < 1 <= maxClient
    ensures pool.Valid() && pool.maxConcurrent == maxConcurrent
    ensures pool.readyQueue == [] && |pool.waitQueue| == 1 && pool.sendQueue == []
    ensures pool.waitQueue[0].state == Waiting && pool.waitQueue[0].concurrentCount == 0
    ensures pool.dealt == pool.answered == 1
  {
    hide *;
    var c, r;
    pool, c := OneReady(maxConcurrent, maxClient);
    pool.ValidButAll(c);
    pool.StateIs(c);
    pool.Enqueue(m);
    assert [m][1..] == [] && [c][1..] == [];
    c := pool.DealNext();
    pool.ValidButAll(c);
    pool.StateIs(c);
    r := pool.Respond(c);
  }
}
