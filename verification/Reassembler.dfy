/** The read buffers of the LDAP client and server: messages recovered from a stream cut anywhere. */
module Reassembler {
  import opened Bytes
  import opened Ber

  const READ_BUFFER := 131072

  datatype Ret = RetOk | WaitMoreData | DataAvailable | DecodeError | ErrMemory | ErrConnect

  // ---- Messages on the wire ----

  /** The length octets of a message whose first five octets are known. */
  function Header(m: seq<byte>): seq<byte>
    requires |m| >= 5
  {
    if m[1] < 128 || m[1] > 131 then m[1..2] else m[1..m[1] - 126]
  }

  /** A message of at least five octets whose length takes at most three octets after the first. */
  predicate Frame(m: seq<byte>) {
    && |m| >= 5 && m[0] == 0x30
    && m[1] <= 131 && ReadableLength(Header(m))
    && |m| == 1 + |Header(m)| + LengthValue(Header(m))
  }

  /** Which octets are a message: one, two, three or four octets of length, the high-order first. */
  lemma FramesAre(m: seq<byte>)
    ensures Frame(m) <==>
            && |m| >= 5 && m[0] == 0x30
            && (var a: int, b: int, c: int, d: int := m[1], m[2], m[3], m[4];
                || (a < 0x80 && |m| == 2 + a)
                || (a == 0x81 && |m| == 3 + b)
                || (a == 0x82 && |m| == 4 + 0x100 * b + c)
                || (a == 0x83 && |m| == 5 + 0x1_0000 * b + 0x100 * c + d))
  {
    hide Frame, BigEndian;
    if |m| >= 5 {
      FrameIs(m);
      OctetsOf(m);
      if m[1] == 0x80 {
        assert Header(m) == [0x80] && Header(m)[1..] == [];
      } else if m[1] == 0x81 {
        assert Header(m) == [0x81, m[2]] && Header(m)[1..] == [m[2]];
      } else if m[1] == 0x82 {
        assert Header(m) == [0x82, m[2], m[3]] && Header(m)[1..] == [m[2], m[3]];
      } else if m[1] == 0x83 {
        assert Header(m) == [0x83, m[2], m[3], m[4]] && Header(m)[1..] == [m[2], m[3], m[4]];
      }
    } else {
      FrameIs(m);
    }
  }

  lemma FrameIs(m: seq<byte>)
    ensures Frame(m) <==>
            && |m| >= 5 && m[0] == 0x30 && m[1] <= 131 && ReadableLength(Header(m))
            && |m| == 1 + |Header(m)| + LengthValue(Header(m))
  {
  }

  lemma OctetsOf(m: seq<byte>)
    requires |m| >= 5
    ensures var b: int, c: int, d: int := m[2], m[3], m[4];
            && BigEndian([]) == 0 && BigEndian([m[2]]) == b && BigEndian([m[2], m[3]]) == 0x100 * b + c
            && BigEndian([m[2], m[3], m[4]]) == 0x1_0000 * b + 0x100 * c + d
  {
    assert [m[2], m[3], m[4]][..2] == [m[2], m[3]] && [m[2], m[3]][..1] == [m[2]] && [m[2]][..0] == [];
  }

  /** How long the message is whose first octets are in the buffer. */
  function FrameLength(p: seq<byte>): nat
    requires |p| >= 5 && ReadableLength(Header(p))
  {
    1 + |Header(p)| + LengthValue(Header(p))
  }

  /** Five octets tell how long a message is. */
  lemma HeaderAgrees(p: seq<byte>, m: seq<byte>)
    requires Frame(m) && |p| >= 5 && p[..5] == m[..5]
    ensures p[0] == 0x30 && ReadableLength(Header(p)) && FrameLength(p) == |m| && At(p, 1, Header(p))
  {
    TakeAgrees(p, m, 5, 0);
    TakeAgrees(p, m, 5, 1);
    SliceAgrees(p, m, 5, 1, |Header(m)| + 1);
  }

  lemma TakeAgrees(p: seq<byte>, m: seq<byte>, n: nat, i: nat)
    requires i < n <= |p| && n <= |m| && p[..n] == m[..n]
    ensures p[i] == m[i]
  {
    assert p[i] == p[..n][i] && m[i] == m[..n][i];
  }

  lemma SliceAgrees(p: seq<byte>, m: seq<byte>, n: nat, i: nat, j: nat)
    requires i <= j <= n <= |p| && n <= |m| && p[..n] == m[..n]
    ensures p[i..j] == m[i..j]
  {
    assert p[i..j] == p[..n][i..j] && m[i..j] == m[..n][i..j];
  }

  /** What a peer sends: whole messages, one after the other. */
  predicate Stream(messages: seq<seq<byte>>) {
    forall m :: m in messages ==> Frame(m)
  }

  /** `delivered` and then `pending` are what was received of the messages. */
  predicate Progress(messages: seq<seq<byte>>, delivered: seq<seq<byte>>, pending: seq<byte>) {
    && Stream(messages)
    && |delivered| <= |messages| && delivered == messages[..|delivered|]
    && pending <= Flatten(messages[|delivered|..])
  }

  lemma NextMessage(messages: seq<seq<byte>>, delivered: seq<seq<byte>>, pending: seq<byte>)
    requires Progress(messages, delivered, pending) && |pending| >= 5
    ensures |delivered| < |messages|
    ensures var m := messages[|delivered|];
            && Frame(m) && pending[0] == 0x30 && ReadableLength(Header(pending)) && FrameLength(pending) == |m|
            && At(pending, 1, Header(pending))
            && (|m| <= |pending| ==>
                  pending[..|m|] == m && Progress(messages, delivered + [m], pending[|m|..]))
  {
    var rest := messages[|delivered|..];
    var m := messages[|delivered|];
    assert rest[0] == m && rest[1..] == messages[|delivered| + 1..];
    assert Flatten(rest) == m + Flatten(rest[1..]);
    assert m in messages;
    assert pending[..5] == (m + Flatten(rest[1..]))[..5] == m[..5];
    HeaderAgrees(pending, m);
    if |m| <= |pending| {
      assert pending[..|m|] == (m + Flatten(rest[1..]))[..|m|] == m;
      assert pending[|m|..] == (m + Flatten(rest[1..]))[|m|..|pending|];
      assert (m + Flatten(rest[1..]))[|m|..|pending|] == Flatten(rest[1..])[..|pending| - |m|];
      assert messages[..|delivered| + 1] == delivered + [m];
    }
  }

  /** No whole message is in the buffer. */
  predicate Incomplete(p: seq<byte>) {
    |p| < 5 || (ReadableLength(Header(p)) && FrameLength(p) > |p|)
  }

  /** The length fields kept between calls are unset, or tell about the message that is waiting. */
  predicate Measured(body: int, bodyLength: int, p: seq<byte>, size: nat) {
    if body < 0 then bodyLength < 0
    else body == 0 && |p| >= 5 && ReadableLength(Header(p)) && bodyLength == FrameLength(p) && bodyLength + 1 <= size
  }

  // ---- LDAP_clnt_read and LDAP_clnt_decode, LDAP_sess_read and LDAP_sess_decode ----

  class Reader {
    /** What the peer sends in all. */
    ghost const messages: seq<seq<byte>>
    var rBuffer: array?<byte>
    var rLen: nat
    var rSize: nat
    var rBody: int
    var rBodyLength: int
    ghost var received: seq<byte>
    ghost var delivered: seq<seq<byte>>

    ghost function Pending(): seq<byte>
      reads this, rBuffer
    {
      if rBuffer == null || rLen > rBuffer.Length then [] else rBuffer[..rLen]
    }

    /** Delivered messages, then the buffer, are the octets received; one octet of the buffer stays free. */
    ghost predicate Valid()
      reads this, rBuffer
    {
      && (rBuffer == null ==> rLen == 0 && rSize == 0 && rBody < 0)
      && (rBuffer != null ==> rLen < rSize == rBuffer.Length && READ_BUFFER <= rSize)
      && Progress(messages, delivered, Pending())
      && received == Flatten(delivered) + Pending()
      && Measured(rBody, rBodyLength, Pending(), rSize)
    }

    constructor (ghost sent: seq<seq<byte>>)
      requires Stream(sent)
      ensures Valid() && messages == sent && received == [] && delivered == [] && rBuffer == null
    {
      messages := sent;
      rBuffer := null;
      rLen, rSize := 0, 0;
      rBody, rBodyLength := -1, -1;
      received, delivered := [], [];
    }

    lemma ValidIs()
      ensures Valid() <==>
              && (rBuffer == null ==> rLen == 0 && rSize == 0 && rBody < 0)
              && (rBuffer != null ==> rLen < rSize == rBuffer.Length && 131072 <= rSize)
              && Progress(messages, delivered, Pending())
              && received == Flatten(delivered) + Pending()
              && Measured(rBody, rBodyLength, Pending(), rSize)
      ensures rBuffer == null ==> Pending() == []
      ensures rBuffer != null && rLen <= rBuffer.Length ==> Pending() == rBuffer[..rLen]
      ensures READ_BUFFER == 131072
    {
    }

    /** One call of recv, when `arrived` is waiting on the socket: it takes what fits, or fails. */
    method Read(arrived: seq<byte>, failed: bool) returns (r: Ret, taken: nat)
      requires Valid() && received + arrived <= Flatten(messages)
      modifies this, rBuffer
      ensures Valid() && (rBuffer == old(rBuffer) || fresh(rBuffer))
      ensures r == ErrMemory <==> old(rBuffer != null && rLen == rSize - 1)
      ensures r == RetOk || r == ErrMemory || r == ErrConnect
      ensures r == ErrConnect ==> failed || arrived == []
      ensures r == RetOk ==> 0 < taken <= |arrived|
      ensures r != RetOk ==> taken == 0
      ensures received == old(received) + arrived[..taken] && delivered == old(delivered)
    {
      hide *;
      ValidIs();
      ghost var p := Pending();
      if rBuffer == null {
        rSize := READ_BUFFER;
        rBuffer := new byte[rSize](_ => 0);
        rLen := 0;
        UnmeasuredAnySize(rBody, rBodyLength, p, 0, rSize);
        assert rBuffer[..rLen] == [];
      }
      assert rBuffer[..rLen] == p;
      assert received + arrived[..0] == received;
      ValidIs();
      var n := rSize - 1 - rLen;
      if n <= 0 {
        return ErrMemory, 0;
      }
      if failed || arrived == [] {
        return ErrConnect, 0;
      }
      taken := if |arrived| < n then |arrived| else n;
      Take(arrived, taken);
      Arrive(messages, delivered, p, received, arrived[..taken], arrived);
      MeasuredGrows(rBody, rBodyLength, p, arrived[..taken], rSize);
      rLen := rLen + taken;
      received := received + arrived[..taken];
      ValidIs();
      r := RetOk;
    }

    /** What recv stores behind the octets in the buffer. */
    method Take(arrived: seq<byte>, taken: nat)
      requires rBuffer != null && taken <= |arrived| && rLen + taken <= rBuffer.Length
      modifies rBuffer
      ensures rBuffer[..rLen + taken] == old(rBuffer[..rLen]) + arrived[..taken]
    {
      ghost var was := rBuffer[..rLen];
      forall j | 0 <= j < taken {
        rBuffer[rLen + j] := arrived[j];
      }
      assert rBuffer[..rLen] == was;
      assert rBuffer[rLen..rLen + taken] == arrived[..taken];
    }

    /** The length fields, from the first octets of the message that is waiting. */
    method Measure()
      requires Valid() && rBuffer != null && rLen >= 5
      modifies `rBody, `rBodyLength
      ensures rBody == 0 && ReadableLength(Header(Pending())) && rBodyLength == FrameLength(Pending()) >= 5
      ensures |delivered| < |messages| && rBodyLength == |messages[|delivered|]|
    {
      ghost var p := Pending();
      ValidIs();
      NextMessage(messages, delivered, p);
      ghost var m := messages[|delivered|];
      FrameSize(m);
      MeasuredIs(rBody, rBodyLength, p, rSize);
      hide *;
      if rBody < 0 {
        assert rBuffer[0] == 0x30;  // the scan for the tag stops at once
        rBody := 0;
      }
      if rBodyLength < 0 {
        var k, len, lenSize := FindLength(rBuffer[..rLen], 1, Header(p));
        rBodyLength := k + len;
      }
    }

    /** Make room for the whole message and one octet more. */
    method Grow(needed: nat)
      requires rBuffer != null && rLen <= rSize == rBuffer.Length
      modifies `rBuffer, `rSize
      ensures rBuffer != null && rBuffer.Length == rSize >= old(rSize) && rSize >= needed
      ensures rBuffer[..rLen] == old(rBuffer[..rLen])
      ensures rBuffer == old(rBuffer) || fresh(rBuffer)
    {
      if needed > rSize {
        var p := new byte[needed](_ => 0);
        forall j | 0 <= j < rSize {
          p[j] := rBuffer[j];
        }
        assert p[..rLen] == rBuffer[..rLen];
        rBuffer := p;
        rSize := needed;
      }
    }

    /** Move what follows the delivered message to the front. */
    method Shift(length: nat)
      requires rBuffer != null && length <= rLen < rBuffer.Length
      modifies `rLen, rBuffer
      ensures rLen == old(rLen) - length && rBuffer[..rLen] == old(rBuffer[length..rLen])
    {
      var n := rLen - length;
      if n > 0 {
        forall j | 0 <= j < n {
          rBuffer[j] := rBuffer[length + j];
        }
        rLen := n;
      } else {
        rLen := 0;
      }
    }

    /** One turn of the decoding loop: the next message, if it is all there, goes to the decoder. */
    method DecodeOne(decode: seq<byte> -> Ret) returns (whole: bool, r: Ret)
      requires Valid() && rBuffer != null && rLen >= 5
      modifies this, rBuffer
      ensures Valid() && received == old(received) && rBuffer != null && (rBuffer == old(rBuffer) || fresh(rBuffer))
      ensures rLen < rSize - 1
      ensures whole ==> |delivered| == |old(delivered)| + 1 && old(delivered) == delivered[..|old(delivered)|]
                        && r == decode(delivered[|old(delivered)|]) && rLen < old(rLen)
      ensures !whole ==> delivered == old(delivered) && Incomplete(Pending()) && r == RetOk && rLen == old(rLen)
    {
      hide *;
      ValidIs();
      ghost var p := Pending();
      NextMessage(messages, delivered, p);
      Measure();
      var length := rBodyLength;
      Grow(rBody + rBodyLength + 1);
      assert rBuffer[..rLen] == p;
      MeasuredIs(rBody, rBodyLength, p, rSize);
      if rBody + rBodyLength > rLen {
        IncompleteIs(p);
        ValidIs();
        return false, RetOk;
      }
      ghost var m := messages[|delivered|];
      var frame := rBuffer[..rBodyLength];
      assert frame == p[..|m|];
      r := decode(frame);
      Shift(rBody + rBodyLength);
      assert rBuffer[..rLen] == p[|m|..];
      FirstDelivered(delivered, p, m);
      delivered := delivered + [m];
      rBody := -1;
      rBodyLength := -1;
      Unmeasured(p[|m|..], rSize);
      ValidIs();
      whole := true;
    }

    /**
     LDAP_clnt_decode and LDAP_sess_decode up to the result of the last message: whole messages are decoded, in order
     and once each, until one is not an intermediate one or none is left; after that there is room to read.
     */
    method Decode(decode: seq<byte> -> Ret) returns (r: Ret)
      requires Valid()
      modifies this, rBuffer
      ensures Valid() && received == old(received) && (rBuffer == old(rBuffer) || fresh(rBuffer))
      ensures |old(delivered)| <= |delivered| && old(delivered) == delivered[..|old(delivered)|]
      ensures forall k :: |old(delivered)| <= k < |delivered| - 1 ==> decode(delivered[k]) == WaitMoreData
      ensures (|delivered| > |old(delivered)| && r == decode(delivered[|delivered| - 1]) && r != WaitMoreData)
              || (Incomplete(Pending()) && (r == RetOk || r == WaitMoreData))
      ensures |delivered| > |old(delivered)| ==> rLen < old(rLen)
      ensures |delivered| == |old(delivered)| ==> rLen == old(rLen) && Incomplete(Pending())
      ensures rBuffer != null ==> rLen < rSize - 1
    {
      hide *;
      r := RetOk;
      ghost var n := |delivered|;
      ghost var was := delivered;
      assert delivered[..n] == was;
      var more := true;
      while more
        invariant Valid() && received == old(received) && (rBuffer == old(rBuffer) || fresh(rBuffer))
        invariant n <= |delivered| && was == delivered[..n]
        invariant forall k :: n <= k < |delivered| - 1 ==> decode(delivered[k]) == WaitMoreData
        invariant if |delivered| == n then r == RetOk && more else r == decode(delivered[|delivered| - 1])
        invariant more <==> |delivered| == n || r == WaitMoreData
        invariant if |delivered| == n then rLen == old(rLen) else rLen < old(rLen)
        invariant !more && rBuffer != null ==> rLen < rSize - 1
        decreases rLen, more
      {
        ValidIs();
        if rBuffer == null || rLen < 5 {
          IncompleteIs(Pending());
          return;
        }
        var whole, ret := DecodeOne(decode);
        if !whole {
          r := RetOk;
          return;
        }
        r := ret;
        more := r == WaitMoreData;
      }
    }

    /** Once everything has arrived and no whole message is left, every message was delivered. */
    lemma Complete()
      requires Valid() && received == Flatten(messages) && Incomplete(Pending())
      ensures delivered == messages && Pending() == []
    {
      ghost var p, rest := Pending(), messages[|delivered|..];
      assert messages == delivered + rest;
      FlattenAppend(delivered, rest);
      SameTail(Flatten(delivered), p, Flatten(rest));
      if rest != [] {
        assert rest[0] == messages[|delivered|] && rest[0] in messages;
        NextMessage(messages, delivered, p);
      }
    }

    /** Decode, called until it delivers nothing more. */
    method DecodeAll(decode: seq<byte> -> Ret)
      requires Valid()
      modifies this, rBuffer
      ensures Valid() && received == old(received) && (rBuffer == old(rBuffer) || fresh(rBuffer))
      ensures old(delivered) <= delivered && Incomplete(Pending())
      ensures rBuffer != null ==> rLen < rSize - 1
    {
      hide *;
      var more := true;
      while more
        invariant Valid() && received == old(received) && (rBuffer == old(rBuffer) || fresh(rBuffer))
        invariant old(delivered) <= delivered
        invariant !more ==> Incomplete(Pending()) && (rBuffer != null ==> rLen < rSize - 1)
        decreases rLen, more
      {
        ghost var was := delivered;
        var n := rLen;
        var r := Decode(decode);
        assert was <= delivered;
        more := rLen < n;
      }
    }

    /** Octets that arrive are read and decoded as they come: a read never finds the buffer full. */
    method Feed(arrived: seq<byte>, decode: seq<byte> -> Ret)
      requires Valid() && received + arrived <= Flatten(messages)
      requires Incomplete(Pending()) && (rBuffer != null ==> rLen < rSize - 1)
      modifies this, rBuffer
      ensures Valid() && received == old(received) + arrived && (rBuffer == old(rBuffer) || fresh(rBuffer))
      ensures Incomplete(Pending()) && (rBuffer != null ==> rLen < rSize - 1)
      ensures old(delivered) <= delivered
    {
      hide *;
      var left := arrived;
      while left != []
        invariant Valid() && received + left == old(received) + arrived && (rBuffer == old(rBuffer) || fresh(rBuffer))
        invariant received + left <= Flatten(messages)
        invariant Incomplete(Pending()) && (rBuffer != null ==> rLen < rSize - 1)
        invariant old(delivered) <= delivered
        decreases |left|
      {
        Regroup(received, left[..0], left);
        ghost var before := received;
        var r, taken := Read(left, false);
        assert r == RetOk;
        assert left == left[..taken] + left[taken..];
        Regroup(before, left[..taken], left[taken..]);
        left := left[taken..];
        DecodeAll(decode);
      }
      assert received + [] == received;
    }
  }

  /**
   However the bytes of the messages are cut on their way, and whatever the decoder answers, the messages are delivered,
   whole and in order, and nothing is left in the buffer.
   */
  method Receive(ghost messages: seq<seq<byte>>, pieces: seq<seq<byte>>, decode: seq<byte> -> Ret)
    returns (reader: Reader)
    requires Stream(messages) && Flatten(pieces) == Flatten(messages)
    ensures reader.Valid() && reader.messages == messages
    ensures reader.delivered == messages && reader.rLen == 0
  {
    hide *;
    reader := new Reader(messages);
    reader.ValidIs();
    NothingPending();
    assert pieces[..0] == [];
    for k := 0 to |pieces|
      invariant fresh(reader) && (reader.rBuffer == null || fresh(reader.rBuffer))
      invariant reader.Valid() && reader.messages == messages && reader.received == Flatten(pieces[..k])
      invariant Incomplete(reader.Pending()) && (reader.rBuffer != null ==> reader.rLen < reader.rSize - 1)
    {
      PieceFits(pieces, k);
      reader.Feed(pieces[k], decode);
    }
    assert pieces[..|pieces|] == pieces;
    reader.Complete();
    reader.ValidIs();
  }

  lemma NothingPending()
    ensures Incomplete([]) && Flatten<byte>([]) == []
  {
  }

  lemma PieceFits(pieces: seq<seq<byte>>, k: nat)
    requires k < |pieces|
    ensures Flatten(pieces[..k + 1]) == Flatten(pieces[..k]) + pieces[k]
    ensures Flatten(pieces[..k]) + pieces[k] <= Flatten(pieces)
  {
    hide *;
    TakeOne(pieces, k);
    FlattenThree(pieces[..k], pieces[k], pieces[k + 1..]);
  }

  lemma TakeOne<T>(s: seq<T>, k: nat)
    requires k < |s|
    ensures s[..k + 1] == s[..k] + [s[k]] && s == s[..k] + [s[k]] + s[k + 1..]
  {
  }

  lemma FlattenThree(a: seq<seq<byte>>, x: seq<byte>, b: seq<seq<byte>>)
    ensures Flatten(a + [x]) == Flatten(a) + x <= Flatten(a + [x] + b)
  {
    hide *;
    FlattenSnoc(a, x);
    FlattenAppend(a + [x], b);
  }

  lemma FirstDelivered(delivered: seq<seq<byte>>, p: seq<byte>, m: seq<byte>)
    requires |m| <= |p| && p[..|m|] == m
    ensures Flatten(delivered) + p == Flatten(delivered + [m]) + p[|m|..]
  {
    hide *;
    FlattenSnoc(delivered, m);
    assert p == m + p[|m|..];
    Regroup(Flatten(delivered), m, p[|m|..]);
  }

  lemma FrameSize(m: seq<byte>)
    requires Frame(m)
    ensures |m| >= 5
  {
  }

  lemma MeasuredIs(body: int, bodyLength: int, p: seq<byte>, size: nat)
    requires |p| >= 5 && ReadableLength(Header(p))
    ensures Measured(body, bodyLength, p, size) <==>
            if body < 0 then bodyLength < 0 else body == 0 && bodyLength == FrameLength(p) && bodyLength + 1 <= size
    ensures FrameLength(p) == 1 + |Header(p)| + LengthValue(Header(p))
  {
  }

  lemma Unmeasured(p: seq<byte>, size: nat)
    ensures Measured(-1, -1, p, size)
  {
  }

  lemma IncompleteIs(p: seq<byte>)
    ensures |p| < 5 || (ReadableLength(Header(p)) && FrameLength(p) > |p|) ==> Incomplete(p)
  {
  }

  lemma UnmeasuredAnySize(body: int, bodyLength: int, p: seq<byte>, size: nat, newSize: nat)
    requires Measured(body, bodyLength, p, size) && body < 0
    ensures Measured(body, bodyLength, p, newSize)
  {
  }

  lemma MeasuredGrows(body: int, bodyLength: int, p: seq<byte>, chunk: seq<byte>, size: nat)
    requires Measured(body, bodyLength, p, size)
    ensures Measured(body, bodyLength, p + chunk, size)
  {
    if body >= 0 {
      assert (p + chunk)[1] == p[1];
      assert Header(p + chunk) == Header(p);
    }
  }

  /** Octets that arrive belong to the messages still to come. */
  lemma Arrive(messages: seq<seq<byte>>, delivered: seq<seq<byte>>, pending: seq<byte>, received: seq<byte>,
               chunk: seq<byte>, arrived: seq<byte>)
    requires Progress(messages, delivered, pending) && received == Flatten(delivered) + pending
    requires chunk <= arrived && received + arrived <= Flatten(messages)
    ensures Progress(messages, delivered, pending + chunk)
    ensures received + chunk == Flatten(delivered) + (pending + chunk)
  {
    var rest := messages[|delivered|..];
    assert messages == delivered + rest;
    FlattenAppend(delivered, rest);
    Regroup(Flatten(delivered), pending, chunk);
    assert received + chunk <= Flatten(delivered) + Flatten(rest);
    var d := |Flatten(delivered)|;
    assert pending + chunk == (received + chunk)[d..];
    assert Flatten(rest) == (Flatten(delivered) + Flatten(rest))[d..];
  }
}
