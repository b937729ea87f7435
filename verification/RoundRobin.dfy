/** The order in which the dispatch loop of the connection pool deals messages to ready connections. */
module RoundRobin {

  /** A place in the ready queue: how many messages the connection may still take, and how many it got. */
  datatype Seat<T> = Seat(who: T, room: nat, got: nat)

  /** Every seat has room, and no connection sits twice. */
  predicate Seated<T(==)>(q: seq<Seat<T>>) {
    && (forall i :: 0 <= i < |q| ==> q[i].room > 0)
    && (forall i, j :: 0 <= i < j < |q| ==> q[i].who != q[j].who)
  }

  /** One message goes to the head, which then leaves the queue or goes to its end. */
  function Turn<T>(q: seq<Seat<T>>): seq<Seat<T>>
    requires q != []
  {
    if q[0].room <= 1 then q[1..] else q[1..] + [Seat(q[0].who, q[0].room - 1, q[0].got + 1)]
  }

  /** Who gets each of n messages. */
  function Deal<T>(q: seq<Seat<T>>, n: nat): seq<T>
    decreases n
  {
    if n == 0 || q == [] then [] else [q[0].who] + Deal(Turn(q), n - 1)
  }

  /** The queue afterwards. */
  function Left<T>(q: seq<Seat<T>>, n: nat): seq<Seat<T>>
    decreases n
  {
    if n == 0 || q == [] then q else Left(Turn(q), n - 1)
  }

  function Count<T(==)>(s: seq<T>, x: T): nat {
    if s == [] then 0 else (if s[0] == x then 1 else 0) + Count(s[1..], x)
  }

  function TotalRoom<T>(q: seq<Seat<T>>): nat {
    if q == [] then 0 else q[0].room + TotalRoom(q[1..])
  }

  /** Earlier seats got as much as later ones, or one less. */
  predicate Balanced<T>(q: seq<Seat<T>>) {
    forall i, j :: 0 <= i < j < |q| ==> q[i].got <= q[j].got <= q[i].got + 1
  }

  lemma TurnKeeps<T>(q: seq<Seat<T>>)
    requires q != [] && Seated(q)
    ensures Seated(Turn(q))
    ensures Balanced(q) ==> Balanced(Turn(q))
  {
    var t := Turn(q);
    assert forall i :: 0 <= i < |q| - 1 ==> t[i] == q[i + 1];
  }

  lemma {:induction false} TotalRoomSnoc<T>(q: seq<Seat<T>>, s: Seat<T>)
    ensures TotalRoom(q + [s]) == TotalRoom(q) + s.room
  {
    if q == [] {
      assert q + [s] == [s];
    } else {
      assert (q + [s])[1..] == q[1..] + [s];
      TotalRoomSnoc(q[1..], s);
    }
  }

  /** Stopping early deals a prefix. */
  lemma {:induction false} DealPrefix<T>(q: seq<Seat<T>>, m: nat, n: nat)
    requires m <= |Deal(q, n)|
    ensures Deal(q, m) == Deal(q, n)[..m]
    decreases m
  {
    if m > 0 {
      DealPrefix(Turn(q), m - 1, n - 1);
    }
  }

  /** As many messages are dealt as there are messages and room. */
  lemma {:induction false} DealLength<T>(q: seq<Seat<T>>, n: nat)
    requires Seated(q)
    ensures |Deal(q, n)| == if n < TotalRoom(q) then n else TotalRoom(q)
    decreases n
  {
    if n > 0 && q != [] {
      TurnKeeps(q);
      DealLength(Turn(q), n - 1);
      TotalRoomSnoc(q[1..], Seat(q[0].who, q[0].room - 1, q[0].got + 1));
    }
  }

  /** The same connections in the same order with the same room. */
  predicate Alike<T(==)>(q: seq<Seat<T>>, p: seq<Seat<T>>) {
    |q| == |p| && forall i :: 0 <= i < |q| ==> q[i].who == p[i].who && q[i].room == p[i].room
  }

  /** What was got before does not matter to the dealing. */
  lemma {:induction false} DealAlike<T>(q: seq<Seat<T>>, p: seq<Seat<T>>, n: nat)
    requires Alike(q, p)
    ensures Deal(q, n) == Deal(p, n)
    decreases n
  {
    if n > 0 && q != [] {
      DealAlike(Turn(q), Turn(p), n - 1);
    }
  }

  lemma {:induction false} CountSnoc<T>(s: seq<T>, x: T, y: T)
    ensures Count(s + [x], y) == Count(s, y) + if x == y then 1 else 0
  {
    if s == [] {
      assert s + [x] == [x];
    } else {
      assert (s + [x])[1..] == s[1..] + [x];
      CountSnoc(s[1..], x, y);
    }
  }

  /** Where x sits, or no seat. */
  function Find<T(==)>(q: seq<Seat<T>>, x: T): (k: int)
    ensures -1 <= k < |q| && (k >= 0 ==> q[k].who == x)
    ensures k < 0 ==> forall j :: 0 <= j < |q| ==> q[j].who != x
  {
    if q == [] then -1 else if q[0].who == x then 0 else var k := Find(q[1..], x); if k < 0 then -1 else k + 1
  }

  lemma FindIs<T>(q: seq<Seat<T>>, k: nat)
    requires Seated(q) && k < |q|
    ensures Find(q, q[k].who) == k
  {
  }

  /** A message is only ever dealt to a seated connection with room for it. */
  lemma {:induction false} DealCounts<T>(q: seq<Seat<T>>, n: nat, x: T)
    requires Seated(q)
    ensures Seated(Left(q, n))
    ensures Find(q, x) < 0 ==> Count(Deal(q, n), x) == 0 && Find(Left(q, n), x) < 0
    ensures Find(q, x) >= 0 ==>
              var s, c, k := q[Find(q, x)], Count(Deal(q, n), x), Find(Left(q, n), x);
              && c <= s.room
              && (k >= 0 <==> c < s.room)
              && (k >= 0 ==> Left(q, n)[k] == Seat(x, s.room - c, s.got + c))
    decreases n
  {
    hide *;
    SeatRoom(q, x);
    if n == 0 || q == [] {
      NothingDealt(q, n, x);
    } else {
      TurnKeeps(q);
      DealCounts(Turn(q), n - 1, x);
      TurnFind(q, x);
      FindRange(q, x);
      DealNext(q, n, x);
      LeftNext(q, n);
    }
  }

  lemma SeatRoom<T>(q: seq<Seat<T>>, x: T)
    requires Seated(q)
    ensures Find(q, x) < |q| && (Find(q, x) >= 0 ==> q[Find(q, x)].room > 0 && q[Find(q, x)].who == x)
  {
  }

  lemma LeftNext<T>(q: seq<Seat<T>>, n: nat)
    requires n > 0 && q != []
    ensures Left(q, n) == Left(Turn(q), n - 1)
  {
  }

  lemma TurnFind<T>(q: seq<Seat<T>>, x: T)
    requires q != [] && Seated(q)
    ensures Find(q, x) < 0 ==> Find(Turn(q), x) < 0
    ensures Find(q, x) > 0 ==> Find(Turn(q), x) >= 0 && Turn(q)[Find(Turn(q), x)] == q[Find(q, x)]
    ensures Find(q, x) == 0 ==>
              var k := Find(Turn(q), x);
              && (k >= 0 <==> q[0].room > 1)
              && (k >= 0 ==> Turn(q)[k] == Seat(x, q[0].room - 1, q[0].got + 1))
  {
    var t, f := Turn(q), Find(q, x);
    TurnKeeps(q);
    assert forall i :: 0 <= i < |q| - 1 ==> t[i] == q[i + 1];
    if f > 0 {
      assert t[f - 1].who == x;
      FindIs(t, f - 1);
    } else if f == 0 && q[0].room > 1 {
      assert t[|q| - 1].who == x;
      FindIs(t, |q| - 1);
    }
  }

  lemma {:induction false} Ahead<T>(q: seq<Seat<T>>, n: nat, x: T, y: T)
    requires Seated(q) && Balanced(q) && Find(q, x) >= 0 && Find(q, y) >= 0
    requires Count(Deal(q, n), y) < q[Find(q, y)].room
    ensures q[Find(q, x)].got + Count(Deal(q, n), x) <= q[Find(q, y)].got + Count(Deal(q, n), y) + 1
    decreases n
  {
    hide *;
    FindRange(q, x);
    FindRange(q, y);
    BalancedGot(q, Find(q, x), Find(q, y));
    if n == 0 {
      NothingDealt(q, n, x);
      NothingDealt(q, n, y);
    } else {
      var t := Turn(q);
      TurnKeeps(q);
      TurnFind(q, x);
      TurnFind(q, y);
      DealNext(q, n, x);
      DealNext(q, n, y);
      if Find(t, x) < 0 {
        DealCounts(t, n - 1, x);
      } else {
        Ahead(t, n - 1, x, y);
      }
    }
  }

  lemma BalancedGot<T>(q: seq<Seat<T>>, i: nat, j: nat)
    requires Balanced(q) && i < |q| && j < |q|
    ensures q[i].got <= q[j].got + 1 && (i == 0 ==> q[i].got <= q[j].got)
  {
  }

  lemma FindRange<T>(q: seq<Seat<T>>, x: T)
    ensures -1 <= Find(q, x) < |q| && (Find(q, x) >= 0 ==> q[Find(q, x)].who == x)
    ensures Find(q, x) == 0 <==> q != [] && q[0].who == x
  {
  }

  lemma NothingDealt<T>(q: seq<Seat<T>>, n: nat, x: T)
    requires n == 0 || q == []
    ensures Count(Deal(q, n), x) == 0 && Left(q, n) == q
  {
  }

  lemma DealNext<T>(q: seq<Seat<T>>, n: nat, x: T)
    requires n > 0 && q != []
    ensures Count(Deal(q, n), x) == (if q[0].who == x then 1 else 0) + Count(Deal(Turn(q), n - 1), x)
  {
    assert Deal(q, n)[0] == q[0].who && Deal(q, n)[1..] == Deal(Turn(q), n - 1);
  }

  /** No connection gets more than one message more than a connection that stays ready. */
  lemma Fair<T>(q: seq<Seat<T>>, n: nat, i: nat, j: nat)
    requires Seated(q) && i < |q| && j < |q|
    requires forall k :: 0 <= k < |q| ==> q[k].got == 0
    requires Count(Deal(q, n), q[j].who) < q[j].room
    ensures Count(Deal(q, n), q[i].who) <= Count(Deal(q, n), q[j].who) + 1
  {
    FindIs(q, i);
    FindIs(q, j);
    Ahead(q, n, q[i].who, q[j].who);
  }

  /** A connection leaves the queue exactly when its room is used up. */
  lemma Leavers<T>(q: seq<Seat<T>>, n: nat, i: nat)
    requires Seated(q) && i < |q|
    ensures Find(Left(q, n), q[i].who) < 0 <==> Count(Deal(q, n), q[i].who) == q[i].room
  {
    FindIs(q, i);
    DealCounts(q, n, q[i].who);
  }
}
