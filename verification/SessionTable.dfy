/** The session table of the HTTP and LDAP servers (http.c, ldap_server.c): slots, counters and timeouts. */
module SessionTable {

  const MAX_SESSION := 4096

  /** A slot of the table; it is free while its socket is negative. */
  datatype Session = Session(sock: int, version: int, nothingToWrite: bool, headerLength: int, rLen: int,
                             readTime: int, writeTime: int, activeTime: int)

  datatype Ret = RetOk | RetMaxSession | ErrConnect | ErrAuthen | ErrUnavailable | ErrUnknown | RetTimeout

  predicate InUse(s: Session) {
    s.sock >= 0
  }

  /** The greatest index in use, or -1. */
  function Greatest(slots: seq<Session>): (k: int)
    ensures -1 <= k < |slots|
    ensures k >= 0 ==> InUse(slots[k])
    ensures forall i :: k < i < |slots| ==> !InUse(slots[i])
  {
    if slots == [] then -1
    else if InUse(slots[|slots| - 1]) then |slots| - 1
    else Greatest(slots[..|slots| - 1])
  }

  /** How many slots are in use. */
  function Used(slots: seq<Session>): nat {
    if slots == [] then 0 else Used(slots[..|slots| - 1]) + if InUse(slots[|slots| - 1]) then 1 else 0
  }

  lemma {:induction false} UsedUpdate(slots: seq<Session>, i: nat, s: Session)
    requires i < |slots|
    ensures Used(slots[i := s]) == Used(slots) - (if InUse(slots[i]) then 1 else 0) + if InUse(s) then 1 else 0
  {
    var n := |slots| - 1;
    if i == n {
      assert slots[i := s][..n] == slots[..n];
    } else {
      assert slots[i := s][..n] == slots[..n][i := s];
      UsedUpdate(slots[..n], i, s);
    }
  }

  lemma GreatestIs(slots: seq<Session>, k: int)
    requires -1 <= k < |slots| && (k >= 0 ==> InUse(slots[k])) && forall i :: k < i < |slots| ==> !InUse(slots[i])
    ensures Greatest(slots) == k
  {
  }

  lemma {:induction false} NoneUsed(slots: seq<Session>)
    requires forall i :: 0 <= i < |slots| ==> !InUse(slots[i])
    ensures Used(slots) == 0 && Greatest(slots) == -1
  {
    if slots != [] {
      NoneUsed(slots[..|slots| - 1]);
    }
  }

  /** The counters bound each other: none used means no last session, and the used slots lie up to the last. */
  lemma {:induction false} CountersAgree(slots: seq<Session>)
    ensures Used(slots) <= Greatest(slots) + 1
    ensures Used(slots) == 0 <==> Greatest(slots) == -1
  {
    if slots != [] {
      CountersAgree(slots[..|slots| - 1]);
    }
  }

  // ---- Timeouts ----

  /** The enabled limits, in seconds; one that is not positive is off. */
  datatype Limits = Limits(read: int, write: int, idle: int)

  predicate ReadTimedOut(s: Session, ct: int, limits: Limits) {
    s.readTime > 0 && limits.read > 0 && ct - s.readTime >= limits.read
  }

  predicate WriteTimedOut(s: Session, ct: int, limits: Limits) {
    s.writeTime > 0 && limits.write > 0 && ct - s.writeTime >= limits.write
  }

  /** HS_IS_SESSION_IDLE */
  predicate Idle(s: Session) {
    s.nothingToWrite && s.headerLength < 0 && s.rLen <= 0
  }

  predicate IdleTimedOut(s: Session, ct: int, limits: Limits) {
    Idle(s) && limits.idle > 0 && ct - s.activeTime >= limits.idle
  }

  /** An open session that has passed an enabled timeout. */
  predicate Overdue(s: Session, ct: int, limits: Limits) {
    InUse(s) && (ReadTimedOut(s, ct, limits) || WriteTimedOut(s, ct, limits) || IdleTimedOut(s, ct, limits))
  }

  /**
   In its fields: an open session is overdue when a read or a write has been pending too long, or when it has nothing
   queued, no header and nothing read, and has been inactive too long. A limit that is not positive is off.
   */
  lemma OverdueFields(s: Session, ct: int, limits: Limits)
    ensures Overdue(s, ct, limits) <==>
            && s.sock >= 0
            && (|| (s.readTime > 0 && limits.read > 0 && ct - s.readTime >= limits.read)
                || (s.writeTime > 0 && limits.write > 0 && ct - s.writeTime >= limits.write)
                || (s.nothingToWrite && s.headerLength < 0 && s.rLen <= 0 && limits.idle > 0
                    && ct - s.activeTime >= limits.idle))
  {
  }

  class Server {
    const session: array<Session>
    var version: int
    var sessionCount: int
    var lastSession: int

    ghost predicate Valid()
      reads this, session
    {
      && session.Length <= MAX_SESSION
      && lastSession == Greatest(session[..])
      && sessionCount == Used(session[..])
    }

    /** HTTP_svr_init, LDAP_svr_init */
    constructor (maxSession: int, v: int)
      ensures Valid() && fresh(session)
      ensures session.Length
              == if maxSession <= 0 then 0 else if maxSession < 4096 then maxSession else 4096
      ensures forall i :: 0 <= i < session.Length ==> !InUse(session[i])
    {
      var n := if maxSession < MAX_SESSION then maxSession else MAX_SESSION;
      session := new Session[if n < 0 then 0 else n](_ => Session(-1, 0, true, -1, 0, 0, 0, 0));
      version := v;
      sessionCount := 0;
      lastSession := -1;
      new;
      NoneUsed(session[..]);
    }

    /**
     HTTP_sess_open, LDAP_sess_open, with what accept returned, whether a failure was of the kind that is passed over
     in silence, and whether the peer is allowed. `i` is the slot taken, or -1.
     */
    method SessOpen(sk: int, passedOver: bool, allowed: bool, ct: int) returns (r: Ret, i: int)
      requires Valid()
      modifies this, session
      ensures Valid()
      ensures r == RetMaxSession <==> forall k :: 0 <= k < session.Length ==> old(InUse(session[k]))
      ensures r != RetMaxSession && sk < 0 ==> r == if passedOver then RetOk else ErrConnect
      ensures r != RetMaxSession && sk >= 0 ==> r == if allowed then RetOk else ErrAuthen
      ensures i >= 0 <==> r == RetOk && sk >= 0
      ensures i >= 0 ==>
                && i < session.Length && old(session[i]).sock < 0
                && (forall k :: 0 <= k < i ==> old(session[k]).sock >= 0)
                && session[..] == old(session[..])[i := Session(sk, version, true, -1, 0, 0, 0, ct)]
                && version == old(version) + 1 && sessionCount == old(sessionCount) + 1
      ensures i < 0 ==> unchanged(this) && session[..] == old(session[..])
    {
      i := 0;
      while i < session.Length && session[i].sock >= 0
        invariant 0 <= i <= session.Length
        invariant forall k :: 0 <= k < i ==> InUse(session[k])
      {
        i := i + 1;
      }
      if i >= session.Length {
        return RetMaxSession, -1;
      }
      if sk < 0 {
        return if passedOver then RetOk else ErrConnect, -1;
      }
      if !allowed {
        return ErrAuthen, -1;
      }
      ghost var was := session[..];
      version := version + 1;
      session[i] := Session(sk, version, true, -1, 0, 0, 0, ct);
      assert session[..] == was[i := session[i]];
      UsedUpdate(was, i, session[i]);
      if lastSession < i {
        lastSession := i;
      }
      GreatestIs(session[..], lastSession);
      sessionCount := sessionCount + 1;
      r := RetOk;
    }

    /** HTTP_sess_close, LDAP_sess_close, with whether the close of the socket fails: the slot is free all the same. */
    method SessClose(no: nat, closeFails: bool) returns (r: Ret)
      requires Valid() && no < session.Length
      modifies this, session
      ensures Valid()
      ensures r == ErrUnavailable <==> old(!InUse(session[no]))
      ensures r == ErrUnavailable ==> unchanged(this) && session[..] == old(session[..])
      ensures r != ErrUnavailable ==>
                && r == (if closeFails then ErrUnknown else RetOk)
                && session[..] == old(session[..])[no := old(session[no]).(sock := -1)]
                && sessionCount == old(sessionCount) - 1 && version == old(version)
    {
      ghost var was := session[..];
      assert forall k :: 0 <= k < |was| ==> was[k] == session[k];
      if lastSession == no {
        lastSession := lastSession - 1;
        while lastSession >= 0 && session[lastSession].sock < 0
          invariant -1 <= lastSession < no
          invariant session[..] == was && sessionCount == old(sessionCount) && version == old(version)
          invariant forall k :: lastSession < k < no ==> !InUse(session[k])
        {
          lastSession := lastSession - 1;
        }
      }
      if session[no].sock < 0 {
        return ErrUnavailable;
      }
      session[no] := session[no].(sock := -1);
      assert session[..] == was[no := session[no]];
      UsedUpdate(was, no, session[no]);
      GreatestIs(session[..], lastSession);
      sessionCount := sessionCount - 1;
      r := if closeFails then ErrUnknown else RetOk;
    }

    /** HTTP_svr_close, LDAP_svr_close */
    method SvrClose()
      requires Valid()
      modifies this, session
      ensures Valid() && lastSession == -1 && sessionCount == 0
      ensures forall k :: 0 <= k < session.Length ==>
                session[k] == old(session[k]).(sock := session[k].sock) && !InUse(session[k])
    {
      var i := 0;
      while i <= lastSession
        invariant 0 <= i <= lastSession + 1 && lastSession == old(lastSession) < session.Length
        invariant forall k :: 0 <= k < i ==>
                    !InUse(session[k]) && session[k] == old(session[k]).(sock := session[k].sock)
        invariant forall k :: i <= k < session.Length ==> session[k] == old(session[k])
      {
        if session[i].sock >= 0 {
          session[i] := session[i].(sock := -1);
        }
        i := i + 1;
      }
      lastSession := -1;
      sessionCount := 0;
      NoneUsed(session[..]);
    }

    /** HTTP_verify_connection: closes the first overdue session, whether or not that fails, or finds none. */
    method VerifyConnection(ct: int, limits: Limits, closeFails: bool) returns (r: Ret)
      requires Valid()
      modifies this, session
      ensures Valid() && (r == RetOk || r == RetTimeout)
      ensures r == RetOk <==> forall k :: 0 <= k < session.Length ==> !old(Overdue(session[k], ct, limits))
      ensures r == RetOk ==> unchanged(this) && session[..] == old(session[..])
      ensures r == RetTimeout ==>
                exists k :: 0 <= k < session.Length
                  && old(session[k]).sock >= 0 && old(Overdue(session[k], ct, limits))
                  && (forall j :: 0 <= j < k ==> !old(Overdue(session[j], ct, limits)))
                  && session[..] == old(session[..])[k := old(session[k]).(sock := -1)]
                  && sessionCount == old(sessionCount) - 1
    {
      var i := 0;
      while i <= lastSession
        invariant 0 <= i <= lastSession + 1 <= session.Length
        invariant forall k :: 0 <= k < i ==> !Overdue(session[k], ct, limits)
        invariant Valid() && unchanged(this) && session[..] == old(session[..])
      {
        if session[i].sock >= 0 {
          var s := session[i];
          if (s.readTime > 0 && limits.read > 0 && ct - s.readTime >= limits.read)
             || (s.writeTime > 0 && limits.write > 0 && ct - s.writeTime >= limits.write)
             || (s.nothingToWrite && s.headerLength < 0 && s.rLen <= 0 && limits.idle > 0 && ct - s.activeTime >= limits.idle) {
            r := SessClose(i, closeFails);
            return RetTimeout;
          }
        }
        i := i + 1;
      }
      r := RetOk;
    }
  }
}
