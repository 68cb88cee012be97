/** Properties of the call station that relate several operations: the
    invariant every action keeps, lookups after a change, the life cycle of a
    call, and the places where the station's rules are looser than a reader
    would expect. */
module CallStationProperties {

  import opened Options
  import opened CallStation

  /** The two calls have a party in common. */
  predicate SharesParty(a: Call, b: Call) {
    IsParty(b, a.incomingUser) || IsParty(b, a.outgoingUser)
  }

  /** Every user takes part in at most one call that is still calling or talking. */
  ghost predicate SingleActive(calls: seq<Call>) {
    forall i, j ::
      (0 <= i < |calls| && 0 <= j < |calls| && i != j && IsActive(calls[i]) && IsActive(calls[j])) ==>
        !SharesParty(calls[i], calls[j])
  }

  // ---------------------------------------------------------------------------
  // Lookups
  // ---------------------------------------------------------------------------

  /** `call(id:)` finds every stored record under its own id. */
  lemma CallByIdFindsRecord(s: Station, k: nat)
    requires k < |s.currentCalls|
    ensures CallById(s, s.currentCalls[k].id) == Some(s.currentCalls[k])
  {

  }

  /** Under the single-active invariant `currentCall(user:)` returns the one
      call the user is calling or talking in. */
  lemma CurrentCallFindsActiveCall(s: Station, user: User, k: nat)
    requires SingleActive(s.currentCalls)
    requires k < |s.currentCalls|
    requires IsParty(s.currentCalls[k], user) && IsActive(s.currentCalls[k])
    ensures CurrentCall(s, user) == Some(s.currentCalls[k])
  {

  }

  // ---------------------------------------------------------------------------
  // What actions keep
  // ---------------------------------------------------------------------------

  /** The invariant holds for a new station. */
  lemma EmptySingleActive()
    ensures SingleActive(Empty.currentCalls)
  {
  }

  /** An ended call is never changed by an action. */
  lemma ExecuteKeepsEndedCalls(s: Station, action: CallAction, k: nat)
    requires k < |s.currentCalls| && s.currentCalls[k].status.Ended?
    ensures k < |Execute(s, action).station.currentCalls|
    ensures Execute(s, action).station.currentCalls[k] == s.currentCalls[k]
  {

  }

  /** Records that existed before an action keep their pairs apart: a record
      active afterwards was active before and has the same parties. */
  lemma HistoryKeepsOldRecordsApart(s: Station, s': Station, i: nat, j: nat)
    requires SingleActive(s.currentCalls)
    requires History(s, s')
    requires i < |s.currentCalls| && j < |s.currentCalls| && i != j
    requires IsActive(s'.currentCalls[i]) && IsActive(s'.currentCalls[j])
    ensures !SharesParty(s'.currentCalls[i], s'.currentCalls[j])
  {

  }

  /** A change that keeps the history and adds no record keeps the
      single-active invariant. */
  lemma SameRecordsKeepSingleActive(s: Station, s': Station)
    requires SingleActive(s.currentCalls)
    requires History(s, s') && |s'.currentCalls| == |s.currentCalls|
    ensures SingleActive(s'.currentCalls)
  {
    var calls' := s'.currentCalls;
    forall i, j | 0 <= i < |calls'| && 0 <= j < |calls'| && i != j
      && IsActive(calls'[i]) && IsActive(calls'[j])
      ensures !SharesParty(calls'[i], calls'[j])
    {
      HistoryKeepsOldRecordsApart(s, s', i, j);
    }
  }

  /** A start keeps the single-active invariant: the record it appends is
      active only when neither party takes part in any stored call. */
  lemma StartPreservesSingleActive(s: Station, incoming: User, outgoing: User)
    requires SingleActive(s.currentCalls)
    ensures SingleActive(Execute(s, Start(incoming, outgoing)).station.currentCalls)
  {
    var calls := s.currentCalls;
    var r := Execute(s, Start(incoming, outgoing));
    if incoming !in s.connectedUsers {
      return;
    }
    var calls' := r.station.currentCalls;
    var n := |calls|;
    assert |calls'| == n + 1 && calls'[..n] == calls;
    forall i, j | 0 <= i < |calls'| && 0 <= j < |calls'| && i != j
      && IsActive(calls'[i]) && IsActive(calls'[j])
      ensures !SharesParty(calls'[i], calls'[j])
    {
      if i < n && j < n {
        assert calls'[i] == calls[i] && calls'[j] == calls[j];
      } else {
        // one of the two is the appended record, and it is calling
        assert calls'[n].status == Calling;
        assert forall m :: 0 <= m < n ==> !IsParty(calls[m], incoming) && !IsParty(calls[m], outgoing);
        var earlier := if i < n then i else j;
        assert calls'[earlier] == calls[earlier];
      }
    }
  }

  /** Every action keeps the single-active invariant. */
  lemma ExecutePreservesSingleActive(s: Station, action: CallAction)
    requires SingleActive(s.currentCalls)
    ensures SingleActive(Execute(s, action).station.currentCalls)
  {
    match action
    case Start(incoming, outgoing) =>
      StartPreservesSingleActive(s, incoming, outgoing);
    case Answer(user) =>
      var r := Execute(s, action);
      assert |r.station.currentCalls| == |s.currentCalls|;
      SameRecordsKeepSingleActive(s, r.station);
    case End(user) =>
      var r := Execute(s, action);
      assert |r.station.currentCalls| == |s.currentCalls|;
      SameRecordsKeepSingleActive(s, r.station);
  }

  /** `remove` keeps the single-active invariant. */
  lemma RemovePreservesSingleActive(s: Station, user: User)
    requires SingleActive(s.currentCalls)
    ensures SingleActive(Remove(s, user).currentCalls)
  {
    var calls, calls' := s.currentCalls, Remove(s, user).currentCalls;
    match FirstIndex(calls, Involves(user))
    case None =>
    case Some(k) =>
      assert HasRecord(calls, calls[k].id);
      forall i, j | 0 <= i < |calls'| && 0 <= j < |calls'| && i != j
        && IsActive(calls'[i]) && IsActive(calls'[j])
        ensures !SharesParty(calls'[i], calls'[j])
      {
        assert calls[i].id != calls[k].id && calls[j].id != calls[k].id;
      }
  }

  // ---------------------------------------------------------------------------
  // Life cycle of a call
  // ---------------------------------------------------------------------------

  /** Users who take part in no stored call. */
  ghost predicate Free(s: Station, a: User, b: User) {
    forall k :: 0 <= k < |s.currentCalls| ==> !IsParty(s.currentCalls[k], a) && !IsParty(s.currentCalls[k], b)
  }

  /** A call to a user who is not connected is recorded as ended with an error. */
  lemma StartToUnconnectedUser(s: Station, a: User, b: User)
    requires a != b && b !in s.connectedUsers
    ensures var r := Execute(Add(s, a), Start(a, b));
      && r.id.Some?
      && CallById(r.station, r.id.value) == Some(Call(r.id.value, a, b, Ended(Error)))
  {

  }

  /** Answering the first call whose callee is `user`, while it is calling. */
  lemma AnswerAt(t: Station, user: User, n: nat)
    requires IsFirst(t.currentCalls, OutgoingIs(user), n)
    requires t.currentCalls[n].status == Calling
    ensures var r := Execute(t, Answer(user));
      && r.id == Some(t.currentCalls[n].id)
      && |r.station.currentCalls| == |t.currentCalls|
      && r.station.currentCalls[n] == t.currentCalls[n].(status := Talk)
      && forall j :: 0 <= j < |t.currentCalls| && j != n ==> r.station.currentCalls[j] == t.currentCalls[j]
  {

  }

  /** Hanging up the first call `user` takes part in, while it is active. */
  lemma EndAt(t: Station, user: User, n: nat, reason: CallEndReason)
    requires IsFirst(t.currentCalls, Involves(user), n)
    requires EndReason(t.currentCalls[n].status) == Some(reason)
    ensures var r := Execute(t, CallAction.End(user));
      && r.id == Some(t.currentCalls[n].id)
      && |r.station.currentCalls| == |t.currentCalls|
      && r.station.currentCalls[n] == t.currentCalls[n].(status := Ended(reason))
      && forall j :: 0 <= j < |t.currentCalls| && j != n ==> r.station.currentCalls[j] == t.currentCalls[j]
  {

  }

  /** Two connected, free users: start gives `calling`, the callee's answer
      gives `talk`, the caller's hang-up gives `ended(end)`, always under the
      id the start returned. */
  lemma CallLifeCycle(s: Station, a: User, b: User)
    requires a in s.connectedUsers && b in s.connectedUsers && a != b
    requires Free(s, a, b)
    ensures var started := Execute(s, Start(a, b));
      var answered := Execute(started.station, Answer(b));
      var ended := Execute(answered.station, CallAction.End(a));
      && started.id.Some?
      && CallById(started.station, started.id.value) == Some(Call(started.id.value, a, b, Calling))
      && answered.id == started.id
      && CallById(answered.station, started.id.value) == Some(Call(started.id.value, a, b, Talk))
      && ended.id == started.id
      && CallById(ended.station, started.id.value)
         == Some(Call(started.id.value, a, b, Ended(CallEndReason.End)))
  {
    var n := |s.currentCalls|;
    var started := Execute(s, Start(a, b));
    var id := started.id.value;
    assert started.station.currentCalls == s.currentCalls + [Call(id, a, b, Calling)];
    CallByIdFindsRecord(started.station, n);
    assert IsFirst(started.station.currentCalls, OutgoingIs(b), n);
    AnswerAt(started.station, b, n);
    var answered := Execute(started.station, Answer(b));
    CallByIdFindsRecord(answered.station, n);
    assert IsFirst(answered.station.currentCalls, Involves(a), n) by {
      forall j | 0 <= j < n
        ensures !Involves(a)(answered.station.currentCalls[j])
      {
        assert answered.station.currentCalls[j] == started.station.currentCalls[j];
      }
    }
    EndAt(answered.station, a, n, CallEndReason.End);
    var ended := Execute(answered.station, CallAction.End(a));
    CallByIdFindsRecord(ended.station, n);
  }

  /** Hanging up before the callee answers cancels the call. */
  lemma HangUpWhileCallingCancels(s: Station, a: User, b: User, user: User)
    requires a in s.connectedUsers && b in s.connectedUsers && a != b
    requires Free(s, a, b)
    requires user == a || user == b
    ensures var started := Execute(s, Start(a, b));
      var ended := Execute(started.station, CallAction.End(user));
      && started.id.Some?
      && ended.id == started.id
      && CallById(ended.station, started.id.value) == Some(Call(started.id.value, a, b, Ended(Cancel)))
  {
    var n := |s.currentCalls|;
    var started := Execute(s, Start(a, b));
    assert started.station.currentCalls == s.currentCalls + [Call(started.id.value, a, b, Calling)];
    assert IsFirst(started.station.currentCalls, Involves(user), n);
    EndAt(started.station, user, n, Cancel);
    var ended := Execute(started.station, CallAction.End(user));
    CallByIdFindsRecord(ended.station, n);
  }

  /** A start involving a user who already takes part in a call is recorded
      as rejected with `userBusy`; every earlier record stays as it was. */
  lemma StartWithBusyUserIsRejected(s: Station, a: User, b: User, k: nat)
    requires a in s.connectedUsers && b in s.connectedUsers
    requires k < |s.currentCalls| && (IsParty(s.currentCalls[k], a) || IsParty(s.currentCalls[k], b))
    ensures var r := Execute(s, Start(a, b));
      && r.id.Some?
      && r.station.currentCalls[..|s.currentCalls|] == s.currentCalls
      && CallById(r.station, r.id.value) == Some(Call(r.id.value, a, b, Ended(UserBusy)))
  {

  }

  /** `remove` ends the user's call with an error but leaves the user connected. */
  lemma RemoveDuringCall(s: Station, a: User, b: User)
    requires a in s.connectedUsers && b in s.connectedUsers && a != b
    requires Free(s, a, b)
    ensures var started := Execute(s, Start(a, b));
      var removed := Remove(started.station, a);
      && started.id.Some?
      && CallById(removed, started.id.value) == Some(Call(started.id.value, a, b, Ended(Error)))
      && a in removed.connectedUsers
  {
    var n := |s.currentCalls|;
    var started := Execute(s, Start(a, b));
    assert IsFirst(started.station.currentCalls, Involves(a), n);
    var removed := Remove(started.station, a);
    assert removed.currentCalls[n] == Call(started.id.value, a, b, Ended(Error));
    CallByIdFindsRecord(removed, n);
  }

  // ---------------------------------------------------------------------------
  // Rules looser than "busy" and "remove" suggest
  // ---------------------------------------------------------------------------

  /** The busy check looks at calls of every status: after a cancelled call
      the caller has no current call, yet a new start is rejected as busy. */
  lemma BusyCheckCountsEndedCalls(s: Station, a: User, b: User, c: User)
    requires a in s.connectedUsers && b in s.connectedUsers && c in s.connectedUsers
    requires a != b && a != c && b != c
    requires Free(s, a, b) && Free(s, c, c)
    ensures var started := Execute(s, Start(a, b));
      var ended := Execute(started.station, CallAction.End(a));
      var again := Execute(ended.station, Start(a, c));
      && CurrentCall(ended.station, a).None?
      && again.id.Some?
      && CallById(again.station, again.id.value) == Some(Call(again.id.value, a, c, Ended(UserBusy)))
  {
    var n := |s.currentCalls|;
    var started := Execute(s, Start(a, b));
    assert started.station.currentCalls == s.currentCalls + [Call(started.id.value, a, b, Calling)];
    assert IsFirst(started.station.currentCalls, Involves(a), n);
    EndAt(started.station, a, n, Cancel);
    var ended := Execute(started.station, CallAction.End(a));
    forall k | 0 <= k < |ended.station.currentCalls|
      ensures !(IsParty(ended.station.currentCalls[k], a) && IsActive(ended.station.currentCalls[k]))
    {
      if k < n {
        assert ended.station.currentCalls[k] == s.currentCalls[k];
      }
    }
    StartWithBusyUserIsRejected(ended.station, a, c, n);
  }

  /** `remove` overwrites the reason of a call that had already ended. */
  lemma RemoveRewritesEndedCall(s: Station, a: User, b: User)
    requires a in s.connectedUsers && b in s.connectedUsers && a != b
    requires Free(s, a, b)
    ensures var started := Execute(s, Start(a, b));
      var ended := Execute(started.station, CallAction.End(a));
      var removed := Remove(ended.station, a);
      && CallById(ended.station, started.id.value) == Some(Call(started.id.value, a, b, Ended(Cancel)))
      && CallById(removed, started.id.value) == Some(Call(started.id.value, a, b, Ended(Error)))
  {
    var n := |s.currentCalls|;
    var started := Execute(s, Start(a, b));
    assert started.station.currentCalls == s.currentCalls + [Call(started.id.value, a, b, Calling)];
    assert IsFirst(started.station.currentCalls, Involves(a), n);
    EndAt(started.station, a, n, Cancel);
    var ended := Execute(started.station, CallAction.End(a));
    CallByIdFindsRecord(ended.station, n);
    assert HasRecord(ended.station.currentCalls, started.id.value);
    assert IsFirst(ended.station.currentCalls, Involves(a), n) by {
      forall j | 0 <= j < n
        ensures !Involves(a)(ended.station.currentCalls[j])
      {
        assert ended.station.currentCalls[j] == s.currentCalls[j];
      }
    }
    var removed := Remove(ended.station, a);
    assert removed.currentCalls[n] == Call(started.id.value, a, b, Ended(Error));
    CallByIdFindsRecord(removed, n);
  }

}
