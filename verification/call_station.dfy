/** An in-memory call station: a set of connected users and the records of
    every call ever placed between them.

    Swift's `Set<Call>` is modelled as a sequence of records. The sequence
    order stands for the set's iteration order, so `first(where:)` is a scan
    from the front (`FirstIndex`); a new record is appended. Records are
    identified by their id alone: a status change replaces the record that
    has the same id (`UpdateCall`). */
module CallStation {

  import opened Options

  /** A user, identified by its id. */
  datatype User = User(id: nat)

  type CallId = nat

  datatype CallEndReason = Cancel | End | Error | UserBusy

  datatype CallStatus = Calling | Talk | Ended(reason: CallEndReason)

  datatype Call = Call(id: CallId, incomingUser: User, outgoingUser: User, status: CallStatus)

  datatype CallAction =
    | Start(incoming: User, outgoing: User)
    | Answer(outgoingUser: User)
    | End(user: User)

  /** No two records share an id. */
  predicate UniqueIds(calls: seq<Call>) {
    forall i, j :: 0 <= i < j < |calls| ==> calls[i].id != calls[j].id
  }

  /** The store of call records. A Swift set holds at most one call per id,
      since calls compare equal exactly when their ids do. */
  type CallStore = calls: seq<Call> | UniqueIds(calls)

  datatype Station = Station(connectedUsers: set<User>, currentCalls: CallStore)

  /** The station after an action, and the id the action returned, if any. */
  datatype Outcome = Outcome(station: Station, id: Option<CallId>)

  /** A new station: nobody connected, no calls. */
  const Empty: Station := Station({}, [])

  /** `user` is one of the two parties of `call`. */
  predicate IsParty(call: Call, user: User) {
    call.incomingUser == user || call.outgoingUser == user
  }

  /** The call is neither ended nor rejected yet. */
  predicate IsActive(call: Call) {
    call.status == Calling || call.status == Talk
  }

  // ---------------------------------------------------------------------------
  // Collection helpers: `filter` and `first(where:)`
  // ---------------------------------------------------------------------------

  /** The elements of `xs` that satisfy `p`, in order. */
  function Filter<T(!new)>(xs: seq<T>, p: T -> bool): (r: seq<T>)
    ensures |r| <= |xs|
    ensures forall x :: x in r <==> x in xs && p(x)
  {
    if |xs| == 0 then []
    else if p(xs[0]) then [xs[0]] + Filter(xs[1..], p)
    else Filter(xs[1..], p)
  }

  /** The closures the station hands to `first(where:)` and `filter`. */
  function Involves(user: User): Call -> bool {
    (c: Call) => IsParty(c, user)
  }

  function OutgoingIs(user: User): Call -> bool {
    (c: Call) => c.outgoingUser == user
  }

  function HasId(id: CallId): Call -> bool {
    (c: Call) => c.id == id
  }

  function ActiveWith(user: User): Call -> bool {
    (c: Call) => IsParty(c, user) && IsActive(c)
  }

  /** `k` is the position `first(where: p)` picks: the earliest match. */
  ghost predicate IsFirst(calls: seq<Call>, p: Call -> bool, k: int) {
    0 <= k < |calls| && p(calls[k]) && forall j :: 0 <= j < k ==> !p(calls[j])
  }

  /** Only one position is the first match. */
  lemma FirstIsUnique(calls: seq<Call>, p: Call -> bool, i: int, j: int)
    requires IsFirst(calls, p, i) && IsFirst(calls, p, j)
    ensures i == j
  {
  }

  /** Position of the first record satisfying `p`, or `None` if there is none. */
  function FirstIndex(calls: seq<Call>, p: Call -> bool): (r: Option<nat>)
    ensures r.Some? ==> IsFirst(calls, p, r.value)
    ensures r.None? <==> forall k :: 0 <= k < |calls| ==> !p(calls[k])
  {
    if |calls| == 0 then None
    else if p(calls[0]) then Some(0)
    else match FirstIndex(calls[1..], p)
      case None => None
      case Some(i) => Some(i + 1)
  }

  // ---------------------------------------------------------------------------
  // Call records
  // ---------------------------------------------------------------------------

  /** The largest id in use (0 for no calls). */
  function MaxId(calls: seq<Call>): (m: nat)
    ensures forall k :: 0 <= k < |calls| ==> calls[k].id <= m
  {
    if |calls| == 0 then 0
    else
      var rest := MaxId(calls[1..]);
      if calls[0].id > rest then calls[0].id else rest
  }

  /** An id no stored call carries; stands for a freshly generated UUID. */
  function FreshId(calls: seq<Call>): (id: CallId)
    ensures forall k :: 0 <= k < |calls| ==> calls[k].id != id
  {
    MaxId(calls) + 1
  }

  /** A new call record with a fresh id. */
  function NewCall(calls: seq<Call>, incoming: User, outgoing: User, status: CallStatus): (call: Call)
    ensures forall k :: 0 <= k < |calls| ==> calls[k].id != call.id
    ensures call.incomingUser == incoming && call.outgoingUser == outgoing
    ensures call.status == status
  {
    Call(FreshId(calls), incoming, outgoing, status)
  }

  /** The record of `call` with another status: same id and same parties. */
  function WithStatus(call: Call, status: CallStatus): (r: Call)
    ensures r.id == call.id
    ensures r.incomingUser == call.incomingUser && r.outgoingUser == call.outgoingUser
    ensures r.status == status
  {
    call.(status := status)
  }

  /** `call` is available for a new call between `users`: none of them takes part in it. */
  function AvailabilityOf(call: Call, users: seq<User>): (r: bool)
    ensures r <==> forall u :: u in users ==> !IsParty(call, u)
  {
    var involved := Filter(users, (u: User) => u == call.incomingUser || u == call.outgoingUser);
    assert |involved| != 0 ==> involved[0] in involved;
    |involved| == 0
  }

  /** The reason a call in `status` ends with when one of its parties hangs up. */
  function EndReason(status: CallStatus): (r: Option<CallEndReason>)
    ensures r == Some(Cancel) <==> status == Calling
    ensures r == Some(CallEndReason.End) <==> status == Talk
    ensures r.None? <==> status.Ended?
  {
    if status == Calling then Some(Cancel)
    else if status == Talk then Some(CallEndReason.End)
    else None
  }

  /** Add a new call record to the store and return its id. */
  function InsertCall(s: Station, incoming: User, outgoing: User, status: CallStatus): (r: Outcome)
    ensures r.id.Some?
    ensures forall k :: 0 <= k < |s.currentCalls| ==> s.currentCalls[k].id != r.id.value
    ensures r.station.connectedUsers == s.connectedUsers
    ensures r.station.currentCalls == s.currentCalls + [Call(r.id.value, incoming, outgoing, status)]
  {
    var call := NewCall(s.currentCalls, incoming, outgoing, status);
    Outcome(s.(currentCalls := s.currentCalls + [call]), Some(call.id))
  }

  /** Replace every record whose id is `updated.id` by `updated`. */
  function ReplaceById(calls: seq<Call>, updated: Call): (r: seq<Call>)
    ensures |r| == |calls|
    ensures forall k :: 0 <= k < |calls| ==>
      r[k] == if calls[k].id == updated.id then updated else calls[k]
  {
    if |calls| == 0 then []
    else [if calls[0].id == updated.id then updated else calls[0]] + ReplaceById(calls[1..], updated)
  }

  /** Some stored record carries `id`. */
  predicate HasRecord(calls: seq<Call>, id: CallId) {
    exists k :: 0 <= k < |calls| && calls[k].id == id
  }

  /** Give `call` a new status in the store and return its id. Like a set's
      `update(with:)`, this replaces the record that has the call's id, or
      adds the record when no stored call has that id. */
  function UpdateCall(s: Station, call: Call, status: CallStatus): (r: Outcome)
    ensures r.id == Some(call.id)
    ensures r.station.connectedUsers == s.connectedUsers
    ensures HasRecord(s.currentCalls, call.id) ==>
      && |r.station.currentCalls| == |s.currentCalls|
      && (forall k :: 0 <= k < |s.currentCalls| && s.currentCalls[k].id != call.id ==>
            r.station.currentCalls[k] == s.currentCalls[k])
      && (forall k :: 0 <= k < |s.currentCalls| && s.currentCalls[k].id == call.id ==>
            r.station.currentCalls[k] == Call(call.id, call.incomingUser, call.outgoingUser, status))
    ensures !HasRecord(s.currentCalls, call.id) ==>
      r.station.currentCalls == s.currentCalls + [Call(call.id, call.incomingUser, call.outgoingUser, status)]
  {
    var updated := WithStatus(call, status);
    match FirstIndex(s.currentCalls, HasId(call.id))
    case Some(_) =>
      Outcome(s.(currentCalls := ReplaceById(s.currentCalls, updated)), Some(call.id))
    case None =>
      Outcome(s.(currentCalls := s.currentCalls + [updated]), Some(call.id))
  }

  // ---------------------------------------------------------------------------
  // Station operations
  // ---------------------------------------------------------------------------

  /** Snapshot of the connected users, each once, in unspecified order. */
  method Users(s: Station) returns (r: seq<User>)
    ensures forall u :: u in r <==> u in s.connectedUsers
    ensures forall i, j :: 0 <= i < j < |r| ==> r[i] != r[j]
    ensures |r| == |s.connectedUsers|
  {
    r := [];
    var rest := s.connectedUsers;
    while rest != {}
      invariant rest <= s.connectedUsers
      invariant forall u :: u in r <==> u in s.connectedUsers && u !in rest
      invariant forall i, j :: 0 <= i < j < |r| ==> r[i] != r[j]
      invariant |r| + |rest| == |s.connectedUsers|
      decreases rest
    {
      var u :| u in rest;
      r := r + [u];
      rest := rest - {u};
    }
  }

  /** Connect `user`; connecting an already connected user changes nothing. */
  function Add(s: Station, user: User): (r: Station)
    ensures user in r.connectedUsers
    ensures forall u :: u != user ==> (u in r.connectedUsers <==> u in s.connectedUsers)
    ensures r.currentCalls == s.currentCalls
    ensures user in s.connectedUsers ==> r == s
  {
    s.(connectedUsers := s.connectedUsers + {user})
  }

  /** End, with reason `error`, the first call `user` takes part in, whatever
      its status. The user stays connected. */
  function Remove(s: Station, user: User): (r: Station)
    ensures r.connectedUsers == s.connectedUsers
    ensures (forall k :: 0 <= k < |s.currentCalls| ==> !IsParty(s.currentCalls[k], user)) ==> r == s
    ensures forall k :: IsFirst(s.currentCalls, Involves(user), k) ==>
      r == UpdateCall(s, s.currentCalls[k], Ended(Error)).station
  {
    var involves := Involves(user);
    match FirstIndex(s.currentCalls, involves)
    case None => s
    case Some(k) =>
      assert forall j :: IsFirst(s.currentCalls, involves, j) ==> j == k by {
        forall j | IsFirst(s.currentCalls, involves, j) {
          FirstIsUnique(s.currentCalls, involves, j, k);
        }
      }
      assert HasRecord(s.currentCalls, s.currentCalls[k].id);
      UpdateCall(s, s.currentCalls[k], Ended(Error)).station
  }

  /** A new record for a call from `incoming` to `outgoing` was appended under
      a fresh id, which is returned; nothing else changed. */
  ghost predicate Appended(s: Station, r: Outcome, incoming: User, outgoing: User, status: CallStatus) {
    && r.id.Some?
    && (forall k :: 0 <= k < |s.currentCalls| ==> s.currentCalls[k].id != r.id.value)
    && r.station.connectedUsers == s.connectedUsers
    && r.station.currentCalls == s.currentCalls + [Call(r.id.value, incoming, outgoing, status)]
  }

  /** The records that make `incoming` or `outgoing` unavailable: those
      either of them takes part in, whatever their status. */
  function Unavailable(calls: seq<Call>, incoming: User, outgoing: User): (r: seq<Call>)
    ensures |r| == 0 <==>
      forall k :: 0 <= k < |calls| ==> !IsParty(calls[k], incoming) && !IsParty(calls[k], outgoing)
  {
    var r := Filter(calls, (c: Call) => !AvailabilityOf(c, [incoming, outgoing]));
    assert |r| != 0 ==> r[0] in r;
    assert forall k :: 0 <= k < |calls| && (IsParty(calls[k], incoming) || IsParty(calls[k], outgoing)) ==>
      calls[k] in r;
    r
  }

  /** Place a call from `incoming` to `outgoing`. */
  function ExecuteStart(s: Station, incoming: User, outgoing: User): (r: Outcome)
    ensures History(s, r.station)
    ensures incoming !in s.connectedUsers ==> r == Outcome(s, None)
    ensures incoming in s.connectedUsers && outgoing !in s.connectedUsers ==>
      Appended(s, r, incoming, outgoing, Ended(Error))
    ensures (&& incoming in s.connectedUsers && outgoing in s.connectedUsers
             && exists k :: 0 <= k < |s.currentCalls|
                  && (IsParty(s.currentCalls[k], incoming) || IsParty(s.currentCalls[k], outgoing))) ==>
      Appended(s, r, incoming, outgoing, Ended(UserBusy))
    ensures (&& incoming in s.connectedUsers && outgoing in s.connectedUsers
             && forall k :: 0 <= k < |s.currentCalls| ==>
                  !IsParty(s.currentCalls[k], incoming) && !IsParty(s.currentCalls[k], outgoing)) ==>
      Appended(s, r, incoming, outgoing, Calling)
  {
    if incoming !in s.connectedUsers then Outcome(s, None)
    else if outgoing !in s.connectedUsers then InsertCall(s, incoming, outgoing, Ended(Error))
    else if |Unavailable(s.currentCalls, incoming, outgoing)| != 0 then
      InsertCall(s, incoming, outgoing, Ended(UserBusy))
    else InsertCall(s, incoming, outgoing, Calling)
  }

  /** `user` answers: the first call whose outgoing party is `user` goes from
      `calling` to `talk`. */
  function ExecuteAnswer(s: Station, user: User): (r: Outcome)
    ensures History(s, r.station)
    ensures r.id.None? ==> r.station == s
    ensures (forall k :: 0 <= k < |s.currentCalls| ==> s.currentCalls[k].outgoingUser != user) ==>
      r.id.None?
    ensures forall k :: IsFirst(s.currentCalls, OutgoingIs(user), k) ==>
      if s.currentCalls[k].status == Calling
      then r == UpdateCall(s, s.currentCalls[k], Talk)
      else r == Outcome(s, None)
  {
    var callee := OutgoingIs(user);
    match FirstIndex(s.currentCalls, callee)
    case None => Outcome(s, None)
    case Some(k) =>
      assert forall j :: IsFirst(s.currentCalls, callee, j) ==> j == k by {
        forall j | IsFirst(s.currentCalls, callee, j) {
          FirstIsUnique(s.currentCalls, callee, j, k);
        }
      }
      assert HasRecord(s.currentCalls, s.currentCalls[k].id);
      if s.currentCalls[k].status == Calling then
        UpdateKeepsHistory(s, k, Talk);
        UpdateCall(s, s.currentCalls[k], Talk)
      else Outcome(s, None)
  }

  /** `user` hangs up: the first call `user` takes part in ends with the reason
      its status gives; an already ended call is left alone. */
  function ExecuteEnd(s: Station, user: User): (r: Outcome)
    ensures History(s, r.station)
    ensures r.id.None? ==> r.station == s
    ensures (forall k :: 0 <= k < |s.currentCalls| ==> !IsParty(s.currentCalls[k], user)) ==>
      r.id.None?
    ensures forall k :: IsFirst(s.currentCalls, Involves(user), k) ==>
      match s.currentCalls[k].status
      case Calling => r == UpdateCall(s, s.currentCalls[k], Ended(Cancel))
      case Talk => r == UpdateCall(s, s.currentCalls[k], Ended(CallEndReason.End))
      case Ended(_) => r == Outcome(s, None)
  {
    var involves := Involves(user);
    match FirstIndex(s.currentCalls, involves)
    case None => Outcome(s, None)
    case Some(k) =>
      assert forall j :: IsFirst(s.currentCalls, involves, j) ==> j == k by {
        forall j | IsFirst(s.currentCalls, involves, j) {
          FirstIsUnique(s.currentCalls, involves, j, k);
        }
      }
      assert HasRecord(s.currentCalls, s.currentCalls[k].id);
      match EndReason(s.currentCalls[k].status)
      case None => Outcome(s, None)
      case Some(reason) =>
        UpdateKeepsHistory(s, k, Ended(reason));
        UpdateCall(s, s.currentCalls[k], Ended(reason))
  }

  /** Record `status` changing to `status'` is one an action may make: stay,
      `calling` to `talk`, `calling` to `ended(cancel)`, `talk` to `ended(end)`. */
  predicate ActionStep(status: CallStatus, status': CallStatus) {
    || status' == status
    || (status == Calling && status' == Talk)
    || (status == Calling && status' == Ended(Cancel))
    || (status == Talk && status' == Ended(CallEndReason.End))
  }

  /** Every earlier record is still there under the same id and with the same
      parties, and its status moved by at most one legal step. */
  ghost predicate History(s: Station, s': Station) {
    && |s.currentCalls| <= |s'.currentCalls|
    && forall k :: 0 <= k < |s.currentCalls| ==>
         && s'.currentCalls[k].id == s.currentCalls[k].id
         && s'.currentCalls[k].incomingUser == s.currentCalls[k].incomingUser
         && s'.currentCalls[k].outgoingUser == s.currentCalls[k].outgoingUser
         && ActionStep(s.currentCalls[k].status, s'.currentCalls[k].status)
  }

  /** Moving one stored record by a legal step keeps the history. */
  lemma UpdateKeepsHistory(s: Station, k: nat, status: CallStatus)
    requires k < |s.currentCalls|
    requires ActionStep(s.currentCalls[k].status, status)
    ensures History(s, UpdateCall(s, s.currentCalls[k], status).station)
    ensures var r := UpdateCall(s, s.currentCalls[k], status).station;
      && |r.currentCalls| == |s.currentCalls|
      && r.currentCalls[k].status == status
      && forall j :: 0 <= j < |s.currentCalls| && j != k ==> r.currentCalls[j] == s.currentCalls[j]
  {
    assert HasRecord(s.currentCalls, s.currentCalls[k].id);
  }

  /** Perform one action and return the id of the call it concerned. */
  function Execute(s: Station, action: CallAction): (r: Outcome)
    ensures r.station.connectedUsers == s.connectedUsers
    ensures History(s, r.station)
    ensures r.id.Some? ==> exists k :: 0 <= k < |r.station.currentCalls| && r.station.currentCalls[k].id == r.id.value
  {
    match action
    case Start(incoming, outgoing) =>
      var r := ExecuteStart(s, incoming, outgoing);
      assert r.id.Some? ==> r.station.currentCalls[|s.currentCalls|].id == r.id.value;
      r
    case Answer(user) => ExecuteAnswer(s, user)
    case End(user) => ExecuteEnd(s, user)
  }

  // ---------------------------------------------------------------------------
  // Queries
  // ---------------------------------------------------------------------------

  /** Every call ever placed, of any status. */
  function AllCalls(s: Station): (r: seq<Call>)
    ensures forall c :: c in r <==> c in s.currentCalls
    ensures |r| == |s.currentCalls|
  {
    s.currentCalls
  }

  /** The calls `user` takes part in. */
  function CallsOf(s: Station, user: User): (r: seq<Call>)
    ensures forall c :: c in r <==> c in s.currentCalls && IsParty(c, user)
  {
    Filter(s.currentCalls, Involves(user))
  }

  /** The record with id `id`, if there is one. */
  function CallById(s: Station, id: CallId): (r: Option<Call>)
    ensures r.Some? ==> r.value in s.currentCalls && r.value.id == id
    ensures r.None? <==> forall k :: 0 <= k < |s.currentCalls| ==> s.currentCalls[k].id != id
  {
    match FirstIndex(s.currentCalls, HasId(id))
    case None => None
    case Some(k) => Some(s.currentCalls[k])
  }

  /** A call `user` takes part in that is still calling or talking, if any. */
  function CurrentCall(s: Station, user: User): (r: Option<Call>)
    ensures r.Some? ==> r.value in s.currentCalls && IsParty(r.value, user) && IsActive(r.value)
    ensures r.None? <==>
      forall k :: 0 <= k < |s.currentCalls| ==> !(IsParty(s.currentCalls[k], user) && IsActive(s.currentCalls[k]))
  {
    match FirstIndex(s.currentCalls, ActiveWith(user))
    case None => None
    case Some(k) => Some(s.currentCalls[k])
  }

}
