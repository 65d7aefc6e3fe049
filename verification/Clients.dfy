/**
 The suspend clients of src/pwrevents/client.c: who is registered, who must be
 asked in which of the two voting rounds, and the counters a round is decided by.

 `Step` is the meaning of one operation on the table, `ClientTable` the
 original's code proved against it, and the run lemmas say what the counters
 count over any sequence of operations.
 */
module Clients {

  datatype Round = SuspendRequest | PrepareSuspend

  datatype Vote = NoRsp | Nack | Ack

  datatype Client = Client(name: string, needsRequest: bool, needsPrepare: bool,
                           requestVote: Vote, preparedVote: Vote) {
    predicate Needs(r: Round) {
      if r.SuspendRequest? then needsRequest else needsPrepare
    }

    function Voted(r: Round): Vote {
      if r.SuspendRequest? then requestVote else preparedVote
    }

    function WithNeed(r: Round, need: bool): Client {
      if r.SuspendRequest? then this.(needsRequest := need) else this.(needsPrepare := need)
    }

    function WithVote(r: Round, vote: Vote): Client {
      if r.SuspendRequest? then this.(requestVote := vote) else this.(preparedVote := vote)
    }
  }

  /** The counters of one round: answers expected and ACKs received. */
  datatype Count = Count(expected: int, acks: int)

  datatype Table = Table(clients: map<string, Client>, request: Count, prepare: Count) {
    function Of(r: Round): Count {
      if r.SuspendRequest? then request else prepare
    }

    function WithCount(r: Round, c: Count): Table {
      if r.SuspendRequest? then this.(request := c) else this.(prepare := c)
    }
  }

  predicate Approves(t: Table, r: Round) {
    t.Of(r).acks >= t.Of(r).expected
  }

  function Required(clients: map<string, Client>, r: Round): set<string> {
    set uid | uid in clients && clients[uid].Needs(r)
  }

  function Acked(clients: map<string, Client>, r: Round): set<string> {
    set uid | uid in clients && clients[uid].Voted(r) == Ack
  }

  function Unanswered(c: Client): Client {
    c.(requestVote := NoRsp, preparedVote := NoRsp)
  }

  datatype Op =
    | Register(uid: string, name: string)
    | Unregister(uid: string)
    | Require(uid: string, round: Round, reg: bool)
    | Cast(uid: string, round: Round, ack: bool)
    | VoteInit

  function Step(t: Table, op: Op): Table {
    match op
    case Register(uid, name) => t.(clients := t.clients[uid := Client(name, false, false, NoRsp, NoRsp)])
    case Unregister(uid) => t.(clients := t.clients - {uid})
    case Require(uid, r, reg) =>
      if uid !in t.clients || t.clients[uid].Needs(r) == reg then t
      else t.(clients := t.clients[uid := t.clients[uid].WithNeed(r, reg)])
            .WithCount(r, t.Of(r).(expected := t.Of(r).expected + if reg then 1 else -1))
    case Cast(uid, r, ack) =>
      var vote := if ack then Ack else Nack;
      if uid !in t.clients || t.clients[uid].Voted(r) == vote then t
      else t.(clients := t.clients[uid := t.clients[uid].WithVote(r, vote)])
            .WithCount(r, t.Of(r).(acks := t.Of(r).acks + if ack then 1 else 0))
    case VoteInit =>
      Table(map uid | uid in t.clients :: Unanswered(t.clients[uid]),
            Count(|Required(t.clients, SuspendRequest)|, 0),
            Count(|Required(t.clients, PrepareSuspend)|, 0))
  }

  // ------------------------------------------------- what the counters count

  /** Since the last VoteInit: required clients that left, and ACK marks that were overwritten or left. */
  datatype Gone = Gone(required: nat, acks: nat)

  /** The client that op removes from the table, if any; registering again removes the old entry. */
  predicate Removes(t: Table, op: Op) {
    (op.Register? || op.Unregister?) && op.uid in t.clients
  }

  predicate Retracts(t: Table, op: Op, r: Round) {
    op.Cast? && op.round == r && !op.ack && op.uid in t.clients && t.clients[op.uid].Voted(r) == Ack
  }

  function GoneStep(t: Table, g: Gone, op: Op, r: Round): Gone {
    if op.VoteInit? then Gone(0, 0)
    else Gone(
           g.required + (if Removes(t, op) && t.clients[op.uid].Needs(r) then 1 else 0),
           g.acks + (if (Removes(t, op) && t.clients[op.uid].Voted(r) == Ack) || Retracts(t, op, r) then 1 else 0))
  }

  ghost predicate Accounted(t: Table, g: Gone, r: Round) {
    && t.Of(r).expected == |Required(t.clients, r)| + g.required
    && t.Of(r).acks == |Acked(t.clients, r)| + g.acks
  }

  function Run(t: Table, ops: seq<Op>): Table
    decreases |ops|
  {
    if ops == [] then t else Run(Step(t, ops[0]), ops[1..])
  }

  function GoneRun(t: Table, g: Gone, ops: seq<Op>, r: Round): Gone
    decreases |ops|
  {
    if ops == [] then g else GoneRun(Step(t, ops[0]), GoneStep(t, g, ops[0], r), ops[1..], r)
  }

  const EMPTY: Table := Table(map[], Count(0, 0), Count(0, 0))

  /** Setting or removing one entry moves at most one uid in or out of each set. */
  lemma EntrySet(clients: map<string, Client>, uid: string, c: Client, r: Round)
    ensures Required(clients[uid := c], r) == Required(clients, r) - {uid} + (if c.Needs(r) then {uid} else {})
    ensures Acked(clients[uid := c], r) == Acked(clients, r) - {uid} + (if c.Voted(r) == Ack then {uid} else {})
  {
  }

  lemma EntryRemoved(clients: map<string, Client>, uid: string, r: Round)
    ensures Required(clients - {uid}, r) == Required(clients, r) - {uid}
    ensures Acked(clients - {uid}, r) == Acked(clients, r) - {uid}
  {
  }

  lemma ReplaceSize(s: set<string>, x: string, back: bool)
    ensures |s - {x} + (if back then {x} else {})| == |s| - (if x in s then 1 else 0) + (if back then 1 else 0)
  {
  }

  ghost predicate Sizes(after: map<string, Client>, before: map<string, Client>, r: Round, required: int, acked: int) {
    && |Required(after, r)| == |Required(before, r)| + required
    && |Acked(after, r)| == |Acked(before, r)| + acked
  }

  function Bit(b: bool): int {
    if b then 1 else 0
  }

  lemma EntrySizes(clients: map<string, Client>, uid: string, c: Client, r: Round)
    ensures var had := uid in clients;
            Sizes(clients[uid := c], clients, r,
                  Bit(c.Needs(r)) - Bit(had && clients[uid].Needs(r)),
                  Bit(c.Voted(r) == Ack) - Bit(had && clients[uid].Voted(r) == Ack))
  {
    EntrySet(clients, uid, c, r);
    ReplaceSize(Required(clients, r), uid, c.Needs(r));
    ReplaceSize(Acked(clients, r), uid, c.Voted(r) == Ack);
  }

  lemma RemovalSizes(clients: map<string, Client>, uid: string, r: Round)
    ensures var had := uid in clients;
            Sizes(clients - {uid}, clients, r,
                  -Bit(had && clients[uid].Needs(r)), -Bit(had && clients[uid].Voted(r) == Ack))
  {
    EntryRemoved(clients, uid, r);
    ReplaceSize(Required(clients, r), uid, false);
    ReplaceSize(Acked(clients, r), uid, false);
  }

  lemma InitCounts(t: Table, r: Round)
    ensures Required(Step(t, VoteInit).clients, r) == Required(t.clients, r)
    ensures Acked(Step(t, VoteInit).clients, r) == {}
  {
  }

  lemma StepAccounts(t: Table, g: Gone, op: Op, r: Round)
    requires Accounted(t, g, r)
    ensures Accounted(Step(t, op), GoneStep(t, g, op, r), r)
  {
    match op
    case VoteInit => InitCounts(t, r);
    case Unregister(uid) => RemovalSizes(t.clients, uid, r);
    case Register(uid, name) => EntrySizes(t.clients, uid, Client(name, false, false, NoRsp, NoRsp), r);
    case Require(uid, round, reg) => RequireAccounts(t, g, op, r);
    case Cast(uid, round, ack) => CastAccounts(t, g, op, r);
  }

  lemma RequireAccounts(t: Table, g: Gone, op: Op, r: Round)
    requires Accounted(t, g, r) && op.Require?
    ensures Accounted(Step(t, op), GoneStep(t, g, op, r), r)
  {
    if Step(t, op) != t {
      var entry := t.clients[op.uid].WithNeed(op.round, op.reg);
      assert Step(t, op).clients == t.clients[op.uid := entry];
      EntrySizes(t.clients, op.uid, entry, r);
    }
  }

  lemma CastAccounts(t: Table, g: Gone, op: Op, r: Round)
    requires Accounted(t, g, r) && op.Cast?
    ensures Accounted(Step(t, op), GoneStep(t, g, op, r), r)
  {
    if Step(t, op) != t {
      var entry := t.clients[op.uid].WithVote(op.round, if op.ack then Ack else Nack);
      assert Step(t, op).clients == t.clients[op.uid := entry];
      EntrySizes(t.clients, op.uid, entry, r);
    }
  }

  /**
   Over any operations whatsoever: the answers expected are the required
   clients present plus those that left since the round began, and the ACKs
   counted are the ACK marks present plus those overwritten or gone since.
   */
  lemma {:induction false} VotesAccounted(t: Table, g: Gone, ops: seq<Op>, r: Round)
    requires Accounted(t, g, r)
    ensures Accounted(Run(t, ops), GoneRun(t, g, ops, r), r)
    decreases |ops|
  {
    if ops != [] {
      StepAccounts(t, g, ops[0], r);
      VotesAccounted(Step(t, ops[0]), GoneStep(t, g, ops[0], r), ops[1..], r);
    }
  }

  lemma VotesAccountedFromStart(ops: seq<Op>, r: Round)
    ensures Accounted(Run(EMPTY, ops), GoneRun(EMPTY, Gone(0, 0), ops, r), r)
  {
    assert Required(EMPTY.clients, r) == {} && Acked(EMPTY.clients, r) == {};
    VotesAccounted(EMPTY, Gone(0, 0), ops, r);
  }

  // ------------------------------------------------- what one operation does

  /** Every entry but uid's, and everything about the other round, is as before. */
  ghost predicate OnlyTouches(t: Table, after: Table, uid: string, r: Round) {
    && after.clients.Keys == t.clients.Keys
    && (forall x :: x in t.clients && x != uid ==> after.clients[x] == t.clients[x])
    && (forall q: Round :: q != r ==> after.Of(q) == t.Of(q))
    && (uid in t.clients ==>
          && after.clients[uid].name == t.clients[uid].name
          && forall q: Round :: q != r ==>
               && after.clients[uid].Needs(q) == t.clients[uid].Needs(q)
               && after.clients[uid].Voted(q) == t.clients[uid].Voted(q))
  }

  /**
   A vote of a present client leaves its mark, an ACK exactly when it was one, and the
   ACKs counted rise by one exactly when the mark turns to ACK. A stranger's does nothing.
   */
  lemma VoteMarks(t: Table, uid: string, r: Round, ack: bool)
    ensures var after := Step(t, Cast(uid, r, ack));
            && OnlyTouches(t, after, uid, r)
            && after.Of(r).expected == t.Of(r).expected
            && (uid !in t.clients ==> after == t)
            && (uid in t.clients ==>
                  && after.clients[uid].Voted(r) == (if ack then Ack else Nack)
                  && after.clients[uid].Needs(r) == t.clients[uid].Needs(r)
                  && after.Of(r).acks == t.Of(r).acks + if ack && t.clients[uid].Voted(r) != Ack then 1 else 0)
  {
  }

  /** A present client is asked in a round exactly as it last said, and the answers expected follow. */
  lemma RequireMarks(t: Table, uid: string, r: Round, reg: bool)
    ensures var after := Step(t, Require(uid, r, reg));
            && OnlyTouches(t, after, uid, r)
            && after.Of(r).acks == t.Of(r).acks
            && (uid !in t.clients ==> after == t)
            && (uid in t.clients ==>
                  && (uid in Required(after.clients, r) <==> reg)
                  && after.clients[uid].Voted(r) == t.clients[uid].Voted(r)
                  && after.Of(r).expected == t.Of(r).expected
                     + if reg == t.clients[uid].Needs(r) then 0 else if reg then 1 else -1)
  {
  }

  /** A new round asks whom it is to ask, has no answer from anyone, and keeps the registrations. */
  lemma InitForgets(t: Table)
    ensures var after := Step(t, VoteInit);
            && after.clients.Keys == t.clients.Keys
            && forall r: Round ::
                 && after.Of(r).acks == 0
                 && after.Of(r).expected == |set uid | uid in t.clients && t.clients[uid].Needs(r)|
                 && forall uid :: uid in t.clients ==>
                      && after.clients[uid].Voted(r) == NoRsp
                      && after.clients[uid].Needs(r) == t.clients[uid].Needs(r)
                      && after.clients[uid].name == t.clients[uid].name
  {
    forall r: Round
      ensures Step(t, VoteInit).Of(r).expected == |set uid | uid in t.clients && t.clients[uid].Needs(r)|
    {
      assert Required(t.clients, r) == set uid | uid in t.clients && t.clients[uid].Needs(r);
    }
  }

  function Acks(uids: seq<string>, r: Round): seq<Op> {
    seq(|uids|, i requires 0 <= i < |uids| => Cast(uids[i], r, true))
  }

  // --------------------------------------------------------- orderly rounds

  /** Nobody leaves, deregisters, retracts an ACK or votes without being asked, in round r. */
  ghost predicate Orderly(t: Table, op: Op, r: Round) {
    && !op.VoteInit?
    && !Removes(t, op)
    && !(op.Require? && op.round == r && !op.reg && op.uid in t.clients)
    && !Retracts(t, op, r)
    && (op.Cast? && op.round == r && op.uid in t.clients ==> t.clients[op.uid].Needs(r))
  }

  ghost predicate OrderlyRun(t: Table, ops: seq<Op>, r: Round)
    decreases |ops|
  {
    ops == [] || (Orderly(t, ops[0], r) && OrderlyRun(Step(t, ops[0]), ops[1..], r))
  }

  /** In an orderly round the counters approve exactly when every required client has ACKed. */
  lemma ApprovalIsUnanimity(t: Table, ops: seq<Op>, r: Round)
    requires OrderlyRun(Step(t, VoteInit), ops, r)
    ensures var end := Run(Step(t, VoteInit), ops);
            Approves(end, r) <==> Required(end.clients, r) <= Acked(end.clients, r)
  {
    var start := Step(t, VoteInit);
    InitCounts(t, r);
    OrderlyKeepsAcksRequired(start, ops, r);
    var end := Run(start, ops);
    var required, acked := Required(end.clients, r), Acked(end.clients, r);
    assert acked == required - (required - acked);
    assert |required - acked| == |required| - |acked|;
  }

  /**
   A round in which required clients ACK, in any order and as often as they like, and
   nothing else happens is approved as soon as the last of them has ACKed, and no sooner.
   */
  lemma AcksApprove(t: Table, uids: seq<string>, r: Round)
    requires forall uid :: uid in uids ==> uid in t.clients && t.clients[uid].Needs(r)
    ensures Approves(Run(Step(t, VoteInit), Acks(uids, r)), r)
            <==> forall uid :: uid in t.clients && t.clients[uid].Needs(r) ==> uid in uids
  {
    var start := Step(t, VoteInit);
    InitCounts(t, r);
    AcksMark(start, uids, r);
    ApprovalIsUnanimity(t, Acks(uids, r), r);
    var end := Run(start, Acks(uids, r));
    assert Required(end.clients, r) == set uid | uid in t.clients && t.clients[uid].Needs(r);
  }

  lemma {:induction false} AcksMark(t: Table, uids: seq<string>, r: Round)
    requires forall uid :: uid in uids ==> uid in Required(t.clients, r)
    ensures OrderlyRun(t, Acks(uids, r), r)
    ensures Required(Run(t, Acks(uids, r)).clients, r) == Required(t.clients, r)
    ensures forall uid :: uid in Acked(Run(t, Acks(uids, r)).clients, r) <==> uid in uids || uid in Acked(t.clients, r)
    decreases |uids|
  {
    if uids != [] {
      var next := Step(t, Cast(uids[0], r, true));
      VoteMarks(t, uids[0], r, true);
      assert Acks(uids, r)[1..] == Acks(uids[1..], r);
      assert uids[0] in Required(t.clients, r);
      assert Required(next.clients, r) == Required(t.clients, r);
      assert Acked(next.clients, r) == Acked(t.clients, r) + {uids[0]};
      AcksMark(next, uids[1..], r);
      assert uids == [uids[0]] + uids[1..];
    }
  }

  lemma OrderlyStep(t: Table, op: Op, r: Round)
    requires Orderly(t, op, r) && Acked(t.clients, r) <= Required(t.clients, r)
    ensures Acked(Step(t, op).clients, r) <= Required(Step(t, op).clients, r)
    ensures GoneStep(t, Gone(0, 0), op, r) == Gone(0, 0) || Retracts(t, op, r)
  {
    var after := Step(t, op).clients;
    forall uid | uid in after && after[uid].Voted(r) == Ack
      ensures after[uid].Needs(r)
    {
      if uid != op.uid {
        assert uid in Acked(t.clients, r);
      } else if uid in t.clients && t.clients[uid].Voted(r) == Ack {
        assert uid in Acked(t.clients, r);
      }
    }
  }

  lemma {:induction false} OrderlyKeepsAcksRequired(t: Table, ops: seq<Op>, r: Round)
    requires OrderlyRun(t, ops, r)
    requires Accounted(t, Gone(0, 0), r) && Acked(t.clients, r) <= Required(t.clients, r)
    ensures Accounted(Run(t, ops), Gone(0, 0), r)
    ensures Acked(Run(t, ops).clients, r) <= Required(Run(t, ops).clients, r)
    decreases |ops|
  {
    if ops != [] {
      StepAccounts(t, Gone(0, 0), ops[0], r);
      OrderlyStep(t, ops[0], r);
      OrderlyKeepsAcksRequired(Step(t, ops[0]), ops[1..], r);
    }
  }

  // --------------------------------------------------- approval in general

  /**
   After any operations whatsoever a round is approved exactly when the ACKs nobody
   asked for, and those gone since, make up for the required clients that have not
   ACKed, and those gone since.
   */
  lemma ApprovalExactly(ops: seq<Op>, r: Round)
    ensures var t, g := Run(EMPTY, ops), GoneRun(EMPTY, Gone(0, 0), ops, r);
            var required, acked := Required(t.clients, r), Acked(t.clients, r);
            Approves(t, r) <==> |acked - required| + g.acks >= |required - acked| + g.required
  {
    VotesAccountedFromStart(ops, r);
    var clients := Run(EMPTY, ops).clients;
    SizesOfDifference(Required(clients, r), Acked(clients, r));
  }

  lemma SizesOfDifference(a: set<string>, b: set<string>)
    ensures |a - b| + |b| == |b - a| + |a|
  {
    assert a == (a - b) + (a * b) && b == (b - a) + (a * b);
  }

  /** Nobody retracts an ACK, votes without being asked or, having ACKed, asks not to be asked; clients may leave. */
  ghost predicate Quiet(t: Table, op: Op, r: Round) {
    && !op.VoteInit?
    && !Retracts(t, op, r)
    && (op.Cast? && op.round == r && op.uid in t.clients ==> t.clients[op.uid].Needs(r))
    && (op.Require? && op.round == r && !op.reg && op.uid in t.clients ==> t.clients[op.uid].Voted(r) != Ack)
  }

  ghost predicate QuietRun(t: Table, ops: seq<Op>, r: Round)
    decreases |ops|
  {
    ops == [] || (Quiet(t, ops[0], r) && QuietRun(Step(t, ops[0]), ops[1..], r))
  }

  /** Every ACK is of a required client, and of those that left at least so many had not ACKed. */
  ghost predicate Behind(t: Table, g: Gone, r: Round, missing: nat) {
    && Accounted(t, g, r)
    && Acked(t.clients, r) <= Required(t.clients, r)
    && g.acks + missing <= g.required
  }

  lemma QuietStep(t: Table, g: Gone, op: Op, r: Round, missing: nat)
    requires Behind(t, g, r, missing) && Quiet(t, op, r)
    ensures Behind(Step(t, op), GoneStep(t, g, op, r), r, missing)
    ensures Removes(t, op) && op.uid in Required(t.clients, r) - Acked(t.clients, r) ==>
              Behind(Step(t, op), GoneStep(t, g, op, r), r, missing + 1)
  {
    StepAccounts(t, g, op, r);
    var after := Step(t, op).clients;
    forall uid | uid in after && after[uid].Voted(r) == Ack
      ensures after[uid].Needs(r)
    {
      assert uid in t.clients && t.clients[uid].Voted(r) == Ack ==> uid in Acked(t.clients, r);
    }
    if Removes(t, op) {
      assert t.clients[op.uid].Voted(r) == Ack ==> op.uid in Acked(t.clients, r);
    }
  }

  lemma {:induction false} QuietRunStaysBehind(t: Table, g: Gone, ops: seq<Op>, r: Round, missing: nat)
    requires Behind(t, g, r, missing) && QuietRun(t, ops, r)
    ensures Behind(Run(t, ops), GoneRun(t, g, ops, r), r, missing)
    decreases |ops|
  {
    if ops != [] {
      QuietStep(t, g, ops[0], r, missing);
      QuietRunStaysBehind(Step(t, ops[0]), GoneStep(t, g, ops[0], r), ops[1..], r, missing);
    }
  }

  lemma BehindBlocks(t: Table, g: Gone, r: Round)
    requires Behind(t, g, r, 1)
    ensures !Approves(t, r)
  {
    SizesOfDifference(Required(t.clients, r), Acked(t.clients, r));
    assert Acked(t.clients, r) - Required(t.clients, r) == {};
  }

  /**
   A required client that leaves, or registers anew, without having ACKed is waited for
   until the round ends: however many clients ACK, come or go after it, the round is
   not approved.
   */
  lemma LeaverBlocksApproval(t: Table, before: seq<Op>, leave: Op, after: seq<Op>, r: Round)
    requires QuietRun(Step(t, VoteInit), before, r)
    requires var u := Run(Step(t, VoteInit), before);
             && Removes(u, leave) && leave.uid in Required(u.clients, r) - Acked(u.clients, r)
             && QuietRun(Step(u, leave), after, r)
    ensures !Approves(Run(Step(Run(Step(t, VoteInit), before), leave), after), r)
  {
    var start := Step(t, VoteInit);
    InitCounts(t, r);
    QuietRunStaysBehind(start, Gone(0, 0), before, r, 0);
    var u, g := Run(start, before), GoneRun(start, Gone(0, 0), before, r);
    QuietStep(u, g, leave, r, 0);
    var v, h := Step(u, leave), GoneStep(u, g, leave, r);
    QuietRunStaysBehind(v, h, after, r, 1);
    BehindBlocks(Run(v, after), GoneRun(v, h, after, r), r);
  }

  // ---------------------------------------------------------------- the code

  class ClientTable {
    var clients: map<string, Client>
    var numSuspendRequest: int
    var numSuspendRequestAck: int
    var numPrepareSuspend: int
    var numPrepareSuspendAck: int

    ghost function View(): Table
      reads this
    {
      Table(clients, Count(numSuspendRequest, numSuspendRequestAck), Count(numPrepareSuspend, numPrepareSuspendAck))
    }

    constructor ()
      ensures View() == EMPTY
    {
      clients := map[];
      numSuspendRequest, numSuspendRequestAck := 0, 0;
      numPrepareSuspend, numPrepareSuspendAck := 0, 0;
    }

    method ClientRegister(uid: string, name: string)
      modifies this`clients
      ensures View() == Step(old(View()), Register(uid, name))
      ensures clients == old(clients)[uid := Client(name, false, false, NoRsp, NoRsp)]
    {
      if uid in clients {
        ClientUnregister(uid);
      }
      clients := clients[uid := Client(name, false, false, NoRsp, NoRsp)];
      assert clients == old(clients)[uid := Client(name, false, false, NoRsp, NoRsp)];
    }

    method ClientUnregister(uid: string)
      modifies this`clients
      ensures View() == Step(old(View()), Unregister(uid))
      ensures clients == old(clients) - {uid}
    {
      clients := clients - {uid};
    }

    /** Removes one client of that name, whichever the table yields first. */
    method ClientUnregisterByName(name: string) returns (found: bool)
      modifies this`clients
      ensures found <==> exists uid :: uid in old(clients) && old(clients)[uid].name == name
      ensures found ==> exists uid :: uid in old(clients) && old(clients)[uid].name == name
                                      && View() == Step(old(View()), Unregister(uid))
      ensures !found ==> View() == old(View())
    {
      var todo := clients.Keys;
      while todo != {}
        invariant todo <= clients.Keys && clients == old(clients)
        invariant forall uid :: uid in clients.Keys - todo ==> clients[uid].name != name
      {
        var uid :| uid in todo;
        if clients[uid].name == name {
          ClientUnregister(uid);
          return true;
        }
        todo := todo - {uid};
      }
      return false;
    }

    method SuspendRequestRegister(uid: string, reg: bool)
      modifies this`clients, this`numSuspendRequest
      ensures View() == Step(old(View()), Require(uid, SuspendRequest, reg))
      ensures uid in old(clients) ==>
                && clients == old(clients)[uid := old(clients)[uid].(needsRequest := reg)]
                && numSuspendRequest == old(numSuspendRequest)
                   + (if reg == old(clients)[uid].needsRequest then 0 else if reg then 1 else -1)
      ensures uid !in old(clients) ==> View() == old(View())
    {
      if uid in clients && clients[uid].needsRequest != reg {
        clients := clients[uid := clients[uid].(needsRequest := reg)];
        numSuspendRequest := numSuspendRequest + if reg then 1 else -1;
      }
    }

    method PrepareSuspendRegister(uid: string, reg: bool) returns (found: bool)
      modifies this`clients, this`numPrepareSuspend
      ensures found == (uid in old(clients))
      ensures View() == Step(old(View()), Require(uid, PrepareSuspend, reg))
      ensures found ==>
                && clients == old(clients)[uid := old(clients)[uid].(needsPrepare := reg)]
                && numPrepareSuspend == old(numPrepareSuspend)
                   + (if reg == old(clients)[uid].needsPrepare then 0 else if reg then 1 else -1)
      ensures !found ==> View() == old(View())
    {
      if uid !in clients {
        return false;
      }
      if clients[uid].needsPrepare != reg {
        clients := clients[uid := clients[uid].(needsPrepare := reg)];
        numPrepareSuspend := numPrepareSuspend + if reg then 1 else -1;
      }
      return true;
    }

    /** Forgets every answer and counts the clients to ask, one table entry at a time. */
    method InitVotes()
      modifies this
      ensures View() == Step(old(View()), VoteInit)
    {
      numSuspendRequestAck, numSuspendRequest := 0, 0;
      numPrepareSuspendAck, numPrepareSuspend := 0, 0;
      var todo := clients.Keys;
      ghost var was := clients;
      while todo != {}
        invariant Cleared(was, clients, todo)
        invariant numSuspendRequestAck == numPrepareSuspendAck == 0
        invariant numSuspendRequest == |Required(was, SuspendRequest) - todo|
        invariant numPrepareSuspend == |Required(was, PrepareSuspend) - todo|
      {
        var uid :| uid in todo;
        ClearOne(was, clients, todo, uid);
        CountOne(was, SuspendRequest, todo, uid);
        CountOne(was, PrepareSuspend, todo, uid);
        var client := clients[uid].(requestVote := NoRsp, preparedVote := NoRsp);
        clients := clients[uid := client];
        if client.needsRequest {
          numSuspendRequest := numSuspendRequest + 1;
        }
        if client.needsPrepare {
          numPrepareSuspend := numPrepareSuspend + 1;
        }
        todo := todo - {uid};
      }
      AllCleared(was, clients);
    }

    /** True when the voter must wake the suspend thread: a NACK, or the ACK that completes the round. */
    method VoteSuspendRequest(uid: string, ack: bool) returns (decisive: bool)
      modifies this`clients, this`numSuspendRequestAck
      ensures View() == Step(old(View()), Cast(uid, SuspendRequest, ack))
      ensures decisive <==> uid in clients && (!ack || Approves(View(), SuspendRequest))
      ensures uid in old(clients) ==>
                && clients == old(clients)[uid := old(clients)[uid].(requestVote := if ack then Ack else Nack)]
                && numSuspendRequestAck == old(numSuspendRequestAck) + Bit(ack && old(clients)[uid].requestVote != Ack)
                && (decisive <==> !ack || numSuspendRequestAck >= numSuspendRequest)
      ensures uid !in old(clients) ==> View() == old(View()) && !decisive
    {
      if uid !in clients {
        return false;
      }
      var vote := if ack then Ack else Nack;
      if clients[uid].requestVote != vote {
        clients := clients[uid := clients[uid].(requestVote := vote)];
        numSuspendRequestAck := numSuspendRequestAck + if ack then 1 else 0;
      }
      return !ack || numSuspendRequestAck >= numSuspendRequest;
    }

    method VotePrepareSuspend(uid: string, ack: bool) returns (decisive: bool)
      modifies this`clients, this`numPrepareSuspendAck
      ensures View() == Step(old(View()), Cast(uid, PrepareSuspend, ack))
      ensures decisive <==> uid in clients && (!ack || Approves(View(), PrepareSuspend))
      ensures uid in old(clients) ==>
                && clients == old(clients)[uid := old(clients)[uid].(preparedVote := if ack then Ack else Nack)]
                && numPrepareSuspendAck == old(numPrepareSuspendAck) + Bit(ack && old(clients)[uid].preparedVote != Ack)
                && (decisive <==> !ack || numPrepareSuspendAck >= numPrepareSuspend)
      ensures uid !in old(clients) ==> View() == old(View()) && !decisive
    {
      if uid !in clients {
        return false;
      }
      var vote := if ack then Ack else Nack;
      if clients[uid].preparedVote != vote {
        clients := clients[uid := clients[uid].(preparedVote := vote)];
        numPrepareSuspendAck := numPrepareSuspendAck + if ack then 1 else 0;
      }
      return !ack || numPrepareSuspendAck >= numPrepareSuspend;
    }
  }

  /** The table in the middle of the pass over it: the entries outside todo have been reset. */
  ghost predicate Cleared(was: map<string, Client>, now: map<string, Client>, todo: set<string>) {
    && todo <= was.Keys && now.Keys == was.Keys
    && forall uid :: uid in was ==> now[uid] == if uid in todo then was[uid] else Unanswered(was[uid])
  }

  lemma ClearOne(was: map<string, Client>, now: map<string, Client>, todo: set<string>, uid: string)
    requires Cleared(was, now, todo) && uid in todo
    ensures now[uid] == was[uid] && Cleared(was, now[uid := Unanswered(now[uid])], todo - {uid})
  {
  }

  lemma AllCleared(was: map<string, Client>, now: map<string, Client>)
    requires Cleared(was, now, {})
    ensures now == map uid | uid in was :: Unanswered(was[uid])
    ensures Required(was, SuspendRequest) - {} == Required(was, SuspendRequest)
    ensures Required(was, PrepareSuspend) - {} == Required(was, PrepareSuspend)
  {
  }

  lemma CountOne(clients: map<string, Client>, r: Round, todo: set<string>, uid: string)
    requires uid in todo && todo <= clients.Keys
    ensures |Required(clients, r) - (todo - {uid})|
            == |Required(clients, r) - todo| + if clients[uid].Needs(r) then 1 else 0
  {
    if clients[uid].Needs(r) {
      assert Required(clients, r) - (todo - {uid}) == (Required(clients, r) - todo) + {uid};
    } else {
      assert Required(clients, r) - (todo - {uid}) == Required(clients, r) - todo;
    }
  }
}
