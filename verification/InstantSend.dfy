/**
 The transaction-lock voting of src/instantx.h and src/instantx.cpp, with the clean-up that follows when two
 completed locks meet.

 A lock candidate collects votes per spent outpoint. An outpoint lock is ready with enough votes and
 no evidence of equivocation: UpdateVotedOutpoints marks both candidates as attacked when one
 masternode votes on the same outpoint for two transactions. Which masternodes may vote on an
 outpoint, the clock and the state of mempool and chain are inputs.
*/
module InstantSend {
  import opened Wrappers

  const INSTANTSEND_LOCK_TIMEOUT_SECONDS := 15

  type Hash = nat

  datatype OutPoint = OutPoint(hash: Hash, n: nat)

  /** A transaction lock request: its hash and the outpoints it spends. */
  datatype Tx = Tx(hash: Hash, inputs: seq<OutPoint>)

  datatype Vote = Vote(txHash: Hash, outpoint: OutPoint, masternode: OutPoint)

  /** COutPointLock */
  datatype OutPointLock = OutPointLock(votes: map<OutPoint, Vote>, fAttacked: bool) {
    function CountVotes(): nat { if fAttacked then 0 else |votes| }

    predicate IsReady(required: nat) { !fAttacked && CountVotes() >= required }
  }

  /** CTxLockCandidate; request None is the empty candidate created by an early vote. */
  datatype Candidate =
    Candidate(request: Option<Tx>, locks: map<OutPoint, OutPointLock>, nTimeCreated: int, nConfirmedHeight: int) {
    predicate HasMasternodeVoted(o: OutPoint, m: OutPoint) { o in locks && m in locks[o].votes }

    predicate IsAllOutPointsReady(required: nat) {
      locks != map[] && forall o | o in locks :: locks[o].IsReady(required)
    }

    predicate IsTimedOut(nNow: int) { nNow - nTimeCreated > INSTANTSEND_LOCK_TIMEOUT_SECONDS }

    predicate IsExpired(nHeight: int, keepLock: nat) {
      nConfirmedHeight != -1 && nHeight - nConfirmedHeight > keepLock
    }

    function MarkOutpointAsAttacked(o: OutPoint): Candidate {
      if o in locks then this.(locks := locks[o := locks[o].(fAttacked := true)]) else this
    }
  }

  /**
   nInstantSendSigsRequired, nInstantSendSigsTotal, nInstantSendKeepLock, and who ranks among the top ones
   per outpoint.
  */
  datatype Params = Params(required: nat, total: nat, keepLock: nat, eligible: OutPoint -> set<OutPoint>)

  /**
   What clock, mempool and chain say when an event is processed: which inputs another transaction in the
   mempool spends, whether the transaction is in a block or its inputs are unspent, and for a clean-up
   whether the chain is synced, its height, and the votes that are timed out or failed by then.
  */
  datatype Env = Env(
    nNow: int,
    filtering: bool,
    mempoolConflict: OutPoint -> bool,
    inBlock: bool,
    utxosPresent: bool,
    synced: bool,
    nCachedBlockHeight: int,
    timedOut: set<Vote>,
    failed: set<Vote>
  )

  datatype State = State(
    candidates: map<Hash, Candidate>,
    voted: map<OutPoint, set<Hash>>,
    locked: map<OutPoint, Hash>,
    orphans: set<Vote>,
    seen: set<Vote>
  )

  const INIT := State(map[], map[], map[], {}, {})

  // ---------------------------------------------------------------- what the operations compute

  /** The other candidates for which this masternode has already voted on this outpoint. */
  function Conflicting(st: State, vote: Vote): set<Hash> {
    if vote.outpoint !in st.voted then {}
    else set h | h in st.voted[vote.outpoint] && h != vote.txHash && h in st.candidates
                 && st.candidates[h].HasMasternodeVoted(vote.outpoint, vote.masternode)
  }

  /** The candidates in `bad`, and with them the one being voted for, are marked on the outpoint. */
  function Marked(candidates: map<Hash, Candidate>, bad: set<Hash>, vote: Vote): map<Hash, Candidate> {
    map h | h in candidates ::
      if h in bad || (h == vote.txHash && bad != {}) then candidates[h].MarkOutpointAsAttacked(vote.outpoint)
      else candidates[h]
  }

  /** CInstantSend::UpdateVotedOutpoints */
  function VotedUpdated(st: State, vote: Vote): State {
    var o := vote.outpoint;
    st.(candidates := Marked(st.candidates, Conflicting(st, vote), vote),
        voted := st.voted[o := (if o in st.voted then st.voted[o] else {}) + {vote.txHash}])
  }

  /** CTxLockCandidate::AddVote succeeds for a new voter on an outpoint of the candidate. */
  predicate CanAdd(c: Candidate, vote: Vote) {
    vote.outpoint in c.locks && vote.masternode !in c.locks[vote.outpoint].votes
  }

  function AddVote(c: Candidate, vote: Vote): Candidate {
    if !CanAdd(c, vote) then c
    else
      var l := c.locks[vote.outpoint];
      c.(locks := c.locks[vote.outpoint := l.(votes := l.votes[vote.masternode := vote])])
  }

  /** A vote for a stored candidate with a known request, up to the attempt to finalise. */
  function Counted(st: State, vote: Vote): State
    requires vote.txHash in st.candidates
  {
    var st1 := VotedUpdated(st, vote);
    st1.(candidates := st1.candidates[vote.txHash := AddVote(st1.candidates[vote.txHash], vote)])
  }

  function FreshLocks(inputs: seq<OutPoint>): map<OutPoint, OutPointLock> {
    map o | o in inputs :: OutPointLock(map[], false)
  }

  /** CInstantSend::CreateTxLockCandidate on a valid request: the state, and whether it succeeds. */
  function CandidateCreated(st: State, tx: Tx, nNow: int): (State, bool) {
    if tx.hash !in st.candidates then
      (st.(candidates := st.candidates[tx.hash := Candidate(Some(tx), FreshLocks(tx.inputs), nNow, -1)]), true)
    else
      var c := st.candidates[tx.hash];
      if c.request.None? then
        var c1 := c.(request := Some(tx));
        if c1.IsTimedOut(nNow) then (st.(candidates := st.candidates[tx.hash := c1]), false)
        else
          (st.(candidates := st.candidates[tx.hash := c1.(locks := FreshLocks(tx.inputs) + c.locks)]), true)
      else (st, true)
  }

  /** IsLockedInstantSendTransaction */
  predicate IsLocked(st: State, h: Hash, env: Env) {
    && env.filtering && h in st.candidates && st.candidates[h].locks != map[]
    && forall o | o in st.candidates[h].locks :: o in st.locked && st.locked[o] == h
  }

  /** A conflict with another completed lock, the first thing ResolveConflicts looks for. */
  predicate LockConflict(st: State, tx: Tx) {
    exists o | o in tx.inputs :: o in st.locked && st.locked[o] != tx.hash
  }

  /** What ResolveConflicts finds first among the inputs. */
  datatype Obstacle = Clear | LockedBy(h: Hash) | InMempool

  function FirstObstacle(st: State, h: Hash, inputs: seq<OutPoint>, env: Env): Obstacle {
    if inputs == [] then Clear
    else if inputs[0] in st.locked && st.locked[inputs[0]] != h then LockedBy(st.locked[inputs[0]])
    else if env.mempoolConflict(inputs[0]) then InMempool
    else FirstObstacle(st, h, inputs[1..], env)
  }

  function Expired(p: Params, st: State, env: Env): set<Hash> {
    set h | h in st.candidates && st.candidates[h].IsExpired(env.nCachedBlockHeight, p.keepLock)
  }

  /** The outpoints the given candidates want to lock. */
  function OutPointsOf(st: State, hs: set<Hash>): set<OutPoint> {
    set h, o | h in hs && h in st.candidates && o in st.candidates[h].locks :: o
  }

  /** The state without the given candidates and anything recorded about their outpoints. */
  function Without(st: State, hs: set<Hash>): State {
    st.(candidates := st.candidates - hs, locked := st.locked - OutPointsOf(st, hs),
      voted := st.voted - OutPointsOf(st, hs))
  }

  /** CheckAndRemove: expired candidates go with all records of their outpoints, whoever made them. */
  function CleanedUp(p: Params, st: State, env: Env): State {
    if !env.synced then st
    else
      Without(st, Expired(p, st, env)).(
        orphans := st.orphans - env.timedOut,
        seen := st.seen - st.orphans * env.timedOut - env.failed)
  }

  /** The candidate with its lock expired, whatever the height. */
  function Condemned(st: State, h: Hash): State
    requires h in st.candidates
  {
    st.(candidates := st.candidates[h := st.candidates[h].(nConfirmedHeight := 0)])
  }

  /**
   TryToFinalizeLockCandidate, for a candidate with a known request: LockTransactionInputs adds the
   inputs unless something stands in the way. Two completed locks that conflict are both dropped.
  */
  function Finalized(p: Params, st: State, h: Hash, env: Env): State {
    if h !in st.candidates || st.candidates[h].request.None? then st
    else
      var c := st.candidates[h];
      if !c.IsAllOutPointsReady(p.required) || IsLocked(st, h, env) then st
      else match FirstObstacle(st, c.request.value.hash, c.request.value.inputs, env)
        case LockedBy(g) => if g in st.candidates then CleanedUp(p, Condemned(Condemned(st, h), g), env) else st
        case InMempool => st
        case Clear =>
          if env.inBlock || env.utxosPresent then st.(locked := (map o | o in c.locks :: h) + st.locked) else st
  }

  /** Whether a replayed orphan vote is consumed. */
  predicate Replayable(st: State, vote: Vote, nNow: int) {
    && vote.txHash in st.candidates && st.candidates[vote.txHash].request.Some?
    && !st.candidates[vote.txHash].IsTimedOut(nNow)
  }

  /** ProcessOrphanTxLockVote */
  function ReplayedOne(st: State, vote: Vote, nNow: int): State {
    if !Replayable(st, vote, nNow) then st
    else
      var consumed := CanAdd(st.candidates[vote.txHash], vote);
      Counted(st, vote).(orphans := if consumed then st.orphans - {vote} else st.orphans)
  }

  /** ProcessOrphanTxLockVotes over the orphan votes in the given order. */
  function Replayed(st: State, votes: seq<Vote>, nNow: int): State
    decreases |votes|
  {
    if votes == [] then st else Replayed(ReplayedOne(st, votes[0], nNow), votes[1..], nNow)
  }

  datatype Event =
    | Request(tx: Tx, valid: bool, order: seq<Vote>, env: Env)
    | VoteMessage(vote: Vote, env: Env)

  /** CTxLockVote::IsValid: the masternode ranks among those that may vote on the outpoint. */
  predicate VoteValid(p: Params, vote: Vote) {
    vote.masternode in p.eligible(vote.outpoint)
  }

  /** ProcessTxLockRequest */
  function Requested(p: Params, st: State, tx: Tx, valid: bool, order: seq<Vote>, env: Env): State {
    if !valid then st
    else
      var (st1, ok) := CandidateCreated(st, tx, env.nNow);
      if !ok then st1 else Finalized(p, Replayed(st1, order, env.nNow), tx.hash, env)
  }

  /** ProcessMessage and ProcessNewTxLockVote */
  function VoteReceived(p: Params, st0: State, vote: Vote, env: Env): State {
    if vote in st0.seen then st0
    else
      var st := st0.(seen := st0.seen + {vote});
      if !VoteValid(p, vote) then st
      else if vote.txHash !in st.candidates then
        st.(candidates := st.candidates[vote.txHash := Candidate(None, map[], env.nNow, -1)],
          orphans := st.orphans + {vote})
      else if st.candidates[vote.txHash].request.None? then st.(orphans := st.orphans + {vote})
      else if st.candidates[vote.txHash].IsTimedOut(env.nNow) then st
      else if !CanAdd(st.candidates[vote.txHash], vote) then Counted(st, vote)
      else Finalized(p, Counted(st, vote), vote.txHash, env)
  }

  /** The order of a replay lists each orphan vote once. */
  predicate LegalEvent(st: State, ev: Event) {
    ev.Request? ==>
      && (forall v | v in ev.order :: v in st.orphans) && (forall v | v in st.orphans :: v in ev.order)
      && forall i, j | 0 <= i < j < |ev.order| :: ev.order[i] != ev.order[j]
  }

  function Step(p: Params, st: State, ev: Event): State {
    match ev
    case Request(tx, valid, order, env) => Requested(p, st, tx, valid, order, env)
    case VoteMessage(vote, env) => VoteReceived(p, st, vote, env)
  }

  // ---------------------------------------------------------------- the invariant

  /** h's lock on o, as far as it has one. */
  function Votes(st: State, h: Hash, o: OutPoint): set<OutPoint> {
    if h in st.candidates && o in st.candidates[h].locks then st.candidates[h].locks[o].votes.Keys else {}
  }

  predicate Attacked(st: State, h: Hash, o: OutPoint) {
    h in st.candidates && o in st.candidates[h].locks && st.candidates[h].locks[o].fAttacked
  }

  /** Only eligible masternodes are counted. */
  ghost predicate VotesEligible(p: Params, st: State) {
    && (forall h, o :: Votes(st, h, o) <= p.eligible(o))
    && forall v | v in st.orphans :: VoteValid(p, v)
  }

  /** The voted-outpoint index lists every candidate that has a vote. */
  ghost predicate VotesIndexed(st: State) {
    forall h, o | Votes(st, h, o) != {} :: o in st.voted && h in st.voted[o]
  }

  /** A masternode counted for two candidates on one outpoint has both marked as attacked. */
  ghost predicate EquivocationMarked(st: State) {
    forall h, g, o, m | h != g && m in Votes(st, h, o) && m in Votes(st, g, o) ::
      Attacked(st, h, o) && Attacked(st, g, o)
  }

  /** Candidates are filed under their own hash and lock their own inputs, or nothing. */
  ghost predicate WellFiled(st: State) {
    forall h | h in st.candidates ::
      var c := st.candidates[h];
      if c.request.None? then c.locks == map[]
      else c.request.value.hash == h && (c.locks == map[] || forall o :: o in c.locks <==> o in c.request.value.inputs)
  }

  /** A locked outpoint had enough votes for the transaction it is locked to. */
  ghost predicate LocksEarned(p: Params, st: State) {
    forall o | o in st.locked ::
      && st.locked[o] in st.candidates && o in st.candidates[st.locked[o]].locks
      && |Votes(st, st.locked[o], o)| >= p.required
  }

  ghost predicate Inv(p: Params, st: State) {
    VotesEligible(p, st) && VotesIndexed(st) && EquivocationMarked(st) && WellFiled(st) && LocksEarned(p, st)
  }

  // ---------------------------------------------------------------- safety from quorum intersection

  /** More than half of every quorum is required, and a quorum is never larger than nInstantSendSigsTotal. */
  ghost predicate MajorityQuorum(p: Params) {
    2 * p.required > p.total && forall o :: |p.eligible(o)| <= p.total
  }

  lemma QuorumsIntersect(a: set<OutPoint>, b: set<OutPoint>, e: set<OutPoint>)
    requires a <= e && b <= e && |a| + |b| > |e|
    ensures a * b != {}
  {
    if a * b == {} {
      assert |a + b| == |a| + |b|;
      Subset(a + b, e);
    }
  }

  lemma {:induction false} Subset(a: set<OutPoint>, b: set<OutPoint>)
    requires a <= b
    ensures |a| <= |b|
  {
    if a != {} {
      var x :| x in a;
      Subset(a - {x}, b - {x});
    }
  }

  /** Two candidates with enough votes on one outpoint are both marked there. */
  lemma TwoQuorumsAreAttacked(p: Params, st: State, h: Hash, g: Hash, o: OutPoint)
    requires Inv(p, st) && MajorityQuorum(p) && h != g
    requires |Votes(st, h, o)| >= p.required && |Votes(st, g, o)| >= p.required
    ensures Attacked(st, h, o) && Attacked(st, g, o)
  {
    QuorumsIntersect(Votes(st, h, o), Votes(st, g, o), p.eligible(o));
    var m :| m in Votes(st, h, o) * Votes(st, g, o);
    assert m in Votes(st, h, o) && m in Votes(st, g, o);
  }

  /** Some outpoint that two candidates both want to lock. */
  predicate Share(st: State, h: Hash, g: Hash) {
    && h != g && h in st.candidates && g in st.candidates
    && exists o | o in st.candidates[h].locks :: o in st.candidates[g].locks
  }

  predicate Ready(p: Params, st: State, h: Hash) {
    h in st.candidates && st.candidates[h].IsAllOutPointsReady(p.required)
  }

  ghost predicate NoDoubleLock(p: Params, st: State) {
    forall h, g | Share(st, h, g) :: !(Ready(p, st, h) && Ready(p, st, g))
  }

  /** Two stored candidates that share an input are never both ready. */
  lemma NeverBothReady(p: Params, st: State)
    requires Inv(p, st) && MajorityQuorum(p)
    ensures NoDoubleLock(p, st)
  {
    forall h, g | Share(st, h, g) ensures !(Ready(p, st, h) && Ready(p, st, g)) {
      if Ready(p, st, h) && Ready(p, st, g) {
        var o :| o in st.candidates[h].locks && o in st.candidates[g].locks;
        assert st.candidates[h].locks[o].IsReady(p.required) && st.candidates[g].locks[o].IsReady(p.required);
        assert |st.candidates[h].locks[o].votes| == |Votes(st, h, o)|;
        assert |st.candidates[g].locks[o].votes| == |Votes(st, g, o)|;
        TwoQuorumsAreAttacked(p, st, h, g, o);
        assert false;
      }
    }
  }

  /** A ready candidate never meets a completed lock of another transaction on one of its inputs. */
  lemma NoLockConflict(p: Params, st: State, h: Hash)
    requires Inv(p, st) && MajorityQuorum(p) && Ready(p, st, h) && st.candidates[h].request.Some?
    ensures !LockConflict(st, st.candidates[h].request.value)
    ensures forall o | o in st.candidates[h].locks && o in st.locked :: st.locked[o] == h
  {
    var c := st.candidates[h];
    forall o | o in c.locks && o in st.locked ensures st.locked[o] == h {
      if st.locked[o] != h {
        assert c.locks[o].IsReady(p.required);
        assert |c.locks[o].votes| == |Votes(st, h, o)|;
        TwoQuorumsAreAttacked(p, st, h, st.locked[o], o);
        assert false;
      }
    }
    assert c.request.value.hash == h;
  }

  // ---------------------------------------------------------------- every step keeps the invariant

  /** Counting a vote adds that masternode on that outpoint, and marks can only appear. */
  lemma CountedVotes(st: State, vote: Vote, h: Hash, o: OutPoint)
    requires vote.txHash in st.candidates
    ensures var st' := Counted(st, vote);
      && Votes(st', h, o) == Votes(st, h, o)
           + (if h == vote.txHash && o == vote.outpoint && o in st.candidates[h].locks then {vote.masternode} else {})
      && (Attacked(st, h, o) ==> Attacked(st', h, o))
      && (o == vote.outpoint && Conflicting(st, vote) != {} && (h in Conflicting(st, vote) || h == vote.txHash) ==>
            h in st.candidates && o in st.candidates[h].locks ==> Attacked(st', h, o))
      && (h in st'.candidates <==> h in st.candidates)
      && (h in st.candidates ==> st'.candidates[h].request == st.candidates[h].request
                                 && st'.candidates[h].nTimeCreated == st.candidates[h].nTimeCreated
                                 && (o in st'.candidates[h].locks <==> o in st.candidates[h].locks))
  {
  }

  lemma CountedKeepsEligible(p: Params, st: State, vote: Vote)
    requires VotesEligible(p, st) && vote.txHash in st.candidates && VoteValid(p, vote)
    ensures VotesEligible(p, Counted(st, vote))
  {
    hide Votes;
    forall h, o ensures Votes(Counted(st, vote), h, o) <= p.eligible(o) {
      CountedVotes(st, vote, h, o);
      assert Votes(st, h, o) <= p.eligible(o);
    }
  }

  lemma CountedKeepsIndexed(st: State, vote: Vote)
    requires VotesIndexed(st) && vote.txHash in st.candidates
    ensures VotesIndexed(Counted(st, vote))
  {
    var st' := Counted(st, vote);
    forall h, o | Votes(st', h, o) != {} ensures o in st'.voted && h in st'.voted[o] {
      CountedVotes(st, vote, h, o);
    }
  }

  lemma CountedKeepsMarked(st: State, vote: Vote)
    requires VotesIndexed(st) && EquivocationMarked(st) && vote.txHash in st.candidates
    ensures EquivocationMarked(Counted(st, vote))
  {
    var st' := Counted(st, vote);
    forall h, g, o, m | h != g && m in Votes(st', h, o) && m in Votes(st', g, o)
      ensures Attacked(st', h, o) && Attacked(st', g, o)
    {
      CountedVotes(st, vote, h, o);
      CountedVotes(st, vote, g, o);
      if m in Votes(st, h, o) && m in Votes(st, g, o) {
        assert Attacked(st, h, o) && Attacked(st, g, o);
      } else {
        // exactly one of the two votes is the new one, and the index leads to the other
        var other := if h == vote.txHash then g else h;
        assert m == vote.masternode && o == vote.outpoint && m in Votes(st, other, o);
        assert Votes(st, other, o) != {};
        assert other in Conflicting(st, vote);
      }
    }
  }

  lemma CountedKeepsFiled(p: Params, st: State, vote: Vote)
    requires WellFiled(st) && LocksEarned(p, st) && vote.txHash in st.candidates
    ensures WellFiled(Counted(st, vote)) && LocksEarned(p, Counted(st, vote))
  {
    var st' := Counted(st, vote);
    forall h | h in st'.candidates
      ensures st'.candidates[h].request == st.candidates[h].request
      ensures forall o :: o in st'.candidates[h].locks <==> o in st.candidates[h].locks
    {
      forall o ensures o in st'.candidates[h].locks <==> o in st.candidates[h].locks {
        CountedVotes(st, vote, h, o);
      }
      CountedVotes(st, vote, h, vote.outpoint);
    }
    assert WellFiled(st') by {
      forall h | h in st'.candidates && st.candidates[h].locks == map[] ensures st'.candidates[h].locks == map[] {
      }
    }
    forall o | o in st'.locked ensures |Votes(st', st'.locked[o], o)| >= p.required {
      CountedVotes(st, vote, st.locked[o], o);
      Subset(Votes(st, st.locked[o], o), Votes(st', st.locked[o], o));
    }
  }

  lemma CountedKeeps(p: Params, st: State, vote: Vote)
    requires Inv(p, st) && vote.txHash in st.candidates && VoteValid(p, vote)
    ensures Inv(p, Counted(st, vote))
  {
    hide VotesEligible, VotesIndexed, EquivocationMarked, WellFiled, LocksEarned, Counted;
    CountedKeepsEligible(p, st, vote);
    CountedKeepsIndexed(st, vote);
    CountedKeepsMarked(st, vote);
    CountedKeepsFiled(p, st, vote);
  }

  /** The two states agree on all votes, marks, indexes and locks; candidates may have been added. */
  ghost predicate SameVotes(st: State, st': State) {
    && st'.voted == st.voted && st'.locked == st.locked
    && (forall h, o :: Votes(st', h, o) == Votes(st, h, o))
    && (forall h, o | Attacked(st, h, o) :: Attacked(st', h, o))
    && (forall h, o | h in st.candidates && o in st.candidates[h].locks ::
          h in st'.candidates && o in st'.candidates[h].locks)
  }

  lemma SameVotesKeep(p: Params, st: State, st': State)
    requires Inv(p, st) && SameVotes(st, st') && WellFiled(st') && forall v | v in st'.orphans :: VoteValid(p, v)
    ensures Inv(p, st')
  {
  }

  /** One candidate may change, and only from no locks to locks without votes. */
  lemma CreateChangesOne(st: State, tx: Tx, nNow: int)
    requires WellFiled(st)
    ensures var st' := CandidateCreated(st, tx, nNow).0;
      && st' == st.(candidates := st'.candidates)
      && (forall h | h != tx.hash :: h in st'.candidates <==> h in st.candidates)
      && (forall h | h != tx.hash && h in st.candidates :: st'.candidates[h] == st.candidates[h])
      && tx.hash in st'.candidates
      && (tx.hash in st.candidates && st.candidates[tx.hash].locks != map[] ==> st'.candidates == st.candidates)
      && (tx.hash !in st.candidates || st.candidates[tx.hash].locks == map[] ==>
            forall o | o in st'.candidates[tx.hash].locks :: st'.candidates[tx.hash].locks[o].votes == map[])
  {
  }

  lemma CreateSameVotes(st: State, tx: Tx, nNow: int)
    requires WellFiled(st)
    ensures SameVotes(st, CandidateCreated(st, tx, nNow).0)
  {
    CreateChangesOne(st, tx, nNow);
    hide CandidateCreated, WellFiled;
  }

  lemma CreateWellFiled(st: State, tx: Tx, nNow: int)
    requires WellFiled(st)
    ensures WellFiled(CandidateCreated(st, tx, nNow).0)
  {
  }

  lemma CreateKeeps(p: Params, st: State, tx: Tx, nNow: int)
    requires Inv(p, st)
    ensures Inv(p, CandidateCreated(st, tx, nNow).0)
    ensures CandidateCreated(st, tx, nNow).0.locked == st.locked
  {
    CreateSameVotes(st, tx, nNow);
    CreateWellFiled(st, tx, nNow);
    var st' := CandidateCreated(st, tx, nNow).0;
    assert st'.orphans == st.orphans;
    hide SameVotes, WellFiled, CandidateCreated, VotesIndexed, EquivocationMarked, LocksEarned;
    SameVotesKeep(p, st, st');
  }

  lemma LocksApart(p: Params, st: State, locked: map<OutPoint, Hash>)
    requires VotesEligible(p, st) && VotesIndexed(st) && EquivocationMarked(st) && WellFiled(st)
    ensures var st' := st.(locked := locked);
      VotesEligible(p, st') && VotesIndexed(st') && EquivocationMarked(st') && WellFiled(st')
  {
    var st' := st.(locked := locked);
    assert VotesEligible(p, st') by {
      forall h, o ensures Votes(st', h, o) <= p.eligible(o) {
        assert Votes(st, h, o) <= p.eligible(o);
      }
    }
    forall h, o | Votes(st', h, o) != {} ensures o in st'.voted && h in st'.voted[o] {
      assert Votes(st, h, o) != {};
    }
    forall h, g, o, m | h != g && m in Votes(st', h, o) && m in Votes(st', g, o)
      ensures Attacked(st', h, o) && Attacked(st', g, o)
    {
      assert m in Votes(st, h, o) && m in Votes(st, g, o);
      assert Attacked(st, h, o) && Attacked(st, g, o);
    }
  }

  lemma OwnHash(p: Params, st: State, h: Hash)
    requires Inv(p, st) && h in st.candidates && st.candidates[h].request.Some?
    ensures st.candidates[h].request.value.hash == h
  {
  }

  lemma NewLocksEarned(p: Params, st: State, h: Hash)
    requires LocksEarned(p, st) && Ready(p, st, h)
    ensures LocksEarned(p, st.(locked := (map o | o in st.candidates[h].locks :: h) + st.locked))
  {
  }

  lemma {:induction false} ObstacleIsConflict(st: State, h: Hash, inputs: seq<OutPoint>, env: Env)
    requires forall o | o in inputs && o in st.locked :: st.locked[o] == h
    ensures !FirstObstacle(st, h, inputs, env).LockedBy?
    ensures (forall o | o in inputs :: !env.mempoolConflict(o)) ==> FirstObstacle(st, h, inputs, env) == Clear
  {
    if inputs != [] {
      assert forall o | o in inputs[1..] :: o in inputs;
      ObstacleIsConflict(st, h, inputs[1..], env);
    }
  }

  /** With a majority quorum finalising only adds locks, each with the votes it needs. */
  lemma FinalizeKeeps(p: Params, st: State, h: Hash, env: Env)
    requires Inv(p, st) && MajorityQuorum(p)
    ensures Inv(p, Finalized(p, st, h, env))
    ensures forall o | o in st.locked ::
      o in Finalized(p, st, h, env).locked && Finalized(p, st, h, env).locked[o] == st.locked[o]
  {
    hide VotesEligible, VotesIndexed, EquivocationMarked, WellFiled, LocksEarned;
    if Ready(p, st, h) && st.candidates[h].request.Some? {
      var tx := st.candidates[h].request.value;
      NoLockConflict(p, st, h);
      assert tx.hash == h by { OwnHash(p, st, h); }
      ObstacleIsConflict(st, h, tx.inputs, env);
      var locked := (map o | o in st.candidates[h].locks :: h) + st.locked;
      LocksApart(p, st, locked);
      NewLocksEarned(p, st, h);
    }
  }

  lemma {:induction false} ReplayKeeps(p: Params, st: State, votes: seq<Vote>, nNow: int)
    requires Inv(p, st) && forall v | v in votes :: VoteValid(p, v)
    ensures Inv(p, Replayed(st, votes, nNow)) && Replayed(st, votes, nNow).locked == st.locked
    decreases |votes|
  {
    if votes != [] {
      var vote := votes[0];
      assert VoteValid(p, vote);
      if Replayable(st, vote, nNow) {
        CountedKeeps(p, st, vote);
        var st1 := Counted(st, vote);
        var added := CanAdd(st.candidates[vote.txHash], vote);
        var st2 := st1.(orphans := if added then st.orphans - {vote} else st.orphans);
        assert st1.orphans == st.orphans;
        FewerOrphans(p, st1, st2.orphans);
        ReplayKeeps(p, st2, votes[1..], nNow);
      } else {
        ReplayKeeps(p, st, votes[1..], nNow);
      }
    }
  }

  lemma FewerOrphans(p: Params, st: State, orphans: set<Vote>)
    requires Inv(p, st) && forall v | v in orphans :: VoteValid(p, v)
    ensures Inv(p, st.(orphans := orphans))
  {
    var st' := st.(orphans := orphans);
    assert WellFiled(st');
    assert SameVotes(st, st');
    hide VotesEligible, VotesIndexed, EquivocationMarked, WellFiled, LocksEarned, SameVotes;
    SameVotesKeep(p, st, st');
  }

  lemma VoteKeeps(p: Params, st: State, vote: Vote, env: Env)
    requires Inv(p, st) && MajorityQuorum(p)
    ensures Inv(p, VoteReceived(p, st, vote, env))
    ensures LocksGrow(st, VoteReceived(p, st, vote, env))
  {
    hide Inv, MajorityQuorum, Counted, Finalized;
    if vote !in st.seen {
      var st1 := st.(seen := st.seen + {vote});
      SeenApart(p, st, st1.seen);
      OrphansValid(p, st);
      if VoteValid(p, vote) {
        if vote.txHash !in st1.candidates {
          EmptyCandidate(p, st1, vote, env.nNow);
        } else if st1.candidates[vote.txHash].request.None? {
          assert forall v | v in st1.orphans + {vote} :: VoteValid(p, v);
          FewerOrphans(p, st1, st1.orphans + {vote});
        } else if !st1.candidates[vote.txHash].IsTimedOut(env.nNow) {
          CountedKeeps(p, st1, vote);
          CountedRest(st1, vote);
          FinalizeKeeps(p, Counted(st1, vote), vote.txHash, env);
        }
      }
    }
  }

  ghost predicate LocksGrow(st: State, st': State) {
    forall o | o in st.locked :: o in st'.locked && st'.locked[o] == st.locked[o]
  }

  lemma SeenApart(p: Params, st: State, seen: set<Vote>)
    requires Inv(p, st)
    ensures Inv(p, st.(seen := seen))
  {
    var st' := st.(seen := seen);
    assert WellFiled(st');
    assert SameVotes(st, st');
    hide VotesIndexed, EquivocationMarked, WellFiled, LocksEarned, SameVotes;
    SameVotesKeep(p, st, st');
  }

  lemma EmptySameVotes(st: State, vote: Vote, nNow: int)
    requires WellFiled(st) && vote.txHash !in st.candidates
    ensures var st' := st.(candidates := st.candidates[vote.txHash := Candidate(None, map[], nNow, -1)],
      orphans := st.orphans + {vote});
      WellFiled(st') && SameVotes(st, st')
  {
  }

  lemma EmptyCandidate(p: Params, st: State, vote: Vote, nNow: int)
    requires Inv(p, st) && vote.txHash !in st.candidates && VoteValid(p, vote)
    ensures Inv(p, st.(candidates := st.candidates[vote.txHash := Candidate(None, map[], nNow, -1)],
      orphans := st.orphans + {vote}))
  {
    hide VotesIndexed, EquivocationMarked, WellFiled, LocksEarned, SameVotes;
    var st' := st.(candidates := st.candidates[vote.txHash := Candidate(None, map[], nNow, -1)],
      orphans := st.orphans + {vote});
    EmptySameVotes(st, vote, nNow);
    SameVotesKeep(p, st, st');
  }

  lemma OrphansValid(p: Params, st: State)
    requires Inv(p, st)
    ensures forall v | v in st.orphans :: VoteValid(p, v)
  {
  }

  lemma RequestKeeps(p: Params, st: State, tx: Tx, order: seq<Vote>, env: Env)
    requires Inv(p, st) && MajorityQuorum(p) && forall v | v in order :: v in st.orphans
    ensures Inv(p, Requested(p, st, tx, true, order, env)) && LocksGrow(st, Requested(p, st, tx, true, order, env))
  {
    hide Inv, Replayed, Finalized, CandidateCreated;
    OrphansValid(p, st);
    CreateKeeps(p, st, tx, env.nNow);
    var (st1, ok) := CandidateCreated(st, tx, env.nNow);
    if ok {
      ReplayKeeps(p, st1, order, env.nNow);
      FinalizeKeeps(p, Replayed(st1, order, env.nNow), tx.hash, env);
    }
  }

  lemma StepKeeps(p: Params, st: State, ev: Event)
    requires Inv(p, st) && MajorityQuorum(p) && LegalEvent(st, ev)
    ensures Inv(p, Step(p, st, ev)) && LocksGrow(st, Step(p, st, ev))
  {
    hide Inv, Requested, VoteReceived;
    match ev
    case VoteMessage(vote, env) => VoteKeeps(p, st, vote, env);
    case Request(tx, valid, order, env) =>
      if valid {
        RequestKeeps(p, st, tx, order, env);
      } else {
        InvalidRequest(p, st, tx, order, env);
      }
  }

  lemma InvalidRequest(p: Params, st: State, tx: Tx, order: seq<Vote>, env: Env)
    ensures Requested(p, st, tx, false, order, env) == st
  {
  }

  // ---------------------------------------------------------------- whole runs

  predicate LegalRun(p: Params, st: State, evs: seq<Event>)
    decreases |evs|
  {
    evs == [] || (LegalEvent(st, evs[0]) && LegalRun(p, Step(p, st, evs[0]), evs[1..]))
  }

  function After(p: Params, st: State, evs: seq<Event>): State
    decreases |evs|
  {
    if evs == [] then st else After(p, Step(p, st, evs[0]), evs[1..])
  }

  lemma {:induction false} RunKeeps(p: Params, st: State, evs: seq<Event>)
    requires Inv(p, st) && MajorityQuorum(p) && LegalRun(p, st, evs)
    ensures Inv(p, After(p, st, evs)) && LocksGrow(st, After(p, st, evs))
    decreases |evs|
  {
    if evs != [] {
      StepKeeps(p, st, evs[0]);
      RunKeeps(p, Step(p, st, evs[0]), evs[1..]);
    }
  }

  /** With a majority quorum a completed lock is never lost or transferred by any continuation of the run. */
  lemma LocksAreFinal(p: Params, evs: seq<Event>, more: seq<Event>)
    requires MajorityQuorum(p) && LegalRun(p, INIT, evs) && LegalRun(p, After(p, INIT, evs), more)
    ensures LocksGrow(After(p, INIT, evs), After(p, After(p, INIT, evs), more))
  {
    InitInv(p);
    RunKeeps(p, INIT, evs);
    RunKeeps(p, After(p, INIT, evs), more);
  }

  lemma InitInv(p: Params)
    ensures Inv(p, INIT)
  {
  }

  /** In every run two stored candidates that share an input are never both ready. */
  ghost predicate SafeQuorum(required: nat, total: nat) {
    forall p: Params, evs: seq<Event> |
      p.required == required && p.total == total && (forall o :: |p.eligible(o)| <= total) && LegalRun(p, INIT, evs) ::
      NoDoubleLock(p, After(p, INIT, evs))
  }

  lemma MajorityIsSafe(required: nat, total: nat)
    requires 2 * required > total
    ensures SafeQuorum(required, total)
  {
    forall p: Params, evs: seq<Event> |
      p.required == required && p.total == total && (forall o :: |p.eligible(o)| <= total) && LegalRun(p, INIT, evs)
      ensures NoDoubleLock(p, After(p, INIT, evs))
    {
      InitInv(p);
      RunKeeps(p, INIT, evs);
      NeverBothReady(p, After(p, INIT, evs));
    }
  }

  // ---------------------------------------------------------------- and from nothing less

  /** The masternodes lo, ..., lo + n - 1. */
  function Mns(lo: nat, n: nat): (ms: seq<OutPoint>)
    ensures |ms| == n && forall i | 0 <= i < n :: ms[i] == OutPoint(lo + i, 0)
  {
    seq(n, i requires 0 <= i < n => OutPoint(lo + i, 0))
  }

  ghost function SetOf(ms: seq<OutPoint>): set<OutPoint> {
    set m | m in ms
  }

  predicate Distinct(ms: seq<OutPoint>) {
    forall i, j | 0 <= i < j < |ms| :: ms[i] != ms[j]
  }

  lemma {:induction false} SetOfSize(ms: seq<OutPoint>)
    requires Distinct(ms)
    ensures |SetOf(ms)| == |ms|
  {
    if ms != [] {
      var n := |ms| - 1;
      SetOfSize(ms[..n]);
      assert SetOf(ms) == SetOf(ms[..n]) + {ms[n]};
    }
  }

  const CONTESTED := OutPoint(0, 7)

  function Contender(h: Hash): Tx { Tx(h, [CONTESTED]) }

  /** Mempool and chain never let a lock complete, so that the candidates stay as they are. */
  const STUCK := Env(0, false, (_: OutPoint) => false, false, false, false, 0, {}, {})

  predicate Open(c: Candidate, h: Hash) {
    c.request == Some(Contender(h)) && c.nTimeCreated == 0 && c.locks.Keys == {CONTESTED}
      && !c.locks[CONTESTED].fAttacked
  }

  /** Two open requests for one outpoint; every masternode seen so far has been counted for one. */
  ghost predicate Contest(st: State) {
    && st.candidates.Keys == {1, 2} && st.orphans == {} && st.locked == map[]
    && Open(st.candidates[1], 1) && Open(st.candidates[2], 2)
    && forall v | v in st.seen :: v.masternode in Votes(st, 1, CONTESTED) + Votes(st, 2, CONTESTED)
  }

  function Ballot(h: Hash, m: OutPoint): Event {
    VoteMessage(Vote(h, CONTESTED, m), STUCK)
  }

  /** A new voter on a contested outpoint is simply counted. */
  lemma BallotIsCounted(p: Params, st: State, vote: Vote)
    requires vote !in st.seen && VoteValid(p, vote) && vote.txHash in st.candidates && st.locked == map[]
    requires var c := st.candidates[vote.txHash]; c.request.Some? && c.nTimeCreated == 0 && CanAdd(c, vote)
    ensures Step(p, st, VoteMessage(vote, STUCK)) == Counted(st.(seen := st.seen + {vote}), vote)
  {
    var st1 := st.(seen := st.seen + {vote});
    CountedRest(st1, vote);
    StuckChangesNothing(p, Counted(st1, vote), vote.txHash);
    hide Counted, Finalized;
  }

  lemma CountedWithoutConflict(st: State, vote: Vote)
    requires vote.txHash in st.candidates && Conflicting(st, vote) == {}
    ensures var st' := Counted(st, vote);
      && st'.candidates == st.candidates[vote.txHash := AddVote(st.candidates[vote.txHash], vote)]
      && st'.orphans == st.orphans && st'.seen == st.seen && st'.locked == st.locked
  {
  }

  /** No other candidate has this voter. */
  lemma NoConflict(st: State, vote: Vote)
    requires forall h | h in st.candidates && h != vote.txHash :: vote.masternode !in Votes(st, h, vote.outpoint)
    ensures Conflicting(st, vote) == {}
  {
  }

  /** A masternode that has not voted yet adds to one side and leaves the other alone. */
  lemma Cast(p: Params, st: State, h: Hash, m: OutPoint)
    requires Contest(st) && (h == 1 || h == 2) && m in p.eligible(CONTESTED)
    requires m !in Votes(st, 1, CONTESTED) && m !in Votes(st, 2, CONTESTED)
    ensures var st' := Step(p, st, Ballot(h, m));
      && Contest(st')
      && Votes(st', h, CONTESTED) == Votes(st, h, CONTESTED) + {m}
      && Votes(st', 3 - h, CONTESTED) == Votes(st, 3 - h, CONTESTED)
  {
    hide Step, Counted, Conflicting;
    var vote := Vote(h, CONTESTED, m);
    var st1 := st.(seen := st.seen + {vote});
    BallotIsCounted(p, st, vote);
    NoConflict(st1, vote);
    CountedWithoutConflict(st1, vote);
    var st' := Counted(st1, vote);
    assert st'.candidates.Keys == st.candidates.Keys;
    assert Open(st'.candidates[h], h) && st'.candidates[3 - h] == st.candidates[3 - h];
  }

  function Ballots(h: Hash, ms: seq<OutPoint>): seq<Event> {
    if ms == [] then [] else [Ballot(h, ms[0])] + Ballots(h, ms[1..])
  }

  lemma RunCons(p: Params, st: State, ev: Event, evs: seq<Event>)
    requires LegalEvent(st, ev) && LegalRun(p, Step(p, st, ev), evs)
    ensures LegalRun(p, st, [ev] + evs) && After(p, st, [ev] + evs) == After(p, Step(p, st, ev), evs)
  {
    hide Step;
    assert ([ev] + evs)[1..] == evs;
  }

  lemma RunNothing(p: Params, st: State)
    ensures LegalRun(p, st, []) && After(p, st, []) == st
  {
  }

  lemma {:induction false} CastAll(p: Params, st: State, h: Hash, ms: seq<OutPoint>)
    requires Contest(st) && (h == 1 || h == 2) && Distinct(ms)
    requires forall m | m in ms ::
      m in p.eligible(CONTESTED) && m !in Votes(st, 1, CONTESTED) && m !in Votes(st, 2, CONTESTED)
    ensures LegalRun(p, st, Ballots(h, ms))
    ensures var st' := After(p, st, Ballots(h, ms));
      && Contest(st')
      && Votes(st', h, CONTESTED) == Votes(st, h, CONTESTED) + SetOf(ms)
      && Votes(st', 3 - h, CONTESTED) == Votes(st, 3 - h, CONTESTED)
    decreases |ms|
  {
    hide Contest, Step, Votes, LegalRun, After;
    if ms == [] {
      RunNothing(p, st);
    } else {
      Cast(p, st, h, ms[0]);
      var st1 := Step(p, st, Ballot(h, ms[0]));
      assert forall m | m in ms[1..] :: m in ms && m != ms[0];
      CastAll(p, st1, h, ms[1..]);
      RunCons(p, st, Ballot(h, ms[0]), Ballots(h, ms[1..]));
      assert SetOf(ms) == {ms[0]} + SetOf(ms[1..]);
    }
  }

  lemma {:induction false} RunConcat(p: Params, st: State, a: seq<Event>, b: seq<Event>)
    requires LegalRun(p, st, a) && LegalRun(p, After(p, st, a), b)
    ensures LegalRun(p, st, a + b) && After(p, st, a + b) == After(p, After(p, st, a), b)
    decreases |a|
  {
    if a == [] {
      assert a + b == b;
    } else {
      assert (a + b)[1..] == a[1..] + b;
      RunConcat(p, Step(p, st, a[0]), a[1..], b);
    }
  }

  lemma StuckChangesNothing(p: Params, st: State, h: Hash)
    requires st.locked == map[]
    ensures Finalized(p, st, h, STUCK) == st
  {
    if h in st.candidates && st.candidates[h].request.Some? {
      var tx := st.candidates[h].request.value;
      ObstacleIsConflict(st, tx.hash, tx.inputs, STUCK);
    }
  }

  lemma Opening(p: Params)
    ensures var evs := [Request(Contender(1), true, [], STUCK), Request(Contender(2), true, [], STUCK)];
      var st := After(p, INIT, evs);
      LegalRun(p, INIT, evs) && Contest(st) && Votes(st, 1, CONTESTED) == {} == Votes(st, 2, CONTESTED)
  {
    hide Finalized;
    var e1, e2 := Request(Contender(1), true, [], STUCK), Request(Contender(2), true, [], STUCK);
    forall st: State, h | st.locked == map[] ensures Finalized(p, st, h, STUCK) == st { StuckChangesNothing(p, st, h); }
    var st1 := Step(p, INIT, e1);
    assert st1 == State(map[1 := Candidate(Some(Contender(1)), FreshLocks([CONTESTED]), 0, -1)], map[], map[], {}, {});
    var st2 := Step(p, st1, e2);
    var second := Candidate(Some(Contender(2)), FreshLocks([CONTESTED]), 0, -1);
    assert st2 == st1.(candidates := st1.candidates[2 := second]);
    assert [e1, e2][1..] == [e2] && [e2][1..] == [];
    assert LegalEvent(INIT, e1) && LegalEvent(st1, e2) && LegalRun(p, st2, []);
    assert LegalRun(p, st1, [e2]);
    assert After(p, INIT, [e1, e2]) == After(p, st1, [e2]) == st2;
  }

  /** With two disjoint sets of voters a run counts each set for one contender. */
  lemma TwoCamps(p: Params, ms: seq<OutPoint>, ns: seq<OutPoint>) returns (evs: seq<Event>)
    requires Distinct(ms) && Distinct(ns) && forall m | m in ms :: m !in ns
    requires forall m | m in ms || m in ns :: m in p.eligible(CONTESTED)
    ensures LegalRun(p, INIT, evs) && Contest(After(p, INIT, evs))
    ensures Votes(After(p, INIT, evs), 1, CONTESTED) == SetOf(ms)
      && Votes(After(p, INIT, evs), 2, CONTESTED) == SetOf(ns)
  {
    hide Step, Ballots, LegalRun, After, Contest, Votes;
    var opening := [Request(Contender(1), true, [], STUCK), Request(Contender(2), true, [], STUCK)];
    Opening(p);
    var st0 := After(p, INIT, opening);
    CastAll(p, st0, 1, ms);
    var st1 := After(p, st0, Ballots(1, ms));
    CastAll(p, st1, 2, ns);
    RunConcat(p, INIT, opening, Ballots(1, ms));
    evs := opening + Ballots(1, ms);
    RunConcat(p, INIT, evs, Ballots(2, ns));
    evs := evs + Ballots(2, ns);
  }

  /** With two disjoint quorums both contenders become ready. */
  lemma MinorityIsUnsafe(required: nat, total: nat)
    requires 2 * required <= total
    ensures !SafeQuorum(required, total)
  {
    hide NoDoubleLock, LegalRun, After, Contest, Votes, SafeQuorum;
    var everyone := SetOf(Mns(0, total));
    var p := Params(required, total, 0, _ => everyone);
    SetOfSize(Mns(0, total));
    var ms, ns := Mns(0, required), Mns(required, required);
    assert forall m | m in ms :: Mns(0, total)[m.hash] == m;
    assert forall m | m in ns :: Mns(0, total)[m.hash] == m;
    var evs := TwoCamps(p, ms, ns);
    SetOfSize(ms);
    SetOfSize(ns);
    ContestIsDouble(p, After(p, INIT, evs));
    UnsafeWitness(p, evs);
  }

  lemma UnsafeWitness(p: Params, evs: seq<Event>)
    requires (forall o :: |p.eligible(o)| <= p.total) && LegalRun(p, INIT, evs) && !NoDoubleLock(p, After(p, INIT, evs))
    ensures !SafeQuorum(p.required, p.total)
  {
    hide NoDoubleLock, LegalRun, After;
  }

  lemma ContestIsDouble(p: Params, st: State)
    requires Contest(st) && |Votes(st, 1, CONTESTED)| >= p.required && |Votes(st, 2, CONTESTED)| >= p.required
    ensures !NoDoubleLock(p, st)
  {
    assert CONTESTED in st.candidates[1].locks && CONTESTED in st.candidates[2].locks;
    assert |st.candidates[1].locks[CONTESTED].votes| == |Votes(st, 1, CONTESTED)|;
    assert |st.candidates[2].locks[CONTESTED].votes| == |Votes(st, 2, CONTESTED)|;
    assert Share(st, 1, 2) && Ready(p, st, 1) && Ready(p, st, 2);
  }

  /** The voting is safe over all runs exactly when a quorum is a majority. */
  lemma QuorumRule(required: nat, total: nat)
    ensures SafeQuorum(required, total) <==> 2 * required > total
  {
    if 2 * required > total {
      MajorityIsSafe(required, total);
    } else {
      MinorityIsUnsafe(required, total);
    }
  }

  /** In every run and every continuation of it completed locks stay. */
  ghost predicate FinalLocks(required: nat, total: nat) {
    forall p: Params, evs: seq<Event>, more: seq<Event> |
      && p.required == required && p.total == total && (forall o :: |p.eligible(o)| <= total)
      && LegalRun(p, INIT, evs) && LegalRun(p, After(p, INIT, evs), more) ::
      LocksGrow(After(p, INIT, evs), After(p, After(p, INIT, evs), more))
  }

  /** Nothing keeps a lock from completing, and a clean-up removes what is expired. */
  const FREE := Env(0, false, (_: OutPoint) => false, false, true, true, 1, {}, {})

  /** A request that arrives again makes its candidate try to finalise. */
  lemma AskAgain(p: Params, st: State, h: Hash)
    requires h in st.candidates && st.candidates[h].request == Some(Contender(h)) && st.orphans == {}
    ensures var ev := Request(Contender(h), true, [], FREE);
      && LegalEvent(st, ev) && Step(p, st, ev) == Finalized(p, st, h, FREE)
      && LegalRun(p, st, [ev]) && After(p, st, [ev]) == Finalized(p, st, h, FREE)
  {
    hide Finalized;
    var ev := Request(Contender(h), true, [], FREE);
    assert [ev][1..] == [];
  }

  /** The first contender with enough votes gets the outpoint. */
  lemma FirstLocks(p: Params, st: State)
    requires Contest(st) && |Votes(st, 1, CONTESTED)| >= p.required
    ensures Finalized(p, st, 1, FREE) == st.(locked := map[CONTESTED := 1])
  {
    var c := st.candidates[1];
    ObstacleIsConflict(st, 1, c.request.value.inputs, FREE);
    assert |c.locks[CONTESTED].votes| == |Votes(st, 1, CONTESTED)|;
    assert (map o | o in c.locks :: 1 as Hash) + st.locked == map[CONTESTED := 1 as Hash];
  }

  /** The second one with enough votes costs the first its lock. */
  lemma SecondUnlocks(p: Params, st: State)
    requires Contest(st.(locked := map[])) && st.locked == map[CONTESTED := 1] && p.keepLock == 0
    requires |Votes(st, 2, CONTESTED)| >= p.required
    ensures CONTESTED !in Finalized(p, st, 2, FREE).locked
  {
    var c := st.candidates[2];
    assert |c.locks[CONTESTED].votes| == |Votes(st, 2, CONTESTED)|;
    assert FirstObstacle(st, 2, c.request.value.inputs, FREE) == LockedBy(1);
    var st1 := Condemned(Condemned(st, 2), 1);
    assert 2 in Expired(p, st1, FREE) && CONTESTED in st1.candidates[2].locks;
    assert CONTESTED in OutPointsOf(st1, Expired(p, st1, FREE));
  }

  /** Without a majority two disjoint quorums undo a completed lock. */
  lemma MinorityLosesLocks(required: nat, total: nat)
    requires 2 * required <= total
    ensures !FinalLocks(required, total)
  {
    hide LegalRun, After, Contest, Votes, FinalLocks, Step, Finalized;
    var everyone := SetOf(Mns(0, total));
    var p := Params(required, total, 0, _ => everyone);
    SetOfSize(Mns(0, total));
    var ms, ns := Mns(0, required), Mns(required, required);
    assert forall m | m in ms :: Mns(0, total)[m.hash] == m;
    assert forall m | m in ns :: Mns(0, total)[m.hash] == m;
    var camps := TwoCamps(p, ms, ns);
    SetOfSize(ms);
    SetOfSize(ns);
    var st := After(p, INIT, camps);
    TwoAskAgain(p, st);
    var more := [Request(Contender(2), true, [], FREE)];
    RunConcat(p, INIT, camps, [Request(Contender(1), true, [], FREE)]);
    LostWitness(p, camps + [Request(Contender(1), true, [], FREE)], more);
  }

  lemma TwoAskAgain(p: Params, st: State)
    requires Contest(st) && p.keepLock == 0
    requires |Votes(st, 1, CONTESTED)| >= p.required && |Votes(st, 2, CONTESTED)| >= p.required
    ensures var (first, second) := ([Request(Contender(1), true, [], FREE)], [Request(Contender(2), true, [], FREE)]);
      && LegalRun(p, st, first) && LegalRun(p, After(p, st, first), second)
      && CONTESTED in After(p, st, first).locked && CONTESTED !in After(p, After(p, st, first), second).locked
  {
    hide Finalized, LegalRun, After, Step;
    AskAgain(p, st, 1);
    FirstLocks(p, st);
    var st1 := st.(locked := map[CONTESTED := 1]);
    assert st1.(locked := map[]) == st;
    assert Votes(st1, 2, CONTESTED) == Votes(st, 2, CONTESTED);
    AskAgain(p, st1, 2);
    SecondUnlocks(p, st1);
  }

  lemma LostWitness(p: Params, evs: seq<Event>, more: seq<Event>)
    requires (forall o :: |p.eligible(o)| <= p.total) && LegalRun(p, INIT, evs)
      && LegalRun(p, After(p, INIT, evs), more)
    requires CONTESTED in After(p, INIT, evs).locked && CONTESTED !in After(p, After(p, INIT, evs), more).locked
    ensures !FinalLocks(p.required, p.total)
  {
    hide LegalRun, After;
    assert !LocksGrow(After(p, INIT, evs), After(p, After(p, INIT, evs), more));
  }

  lemma MajorityKeepsLocks(required: nat, total: nat)
    requires 2 * required > total
    ensures FinalLocks(required, total)
  {
    hide LegalRun, After, LocksGrow;
    forall p: Params, evs: seq<Event>, more: seq<Event> |
      && p.required == required && p.total == total && (forall o :: |p.eligible(o)| <= total)
      && LegalRun(p, INIT, evs) && LegalRun(p, After(p, INIT, evs), more)
      ensures LocksGrow(After(p, INIT, evs), After(p, After(p, INIT, evs), more))
    {
      LocksAreFinal(p, evs, more);
    }
  }

  /** Completed locks are final over all runs exactly when a quorum is a majority. */
  lemma LockRule(required: nat, total: nat)
    ensures FinalLocks(required, total) <==> 2 * required > total
  {
    hide FinalLocks;
    if 2 * required > total {
      MajorityKeepsLocks(required, total);
    } else {
      MinorityLosesLocks(required, total);
    }
  }

  /** The parameters of the main network are safe, those of the test network are not. */
  lemma NetworkQuorums()
    ensures SafeQuorum(6, 10) && SafeQuorum(3, 5) && !SafeQuorum(2, 4)
    ensures FinalLocks(6, 10) && FinalLocks(3, 5) && !FinalLocks(2, 4)
  {
    hide SafeQuorum, FinalLocks;
    LockRule(6, 10);
    LockRule(3, 5);
    LockRule(2, 4);
    QuorumRule(6, 10);
    QuorumRule(3, 5);
    QuorumRule(2, 4);
  }

  /** When nothing stands in its way, a ready candidate gets all its inputs. */
  lemma FinalizeLocksAllInputs(p: Params, st: State, h: Hash, env: Env)
    requires Inv(p, st) && MajorityQuorum(p) && Ready(p, st, h) && st.candidates[h].request.Some?
    requires forall o | o in st.candidates[h].request.value.inputs :: !env.mempoolConflict(o)
    requires env.inBlock || env.utxosPresent
    ensures var st' := Finalized(p, st, h, env);
      forall o | o in st.candidates[h].request.value.inputs :: o in st'.locked && st'.locked[o] == h
  {
    NoLockConflict(p, st, h);
    var tx := st.candidates[h].request.value;
    ObstacleIsConflict(st, tx.hash, tx.inputs, env);
  }

  // ---------------------------------------------------------------- every vote in time counts

  /** The masternodes with a vote among these for h on o. */
  ghost function VotersIn(votes: set<Vote>, h: Hash, o: OutPoint): set<OutPoint> {
    set v | v in votes && v.txHash == h && v.outpoint == o :: v.masternode
  }

  ghost function VoteSet(votes: seq<Vote>): set<Vote> {
    set v | v in votes
  }

  /** The candidate's request is known and asks for a lock on o. */
  predicate Asked(st: State, h: Hash, o: OutPoint) {
    h in st.candidates && st.candidates[h].request.Some? && o in st.candidates[h].locks
  }

  /** The candidate can be voted on there: it has not timed out either. */
  predicate OpenFor(st: State, h: Hash, o: OutPoint, nNow: int) {
    Asked(st, h, o) && !st.candidates[h].IsTimedOut(nNow)
  }

  lemma ReplayOneCounts(st: State, vote: Vote, nNow: int, h: Hash, o: OutPoint)
    ensures var st' := ReplayedOne(st, vote, nNow);
      && OpenFor(st', h, o, nNow) == OpenFor(st, h, o, nNow)
      && Votes(st', h, o) == Votes(st, h, o)
           + (if OpenFor(st, h, o, nNow) then VotersIn({vote}, h, o) else {})
      && (h in st'.candidates <==> h in st.candidates)
      && (h in st.candidates ==> st'.candidates[h].request == st.candidates[h].request
                                 && (o in st'.candidates[h].locks <==> o in st.candidates[h].locks))
      && st'.seen == st.seen
  {
    if Replayable(st, vote, nNow) {
      CountedVotes(st, vote, h, o);
      CountedRest(st, vote);
      hide Counted;
      assert Votes(ReplayedOne(st, vote, nNow), h, o) == Votes(Counted(st, vote), h, o);
    }
  }

  /** A replayed vote stops being an orphan exactly if it adds a voter. */
  lemma ReplayOneOrphans(st: State, vote: Vote, nNow: int, v: Vote)
    ensures v in ReplayedOne(st, vote, nNow).orphans <==>
      v in st.orphans && !(v == vote && OpenFor(st, v.txHash, v.outpoint, nNow)
                           && v.masternode !in Votes(st, v.txHash, v.outpoint))
  {
    if Replayable(st, vote, nNow) {
      CountedRest(st, vote);
      hide Counted;
    }
  }

  /** The replay in any order: on every open outpoint exactly the masternodes of its orphan votes are added. */
  lemma {:induction false} ReplayCounts(st: State, votes: seq<Vote>, nNow: int, h: Hash, o: OutPoint)
    ensures var st' := Replayed(st, votes, nNow);
      && OpenFor(st', h, o, nNow) == OpenFor(st, h, o, nNow)
      && Votes(st', h, o) == Votes(st, h, o)
           + (if OpenFor(st, h, o, nNow) then VotersIn(VoteSet(votes), h, o) else {})
      && (h in st'.candidates <==> h in st.candidates)
      && (h in st.candidates ==> st'.candidates[h].request == st.candidates[h].request
                                 && (o in st'.candidates[h].locks <==> o in st.candidates[h].locks))
      && st'.seen == st.seen
    decreases |votes|
  {
    if votes != [] {
      hide Counted, OpenFor, Votes, Replayable, CanAdd;
      var st1 := ReplayedOne(st, votes[0], nNow);
      ReplayOneCounts(st, votes[0], nNow, h, o);
      ReplayCounts(st1, votes[1..], nNow, h, o);
      assert VotersIn(VoteSet(votes), h, o) == VotersIn({votes[0]}, h, o) + VotersIn(VoteSet(votes[1..]), h, o);
    }
  }

  lemma {:induction false} ReplayOrphans(st: State, votes: seq<Vote>, nNow: int, v: Vote)
    requires forall i, j | 0 <= i < j < |votes| :: votes[i] != votes[j]
    ensures v in Replayed(st, votes, nNow).orphans <==>
      v in st.orphans && !(v in votes && OpenFor(st, v.txHash, v.outpoint, nNow)
                           && v.masternode !in Votes(st, v.txHash, v.outpoint))
    decreases |votes|
  {
    if votes != [] {
      hide Counted, OpenFor, Votes, Replayable, CanAdd;
      var st1 := ReplayedOne(st, votes[0], nNow);
      ReplayOneOrphans(st, votes[0], nNow, v);
      ReplayOneCounts(st, votes[0], nNow, v.txHash, v.outpoint);
      ReplayOrphans(st1, votes[1..], nNow, v);
      assert v in votes <==> v == votes[0] || v in votes[1..];
      assert v.masternode in VotersIn({votes[0]}, v.txHash, v.outpoint) <==> v == votes[0];
    }
  }

  /** With a majority quorum finalising touches nothing but the locks. */
  lemma FinalizeOnlyLocks(p: Params, st: State, h: Hash, env: Env)
    requires Inv(p, st) && MajorityQuorum(p)
    ensures var st' := Finalized(p, st, h, env);
      st'.candidates == st.candidates && st'.orphans == st.orphans && st'.seen == st.seen && st'.voted == st.voted
  {
    hide VotesEligible, VotesIndexed, EquivocationMarked, WellFiled, LocksEarned;
    if Ready(p, st, h) && st.candidates[h].request.Some? {
      var tx := st.candidates[h].request.value;
      NoLockConflict(p, st, h);
      assert tx.hash == h by { OwnHash(p, st, h); }
      ObstacleIsConflict(st, h, tx.inputs, env);
    }
  }

  /** A request that is accepted opens its inputs for votes, unless the candidate has timed out. */
  lemma CreateOpens(st: State, tx: Tx, nNow: int, h: Hash, o: OutPoint)
    requires WellFiled(st)
    requires tx.hash in st.candidates ==> !st.candidates[tx.hash].IsTimedOut(nNow)
    ensures CandidateCreated(st, tx, nNow).1
    ensures var st1 := CandidateCreated(st, tx, nNow).0;
      && (tx.hash !in st.candidates || st.candidates[tx.hash].request.None? ==>
            (OpenFor(st1, tx.hash, o, nNow) <==> o in tx.inputs))
      && (h != tx.hash || (h in st.candidates && st.candidates[h].request.Some?) ==>
            OpenFor(st1, h, o, nNow) == OpenFor(st, h, o, nNow))
  {
  }

  /**
   A request in time: every vote that has been waiting for it on one of its inputs is counted now and no longer
   waits (unless its masternode was counted before), and nobody else is.
  */
  lemma EarlyVotesCount(p: Params, st: State, tx: Tx, order: seq<Vote>, env: Env, o: OutPoint)
    requires Inv(p, st) && MajorityQuorum(p) && LegalEvent(st, Request(tx, true, order, env))
    requires tx.hash in st.candidates ==> !st.candidates[tx.hash].IsTimedOut(env.nNow)
    requires OpenFor(CandidateCreated(st, tx, env.nNow).0, tx.hash, o, env.nNow)
    ensures var st' := Requested(p, st, tx, true, order, env);
      && Votes(st', tx.hash, o) == Votes(st, tx.hash, o) + VotersIn(st.orphans, tx.hash, o)
      && forall v | v in st.orphans && v.txHash == tx.hash && v.outpoint == o ::
           v in st'.orphans <==> v.masternode in Votes(st, tx.hash, o)
  {
    hide Inv, Finalized, Replayed, OpenFor, CandidateCreated, Votes;
    assert WellFiled(st) by { FiledWell(p, st); }
    CreateOpens(st, tx, env.nNow, tx.hash, o);
    CreateKeeps(p, st, tx, env.nNow);
    CreateSameVotes(st, tx, env.nNow);
    OrphansValid(p, st);
    var st1 := CandidateCreated(st, tx, env.nNow).0;
    assert st1.orphans == st.orphans by { CreateChangesOne(st, tx, env.nNow); }
    ReplayKeeps(p, st1, order, env.nNow);
    ReplayCounts(st1, order, env.nNow, tx.hash, o);
    FinalizeOnlyLocks(p, Replayed(st1, order, env.nNow), tx.hash, env);
    assert VoteSet(order) == st.orphans;
    var st' := Requested(p, st, tx, true, order, env);
    SameCandidatesSameVotes(Replayed(st1, order, env.nNow), st', tx.hash, o);
    forall v | v in st.orphans && v.txHash == tx.hash && v.outpoint == o
      ensures v in st'.orphans <==> v.masternode in Votes(st, tx.hash, o)
    {
      ReplayOrphans(st1, order, env.nNow, v);
    }
  }

  lemma FiledWell(p: Params, st: State)
    requires Inv(p, st)
    ensures WellFiled(st)
  {
  }

  lemma SameCandidatesSameVotes(st: State, st': State, h: Hash, o: OutPoint)
    requires st.candidates == st'.candidates
    ensures Votes(st, h, o) == Votes(st', h, o)
  {
  }

  /**
   Every valid vote that has been seen is counted if its candidate has o among its inputs, waits if the request
   has not come, and only such votes are counted.
  */
  ghost predicate Tallied(p: Params, st: State) {
    && (forall v | v in st.orphans :: v in st.seen)
    && (forall h, o, m | m in Votes(st, h, o) :: Vote(h, o, m) in st.seen)
    && forall v | v in st.seen && VoteValid(p, v) :: TalliedVote(st, v)
  }

  ghost predicate TalliedVote(st: State, v: Vote) {
    && v.txHash in st.candidates
    && if st.candidates[v.txHash].request.None? then v in st.orphans
       else v.outpoint in st.candidates[v.txHash].locks ==> v.masternode in Votes(st, v.txHash, v.outpoint)
  }

  /** The event does not come too late for the candidate it is about. */
  predicate Timely(st: State, ev: Event) {
    var h := if ev.Request? then ev.tx.hash else ev.vote.txHash;
    h in st.candidates ==> !st.candidates[h].IsTimedOut(ev.env.nNow)
  }

  /** A vote for an open candidate. */
  lemma CountedTallies(p: Params, st: State, vote: Vote)
    requires Tallied(p, st) && vote !in st.seen && VoteValid(p, vote)
    requires vote.txHash in st.candidates && st.candidates[vote.txHash].request.Some?
    ensures Tallied(p, Counted(st.(seen := st.seen + {vote}), vote))
  {
    var st1 := st.(seen := st.seen + {vote});
    var st' := Counted(st1, vote);
    CountedRest(st1, vote);
    hide Counted;
    forall h, o, m | m in Votes(st', h, o) ensures Vote(h, o, m) in st'.seen {
      CountedVotes(st1, vote, h, o);
      assert Votes(st1, h, o) == Votes(st, h, o);
      assert m in Votes(st, h, o) || Vote(h, o, m) == vote;
    }
    forall v | v in st'.seen && VoteValid(p, v) ensures TalliedVote(st', v) {
      CountedVotes(st1, vote, v.txHash, v.outpoint);
      assert Votes(st1, v.txHash, v.outpoint) == Votes(st, v.txHash, v.outpoint);
      if v != vote {
        assert TalliedVote(st, v);
      }
    }
  }

  lemma VoteTallies(p: Params, st: State, vote: Vote, env: Env)
    requires Inv(p, st) && MajorityQuorum(p) && Tallied(p, st) && Timely(st, VoteMessage(vote, env))
    ensures Tallied(p, VoteReceived(p, st, vote, env))
    ensures VoteReceived(p, st, vote, env).seen == st.seen + {vote}
  {
    hide Inv, Finalized, Counted;
    var st1 := st.(seen := st.seen + {vote});
    if vote in st.seen {
      assert st.seen + {vote} == st.seen;
    } else if !VoteValid(p, vote) {
      SeenMore(p, st, vote);
    } else if vote.txHash !in st.candidates || st.candidates[vote.txHash].request.None? {
      OrphanTallies(p, st, vote, env);
    } else {
      CountedTallies(p, st, vote);
      SeenApart(p, st, st1.seen);
      CountedKeeps(p, st1, vote);
      CountedRest(st1, vote);
      FinalizeOnlyLocks(p, Counted(st1, vote), vote.txHash, env);
      SameTallied(p, Counted(st1, vote), Finalized(p, Counted(st1, vote), vote.txHash, env));
    }
  }

  lemma SameTallied(p: Params, st: State, st': State)
    requires Tallied(p, st) && st.candidates == st'.candidates && st.orphans == st'.orphans && st.seen == st'.seen
    ensures Tallied(p, st')
  {
    forall h, o ensures Votes(st', h, o) == Votes(st, h, o) {
    }
    forall v | v in st'.seen && VoteValid(p, v) ensures TalliedVote(st', v) {
      assert TalliedVote(st, v);
    }
  }

  lemma SeenMore(p: Params, st: State, vote: Vote)
    requires Tallied(p, st) && !VoteValid(p, vote)
    ensures Tallied(p, st.(seen := st.seen + {vote}))
  {
    var st' := st.(seen := st.seen + {vote});
    forall h, o ensures Votes(st', h, o) == Votes(st, h, o) {
    }
    forall v | v in st'.seen && VoteValid(p, v) ensures TalliedVote(st', v) {
      assert TalliedVote(st, v);
    }
  }

  lemma OrphanEffect(p: Params, st: State, vote: Vote, env: Env)
    requires VoteValid(p, vote) && vote !in st.seen
    requires vote.txHash !in st.candidates || st.candidates[vote.txHash].request.None?
    ensures var st' := VoteReceived(p, st, vote, env);
      && st'.seen == st.seen + {vote} && st'.orphans == st.orphans + {vote}
      && (forall h | h in st.candidates :: h in st'.candidates && st'.candidates[h] == st.candidates[h])
      && (forall h | h in st'.candidates && h !in st.candidates :: st'.candidates[h].locks == map[])
      && vote.txHash in st'.candidates && st'.candidates[vote.txHash].request.None?
  {
  }

  lemma OrphanTallies(p: Params, st: State, vote: Vote, env: Env)
    requires Tallied(p, st) && VoteValid(p, vote) && vote !in st.seen
    requires vote.txHash !in st.candidates || st.candidates[vote.txHash].request.None?
    ensures Tallied(p, VoteReceived(p, st, vote, env))
    ensures VoteReceived(p, st, vote, env).seen == st.seen + {vote}
  {
    hide VoteReceived;
    OrphanEffect(p, st, vote, env);
    var st' := VoteReceived(p, st, vote, env);
    forall h, o ensures Votes(st', h, o) == Votes(st, h, o) {
    }
    forall v | v in st'.seen && VoteValid(p, v) ensures TalliedVote(st', v) {
      if v != vote {
        assert TalliedVote(st, v);
      }
    }
  }

  lemma RequestTallies(p: Params, st: State, tx: Tx, order: seq<Vote>, env: Env)
    requires Inv(p, st) && MajorityQuorum(p) && Tallied(p, st)
    requires LegalEvent(st, Request(tx, true, order, env)) && Timely(st, Request(tx, true, order, env))
    ensures Tallied(p, Requested(p, st, tx, true, order, env))
    ensures Requested(p, st, tx, true, order, env).seen == st.seen
  {
    hide Inv, Finalized, Replayed, OpenFor, CandidateCreated, Votes;
    FiledWell(p, st);
    CreateOpens(st, tx, env.nNow, tx.hash, CONTESTED);
    CreateKeeps(p, st, tx, env.nNow);
    CreateSameVotes(st, tx, env.nNow);
    OrphansValid(p, st);
    var st1 := CandidateCreated(st, tx, env.nNow).0;
    CreateChangesOne(st, tx, env.nNow);
    ReplayKeeps(p, st1, order, env.nNow);
    var st2 := Replayed(st1, order, env.nNow);
    ReplayTallies(p, st, tx, order, env);
    FinalizeOnlyLocks(p, st2, tx.hash, env);
    SameTallied(p, st2, Finalized(p, st2, tx.hash, env));
  }

  lemma ReplayTallies(p: Params, st: State, tx: Tx, order: seq<Vote>, env: Env)
    requires WellFiled(st) && Tallied(p, st)
    requires LegalEvent(st, Request(tx, true, order, env)) && Timely(st, Request(tx, true, order, env))
    ensures var st2 := Replayed(CandidateCreated(st, tx, env.nNow).0, order, env.nNow);
      Tallied(p, st2) && st2.seen == st.seen
  {
    hide Replayed, OpenFor, CandidateCreated, Votes;
    var st1 := CandidateCreated(st, tx, env.nNow).0;
    CreateChangesOne(st, tx, env.nNow);
    CreateSameVotes(st, tx, env.nNow);
    var st2 := Replayed(st1, order, env.nNow);
    ReplayCounts(st1, order, env.nNow, tx.hash, CONTESTED);
    forall v | v in st2.orphans ensures v in st2.seen {
      ReplayOrphans(st1, order, env.nNow, v);
    }
    forall h, o, m | m in Votes(st2, h, o) ensures Vote(h, o, m) in st2.seen {
      ReplayCounts(st1, order, env.nNow, h, o);
      assert m in Votes(st, h, o) || m in VotersIn(VoteSet(order), h, o);
    }
    forall v | v in st2.seen && VoteValid(p, v) ensures TalliedVote(st2, v) {
      ReplayTalliesOne(p, st, tx, order, env, v);
    }
  }

  lemma ReplayTalliesOne(p: Params, st: State, tx: Tx, order: seq<Vote>, env: Env, v: Vote)
    requires WellFiled(st) && TalliedVote(st, v)
    requires LegalEvent(st, Request(tx, true, order, env)) && Timely(st, Request(tx, true, order, env))
    ensures TalliedVote(Replayed(CandidateCreated(st, tx, env.nNow).0, order, env.nNow), v)
  {
    hide Replayed, Votes;
    var st1 := CandidateCreated(st, tx, env.nNow).0;
    CreateChangesOne(st, tx, env.nNow);
    CreateSameVotes(st, tx, env.nNow);
    CreateOpens(st, tx, env.nNow, v.txHash, v.outpoint);
    ReplayCounts(st1, order, env.nNow, v.txHash, v.outpoint);
    ReplayOrphans(st1, order, env.nNow, v);
    if v.txHash == tx.hash && st.candidates[tx.hash].request.None? {
      assert v in VoteSet(order);
      assert v.masternode in VotersIn(VoteSet(order), v.txHash, v.outpoint);
    }
  }

  /** A vote for a candidate that has timed out, or the first request for it, changes no votes and locks nothing. */
  lemma TooLate(p: Params, st: State, ev: Event, h: Hash, o: OutPoint)
    requires WellFiled(st) && !Timely(st, ev) && (ev.Request? ==> st.candidates[ev.tx.hash].request.None?)
    ensures Votes(Step(p, st, ev), h, o) == Votes(st, h, o) && Step(p, st, ev).locked == st.locked
  {
    hide Counted, Finalized;
    if ev.Request? && ev.valid {
      CreateSameVotes(st, ev.tx, ev.env.nNow);
    }
  }

  ghost predicate TimelyRun(p: Params, st: State, evs: seq<Event>)
    decreases |evs|
  {
    evs == [] || (Timely(st, evs[0]) && TimelyRun(p, Step(p, st, evs[0]), evs[1..]))
  }

  /** The votes that arrive in a run. */
  ghost function VotesOf(evs: seq<Event>): set<Vote> {
    if evs == [] then {} else (if evs[0].VoteMessage? then {evs[0].vote} else {}) + VotesOf(evs[1..])
  }

  lemma StepTallies(p: Params, st: State, ev: Event)
    requires Inv(p, st) && MajorityQuorum(p) && Tallied(p, st) && LegalEvent(st, ev) && Timely(st, ev)
    ensures Tallied(p, Step(p, st, ev)) && Step(p, st, ev).seen == st.seen + VotesOf([ev])
  {
    hide Inv, Tallied, Requested, VoteReceived;
    assert [ev][1..] == [] && VotesOf([]) == {};
    match ev
    case VoteMessage(vote, env) => VoteTallies(p, st, vote, env);
    case Request(tx, valid, order, env) =>
      if valid {
        RequestTallies(p, st, tx, order, env);
      } else {
        InvalidRequest(p, st, tx, order, env);
      }
  }

  lemma {:induction false} RunTallies(p: Params, st: State, evs: seq<Event>)
    requires Inv(p, st) && MajorityQuorum(p) && Tallied(p, st) && LegalRun(p, st, evs) && TimelyRun(p, st, evs)
    ensures Tallied(p, After(p, st, evs)) && After(p, st, evs).seen == st.seen + VotesOf(evs)
    decreases |evs|
  {
    hide Inv, Tallied, Step;
    if evs != [] {
      StepKeeps(p, st, evs[0]);
      StepTallies(p, st, evs[0]);
      RunTallies(p, Step(p, st, evs[0]), evs[1..]);
      assert VotesOf([evs[0]]) + VotesOf(evs[1..]) == VotesOf(evs) by { assert [evs[0]][1..] == []; }
    }
  }

  /**
   In every run in which nothing comes too late the voters of a candidate on one of its inputs are the eligible
   masternodes whose votes have arrived, before the request or after it.
  */
  lemma VotersAreVotes(p: Params, evs: seq<Event>, h: Hash, o: OutPoint)
    requires MajorityQuorum(p) && LegalRun(p, INIT, evs) && TimelyRun(p, INIT, evs)
    requires Asked(After(p, INIT, evs), h, o)
    ensures Votes(After(p, INIT, evs), h, o) == VotersIn(VotesOf(evs), h, o) * p.eligible(o)
  {
    hide LegalRun, TimelyRun, After, MajorityQuorum, VotesOf;
    InitInv(p);
    RunKeeps(p, INIT, evs);
    RunTallies(p, INIT, evs);
    var st := After(p, INIT, evs);
    assert st.seen == VotesOf(evs);
    assert Votes(st, h, o) <= p.eligible(o) by { EligibleVotes(p, st, h, o); }
    forall m | m in Votes(st, h, o) ensures m in VotersIn(VotesOf(evs), h, o) {
      assert Vote(h, o, m) in st.seen;
    }
    forall m | m in VotersIn(VotesOf(evs), h, o) && m in p.eligible(o) ensures m in Votes(st, h, o) {
      assert TalliedVote(st, Vote(h, o, m));
    }
  }

  lemma EligibleVotes(p: Params, st: State, h: Hash, o: OutPoint)
    requires Inv(p, st)
    ensures Votes(st, h, o) <= p.eligible(o)
  {
  }

  /** So two nodes that receive the same votes in time count the same voters, in whatever order all messages came. */
  lemma OrderOfVotes(p: Params, a: seq<Event>, b: seq<Event>, h: Hash, o: OutPoint)
    requires MajorityQuorum(p) && VotesOf(a) == VotesOf(b)
    requires LegalRun(p, INIT, a) && TimelyRun(p, INIT, a) && LegalRun(p, INIT, b) && TimelyRun(p, INIT, b)
    requires Asked(After(p, INIT, a), h, o) && Asked(After(p, INIT, b), h, o)
    ensures Votes(After(p, INIT, a), h, o) == Votes(After(p, INIT, b), h, o)
  {
    hide LegalRun, TimelyRun, After, Votes;
    VotersAreVotes(p, a, h, o);
    VotersAreVotes(p, b, h, o);
  }

  /** The event makes the node try to complete the lock of h: an accepted request, or a vote that adds a voter. */
  predicate Attempts(p: Params, st: State, ev: Event, h: Hash) {
    match ev
    case Request(tx, valid, _, env) => h == tx.hash && valid && CandidateCreated(st, tx, env.nNow).1
    case VoteMessage(vote, env) =>
      && h == vote.txHash && vote !in st.seen && VoteValid(p, vote)
      && OpenFor(st, h, vote.outpoint, env.nNow) && CanAdd(st.candidates[h], vote)
  }

  /** Nothing in mempool or chain stands in the way of the inputs of h. */
  predicate Unhindered(st: State, h: Hash, env: Env)
    requires h in st.candidates && st.candidates[h].request.Some?
  {
    && (forall o | o in st.candidates[h].request.value.inputs :: !env.mempoolConflict(o))
    && (env.inBlock || env.utxosPresent)
  }

  /** A lock completes with the event that makes its candidate ready. */
  lemma StepCompletes(p: Params, st: State, ev: Event, h: Hash)
    requires Inv(p, st) && MajorityQuorum(p) && LegalEvent(st, ev) && Attempts(p, st, ev, h)
    ensures var st' := Step(p, st, ev);
      && h in st'.candidates && st'.candidates[h].request.Some?
      && (Ready(p, st', h) && Unhindered(st', h, ev.env) ==>
            forall o | o in st'.candidates[h].request.value.inputs :: o in st'.locked && st'.locked[o] == h)
  {
    hide Inv, Finalized, Replayed, CandidateCreated, Counted;
    match ev
    case VoteMessage(vote, env) =>
      var st1 := st.(seen := st.seen + {vote});
      SeenApart(p, st, st1.seen);
      CountedKeeps(p, st1, vote);
      CountedVotes(st1, vote, h, vote.outpoint);
      Completes(p, Counted(st1, vote), h, env);
    case Request(tx, valid, order, env) =>
      OrphansValid(p, st);
      CreateKeeps(p, st, tx, env.nNow);
      var st1 := CandidateCreated(st, tx, env.nNow).0;
      ReplayKeeps(p, st1, order, env.nNow);
      ReplayKeepsCandidate(st, tx, order, env.nNow);
      Completes(p, Replayed(st1, order, env.nNow), h, env);
  }

  lemma Completes(p: Params, st: State, h: Hash, env: Env)
    requires Inv(p, st) && MajorityQuorum(p) && h in st.candidates && st.candidates[h].request.Some?
    ensures var st' := Finalized(p, st, h, env);
      && h in st'.candidates && st'.candidates[h].request.Some?
      && (Ready(p, st', h) && Unhindered(st', h, env) ==>
            forall o | o in st'.candidates[h].request.value.inputs :: o in st'.locked && st'.locked[o] == h)
  {
    hide Inv, Finalized;
    FinalizeOnlyLocks(p, st, h, env);
    if Ready(p, st, h) && Unhindered(st, h, env) {
      FinalizeLocksAllInputs(p, st, h, env);
    }
  }

  /** What a clean-up leaves: the candidates that are not expired, and the locks no expired one has a claim to. */
  lemma CleanUpEffect(p: Params, st: State, env: Env, h: Hash, o: OutPoint, v: Vote)
    ensures var st' := CleanedUp(p, st, env);
      && (h in st'.candidates <==>
            h in st.candidates && !(env.synced && st.candidates[h].IsExpired(env.nCachedBlockHeight, p.keepLock)))
      && (h in st'.candidates ==> st'.candidates[h] == st.candidates[h])
      && (o in st'.locked <==> o in st.locked && forall g | g in st.candidates && g !in st'.candidates ::
            o !in st.candidates[g].locks)
      && (o in st'.locked ==> st'.locked[o] == st.locked[o])
      && (v in st'.orphans <==> v in st.orphans && !(env.synced && v in env.timedOut))
      && (v in st.seen && v !in st'.seen ==> env.synced && (v in env.failed || (v in st.orphans && v in env.timedOut)))
  {
    if o in st.locked && o !in CleanedUp(p, st, env).locked {
      assert o in OutPointsOf(st, Expired(p, st, env));
    }
  }

  // ---------------------------------------------------------------- the class

  class Manager {
    const p: Params
    var mapTxLockVotes: set<Vote>
    var mapTxLockVotesOrphan: set<Vote>
    var mapTxLockCandidates: map<Hash, Candidate>
    var mapVotedOutpoints: map<OutPoint, set<Hash>>
    var mapLockedOutpoints: map<OutPoint, Hash>

    function Now(): State
      reads this
    {
      State(mapTxLockCandidates, mapVotedOutpoints, mapLockedOutpoints, mapTxLockVotesOrphan, mapTxLockVotes)
    }

    /** The invariant, for parameters that make it one. */
    ghost predicate Valid()
      reads this
    {
      MajorityQuorum(p) ==> Inv(p, Now())
    }

    constructor (p: Params)
      ensures Valid() && this.p == p && Now() == INIT
    {
      this.p := p;
      mapTxLockVotes, mapTxLockVotesOrphan := {}, {};
      mapTxLockCandidates, mapVotedOutpoints, mapLockedOutpoints := map[], map[], map[];
      new;
      InitInv(p);
    }

    /** CInstantSend::UpdateVotedOutpoints: the loop meets the indexed hashes in any order. */
    method UpdateVotedOutpoints(vote: Vote)
      requires vote.txHash in mapTxLockCandidates
      modifies this`mapTxLockCandidates, this`mapVotedOutpoints
      ensures Now() == VotedUpdated(old(Now()), vote)
    {
      ghost var st := Now();
      if vote.outpoint in mapVotedOutpoints {
        var rest := mapVotedOutpoints[vote.outpoint];
        ghost var done: set<Hash> := {};
        assert Marked(st.candidates, {}, vote) == st.candidates;
        while rest != {}
          invariant mapVotedOutpoints == st.voted && done + rest == st.voted[vote.outpoint]
          invariant mapTxLockCandidates == Marked(st.candidates, Conflicting(st, vote) * done, vote)
        {
          var hash :| hash in rest;
          if hash != vote.txHash {
            if hash in mapTxLockCandidates
              && mapTxLockCandidates[hash].HasMasternodeVoted(vote.outpoint, vote.masternode) {
              var own := mapTxLockCandidates[vote.txHash].MarkOutpointAsAttacked(vote.outpoint);
              mapTxLockCandidates := mapTxLockCandidates[vote.txHash := own];
              var other := mapTxLockCandidates[hash].MarkOutpointAsAttacked(vote.outpoint);
              mapTxLockCandidates := mapTxLockCandidates[hash := other];
            }
          }
          MarkOneMore(st, vote, done, hash);
          done, rest := done + {hash}, rest - {hash};
        }
        assert Conflicting(st, vote) * done == Conflicting(st, vote);
        mapVotedOutpoints := mapVotedOutpoints[vote.outpoint := mapVotedOutpoints[vote.outpoint] + {vote.txHash}];
      } else {
        assert Marked(st.candidates, {}, vote) == st.candidates;
        assert {} + {vote.txHash} == {vote.txHash};
        mapVotedOutpoints := mapVotedOutpoints[vote.outpoint := {vote.txHash}];
      }
    }

    /** What ProcessNewTxLockVote and ProcessOrphanTxLockVote share: index, mark, add. */
    method CountVote(vote: Vote) returns (added: bool)
      requires vote.txHash in mapTxLockCandidates
      modifies this`mapTxLockCandidates, this`mapVotedOutpoints
      ensures Now() == Counted(old(Now()), vote)
      ensures added == CanAdd(old(mapTxLockCandidates)[vote.txHash], vote)
    {
      hide Conflicting;
      UpdateVotedOutpoints(vote);
      added := CanAdd(mapTxLockCandidates[vote.txHash], vote);
      mapTxLockCandidates := mapTxLockCandidates[vote.txHash := AddVote(mapTxLockCandidates[vote.txHash], vote)];
    }

    /** CInstantSend::CreateTxLockCandidate */
    method CreateTxLockCandidate(tx: Tx, valid: bool, nNow: int) returns (ok: bool)
      modifies this`mapTxLockCandidates
      ensures valid ==> (Now(), ok) == CandidateCreated(old(Now()), tx, nNow)
      ensures !valid ==> !ok && Now() == old(Now())
    {
      if !valid {
        return false;
      }
      if tx.hash !in mapTxLockCandidates {
        var locks := AddOutPointLocks(map[], tx.inputs);
        assert locks == FreshLocks(tx.inputs);
        mapTxLockCandidates := mapTxLockCandidates[tx.hash := Candidate(Some(tx), locks, nNow, -1)];
      } else if mapTxLockCandidates[tx.hash].request.None? {
        var c := mapTxLockCandidates[tx.hash].(request := Some(tx));
        mapTxLockCandidates := mapTxLockCandidates[tx.hash := c];
        if c.IsTimedOut(nNow) {
          return false;
        }
        var locks := AddOutPointLocks(c.locks, tx.inputs);
        mapTxLockCandidates := mapTxLockCandidates[tx.hash := c.(locks := locks)];
        assert mapTxLockCandidates == old(mapTxLockCandidates)[tx.hash := c.(locks := locks)];
      }
      return true;
    }

    /** The loop over the inputs; inserting into the map leaves an existing lock alone. */
    method AddOutPointLocks(before: map<OutPoint, OutPointLock>, inputs: seq<OutPoint>) 
      returns (locks: map<OutPoint, OutPointLock>)
      ensures locks == FreshLocks(inputs) + before
    {
      locks := before;
      for i := 0 to |inputs|
        invariant locks == FreshLocks(inputs[..i]) + before
      {
        assert inputs[..i + 1] == inputs[..i] + [inputs[i]];
        if inputs[i] !in locks {
          locks := locks[inputs[i] := OutPointLock(map[], false)];
        }
      }
      assert inputs[..|inputs|] == inputs;
    }

    /** CInstantSend::TryToFinalizeLockCandidate */
    method TryToFinalizeLockCandidate(h: Hash, env: Env)
      requires h in mapTxLockCandidates && mapTxLockCandidates[h].request.Some?
      modifies this
      ensures Now() == Finalized(p, old(Now()), h, env)
    {
      hide CleanedUp, Condemned, FirstObstacle;
      var c := mapTxLockCandidates[h];
      if c.IsAllOutPointsReady(p.required) && !IsLocked(Now(), h, env) {
        var ok := ResolveConflicts(h, env);
        if ok {
          LockTransactionInputs(c, h);
        }
      }
    }

    /**
     CInstantSend::ResolveConflicts, for a candidate that is ready. A completed lock of another transaction on
     one of the inputs costs both their candidates.
    */
    method ResolveConflicts(h: Hash, env: Env) returns (ok: bool)
      requires h in mapTxLockCandidates && mapTxLockCandidates[h].request.Some?
      modifies this
      ensures var tx := old(mapTxLockCandidates)[h].request.value;
        var found := FirstObstacle(old(Now()), tx.hash, tx.inputs, env);
        && (ok <==> found == Clear && (env.inBlock || env.utxosPresent))
        && Now() == if found.LockedBy? && found.h in old(mapTxLockCandidates)
                    then CleanedUp(p, Condemned(Condemned(old(Now()), h), found.h), env) else old(Now())
    {
      hide CleanedUp;
      var tx := mapTxLockCandidates[h].request.value;
      ghost var st := Now();
      for i := 0 to |tx.inputs|
        invariant Now() == st
        invariant FirstObstacle(st, tx.hash, tx.inputs[i..], env) == FirstObstacle(st, tx.hash, tx.inputs, env)
      {
        var o := tx.inputs[i];
        assert tx.inputs[i..][0] == o && tx.inputs[i..][1..] == tx.inputs[i + 1..];
        if o in mapLockedOutpoints && mapLockedOutpoints[o] != tx.hash {
          var hashConflicting := mapLockedOutpoints[o];
          if hashConflicting !in mapTxLockCandidates {
            return false;
          }
          mapTxLockCandidates := mapTxLockCandidates[h := mapTxLockCandidates[h].(nConfirmedHeight := 0)];
          mapTxLockCandidates :=
            mapTxLockCandidates[hashConflicting := mapTxLockCandidates[hashConflicting].(nConfirmedHeight := 0)];
          CheckAndRemove(env);
          return false;
        } else if env.mempoolConflict(o) {
          return false;
        }
      }
      return env.inBlock || env.utxosPresent;
    }

    /** CInstantSend::CheckAndRemove, at a time when no vote has a confirmed height. */
    method CheckAndRemove(env: Env)
      modifies this
      ensures Now() == CleanedUp(p, old(Now()), env)
    {
      if !env.synced {
        return;
      }
      ghost var st := Now();
      var rest := mapTxLockCandidates.Keys;
      ghost var gone: set<Hash> := {};
      WithoutNothing(st);
      while rest != {}
        invariant rest <= st.candidates.Keys && gone == Expired(p, st, env) - rest
        invariant Now() == Without(st, gone)
        decreases rest
      {
        var h :| h in rest;
        var c := mapTxLockCandidates[h];
        if c.IsExpired(env.nCachedBlockHeight, p.keepLock) {
          WithoutOneMore(st, gone, h);
          mapLockedOutpoints := mapLockedOutpoints - c.locks.Keys;
          mapVotedOutpoints := mapVotedOutpoints - c.locks.Keys;
          mapTxLockCandidates := mapTxLockCandidates - {h};
          gone := gone + {h};
        }
        rest := rest - {h};
      }
      assert gone == Expired(p, st, env);
      mapTxLockVotes := mapTxLockVotes - mapTxLockVotesOrphan * env.timedOut;
      mapTxLockVotesOrphan := mapTxLockVotesOrphan - env.timedOut;
      mapTxLockVotes := mapTxLockVotes - env.failed;
    }

    /** CInstantSend::LockTransactionInputs: an outpoint that is locked already keeps its lock. */
    method LockTransactionInputs(c: Candidate, h: Hash)
      modifies this`mapLockedOutpoints
      ensures mapLockedOutpoints == (map o | o in c.locks :: h) + old(mapLockedOutpoints)
    {
      var rest := c.locks.Keys;
      while rest != {}
        invariant rest <= c.locks.Keys
        invariant mapLockedOutpoints == (map o | o in c.locks && o !in rest :: h) + old(mapLockedOutpoints)
      {
        var o :| o in rest;
        if o !in mapLockedOutpoints {
          mapLockedOutpoints := mapLockedOutpoints[o := h];
        }
        rest := rest - {o};
      }
    }

    /** CInstantSend::ProcessMessage with ProcessNewTxLockVote. */
    method ProcessVote(vote: Vote, env: Env)
      requires Valid()
      modifies this
      ensures Valid() && Now() == VoteReceived(p, old(Now()), vote, env)
    {
      hide Inv, MajorityQuorum, Counted, Finalized;
      if MajorityQuorum(p) {
        VoteKeeps(p, Now(), vote, env);
      }
      if vote in mapTxLockVotes {
        return;
      }
      mapTxLockVotes := mapTxLockVotes + {vote};
      if !VoteValid(p, vote) {
        return;
      }
      if vote.txHash !in mapTxLockCandidates || mapTxLockCandidates[vote.txHash].request.None? {
        if vote.txHash !in mapTxLockCandidates {
          mapTxLockCandidates := mapTxLockCandidates[vote.txHash := Candidate(None, map[], env.nNow, -1)];
        }
        mapTxLockVotesOrphan := mapTxLockVotesOrphan + {vote};
        return;
      }
      if mapTxLockCandidates[vote.txHash].IsTimedOut(env.nNow) {
        return;
      }
      CountedVotes(Now(), vote, vote.txHash, vote.outpoint);
      var added := CountVote(vote);
      if !added {
        return;
      }
      TryToFinalizeLockCandidate(vote.txHash, env);
    }

    /** CInstantSend::ProcessOrphanTxLockVotes, in the order in which the map lists the votes. */
    method ProcessOrphanTxLockVotes(order: seq<Vote>, nNow: int)
      modifies this`mapTxLockCandidates, this`mapVotedOutpoints, this`mapTxLockVotesOrphan
      ensures Now() == Replayed(old(Now()), order, nNow)
    {
      hide Counted;
      for i := 0 to |order|
        invariant Replayed(Now(), order[i..], nNow) == Replayed(old(Now()), order, nNow)
        invariant mapLockedOutpoints == old(mapLockedOutpoints) && mapTxLockVotes == old(mapTxLockVotes)
      {
        var vote := order[i];
        assert order[i..][0] == vote && order[i..][1..] == order[i + 1..];
        if Replayable(Now(), vote, nNow) {
          CountedRest(Now(), vote);
          var consumed := CountVote(vote);
          if consumed {
            mapTxLockVotesOrphan := mapTxLockVotesOrphan - {vote};
          }
        }
      }
    }

    /** CInstantSend::ProcessTxLockRequest */
    method ProcessTxLockRequest(tx: Tx, valid: bool, order: seq<Vote>, env: Env) returns (ok: bool)
      requires Valid() && LegalEvent(Now(), Request(tx, valid, order, env))
      modifies this
      ensures Valid() && Now() == Requested(p, old(Now()), tx, valid, order, env)
      ensures ok <==> valid && CandidateCreated(old(Now()), tx, env.nNow).1
    {
      hide Inv, MajorityQuorum, Finalized, Replayed, CandidateCreated;
      ghost var st := Now();
      if MajorityQuorum(p) {
        StepKeeps(p, st, Request(tx, valid, order, env));
      }
      ok := CreateTxLockCandidate(tx, valid, env.nNow);
      if !ok {
        return;
      }
      ReplayKeepsCandidate(st, tx, order, env.nNow);
      ProcessOrphanTxLockVotes(order, env.nNow);
      TryToFinalizeLockCandidate(tx.hash, env);
    }
  }

  lemma WithoutNothing(st: State)
    ensures Without(st, {}) == st
  {
    assert st.candidates - {} == st.candidates && OutPointsOf(st, {}) == {};
    assert st.locked - {} == st.locked && st.voted - {} == st.voted;
  }

  lemma WithoutOneMore(st: State, gone: set<Hash>, h: Hash)
    requires h in st.candidates && h !in gone
    ensures var (w, outs) := (Without(st, gone), st.candidates[h].locks.Keys);
      Without(st, gone + {h}) == w.(candidates := w.candidates - {h}, locked := w.locked - outs,
        voted := w.voted - outs)
  {
    var outs := st.candidates[h].locks.Keys;
    assert OutPointsOf(st, gone + {h}) == OutPointsOf(st, gone) + outs;
    assert st.candidates - (gone + {h}) == st.candidates - gone - {h};
    assert st.locked - (OutPointsOf(st, gone) + outs) == st.locked - OutPointsOf(st, gone) - outs;
    assert st.voted - (OutPointsOf(st, gone) + outs) == st.voted - OutPointsOf(st, gone) - outs;
  }

  lemma CountedRest(st: State, vote: Vote)
    requires vote.txHash in st.candidates
    ensures var st' := Counted(st, vote);
      st'.orphans == st.orphans && st'.locked == st.locked && st'.seen == st.seen
  {
  }

  lemma {:induction false} ReplayKeepsRequest(st: State, h: Hash, votes: seq<Vote>, nNow: int)
    requires h in st.candidates && st.candidates[h].request.Some?
    ensures h in Replayed(st, votes, nNow).candidates && Replayed(st, votes, nNow).candidates[h].request.Some?
    decreases |votes|
  {
    if votes != [] {
      var vote := votes[0];
      if Replayable(st, vote, nNow) {
        CountedVotes(st, vote, h, vote.outpoint);
        hide Counted;
        ReplayKeepsRequest(
          Counted(st, vote).(
            orphans := if CanAdd(st.candidates[vote.txHash], vote) then st.orphans - {vote} else st.orphans),
          h, votes[1..], nNow);
      } else {
        ReplayKeepsRequest(st, h, votes[1..], nNow);
      }
    }
  }

  lemma ReplayKeepsCandidate(st: State, tx: Tx, votes: seq<Vote>, nNow: int)
    requires CandidateCreated(st, tx, nNow).1
    ensures var st' := Replayed(CandidateCreated(st, tx, nNow).0, votes, nNow);
      tx.hash in st'.candidates && st'.candidates[tx.hash].request.Some?
  {
    ReplayKeepsRequest(CandidateCreated(st, tx, nNow).0, tx.hash, votes, nNow);
  }

  lemma MarkTwice(c: Candidate, o: OutPoint)
    ensures c.MarkOutpointAsAttacked(o).MarkOutpointAsAttacked(o) == c.MarkOutpointAsAttacked(o)
  {
    if o in c.locks {
      var l := c.locks[o].(fAttacked := true);
      assert c.locks[o := l][o := l] == c.locks[o := l];
    }
  }

  lemma MarkOneMore(st: State, vote: Vote, done: set<Hash>, hash: Hash)
    requires vote.txHash in st.candidates && vote.outpoint in st.voted && hash in st.voted[vote.outpoint]
    ensures var before := Marked(st.candidates, Conflicting(st, vote) * done, vote);
      var after := Marked(st.candidates, Conflicting(st, vote) * (done + {hash}), vote);
      && vote.txHash in before
      && after == if hash != vote.txHash && hash in before
           && before[hash].HasMasternodeVoted(vote.outpoint, vote.masternode) then
           var marked := before[vote.txHash := before[vote.txHash].MarkOutpointAsAttacked(vote.outpoint)];
           marked[hash := marked[hash].MarkOutpointAsAttacked(vote.outpoint)]
         else before
  {
    var bad := Conflicting(st, vote);
    if hash in bad {
      assert bad * (done + {hash}) == bad * done + {hash};
      MarkTwice(st.candidates[vote.txHash], vote.outpoint);
      MarkTwice(st.candidates[hash], vote.outpoint);
    } else {
      assert bad * (done + {hash}) == bad * done;
    }
  }
}
