/**
 Votes on a governance object: CGovernanceObject::ProcessVote and CountMatchingVotes of
 src/governance-object.cpp and the vote file of src/governance-votedb.cpp. A vote's hash stands for its fields.
*/
module Governance {

  type OutPoint = nat

  const MAX_SUPPORTED_VOTE_SIGNAL := 4
  const GOVERNANCE_UPDATE_MIN := 60 * 60

  /** Outcomes: 0 none, 1 yes, 2 no, 3 abstain. */
  datatype Vote = Vote(mn: OutPoint, parent: nat, signal: int, outcome: nat, time: int)

  /** vote_instance_t: the outcome in force, when it was last changed, and the time stamp of its vote. */
  datatype Instance = Instance(outcome: nat, time: int, creationTime: int)

  const NO_VOTE := Instance(0, 0, 0)

  /** mapCurrentMNVotes. */
  type Records = map<OutPoint, map<int, Instance>>

  /** What the node knows besides the votes: the masternode list and the validity of votes. */
  datatype World = World(known: OutPoint -> bool, valid: Vote -> bool)

  datatype Verdict = AlreadyKnown | Orphan | NoSignal | Unsupported | Obsolete | TooOften | Invalid | Accepted

  // ---------------------------------------------------------------- processing a vote

  predicate Supported(signal: int) {
    signal != 0 && signal <= MAX_SUPPORTED_VOTE_SIGNAL
  }

  function Current(r: Records, mn: OutPoint, signal: int): Instance {
    if mn in r && signal in r[mn] then r[mn][signal] else NO_VOTE
  }

  /** A later time stamp wins; for equal ones, the larger outcome. */
  predicate AtLeast(t1: int, o1: nat, t2: int, o2: nat) {
    t1 > t2 || (t1 == t2 && o1 >= o2)
  }

  function Judge(r: Records, filed: bool, v: Vote, world: World, rateChecks: bool, now: int): Verdict {
    var cur := Current(r, v.mn, v.signal);
    if filed then AlreadyKnown
    else if !world.known(v.mn) then Orphan
    else if v.signal == 0 then NoSignal
    else if v.signal > MAX_SUPPORTED_VOTE_SIGNAL then Unsupported
    else if !AtLeast(v.time, v.outcome, cur.creationTime, cur.outcome) then Obsolete
    else if rateChecks && now - cur.time < GOVERNANCE_UPDATE_MIN then TooOften
    else if !world.valid(v) then Invalid
    else Accepted
  }

  /** The records afterwards; entries are made before the vote is judged. */
  function Recorded(r: Records, v: Vote, verdict: Verdict, rateChecks: bool, now: int): Records {
    if verdict == AlreadyKnown || verdict == Orphan then r
    else
      var cur := Current(r, v.mn, v.signal);
      var rec := if v.mn in r then r[v.mn] else map[];
      if verdict == NoSignal || verdict == Unsupported then r[v.mn := rec]
      else if verdict != Accepted then r[v.mn := rec[v.signal := cur]]
      else r[v.mn := rec[v.signal := Instance(v.outcome, if rateChecks then now else cur.time, v.time)]]
  }

  /** Which votes are accepted, and which of the others a later attempt may still save. */
  lemma VerdictMeans(world: World, r: Records, v: Vote, filed: bool, rateChecks: bool, now: int)
    ensures var (verdict, cur) := (Judge(r, filed, v, world, rateChecks, now), Current(r, v.mn, v.signal));
      var news := !filed && AtLeast(v.time, v.outcome, cur.creationTime, cur.outcome);
      var soon := rateChecks && now < cur.time + 60 * 60;
      && (verdict == Accepted <==> Eligible(world, v) && news && !soon)
      && (verdict == TooOften <==> world.known(v.mn) && Supported(v.signal) && news && soon)
      && (verdict == Invalid <==> world.known(v.mn) && Supported(v.signal) && !world.valid(v) && news && !soon)
      && (verdict == Orphan <==> !filed && !world.known(v.mn))
      && (filed <==> verdict == AlreadyKnown)
  {
  }

  // ---------------------------------------------------------------- the meaning of the records

  /** The vote counts for its masternode and signal. */
  predicate Eligible(world: World, v: Vote) {
    world.known(v.mn) && Supported(v.signal) && world.valid(v)
  }

  predicate For(v: Vote, mn: OutPoint, signal: int) {
    v.mn == mn && v.signal == signal
  }

  /** (t, o) is the greatest of the eligible votes for the pair, or the initial (0, none) if none is greater. */
  ghost predicate IsBest(world: World, votes: set<Vote>, mn: OutPoint, signal: int, t: int, o: nat) {
    && ((t, o) == (0, 0) || exists v | v in votes ::
          Eligible(world, v) && For(v, mn, signal) && (v.time, v.outcome) == (t, o))
    && AtLeast(t, o, 0, 0)
    && forall v | v in votes && Eligible(world, v) && For(v, mn, signal) :: AtLeast(t, o, v.time, v.outcome)
  }

  ghost predicate Mentions(world: World, votes: set<Vote>, mn: OutPoint) {
    world.known(mn) && exists v | v in votes :: v.mn == mn
  }

  ghost predicate MentionsPair(world: World, votes: set<Vote>, mn: OutPoint, signal: int) {
    world.known(mn) && Supported(signal) && exists v | v in votes :: For(v, mn, signal)
  }

  /**
   The records, told from two sets of votes: entries for all that were seen, and in each entry the greatest of
   those that were heard.
  */
  ghost predicate Tells(world: World, r: Records, seen: set<Vote>, heard: set<Vote>) {
    && (forall mn :: mn in r <==> Mentions(world, seen, mn))
    && (forall mn, signal | mn in r :: signal in r[mn] <==> MentionsPair(world, seen, mn, signal))
    && (forall mn, signal | mn in r && signal in r[mn] ::
          IsBest(world, heard, mn, signal, r[mn][signal].creationTime, r[mn][signal].outcome))
  }

  /** The records, up to the times of arrival, told from the set of votes alone. */
  ghost predicate Describes(world: World, r: Records, votes: set<Vote>) {
    Tells(world, r, votes, votes)
  }

  ghost predicate Untimed(r: Records) {
    forall mn, signal | mn in r && signal in r[mn] :: r[mn][signal].time == 0
  }

  lemma BestUnique(world: World, votes: set<Vote>, mn: OutPoint, signal: int, t1: int, o1: nat, t2: int, o2: nat)
    requires IsBest(world, votes, mn, signal, t1, o1) && IsBest(world, votes, mn, signal, t2, o2)
    ensures t1 == t2 && o1 == o2
  {
  }

  /** Two nodes that describe the same votes have the same entries, with the same time stamps and outcomes. */
  lemma SameVotesAgree(world: World, r1: Records, r2: Records, votes: set<Vote>, mn: OutPoint, signal: int)
    requires Describes(world, r1, votes) && Describes(world, r2, votes)
    ensures mn in r1 <==> mn in r2
    ensures mn in r1 ==> (signal in r1[mn] <==> signal in r2[mn])
    ensures mn in r1 && signal in r1[mn] ==>
      (r1[mn][signal].creationTime, r1[mn][signal].outcome) == (r2[mn][signal].creationTime, r2[mn][signal].outcome)
  {
    hide IsBest, Mentions, MentionsPair;
    if mn in r1 && signal in r1[mn] {
      var (a, b) := (r1[mn][signal], r2[mn][signal]);
      BestUnique(world, votes, mn, signal, a.creationTime, a.outcome, b.creationTime, b.outcome);
    }
  }

  /** Without times of arrival the records are the same altogether. */
  lemma SameVotesSameRecords(world: World, r1: Records, r2: Records, votes: set<Vote>)
    requires Describes(world, r1, votes) && Describes(world, r2, votes) && Untimed(r1) && Untimed(r2)
    ensures r1 == r2
  {
    hide Describes;
    forall mn, signal
      ensures mn in r1 <==> mn in r2
      ensures mn in r1 ==> (signal in r1[mn] <==> signal in r2[mn])
      ensures mn in r1 && signal in r1[mn] ==> r1[mn][signal] == r2[mn][signal]
    {
      SameVotesAgree(world, r1, r2, votes, mn, signal);
    }
    forall mn | mn in r1 ensures r1[mn] == r2[mn] {
    }
  }

  /** What a pair without an entry stands for is the initial record, so the judgement compares with the best so far. */
  lemma CurrentIsBest(world: World, r: Records, seen: set<Vote>, heard: set<Vote>, mn: OutPoint, signal: int)
    requires Tells(world, r, seen, heard) && heard <= seen && world.known(mn) && Supported(signal)
    ensures var c := Current(r, mn, signal); IsBest(world, heard, mn, signal, c.creationTime, c.outcome)
  {
    if !(mn in r && signal in r[mn]) {
      if MentionsPair(world, seen, mn, signal) {
        PairHasMasternode(world, seen, mn, signal);
      }
      assert forall v | v in seen :: !For(v, mn, signal);
    }
  }

  /** The best after one more vote. */
  lemma BestStep(world: World, votes: set<Vote>, v: Vote, mn: OutPoint, signal: int, t: int, o: nat)
    requires IsBest(world, votes, mn, signal, t, o)
    ensures !(Eligible(world, v) && For(v, mn, signal)) || !AtLeast(v.time, v.outcome, t, o) ==>
      IsBest(world, votes + {v}, mn, signal, t, o)
    ensures Eligible(world, v) && For(v, mn, signal) && AtLeast(v.time, v.outcome, t, o) ==>
      IsBest(world, votes + {v}, mn, signal, v.time, v.outcome)
  {
  }

  /** An eligible vote above the record that the rate check turns away. */
  predicate Suppressed(world: World, r: Records, filed: bool, v: Vote, rateChecks: bool, now: int) {
    var cur := Current(r, v.mn, v.signal);
    && rateChecks && !filed && Eligible(world, v) && now - cur.time < GOVERNANCE_UPDATE_MIN
    && !AtLeast(cur.creationTime, cur.outcome, v.time, v.outcome)
  }

  /** The votes heard after one more has arrived. */
  ghost function HeardAfter(world: World, r: Records, heard: set<Vote>, filed: bool, v: Vote, rateChecks: bool,
          now: int): set<Vote>
  {
    if Suppressed(world, r, filed, v, rateChecks, now) then heard else heard + {v}
  }

  /** Processing a vote adds it to those seen and, unless it is suppressed, to those heard. */
  lemma ProcessTells(world: World, r: Records, seen: set<Vote>, heard: set<Vote>, v: Vote, filed: bool,
          rateChecks: bool, now: int)
    requires Tells(world, r, seen, heard) && heard <= seen && (filed ==> v in heard)
    ensures Tells(world, Recorded(r, v, Judge(r, filed, v, world, rateChecks, now), rateChecks, now), seen + {v},
                  HeardAfter(world, r, heard, filed, v, rateChecks, now))
  {
    hide IsBest, Suppressed;
    var verdict := Judge(r, filed, v, world, rateChecks, now);
    var r': Records := Recorded(r, v, verdict, rateChecks, now);
    if filed {
      assert seen + {v} == seen && HeardAfter(world, r, heard, filed, v, rateChecks, now) == heard;
    } else {
      forall mn ensures mn in r' <==> Mentions(world, seen + {v}, mn) {
        MentionsMore(world, seen, v, mn);
      }
      forall mn, signal | mn in r' ensures signal in r'[mn] <==> MentionsPair(world, seen + {v}, mn, signal) {
        PairMore(world, seen, v, mn, signal);
        if MentionsPair(world, seen, mn, signal) {
          PairHasMasternode(world, seen, mn, signal);
        }
      }
      forall mn: OutPoint, signal: int | mn in r' && signal in r'[mn]
        ensures IsBest(world, HeardAfter(world, r, heard, filed, v, rateChecks, now), mn, signal,
                       r'[mn][signal].creationTime, r'[mn][signal].outcome)
      {
        EntryStep(world, r, seen, heard, v, rateChecks, now, mn, signal);
      }
    }
  }

  lemma EntryStep(world: World, r: Records, seen: set<Vote>, heard: set<Vote>, v: Vote, rateChecks: bool, now: int,
          mn: OutPoint, signal: int)
    requires Tells(world, r, seen, heard) && heard <= seen
    requires var r' := Recorded(r, v, Judge(r, false, v, world, rateChecks, now), rateChecks, now);
      mn in r' && signal in r'[mn]
    ensures var e := Recorded(r, v, Judge(r, false, v, world, rateChecks, now), rateChecks, now)[mn][signal];
      IsBest(world, HeardAfter(world, r, heard, false, v, rateChecks, now), mn, signal, e.creationTime, e.outcome)
  {
    hide IsBest;
    if For(v, mn, signal) && world.known(mn) && Supported(signal) {
      var c := Current(r, mn, signal);
      CurrentIsBest(world, r, seen, heard, mn, signal);
      BestStep(world, heard, v, mn, signal, c.creationTime, c.outcome);
    } else {
      BestStep(world, heard, v, mn, signal, r[mn][signal].creationTime, r[mn][signal].outcome);
    }
  }

  /** The records still describe all votes after one more exactly when it is not suppressed. */
  lemma RateRule(world: World, r: Records, votes: set<Vote>, v: Vote, filed: bool, rateChecks: bool, now: int)
    requires Describes(world, r, votes) && (filed ==> v in votes)
    ensures Describes(world, Recorded(r, v, Judge(r, filed, v, world, rateChecks, now), rateChecks, now), votes + {v})
       <==> !Suppressed(world, r, filed, v, rateChecks, now)
  {
    ProcessTells(world, r, votes, votes, v, filed, rateChecks, now);
    if Suppressed(world, r, filed, v, rateChecks, now) {
      var r' := Recorded(r, v, Judge(r, filed, v, world, rateChecks, now), rateChecks, now);
      assert v.mn in r' && v.signal in r'[v.mn] && r'[v.mn][v.signal] == Current(r, v.mn, v.signal);
      assert v in votes + {v} && For(v, v.mn, v.signal);
    }
  }

  lemma ProcessUntimed(world: World, r: Records, v: Vote, filed: bool, now: int)
    requires Untimed(r)
    ensures Untimed(Recorded(r, v, Judge(r, filed, v, world, false, now), false, now))
  {
  }

  lemma MentionsMore(world: World, votes: set<Vote>, v: Vote, mn: OutPoint)
    ensures Mentions(world, votes + {v}, mn) <==> Mentions(world, votes, mn) || (world.known(mn) && v.mn == mn)
  {
  }

  lemma PairMore(world: World, votes: set<Vote>, v: Vote, mn: OutPoint, signal: int)
    ensures MentionsPair(world, votes + {v}, mn, signal) <==>
      MentionsPair(world, votes, mn, signal) || (world.known(mn) && Supported(signal) && For(v, mn, signal))
  {
  }

  lemma PairHasMasternode(world: World, votes: set<Vote>, mn: OutPoint, signal: int)
    requires MentionsPair(world, votes, mn, signal)
    ensures Mentions(world, votes, mn)
  {
  }

  // ---------------------------------------------------------------- tallies

  ghost function Matching(r: Records, signal: int, outcome: nat): set<OutPoint> {
    set mn | mn in r && signal in r[mn] && r[mn][signal].outcome == outcome
  }

  /** A masternode is counted for an outcome exactly when the greatest of its eligible votes has that outcome. */
  lemma TallyFromVotes(world: World, r: Records, votes: set<Vote>, signal: int, outcome: nat, mn: OutPoint)
    requires Describes(world, r, votes) && world.known(mn) && Supported(signal) && outcome != 0
    ensures mn in Matching(r, signal, outcome) <==> exists t :: IsBest(world, votes, mn, signal, t, outcome)
  {
  }

  // ---------------------------------------------------------------- the vote file

  ghost predicate Distinct(votes: seq<Vote>) {
    forall i, j | 0 <= i < j < |votes| :: votes[i] != votes[j]
  }

  /** An older vote of the same masternode for the same object and signal. */
  predicate Older(w: Vote, v: Vote) {
    w.mn == v.mn && w.parent == v.parent && w.signal == v.signal && w.time < v.time
  }

  ghost function WithoutOlder(votes: seq<Vote>, v: Vote): seq<Vote> {
    if votes == [] then []
    else
      var (init, last) := (votes[..|votes| - 1], votes[|votes| - 1]);
      WithoutOlder(init, v) + if Older(last, v) then [] else [last]
  }

  lemma {:induction false} WithoutOlderHas(votes: seq<Vote>, v: Vote)
    ensures forall w :: w in WithoutOlder(votes, v) <==> w in votes && !Older(w, v)
  {
    if votes != [] {
      WithoutOlderHas(votes[..|votes| - 1], v);
      assert votes == votes[..|votes| - 1] + [votes[|votes| - 1]];
    }
  }

  lemma {:induction false} WithoutOlderDistinct(votes: seq<Vote>, v: Vote)
    requires Distinct(votes)
    ensures Distinct(WithoutOlder(votes, v))
  {
    if votes != [] {
      var (init, last) := (votes[..|votes| - 1], votes[|votes| - 1]);
      WithoutOlderDistinct(init, v);
      WithoutOlderHas(init, v);
      assert last !in init;
    }
  }

  ghost predicate Indexes(index: map<Vote, Vote>, votes: seq<Vote>) {
    (forall v :: v in index <==> v in votes) && (forall v | v in index :: index[v] == v)
  }

  lemma FilterStart(all: seq<Vote>, v: Vote)
    ensures WithoutOlder(all[..0], v) == [] && all == [] + all[0..] && all[..|all|] == all && all[|all|..] == []
  {
  }

  lemma FilterStep(all: seq<Vote>, done: nat, v: Vote, list: seq<Vote>)
    requires done <= |all| && list == WithoutOlder(all[..done], v) + all[done..]
    ensures var it := |WithoutOlder(all[..done], v)|;
      if done == |all| then it == |list| else
      && it < |list| && list[it] == all[done]
      && (Older(list[it], v) ==>
            && WithoutOlder(all[..done + 1], v) == WithoutOlder(all[..done], v)
            && list[..it] + list[it + 1..] == WithoutOlder(all[..done + 1], v) + all[done + 1..])
      && (!Older(list[it], v) ==>
            && |WithoutOlder(all[..done + 1], v)| == it + 1
            && list == WithoutOlder(all[..done + 1], v) + all[done + 1..])
  {
    if done < |all| {
      assert all[..done + 1][..done] == all[..done];
      assert all[done..] == [all[done]] + all[done + 1..];
    }
  }

  class VoteFile {
    var nMemoryVotes: int
    /** Newest first. */
    var listVotes: seq<Vote>
    /** From a vote's hash to its place in the list, here to the vote itself. */
    var mapVoteIndex: map<Vote, Vote>

    ghost predicate Valid()
      reads this
    {
      Distinct(listVotes) && nMemoryVotes == |listVotes| && Indexes(mapVoteIndex, listVotes)
    }

    constructor ()
      ensures Valid() && listVotes == []
    {
      nMemoryVotes, listVotes, mapVoteIndex := 0, [], map[];
    }

    predicate HasVote(hash: Vote)
      reads this
    {
      hash in mapVoteIndex
    }

    method AddVote(v: Vote)
      requires Valid()
      modifies this
      ensures Valid()
      ensures listVotes == if v in old(listVotes) then old(listVotes) else WithoutOlder([v] + old(listVotes), v)
    {
      if HasVote(v) {
        return;
      }
      listVotes := [v] + listVotes;
      mapVoteIndex := mapVoteIndex[v := v];
      nMemoryVotes := nMemoryVotes + 1;
      RemoveOldVotes(v);
    }

    method RemoveOldVotes(v: Vote)
      requires Valid()
      modifies this
      ensures Valid() && listVotes == WithoutOlder(old(listVotes), v)
    {
      hide WithoutOlder, Distinct, Indexes;
      ghost var all := listVotes;
      ghost var done: nat := 0;
      var it := 0;
      FilterStart(all, v);
      while it < |listVotes|
        invariant done <= |all| && it == |WithoutOlder(all[..done], v)|
        invariant listVotes == WithoutOlder(all[..done], v) + all[done..]
        invariant Valid()
        decreases |all| - done
      {
        FilterStep(all, done, v, listVotes);
        var w := listVotes[it];
        if Older(w, v) {
          nMemoryVotes := nMemoryVotes - 1;
          RemoveOne(listVotes, mapVoteIndex, it);
          mapVoteIndex := mapVoteIndex - {w};
          listVotes := listVotes[..it] + listVotes[it + 1..];
        } else {
          it := it + 1;
        }
        done := done + 1;
      }
      FilterStep(all, done, v, listVotes);
      assert all[..done] == all;
    }

    /** RebuildIndex, after copying or loading a list: repeated votes are dropped, the rest indexed and counted. */
    method RebuildIndex()
      modifies this
      ensures Valid() && forall v :: v in listVotes <==> v in old(listVotes)
    {
      ghost var all := listVotes;
      mapVoteIndex := map[];
      nMemoryVotes := 0;
      var it := 0;
      while it < |listVotes|
        invariant 0 <= it <= |listVotes| && nMemoryVotes == it
        invariant Distinct(listVotes[..it])
        invariant Indexes(mapVoteIndex, listVotes[..it])
        invariant forall v :: v in listVotes <==> v in all
        decreases |listVotes| - it
      {
        var v := listVotes[it];
        assert listVotes == listVotes[..it] + [v] + listVotes[it + 1..];
        if v !in mapVoteIndex {
          mapVoteIndex := mapVoteIndex[v := v];
          nMemoryVotes := nMemoryVotes + 1;
          assert listVotes[..it + 1] == listVotes[..it] + [v];
          it := it + 1;
        } else {
          ghost var kept := listVotes[..it];
          listVotes := listVotes[..it] + listVotes[it + 1..];
          assert listVotes[..it] == kept;
        }
      }
      assert listVotes[..it] == listVotes;
    }
  }

  lemma RemoveOne(votes: seq<Vote>, index: map<Vote, Vote>, k: nat)
    requires Distinct(votes) && k < |votes| && Indexes(index, votes)
    ensures Distinct(votes[..k] + votes[k + 1..])
    ensures Indexes(index - {votes[k]}, votes[..k] + votes[k + 1..])
  {
  }

  // ---------------------------------------------------------------- the governance object

  /** Every filed vote carries the time stamp on record for its masternode and signal. */
  ghost predicate Filed(r: Records, votes: seq<Vote>, parent: nat) {
    forall v | v in votes ::
      v.parent == parent && v.mn in r && v.signal in r[v.mn] && r[v.mn][v.signal].creationTime == v.time
  }

  /** Every recorded outcome has its vote on file. */
  ghost predicate Backed(r: Records, votes: seq<Vote>) {
    forall mn, signal | mn in r && signal in r[mn] :: BackedEntry(r[mn][signal], votes, mn, signal)
  }

  ghost predicate BackedEntry(e: Instance, votes: seq<Vote>, mn: OutPoint, signal: int) {
    || (e.creationTime, e.outcome) == (0, 0)
    || exists w | w in votes :: For(w, mn, signal) && (w.time, w.outcome) == (e.creationTime, e.outcome)
  }

  /** The votes on file after a verdict. */
  ghost function FiledAfter(votes: seq<Vote>, v: Vote, verdict: Verdict): seq<Vote> {
    if verdict == Accepted then WithoutOlder([v] + votes, v) else votes
  }

  /** Filing keeps the votes of other masternodes and signals, and the accepted one. */
  lemma FilingKeeps(votes: seq<Vote>, v: Vote, verdict: Verdict)
    ensures forall w | w in votes && !For(w, v.mn, v.signal) :: w in FiledAfter(votes, v, verdict)
    ensures verdict == Accepted ==> v in FiledAfter(votes, v, verdict)
    ensures forall w | w in FiledAfter(votes, v, verdict) :: w in votes || w == v
  {
    hide WithoutOlder;
    WithoutOlderHas([v] + votes, v);
  }

  lemma VerdictBacked(r: Records, votes: seq<Vote>, v: Vote, verdict: Verdict, rateChecks: bool, now: int)
    requires Backed(r, votes)
    ensures Backed(Recorded(r, v, verdict, rateChecks, now), FiledAfter(votes, v, verdict))
  {
    hide WithoutOlder, FiledAfter;
    FilingKeeps(votes, v, verdict);
    var (r', votes') := (Recorded(r, v, verdict, rateChecks, now), FiledAfter(votes, v, verdict));
    forall mn, signal | mn in r' && signal in r'[mn] ensures BackedEntry(r'[mn][signal], votes', mn, signal) {
      if verdict == Accepted && mn == v.mn && signal == v.signal {
        assert v in votes' && For(v, mn, signal);
      } else if mn in r && signal in r[mn] {
        assert BackedEntry(r[mn][signal], votes, mn, signal);
        StaysBacked(r[mn][signal], votes, mn, signal, v, verdict);
      }
    }
  }

  /** Votes of other masternodes and signals stay on file, and recorded outcomes keep their votes. */
  ghost predicate KeepsFile(r: Records, votes: seq<Vote>, r': Records, votes': seq<Vote>, v: Vote) {
    && (forall w | w in votes && !For(w, v.mn, v.signal) :: w in votes')
    && (Backed(r, votes) ==> Backed(r', votes'))
  }

  lemma VerdictKeepsFile(r: Records, votes: seq<Vote>, v: Vote, verdict: Verdict, rateChecks: bool, now: int)
    ensures KeepsFile(r, votes, Recorded(r, v, verdict, rateChecks, now), FiledAfter(votes, v, verdict), v)
  {
    hide WithoutOlder, Backed, Recorded;
    FilingKeeps(votes, v, verdict);
    if Backed(r, votes) {
      VerdictBacked(r, votes, v, verdict, rateChecks, now);
    }
  }

  lemma StaysBacked(e: Instance, votes: seq<Vote>, mn: OutPoint, signal: int, v: Vote, verdict: Verdict)
    requires BackedEntry(e, votes, mn, signal) && (verdict != Accepted || !For(v, mn, signal))
    ensures BackedEntry(e, FiledAfter(votes, v, verdict), mn, signal)
  {
    FilingKeeps(votes, v, verdict);
    if (e.creationTime, e.outcome) != (0, 0) {
      var w :| w in votes && For(w, mn, signal) && (w.time, w.outcome) == (e.creationTime, e.outcome);
      assert w in FiledAfter(votes, v, verdict);
    }
  }

  lemma AcceptedFiled(r: Records, votes: seq<Vote>, parent: nat, v: Vote, world: World, rateChecks: bool, now: int)
    requires Filed(r, votes, parent) && v.parent == parent
    requires Judge(r, v in votes, v, world, rateChecks, now) == Accepted
    ensures Filed(Recorded(r, v, Accepted, rateChecks, now), WithoutOlder([v] + votes, v), parent)
  {
    hide WithoutOlder;
    WithoutOlderHas([v] + votes, v);
  }

  lemma RejectedFiled(r: Records, votes: seq<Vote>, parent: nat, v: Vote, verdict: Verdict, rateChecks: bool, now: int)
    requires Filed(r, votes, parent) && verdict != Accepted
    ensures Filed(Recorded(r, v, verdict, rateChecks, now), votes, parent)
  {
  }

  function WithRecord(r: Records, mn: OutPoint): Records {
    r[mn := if mn in r then r[mn] else map[]]
  }

  function WithInstance(r: Records, mn: OutPoint, signal: int): Records
    requires mn in r
  {
    if signal in r[mn] then r else r[mn := r[mn][signal := NO_VOTE]]
  }

  lemma NothingRecorded(r: Records, v: Vote, rateChecks: bool, now: int)
    ensures Recorded(r, v, AlreadyKnown, rateChecks, now) == r == Recorded(r, v, Orphan, rateChecks, now)
    ensures Recorded(r, v, NoSignal, rateChecks, now) == WithRecord(r, v.mn)
    ensures Recorded(r, v, Unsupported, rateChecks, now) == WithRecord(r, v.mn)
    ensures Recorded(r, v, Obsolete, rateChecks, now) == Recorded(r, v, TooOften, rateChecks, now)
         == Recorded(r, v, Invalid, rateChecks, now)
  {
  }

  /** Making the entries first and changing the instance in place afterwards is what Recorded says. */
  lemma Emplaced(r: Records, v: Vote, now: Records, rateChecks: bool, time: int)
    requires now == WithInstance(WithRecord(r, v.mn), v.mn, v.signal)
    ensures v.mn in now && v.signal in now[v.mn] && now[v.mn][v.signal] == Current(r, v.mn, v.signal)
    ensures now == Recorded(r, v, Obsolete, rateChecks, time)
    ensures var cur := Current(r, v.mn, v.signal);
      now[v.mn := now[v.mn][v.signal := Instance(v.outcome, if rateChecks then time else cur.time, v.time)]]
      == Recorded(r, v, Accepted, rateChecks, time)
  {
    var rec := if v.mn in r then r[v.mn] else map[];
    var cur := Current(r, v.mn, v.signal);
    var e := Instance(v.outcome, if rateChecks then time else cur.time, v.time);
    assert now[v.mn] == rec[v.signal := cur];
    assert now == r[v.mn := rec[v.signal := cur]];
    assert now[v.mn][v.signal := e] == rec[v.signal := e];
    assert now[v.mn := rec[v.signal := e]] == r[v.mn := rec[v.signal := e]];
  }

  class GovernanceObject {
    const hash: nat
    var mapCurrentMNVotes: Records
    const fileVotes: VoteFile
    var fDirtyCache: bool

    ghost predicate Valid()
      reads this, fileVotes
    {
      fileVotes.Valid()
    }

    constructor (hash: nat)
      ensures Valid() && this.hash == hash && mapCurrentMNVotes == map[] && fileVotes.listVotes == []
        && fresh(fileVotes)
      ensures Filed(mapCurrentMNVotes, fileVotes.listVotes, hash)
    {
      this.hash := hash;
      mapCurrentMNVotes := map[];
      fileVotes := new VoteFile();
      fDirtyCache := true;
    }

    method EmplaceRecord(mn: OutPoint)
      modifies this`mapCurrentMNVotes
      ensures mapCurrentMNVotes == WithRecord(old(mapCurrentMNVotes), mn)
    {
      if mn !in mapCurrentMNVotes {
        mapCurrentMNVotes := mapCurrentMNVotes[mn := map[]];
      }
      assert mn in old(mapCurrentMNVotes) ==>
        old(mapCurrentMNVotes)[mn := old(mapCurrentMNVotes)[mn]] == old(mapCurrentMNVotes);
    }

    method EmplaceInstance(mn: OutPoint, signal: int)
      requires mn in mapCurrentMNVotes
      modifies this`mapCurrentMNVotes
      ensures mapCurrentMNVotes == WithInstance(old(mapCurrentMNVotes), mn, signal)
    {
      if signal !in mapCurrentMNVotes[mn] {
        mapCurrentMNVotes := mapCurrentMNVotes[mn := mapCurrentMNVotes[mn][signal := NO_VOTE]];
      }
    }

    /** Filed votes keep the recorded time stamp as long as votes reach the object that is their parent. */
    method ProcessVote(v: Vote, world: World, rateChecks: bool, now: int) returns (verdict: Verdict)
      requires Valid()
      modifies this, fileVotes
      ensures Valid()
      ensures old(Filed(mapCurrentMNVotes, fileVotes.listVotes, hash)) && v.parent == hash ==>
        Filed(mapCurrentMNVotes, fileVotes.listVotes, hash)
      ensures verdict == old(Judge(mapCurrentMNVotes, v in fileVotes.listVotes, v, world, rateChecks, now))
      ensures mapCurrentMNVotes == Recorded(old(mapCurrentMNVotes), v, verdict, rateChecks, now)
      ensures fileVotes.listVotes == FiledAfter(old(fileVotes.listVotes), v, verdict)
      ensures KeepsFile(old(mapCurrentMNVotes), old(fileVotes.listVotes), mapCurrentMNVotes, fileVotes.listVotes, v)
      ensures verdict == Accepted ==> fDirtyCache
    {
      hide WithoutOlder, Distinct, Filed, Recorded, KeepsFile;
      NothingRecorded(mapCurrentMNVotes, v, rateChecks, now);
      ghost var (r, filed) := (mapCurrentMNVotes, fileVotes.listVotes);
      forall x: Verdict
        ensures KeepsFile(r, filed, Recorded(r, v, x, rateChecks, now), FiledAfter(filed, v, x), v)
      {
        VerdictKeepsFile(r, filed, v, x, rateChecks, now);
      }
      ghost var ours := Filed(r, filed, hash) && v.parent == hash;
      if fileVotes.HasVote(v) {
        if ours { RejectedFiled(r, filed, hash, v, AlreadyKnown, rateChecks, now); }
        return AlreadyKnown;
      }
      if !world.known(v.mn) {
        if ours { RejectedFiled(r, filed, hash, v, Orphan, rateChecks, now); }
        return Orphan;
      }
      EmplaceRecord(v.mn);
      assert mapCurrentMNVotes == Recorded(r, v, NoSignal, rateChecks, now);
      if v.signal == 0 {
        if ours { RejectedFiled(r, filed, hash, v, NoSignal, rateChecks, now); }
        return NoSignal;
      }
      if v.signal > MAX_SUPPORTED_VOTE_SIGNAL {
        if ours { RejectedFiled(r, filed, hash, v, Unsupported, rateChecks, now); }
        return Unsupported;
      }
      EmplaceInstance(v.mn, v.signal);
      var cur := mapCurrentMNVotes[v.mn][v.signal];
      Emplaced(r, v, mapCurrentMNVotes, rateChecks, now);
      if ours { RejectedFiled(r, filed, hash, v, Obsolete, rateChecks, now); }
      if v.time < cur.creationTime {
        return Obsolete;
      } else if v.time == cur.creationTime {
        if v.outcome < cur.outcome {
          return Obsolete;
        }
      }
      var nVoteTimeUpdate := cur.time;
      if rateChecks {
        if now - cur.time < GOVERNANCE_UPDATE_MIN {
          return TooOften;
        }
        nVoteTimeUpdate := now;
      }
      if !world.valid(v) {
        return Invalid;
      }
      if ours { AcceptedFiled(r, filed, hash, v, world, rateChecks, now); }
      mapCurrentMNVotes := mapCurrentMNVotes[v.mn :=
        mapCurrentMNVotes[v.mn][v.signal := Instance(v.outcome, nVoteTimeUpdate, v.time)]];
      fileVotes.AddVote(v);
      fDirtyCache := true;
      return Accepted;
    }

    method CountMatchingVotes(signal: int, outcome: nat) returns (nCount: nat)
      ensures nCount == |Matching(mapCurrentMNVotes, signal, outcome)|
    {
      nCount := 0;
      var rest := mapCurrentMNVotes.Keys;
      ghost var counted: set<OutPoint> := {};
      while rest != {}
        invariant rest <= mapCurrentMNVotes.Keys && nCount == |counted|
        invariant counted == Matching(mapCurrentMNVotes, signal, outcome) - rest
        decreases rest
      {
        var mn :| mn in rest;
        var rec := mapCurrentMNVotes[mn];
        if signal in rec && rec[signal].outcome == outcome {
          nCount := nCount + 1;
          counted := counted + {mn};
        }
        rest := rest - {mn};
      }
      assert rest == {};
    }
  }

  // ---------------------------------------------------------------- whole runs

  /** A vote and the adjusted time at which it is processed. */
  datatype Arrival = Arrival(vote: Vote, now: int)

  /** The records and the filed votes after processing votes in the given order. */
  ghost function After(world: World, rateChecks: bool, run: seq<Arrival>): (Records, seq<Vote>) {
    if run == [] then (map[], [])
    else
      var (r, filed) := After(world, rateChecks, run[..|run| - 1]);
      var (v, now) := (run[|run| - 1].vote, run[|run| - 1].now);
      var verdict := Judge(r, v in filed, v, world, rateChecks, now);
      (Recorded(r, v, verdict, rateChecks, now), if verdict == Accepted then WithoutOlder([v] + filed, v) else filed)
  }

  ghost function Seen(run: seq<Arrival>): set<Vote> {
    set a | a in run :: a.vote
  }

  /** The votes that were not suppressed when they arrived. */
  ghost function Heard(world: World, rateChecks: bool, run: seq<Arrival>): set<Vote> {
    if run == [] then {}
    else
      var (init, last) := (run[..|run| - 1], run[|run| - 1]);
      var (r, filed) := After(world, rateChecks, init);
      HeardAfter(world, r, Heard(world, rateChecks, init), last.vote in filed, last.vote, rateChecks, last.now)
  }

  /** After any run the records are those of the votes seen and heard. */
  lemma {:induction false} AfterTells(world: World, rateChecks: bool, run: seq<Arrival>)
    ensures Tells(world, After(world, rateChecks, run).0, Seen(run), Heard(world, rateChecks, run))
    ensures Heard(world, rateChecks, run) <= Seen(run)
    ensures forall v | v in After(world, rateChecks, run).1 :: v in Heard(world, rateChecks, run)
    ensures !rateChecks ==> Heard(world, rateChecks, run) == Seen(run) && Untimed(After(world, rateChecks, run).0)
  {
    hide WithoutOlder, Tells, Judge, Recorded;
    if run == [] {
      NothingTold(world);
    } else {
      var (init, v, now) := (run[..|run| - 1], run[|run| - 1].vote, run[|run| - 1].now);
      AfterTells(world, rateChecks, init);
      SeenMore(run);
      var (r, filed) := After(world, rateChecks, init);
      ProcessTells(world, r, Seen(init), Heard(world, rateChecks, init), v, v in filed, rateChecks, now);
      WithoutOlderHas([v] + filed, v);
      AcceptedIsHeard(world, r, v in filed, v, rateChecks, now);
      if !rateChecks {
        ProcessUntimed(world, r, v, v in filed, now);
      }
    }
  }

  lemma AcceptedIsHeard(world: World, r: Records, filed: bool, v: Vote, rateChecks: bool, now: int)
    ensures Judge(r, filed, v, world, rateChecks, now) == Accepted ==> !Suppressed(world, r, filed, v, rateChecks, now)
  {
  }

  lemma SeenMore(run: seq<Arrival>)
    requires run != []
    ensures Seen(run) == Seen(run[..|run| - 1]) + {run[|run| - 1].vote}
  {
    var init := run[..|run| - 1];
    assert run == init + [run[|run| - 1]];
    forall a | a in init ensures a.vote in Seen(run) {
      assert a in run;
    }
  }

  lemma NothingTold(world: World)
    ensures Tells(world, map[], Seen([]), {}) && Untimed(map[])
  {
  }

  /**
   With rate checks off votes processed in any order, any number of times, leave the same records, hence the
   same tallies.
  */
  lemma OrderIrrelevant(world: World, a: seq<Arrival>, b: seq<Arrival>)
    requires Seen(a) == Seen(b)
    ensures After(world, false, a).0 == After(world, false, b).0
  {
    hide Tells, Untimed;
    AfterTells(world, false, a);
    AfterTells(world, false, b);
    SameVotesSameRecords(world, After(world, false, a).0, After(world, false, b).0, Seen(a));
  }

  /** No vote that was seen is above all that were heard for its masternode and signal. */
  ghost predicate MadeGood(world: World, seen: set<Vote>, heard: set<Vote>) {
    forall v | v in seen - heard && Eligible(world, v) ::
      AtLeast(0, 0, v.time, v.outcome) || exists w | w in heard :: Covers(world, w, v)
  }

  /** w counts for the same masternode and signal and is no lower. */
  predicate Covers(world: World, w: Vote, v: Vote) {
    Eligible(world, w) && For(w, v.mn, v.signal) && AtLeast(w.time, w.outcome, v.time, v.outcome)
  }

  /**
   A run leaves the records of all votes seen exactly when every suppressed vote is made good by one that is
   heard.
  */
  lemma RunRule(world: World, rateChecks: bool, run: seq<Arrival>)
    ensures Describes(world, After(world, rateChecks, run).0, Seen(run))
       <==> MadeGood(world, Seen(run), Heard(world, rateChecks, run))
  {
    hide After, Heard, Seen, Tells;
    AfterTells(world, rateChecks, run);
    TellsAll(world, After(world, rateChecks, run).0, Seen(run), Heard(world, rateChecks, run));
  }

  lemma TellsAll(world: World, r: Records, seen: set<Vote>, heard: set<Vote>)
    requires Tells(world, r, seen, heard) && heard <= seen
    ensures Describes(world, r, seen) <==> MadeGood(world, seen, heard)
  {
    if Describes(world, r, seen) {
      forall v | v in seen - heard && Eligible(world, v)
        ensures AtLeast(0, 0, v.time, v.outcome) || exists w | w in heard :: Covers(world, w, v)
      {
        RecordCovers(world, r, seen, heard, v);
      }
    }
    if MadeGood(world, seen, heard) {
      forall mn, signal | mn in r && signal in r[mn]
        ensures IsBest(world, seen, mn, signal, r[mn][signal].creationTime, r[mn][signal].outcome)
      {
        BestOfAll(world, seen, heard, mn, signal, r[mn][signal].creationTime, r[mn][signal].outcome);
      }
    }
  }

  lemma RecordCovers(world: World, r: Records, seen: set<Vote>, heard: set<Vote>, v: Vote)
    requires Tells(world, r, seen, heard) && Describes(world, r, seen) && v in seen && Eligible(world, v)
    ensures AtLeast(0, 0, v.time, v.outcome) || exists w | w in heard :: Covers(world, w, v)
  {
    assert For(v, v.mn, v.signal);
    assert MentionsPair(world, seen, v.mn, v.signal);
    PairHasMasternode(world, seen, v.mn, v.signal);
    var e := r[v.mn][v.signal];
    assert AtLeast(e.creationTime, e.outcome, v.time, v.outcome);
    if (e.creationTime, e.outcome) != (0, 0) {
      var w :| w in heard && Eligible(world, w) && For(w, v.mn, v.signal)
        && (w.time, w.outcome) == (e.creationTime, e.outcome);
      assert Covers(world, w, v);
    }
  }

  lemma BestOfAll(world: World, seen: set<Vote>, heard: set<Vote>, mn: OutPoint, signal: int, t: int, o: nat)
    requires IsBest(world, heard, mn, signal, t, o) && heard <= seen && MadeGood(world, seen, heard)
    ensures IsBest(world, seen, mn, signal, t, o)
  {
    forall v | v in seen && Eligible(world, v) && For(v, mn, signal) ensures AtLeast(t, o, v.time, v.outcome) {
      if v !in heard && !AtLeast(0, 0, v.time, v.outcome) {
        var w :| w in heard && Covers(world, w, v);
        assert AtLeast(t, o, w.time, w.outcome);
      }
    }
  }

  /** The votes for one masternode and signal are processed an hour apart, the first an hour after the epoch. */
  ghost predicate Spaced(world: World, run: seq<Arrival>) {
    && (forall i | 0 <= i < |run| && Eligible(world, run[i].vote) :: run[i].now >= GOVERNANCE_UPDATE_MIN)
    && (forall i, j | 0 <= i < j < |run| && SamePair(world, run[i].vote, run[j].vote) ::
          run[j].now - run[i].now >= GOVERNANCE_UPDATE_MIN)
  }

  predicate SamePair(world: World, v: Vote, w: Vote) {
    Eligible(world, v) && Eligible(world, w) && For(w, v.mn, v.signal)
  }

  /** Such a run suppresses nothing, so with rate checks on nodes agree on all votes as well. */
  lemma {:induction false} SpacedIsHeard(world: World, run: seq<Arrival>)
    requires Spaced(world, run)
    ensures Heard(world, true, run) == Seen(run) && Describes(world, After(world, true, run).0, Seen(run))
    ensures Stamped(world, run, After(world, true, run).0)
  {
    hide WithoutOlder, Tells, Judge, Recorded, Suppressed;
    AfterTells(world, true, run);
    if run != [] {
      var (init, v, now) := (run[..|run| - 1], run[|run| - 1].vote, run[|run| - 1].now);
      forall i, j | 0 <= i < j < |init| && SamePair(world, init[i].vote, init[j].vote)
        ensures init[j].now - init[i].now >= GOVERNANCE_UPDATE_MIN
      {
        assert SamePair(world, run[i].vote, run[j].vote);
      }
      SpacedIsHeard(world, init);
      SeenMore(run);
      var (r, filed) := After(world, true, init);
      NotTooSoon(world, run, r, v in filed);
      StampedMore(world, run, r, v in filed);
    }
  }

  /** The recorded times are zero or the arrival of an eligible vote for the pair. */
  ghost predicate Stamped(world: World, run: seq<Arrival>, r: Records) {
    forall mn, signal | mn in r && signal in r[mn] ::
      r[mn][signal].time == 0 || exists i | 0 <= i < |run| :: StampedBy(world, run[i], mn, signal, r[mn][signal].time)
  }

  predicate StampedBy(world: World, a: Arrival, mn: OutPoint, signal: int, time: int) {
    Eligible(world, a.vote) && For(a.vote, mn, signal) && a.now == time
  }

  lemma NotTooSoon(world: World, run: seq<Arrival>, r: Records, filed: bool)
    requires run != [] && Spaced(world, run) && Stamped(world, run[..|run| - 1], r)
    ensures !Suppressed(world, r, filed, run[|run| - 1].vote, true, run[|run| - 1].now)
  {
    var (k, v) := (|run| - 1, run[|run| - 1].vote);
    if Eligible(world, v) && v.mn in r && v.signal in r[v.mn] && r[v.mn][v.signal].time != 0 {
      var i :| 0 <= i < k && StampedBy(world, run[..k][i], v.mn, v.signal, r[v.mn][v.signal].time);
      assert SamePair(world, run[i].vote, run[k].vote);
    }
  }

  lemma StampedMore(world: World, run: seq<Arrival>, r: Records, filed: bool)
    requires run != [] && Stamped(world, run[..|run| - 1], r)
    ensures var a := run[|run| - 1];
      Stamped(world, run, Recorded(r, a.vote, Judge(r, filed, a.vote, world, true, a.now), true, a.now))
  {
    var (k, a) := (|run| - 1, run[|run| - 1]);
    var r': Records := Recorded(r, a.vote, Judge(r, filed, a.vote, world, true, a.now), true, a.now);
    forall mn: OutPoint, signal: int | mn in r' && signal in r'[mn] && r'[mn][signal].time != 0
      ensures exists i | 0 <= i < |run| :: StampedBy(world, run[i], mn, signal, r'[mn][signal].time)
    {
      if mn in r && signal in r[mn] && r'[mn][signal].time == r[mn][signal].time {
        var i :| 0 <= i < k && StampedBy(world, run[..k][i], mn, signal, r[mn][signal].time);
        assert StampedBy(world, run[i], mn, signal, r'[mn][signal].time);
      } else {
        assert StampedBy(world, run[k], mn, signal, r'[mn][signal].time);
      }
    }
  }

  /** Two votes of one pair less than an hour apart leave whichever came first. */
  lemma RateChecksDisagree(world: World, v: Vote, w: Vote, now: int, gap: nat)
    requires SamePair(world, v, w) && 0 <= v.time < w.time && now >= GOVERNANCE_UPDATE_MIN
      && gap < GOVERNANCE_UPDATE_MIN
    ensures var (a, b) := ([Arrival(v, now), Arrival(w, now + gap)], [Arrival(w, now), Arrival(v, now + gap)]);
      && Seen(a) == Seen(b)
      && Current(After(world, true, a).0, v.mn, v.signal) == Instance(v.outcome, now, v.time)
      && Current(After(world, true, b).0, v.mn, v.signal) == Instance(w.outcome, now, w.time)
  {
    hide WithoutOlder;
    var (a, b) := ([Arrival(v, now), Arrival(w, now + gap)], [Arrival(w, now), Arrival(v, now + gap)]);
    assert Seen(a) == {v, w} == Seen(b) by {
      assert a[0].vote == v && a[1].vote == w && b[0].vote == w && b[1].vote == v;
    }
    TwoArrivals(world, v, w, now, gap);
    TwoArrivals(world, w, v, now, gap);
  }

  /** The first of two is accepted, the second not. */
  lemma TwoArrivals(world: World, v: Vote, w: Vote, now: int, gap: nat)
    requires SamePair(world, v, w) && v.time >= 0 && v.time != w.time
    requires now >= GOVERNANCE_UPDATE_MIN && gap < GOVERNANCE_UPDATE_MIN
    ensures Current(After(world, true, [Arrival(v, now), Arrival(w, now + gap)]).0, v.mn, v.signal) ==
      Instance(v.outcome, now, v.time)
  {
    hide WithoutOlder;
    var (one, two) := (Arrival(v, now), Arrival(w, now + gap));
    AfterMore(world, true, [], one);
    AfterMore(world, true, [one], two);
    assert [] + [one] == [one] && [one] + [two] == [one, two];
    var (r, filed) := After(world, true, [one]);
    assert Judge(map[], false, v, world, true, now) == Accepted;
    assert Current(r, v.mn, v.signal) == Instance(v.outcome, now, v.time);
    WithoutOlderHas([v] + [], v);
    assert filed == WithoutOlder([v] + [], v) && w !in filed;
    assert Judge(r, false, w, world, true, now + gap) in {Obsolete, TooOften};
  }

  lemma AfterMore(world: World, rateChecks: bool, run: seq<Arrival>, a: Arrival)
    ensures var (r, filed) := After(world, rateChecks, run);
      var verdict := Judge(r, a.vote in filed, a.vote, world, rateChecks, a.now);
      After(world, rateChecks, run + [a]) ==
      (Recorded(r, a.vote, verdict, rateChecks, a.now),
       if verdict == Accepted then WithoutOlder([a.vote] + filed, a.vote) else filed)
  {
    assert (run + [a])[..|run|] == run;
  }

  /** A run of the object follows the function. */
  method ProcessAll(parent: nat, run: seq<Arrival>, rateChecks: bool, world: World) returns (obj: GovernanceObject)
    ensures obj.Valid() && obj.mapCurrentMNVotes == After(world, rateChecks, run).0
    ensures obj.fileVotes.listVotes == After(world, rateChecks, run).1
    ensures (forall a | a in run :: a.vote.parent == parent) ==>
      Filed(obj.mapCurrentMNVotes, obj.fileVotes.listVotes, parent)
    ensures Backed(obj.mapCurrentMNVotes, obj.fileVotes.listVotes)
  {
    hide WithoutOlder, Judge, Recorded, Distinct, Filed, Indexes;
    obj := new GovernanceObject(parent);
    for i := 0 to |run|
      invariant obj.Valid() && obj.hash == parent && fresh(obj) && fresh(obj.fileVotes)
      invariant obj.mapCurrentMNVotes == After(world, rateChecks, run[..i]).0
      invariant obj.fileVotes.listVotes == After(world, rateChecks, run[..i]).1
      invariant (forall a | a in run :: a.vote.parent == parent) ==>
        Filed(obj.mapCurrentMNVotes, obj.fileVotes.listVotes, parent)
      invariant Backed(obj.mapCurrentMNVotes, obj.fileVotes.listVotes)
    {
      assert run[..i + 1][..i] == run[..i];
      assert run[i] in run;
      var verdict := obj.ProcessVote(run[i].vote, world, rateChecks, run[i].now);
    }
    assert run[..|run|] == run;
  }
}
