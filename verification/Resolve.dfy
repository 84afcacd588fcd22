/** Which copy of a secret wins when devices disagree.

The resolver looks at one observation per device.  Only devices that hold a
copy, real or tombstone, vote; so a view of a secret is a map from the serial
numbers of the voters to their votes, and `Verdict` is the policy on such maps.
The method `Resolve` runs the loops of the source over a list of observations.
*/
module Resolve {
  import opened GoStrings

  const TOMBSTONE_CHECKSUM := "__deleted__"

  datatype Observation = Observation(
    deviceID: string,
    present: bool,
    tombstone: bool,
    checksum: string,
    version: int,
    timestamp: int)
  {
    predicate HasOpinion() { present || tombstone }

    function EffectiveChecksum(): string {
      if tombstone then TOMBSTONE_CHECKSUM else checksum
    }

    function ToVote(): Vote {
      Vote(EffectiveChecksum(), version, timestamp)
    }
  }

  datatype Strategy = StrategyNone | StrategyLWW | StrategyMajority | StrategyMajorityLWW

  datatype Decision = Decision(
    winningChecksum: string,
    winningDeviceID: string,
    deleted: bool,
    diverged: bool,
    strategy: Strategy,
    outliers: seq<string>,
    found: bool)

  const NO_DECISION := Decision("", "", false, false, StrategyNone, [], false)

  datatype Vote = Vote(checksum: string, version: int, timestamp: int)

  type Votes = map<string, Vote>

  // ---------------------------------------------------------------- policy

  /** The order of last-write-wins: version, then timestamp, then lower serial. */
  predicate Beats(id: string, v: Vote, id': string, v': Vote)
  {
    || v.version > v'.version
    || (v.version == v'.version && v.timestamp > v'.timestamp)
    || (v.version == v'.version && v.timestamp == v'.timestamp && Less(id, id'))
  }

  ghost predicate IsNewest(votes: Votes, id: string)
  {
    id in votes && forall x :: x in votes && x != id ==> Beats(id, votes[id], x, votes[x])
  }

  lemma BeatsTransitive(a: string, va: Vote, b: string, vb: Vote, c: string, vc: Vote)
    requires Beats(a, va, b, vb) && Beats(b, vb, c, vc)
    ensures Beats(a, va, c, vc)
  {
    if Less(a, b) && Less(b, c) { LessTransitive(a, b, c); }
  }

  lemma BeatsTotal(a: string, va: Vote, b: string, vb: Vote)
    requires a != b
    ensures Beats(a, va, b, vb) <==> !Beats(b, vb, a, va)
  {
    LessTotal(a, b);
    if Less(a, b) { LessAsymmetric(a, b); }
    if Less(b, a) { LessAsymmetric(b, a); }
  }

  lemma {:induction false} NewestExists(votes: Votes)
    requires votes.Keys != {}
    ensures exists id :: IsNewest(votes, id)
    decreases |votes|
  {
    var id :| id in votes;
    var rest := votes - {id};
    if rest.Keys == {} {
      assert votes.Keys == {id};
      assert IsNewest(votes, id);
    } else {
      assert votes.Keys == rest.Keys + {id};
      NewestExists(rest);
      var best :| IsNewest(rest, best);
      BeatsTotal(id, votes[id], best, votes[best]);
      if Beats(id, votes[id], best, votes[best]) {
        forall x | x in votes && x != id ensures Beats(id, votes[id], x, votes[x]) {
          assert x in rest;
          if x != best { BeatsTransitive(id, votes[id], best, votes[best], x, votes[x]); }
        }
        assert IsNewest(votes, id);
      } else {
        assert IsNewest(votes, best);
      }
    }
  }

  lemma NewestUnique(votes: Votes, a: string, b: string)
    requires IsNewest(votes, a) && IsNewest(votes, b)
    ensures a == b
  {
    if a != b { BeatsTotal(a, votes[a], b, votes[b]); }
  }

  ghost function Newest(votes: Votes): (id: string)
    requires votes.Keys != {}
    ensures IsNewest(votes, id)
  {
    NewestExists(votes);
    var id :| IsNewest(votes, id);
    id
  }

  ghost function Holders(votes: Votes, checksum: string): set<string>
  {
    set id | id in votes && votes[id].checksum == checksum
  }

  ghost predicate IsMajority(votes: Votes, deviceCount: int, checksum: string)
  {
    |Holders(votes, checksum)| > deviceCount / 2
  }

  ghost function Majorities(votes: Votes, deviceCount: int): set<string>
  {
    set id | id in votes && IsMajority(votes, deviceCount, votes[id].checksum) :: votes[id].checksum
  }

  /** Majority of the expected devices when there are at least three of them,
      otherwise, and when no checksum reaches a majority, the newest write. */
  ghost function WinningChecksum(votes: Votes, deviceCount: int): string
    requires votes.Keys != {}
  {
    if deviceCount >= 3 && Majorities(votes, deviceCount) != {}
    then LowestOf(Majorities(votes, deviceCount))
    else votes[Newest(votes)].checksum
  }

  ghost function StrategyOf(votes: Votes, deviceCount: int): Strategy
  {
    if deviceCount < 3 then StrategyLWW
    else if Majorities(votes, deviceCount) != {} then StrategyMajority
    else StrategyMajorityLWW
  }

  lemma WinnerHasHolders(votes: Votes, deviceCount: int)
    requires votes.Keys != {}
    ensures Holders(votes, WinningChecksum(votes, deviceCount)) != {}
  {
    var c := WinningChecksum(votes, deviceCount);
    if deviceCount >= 3 && Majorities(votes, deviceCount) != {} {
      assert c in Majorities(votes, deviceCount);
      var id :| id in votes && votes[id].checksum == c;
      assert id in Holders(votes, c);
    } else {
      assert Newest(votes) in Holders(votes, c);
    }
  }

  ghost function WinningDevice(votes: Votes, deviceCount: int): string
    requires votes.Keys != {}
  {
    WinnerHasHolders(votes, deviceCount);
    LowestOf(Holders(votes, WinningChecksum(votes, deviceCount)))
  }

  ghost function Outliers(votes: Votes, deviceCount: int): set<string>
    requires votes.Keys != {}
  {
    votes.Keys - Holders(votes, WinningChecksum(votes, deviceCount))
  }

  ghost function Verdict(votes: Votes, deviceCount: int): Decision
  {
    if votes.Keys == {} then NO_DECISION
    else
      var c := WinningChecksum(votes, deviceCount);
      Decision(
        c,
        WinningDevice(votes, deviceCount),
        c == TOMBSTONE_CHECKSUM,
        Outliers(votes, deviceCount) != {},
        StrategyOf(votes, deviceCount),
        Ascending(Outliers(votes, deviceCount)),
        true)
  }

  // ------------------------------------------------------------- the loops

  /** Serial numbers are distinct and not empty. */
  ghost predicate ValidIDs(obs: seq<Observation>)
  {
    && (forall i :: 0 <= i < |obs| ==> obs[i].deviceID != "")
    && (forall i, j :: 0 <= i < j < |obs| ==> obs[i].deviceID != obs[j].deviceID)
  }

  ghost function VotesOf(obs: seq<Observation>): Votes
  {
    if obs == [] then map[] else
      var o := obs[|obs| - 1];
      var rest := VotesOf(obs[..|obs| - 1]);
      if o.HasOpinion() then rest[o.deviceID := o.ToVote()] else rest
  }

  lemma VotesOfSnoc(obs: seq<Observation>, o: Observation)
    ensures VotesOf(obs + [o]) == if o.HasOpinion() then VotesOf(obs)[o.deviceID := o.ToVote()] else VotesOf(obs)
  {
    assert (obs + [o])[..|obs|] == obs;
  }

  /** A device votes exactly when it holds a copy or a tombstone: for the deletion if it holds a tombstone,
  otherwise for its content, at the version and time it shows. */
  lemma {:induction false} VotesOfMember(obs: seq<Observation>, k: nat)
    requires ValidIDs(obs) && k < |obs|
    ensures obs[k].deviceID in VotesOf(obs) <==> obs[k].present || obs[k].tombstone
    ensures obs[k].tombstone ==>
      VotesOf(obs)[obs[k].deviceID] == Vote(TOMBSTONE_CHECKSUM, obs[k].version, obs[k].timestamp)
    ensures obs[k].present && !obs[k].tombstone ==>
      VotesOf(obs)[obs[k].deviceID] == Vote(obs[k].checksum, obs[k].version, obs[k].timestamp)
  {
    var init := obs[..|obs| - 1];
    if k < |init| {
      VotesOfMember(init, k);
    } else {
      VotesOfKeys(init);
    }
  }

  lemma {:induction false} VotesOfKeys(obs: seq<Observation>)
    ensures forall id :: id in VotesOf(obs) ==>
      exists k :: 0 <= k < |obs| && obs[k].deviceID == id && obs[k].HasOpinion() && obs[k].ToVote() == VotesOf(obs)[id]
  {
    if obs != [] {
      VotesOfKeys(obs[..|obs| - 1]);
    }
  }

  ghost predicate AllVote(voters: seq<Observation>)
  {
    forall i :: 0 <= i < |voters| ==> voters[i].HasOpinion()
  }

  /** `voters` are the voters among `obs`, in order. */
  ghost predicate IsFiltered(voters: seq<Observation>, obs: seq<Observation>)
  {
    && AllVote(voters)
    && VotesOf(voters) == VotesOf(obs)
    && (forall i :: 0 <= i < |voters| ==> voters[i] in obs)
    && (ValidIDs(obs) ==> ValidIDs(voters))
  }

  lemma ValidInit(obs: seq<Observation>, o: Observation)
    requires ValidIDs(obs + [o])
    ensures ValidIDs(obs) && o.deviceID != "" && forall i :: 0 <= i < |obs| ==> obs[i].deviceID != o.deviceID
  {
    var all := obs + [o];
    assert all[|obs|] == o;
    assert forall i :: 0 <= i < |obs| ==> all[i] == obs[i];
  }

  lemma ValidSnoc(voters: seq<Observation>, o: Observation)
    requires ValidIDs(voters) && o.deviceID != "" && forall i :: 0 <= i < |voters| ==> voters[i].deviceID != o.deviceID
    ensures ValidIDs(voters + [o])
  {}

  lemma ValidPrefix(obs: seq<Observation>, k: nat)
    requires ValidIDs(obs) && k <= |obs|
    ensures ValidIDs(obs[..k])
  {}

  lemma FilterKeep(voters: seq<Observation>, obs: seq<Observation>, o: Observation)
    requires IsFiltered(voters, obs) && ValidIDs(obs + [o]) && o.HasOpinion()
    ensures IsFiltered(voters + [o], obs + [o])
  {
    ValidInit(obs, o);
    forall i | 0 <= i < |voters| ensures voters[i].deviceID != o.deviceID { assert voters[i] in obs; }
    ValidSnoc(voters, o);
    VotesOfSnoc(obs, o);
    VotesOfSnoc(voters, o);
  }

  lemma FilterSkip(voters: seq<Observation>, obs: seq<Observation>, o: Observation)
    requires IsFiltered(voters, obs) && ValidIDs(obs + [o]) && !o.HasOpinion()
    ensures IsFiltered(voters, obs + [o])
  {
    ValidInit(obs, o);
    VotesOfSnoc(obs, o);
  }

  method FilterVoters(obs: seq<Observation>) returns (voters: seq<Observation>)
    requires ValidIDs(obs)
    ensures IsFiltered(voters, obs)
  {
    voters := [];
    for k := 0 to |obs|
      invariant IsFiltered(voters, obs[..k])
    {
      assert obs[..k+1] == obs[..k] + [obs[k]];
      ValidPrefix(obs, k + 1);
      if obs[k].HasOpinion() {
        FilterKeep(voters, obs[..k], obs[k]);
        voters := voters + [obs[k]];
      } else {
        FilterSkip(voters, obs[..k], obs[k]);
      }
    }
    assert obs[..|obs|] == obs;
  }

  ghost predicate Counted(counts: map<string, nat>, votes: Votes)
  {
    && (forall c :: c in counts <==> Holders(votes, c) != {})
    && (forall c :: c in counts ==> counts[c] == |Holders(votes, c)|)
  }

  lemma CountStep(counts: map<string, nat>, votes: Votes, id: string, vote: Vote)
    requires Counted(counts, votes) && id !in votes
    ensures
      var mine := vote.checksum;
      Counted(counts[mine := (if mine in counts then counts[mine] else 0) + 1], votes[id := vote])
  {
    var mine := vote.checksum;
    var after := votes[id := vote];
    assert Holders(after, mine) == Holders(votes, mine) + {id};
    forall c | c != mine ensures Holders(after, c) == Holders(votes, c) {}
  }

  lemma FreshVoter(voters: seq<Observation>, k: nat)
    requires ValidIDs(voters) && AllVote(voters) && k < |voters|
    ensures voters[k].deviceID !in VotesOf(voters[..k])
    ensures VotesOf(voters[..k+1]) == VotesOf(voters[..k])[voters[k].deviceID := voters[k].ToVote()]
  {
    VotesOfKeys(voters[..k]);
    VotesOfSnoc(voters[..k], voters[k]);
    assert voters[..k+1] == voters[..k] + [voters[k]];
  }

  method CountVotes(voters: seq<Observation>) returns (counts: map<string, nat>)
    requires ValidIDs(voters) && AllVote(voters)
    ensures Counted(counts, VotesOf(voters))
  {
    counts := map[];
    for k := 0 to |voters|
      invariant Counted(counts, VotesOf(voters[..k]))
    {
      var mine := voters[k].EffectiveChecksum();
      FreshVoter(voters, k);
      CountStep(counts, VotesOf(voters[..k]), voters[k].deviceID, voters[k].ToVote());
      counts := counts[mine := (if mine in counts then counts[mine] else 0) + 1];
    }
    assert voters[..|voters|] == voters;
  }

  /** The keys of a map, in the order some iteration visits them. */
  method KeysOf<V>(m: map<string, V>) returns (keys: seq<string>)
    ensures Distinct(keys) && Elements(keys) == m.Keys
  {
    keys := [];
    var rest := m.Keys;
    while rest != {}
      invariant Distinct(keys) && Elements(keys) + rest == m.Keys && Elements(keys) !! rest
      decreases rest
    {
      var k :| k in rest;
      assert k !in Elements(keys);
      assert Elements(keys + [k]) == Elements(keys) + {k};
      keys := keys + [k];
      rest := rest - {k};
    }
  }

  ghost function Above(counts: map<string, nat>, threshold: int): set<string>
  {
    set c | c in counts && counts[c] > threshold
  }

  /** `keys` lists the keys of `counts` in order. */
  ghost predicate SortedKeys(keys: seq<string>, counts: map<string, nat>)
  {
    Sorted(keys) && multiset(keys) == multiset(counts.Keys)
  }

  ghost predicate NoneAbove(keys: seq<string>, counts: map<string, nat>, threshold: int, k: nat)
  {
    k <= |keys| && forall i :: 0 <= i < k ==> keys[i] in counts && counts[keys[i]] <= threshold
  }

  lemma FirstAbove(keys: seq<string>, counts: map<string, nat>, threshold: int, k: nat)
    requires SortedKeys(keys, counts) && NoneAbove(keys, counts, threshold, k)
    ensures k < |keys| ==> keys[k] in counts
    ensures k < |keys| && counts[keys[k]] <= threshold ==> NoneAbove(keys, counts, threshold, k + 1)
    ensures k == |keys| ==> Above(counts, threshold) == {}
    ensures k < |keys| && counts[keys[k]] > threshold ==> IsLowest(keys[k], Above(counts, threshold))
  {
    assert k < |keys| ==> keys[k] in multiset(keys);
    forall c | c in Above(counts, threshold) ensures k < |keys| && LessEq(keys[k], c) {
      assert c in multiset(keys);
      var j :| 0 <= j < |keys| && keys[j] == c;
    }
  }

  method StrictMajority(counts: map<string, nat>, deviceCount: int) returns (checksum: string, ok: bool)
    ensures ok <==> Above(counts, deviceCount / 2) != {}
    ensures ok ==> IsLowest(checksum, Above(counts, deviceCount / 2))
  {
    var threshold := deviceCount / 2;
    var unsorted := KeysOf(counts);
    var keys := SortStrings(unsorted);
    DistinctMultiset(unsorted);
    var k := 0;
    while k < |keys|
      invariant SortedKeys(keys, counts) && NoneAbove(keys, counts, threshold, k)
    {
      FirstAbove(keys, counts, threshold, k);
      if counts[keys[k]] > threshold {
        return keys[k], true;
      }
      k := k + 1;
    }
    FirstAbove(keys, counts, threshold, k);
    return "", false;
  }

  /** `best` is among the voters and beats every other one. */
  ghost predicate BestOf(best: Observation, voters: seq<Observation>)
  {
    && best in voters
    && forall i :: 0 <= i < |voters| && voters[i].deviceID != best.deviceID ==>
         Beats(best.deviceID, best.ToVote(), voters[i].deviceID, voters[i].ToVote())
  }

  lemma BestStep(best: Observation, voters: seq<Observation>, v: Observation)
    requires BestOf(best, voters) && ValidIDs(voters) && v.deviceID != best.deviceID
    ensures Beats(v.deviceID, v.ToVote(), best.deviceID, best.ToVote()) ==> BestOf(v, voters + [v])
    ensures !Beats(v.deviceID, v.ToVote(), best.deviceID, best.ToVote()) ==> BestOf(best, voters + [v])
  {
    BeatsTotal(v.deviceID, v.ToVote(), best.deviceID, best.ToVote());
    if Beats(v.deviceID, v.ToVote(), best.deviceID, best.ToVote()) {
      forall i | 0 <= i < |voters| && voters[i].deviceID != v.deviceID
        ensures Beats(v.deviceID, v.ToVote(), voters[i].deviceID, voters[i].ToVote())
      {
        if voters[i].deviceID != best.deviceID {
          BeatsTransitive(v.deviceID, v.ToVote(), best.deviceID, best.ToVote(),
                          voters[i].deviceID, voters[i].ToVote());
        }
      }
    }
  }

  method LastWriteWins(voters: seq<Observation>) returns (best: Observation)
    requires ValidIDs(voters) && voters != [] && AllVote(voters)
    ensures best in voters && IsNewest(VotesOf(voters), best.deviceID)
    ensures VotesOf(voters)[best.deviceID] == best.ToVote()
  {
    best := voters[0];
    for k := 1 to |voters|
      invariant BestOf(best, voters[..k])
    {
      var v := voters[k];
      assert voters[..k+1] == voters[..k] + [v];
      BestStep(best, voters[..k], v);
      if v.version > best.version ||
         (v.version == best.version && v.timestamp > best.timestamp) ||
         (v.version == best.version && v.timestamp == best.timestamp && Less(v.deviceID, best.deviceID))
      {
        best := v;
      }
    }
    assert voters[..|voters|] == voters;
    BestIsNewest(best, voters);
  }

  lemma BestIsNewest(best: Observation, voters: seq<Observation>)
    requires ValidIDs(voters) && AllVote(voters) && BestOf(best, voters)
    ensures IsNewest(VotesOf(voters), best.deviceID) && VotesOf(voters)[best.deviceID] == best.ToVote()
  {
    var k :| 0 <= k < |voters| && voters[k] == best;
    VotesOfMember(voters, k);
    VotesOfKeys(voters);
  }

  ghost predicate LowestSoFar(winner: string, holders: set<string>)
  {
    if holders == {} then winner == "" else winner != "" && IsLowest(winner, holders)
  }

  lemma LowestStep(winner: string, holders: set<string>, id: string)
    requires LowestSoFar(winner, holders) && id != ""
    ensures LowestSoFar(if winner == "" || Less(id, winner) then id else winner, holders + {id})
  {
    LessTotal(id, winner);
    if holders != {} && Less(id, winner) {
      forall y | y in holders ensures LessEq(id, y) { LessEqTransitive(id, winner, y); }
    }
  }

  method LowestDeviceWithChecksum(voters: seq<Observation>, checksum: string) returns (winner: string)
    requires ValidIDs(voters) && AllVote(voters)
    ensures LowestSoFar(winner, Holders(VotesOf(voters), checksum))
  {
    winner := "";
    for k := 0 to |voters|
      invariant LowestSoFar(winner, Holders(VotesOf(voters[..k]), checksum))
    {
      FreshVoter(voters, k);
      HoldersStep(VotesOf(voters[..k]), voters[k].deviceID, voters[k].ToVote(), checksum);
      if voters[k].EffectiveChecksum() != checksum {
        continue;
      }
      LowestStep(winner, Holders(VotesOf(voters[..k]), checksum), voters[k].deviceID);
      if winner == "" || Less(voters[k].deviceID, winner) {
        winner := voters[k].deviceID;
      }
    }
    assert voters[..|voters|] == voters;
  }

  lemma HoldersStep(votes: Votes, id: string, vote: Vote, checksum: string)
    requires id !in votes
    ensures Holders(votes[id := vote], checksum) ==
            if vote.checksum == checksum then Holders(votes, checksum) + {id} else Holders(votes, checksum)
  {}

  method CollectOutliers(voters: seq<Observation>, winningChecksum: string) returns (outliers: seq<string>)
    requires ValidIDs(voters) && AllVote(voters)
    ensures outliers == Ascending(VotesOf(voters).Keys - Holders(VotesOf(voters), winningChecksum))
  {
    outliers := [];
    for k := 0 to |voters|
      invariant Distinct(outliers)
      invariant Elements(outliers) == VotesOf(voters[..k]).Keys - Holders(VotesOf(voters[..k]), winningChecksum)
    {
      var id := voters[k].deviceID;
      FreshVoter(voters, k);
      HoldersStep(VotesOf(voters[..k]), id, voters[k].ToVote(), winningChecksum);
      if voters[k].EffectiveChecksum() != winningChecksum {
        ElementsSnoc(outliers, id);
        outliers := outliers + [id];
      }
    }
    assert voters[..|voters|] == voters;
    SortDistinct(outliers);
    outliers := SortStrings(outliers);
  }

  lemma ElementsSnoc(s: seq<string>, x: string)
    requires Distinct(s) && x !in Elements(s)
    ensures Distinct(s + [x]) && Elements(s + [x]) == Elements(s) + {x}
  {}

  lemma CountedMajorities(counts: map<string, nat>, votes: Votes, deviceCount: int)
    requires Counted(counts, votes)
    ensures Above(counts, deviceCount / 2) == Majorities(votes, deviceCount)
  {
    forall c | c in Above(counts, deviceCount / 2) ensures c in Majorities(votes, deviceCount) {
      var id :| id in Holders(votes, c);
      assert votes[id].checksum == c;
    }
    forall c | c in Majorities(votes, deviceCount) ensures c in Above(counts, deviceCount / 2) {
      var id :| id in votes && votes[id].checksum == c && IsMajority(votes, deviceCount, c);
      assert id in Holders(votes, c);
    }
  }

  method ChooseChecksum(voters: seq<Observation>, deviceCount: int) returns (checksum: string, strategy: Strategy)
    requires ValidIDs(voters) && AllVote(voters) && voters != []
    ensures VotesOf(voters).Keys != {}
    ensures checksum == WinningChecksum(VotesOf(voters), deviceCount)
    ensures strategy == StrategyOf(VotesOf(voters), deviceCount)
  {
    ghost var votes := VotesOf(voters);
    VotesOfMember(voters, 0);
    var counts := CountVotes(voters);
    CountedMajorities(counts, votes, deviceCount);
    if deviceCount >= 3 {
      var cs, ok := StrictMajority(counts, deviceCount);
      if ok {
        LowestUnique(cs, LowestOf(Majorities(votes, deviceCount)), Majorities(votes, deviceCount));
        checksum, strategy := cs, StrategyMajority;
        return;
      }
      strategy := StrategyMajorityLWW;
    } else {
      strategy := StrategyLWW;
    }
    var best := LastWriteWins(voters);
    NewestUnique(votes, best.deviceID, Newest(votes));
    checksum := best.EffectiveChecksum();
  }

  /** `i` is the observation of the winner: what it holds is what the decision says. */
  ghost predicate Witnesses(obs: seq<Observation>, i: nat, d: Decision)
    requires i < |obs|
  {
    && obs[i].deviceID == d.winningDeviceID && (obs[i].present || obs[i].tombstone)
    && (obs[i].tombstone ==> d.deleted)
    && (!obs[i].tombstone ==> d.winningChecksum == obs[i].checksum)
    && (!obs[i].tombstone && obs[i].checksum != TOMBSTONE_CHECKSUM ==> !d.deleted)
  }

  /** The decision is found if and only if some device holds a copy or a tombstone, and then it is the winner's. */
  lemma DecisionIsHeld(obs: seq<Observation>, deviceCount: int)
    requires ValidIDs(obs)
    ensures var d := Verdict(VotesOf(obs), deviceCount);
      && (d.found <==> exists i :: 0 <= i < |obs| && (obs[i].present || obs[i].tombstone))
      && (d.found ==> exists i :: 0 <= i < |obs| && Witnesses(obs, i, d))
  {
    var votes, d := VotesOf(obs), Verdict(VotesOf(obs), deviceCount);
    VotesOfKeys(obs);
    if i :| 0 <= i < |obs| && (obs[i].present || obs[i].tombstone) { VotesOfMember(obs, i); }
    if d.found {
      WinnerHasHolders(votes, deviceCount);
      assert d.winningDeviceID in Holders(votes, d.winningChecksum);
      var k :| 0 <= k < |obs| && obs[k].deviceID == d.winningDeviceID;
      VotesOfMember(obs, k);
      assert Witnesses(obs, k, d);
    }
  }

  method Resolve(obs: seq<Observation>, deviceCount: int) returns (d: Decision)
    requires ValidIDs(obs)
    ensures d == Verdict(VotesOf(obs), deviceCount)
    ensures d.found <==> exists i :: 0 <= i < |obs| && (obs[i].present || obs[i].tombstone)
    ensures d.found ==> exists i :: 0 <= i < |obs| && Witnesses(obs, i, d)
  {
    DecisionIsHeld(obs, deviceCount);
    var voters := FilterVoters(obs);
    ghost var votes := VotesOf(voters);
    if |voters| == 0 {
      return NO_DECISION;
    }
    var winningChecksum, strategy := ChooseChecksum(voters, deviceCount);
    var winningDevice := LowestDeviceWithChecksum(voters, winningChecksum);
    WinnerHasHolders(votes, deviceCount);
    LowestUnique(winningDevice, WinningDevice(votes, deviceCount), Holders(votes, winningChecksum));
    var outliers := CollectOutliers(voters, winningChecksum);
    AscendingEmpty(Outliers(votes, deviceCount));
    d := Decision(winningChecksum, winningDevice, winningChecksum == TOMBSTONE_CHECKSUM,
                  |outliers| > 0, strategy, outliers, true);
  }

  lemma AscendingEmpty(s: set<string>)
    ensures |Ascending(s)| > 0 <==> s != {}
  {
    if s != {} {
      var x :| x in s;
      assert x in Elements(Ascending(s));
    }
  }
}
