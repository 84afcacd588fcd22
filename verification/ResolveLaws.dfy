/** What the resolution policy guarantees, whoever asks. */
module ResolveLaws {
  import opened GoStrings
  import opened Resolve

  /** Neither the order of the observations nor the abstainers matter. */
  lemma SameVotersSameVerdict(obs: seq<Observation>, obs': seq<Observation>, deviceCount: int)
    requires ValidIDs(obs) && ValidIDs(obs')
    requires forall o: Observation :: o.HasOpinion() ==> (o in obs <==> o in obs')
    ensures VotesOf(obs) == VotesOf(obs')
    ensures Verdict(VotesOf(obs), deviceCount) == Verdict(VotesOf(obs'), deviceCount)
  {
    SameVotes(obs, obs');
    SameVotes(obs', obs);
  }

  lemma SameVotes(obs: seq<Observation>, obs': seq<Observation>)
    requires ValidIDs(obs) && ValidIDs(obs')
    requires forall o: Observation :: o.HasOpinion() && o in obs ==> o in obs'
    ensures forall id :: id in VotesOf(obs) ==> id in VotesOf(obs') && VotesOf(obs')[id] == VotesOf(obs)[id]
  {
    VotesOfKeys(obs);
    forall id | id in VotesOf(obs) ensures id in VotesOf(obs') && VotesOf(obs')[id] == VotesOf(obs)[id] {
      var k :| 0 <= k < |obs| && obs[k].deviceID == id && obs[k].HasOpinion() && obs[k].ToVote() == VotesOf(obs)[id];
      assert obs[k] in obs;
      var j :| 0 <= j < |obs'| && obs'[j] == obs[k];
      VotesOfMember(obs', j);
    }
  }

  /** Holders of the winner and outliers partition the voters; the winning
      device is the lowest holder and the outliers come out in order. */
  lemma VerdictPartition(votes: Votes, deviceCount: int)
    requires votes.Keys != {}
    ensures var d := Verdict(votes, deviceCount);
      && d.found
      && d.winningDeviceID in votes && votes[d.winningDeviceID].checksum == d.winningChecksum
      && (forall id :: id in votes && votes[id].checksum == d.winningChecksum ==> LessEq(d.winningDeviceID, id))
      && (forall id :: id in d.outliers <==> id in votes && votes[id].checksum != d.winningChecksum)
      && Sorted(d.outliers) && Distinct(d.outliers)
      && (d.diverged <==> exists id :: id in votes && votes[id].checksum != d.winningChecksum)
  {
    var d := Verdict(votes, deviceCount);
    WinnerHasHolders(votes, deviceCount);
    assert forall id :: id in d.outliers <==> id in Elements(d.outliers);
    assert forall id :: id in votes && votes[id].checksum == d.winningChecksum ==>
        id in Holders(votes, d.winningChecksum);
    if d.diverged {
      var id :| id in Outliers(votes, deviceCount);
      assert votes[id].checksum != d.winningChecksum;
    }
  }

  /** `view` is what some of the devices of `votes` report. */
  ghost predicate PartOf(view: Votes, votes: Votes)
  {
    forall id :: id in view ==> id in votes && view[id] == votes[id]
  }

  lemma HoldersGrow(view: Votes, votes: Votes, checksum: string)
    requires PartOf(view, votes)
    ensures Holders(view, checksum) <= Holders(votes, checksum)
    ensures |Holders(view, checksum)| <= |Holders(votes, checksum)|
  {
    SubsetSize(Holders(view, checksum), Holders(votes, checksum));
  }

  lemma SubsetSize(a: set<string>, b: set<string>)
    requires a <= b
    ensures |a| <= |b|
    ensures |a| == |b| ==> a == b
  {
    assert b == a + (b - a);
    assert |b| == |a| + |b - a|;
    if |a| == |b| { assert b - a == {}; }
  }

  /** Two different checksums cannot both be held by more than half. */
  /** What the reported strategy says about the verdict; without voters it says nothing at all. */
  lemma StrategyTells(votes: Votes, deviceCount: int)
    requires |votes| <= deviceCount
    ensures var d := Verdict(votes, deviceCount);
      && (votes.Keys == {} <==> d.strategy == StrategyNone)
      && (votes.Keys == {} ==> !d.found && !d.deleted && !d.diverged && d.outliers == [] && d.winningDeviceID == "")
      && (d.strategy == StrategyLWW <==> votes.Keys != {} && deviceCount < 3)
      && (d.strategy == StrategyMajority <==>
            votes.Keys != {} && deviceCount >= 3 && 2 * |Holders(votes, d.winningChecksum)| > deviceCount)
      && (d.strategy == StrategyMajorityLWW ==> d.winningChecksum == votes[Newest(votes)].checksum)
  {
    if votes.Keys != {} && deviceCount >= 3 {
      var c := WinningChecksum(votes, deviceCount);
      WinnerHasHolders(votes, deviceCount);
      if Majorities(votes, deviceCount) != {} {
        assert LowestOf(Majorities(votes, deviceCount)) in Majorities(votes, deviceCount);
      } else {
        var id :| id in Holders(votes, c);
        MajoritiesMember(votes, deviceCount);
        assert !IsMajority(votes, deviceCount, votes[id].checksum);
      }
    }
  }

  lemma MajoritiesMeet(votes: Votes, deviceCount: int, c: string, c': string)
    requires |votes| <= deviceCount && IsMajority(votes, deviceCount, c) && IsMajority(votes, deviceCount, c')
    ensures c == c'
  {
    if c != c' {
      var a, b := Holders(votes, c), Holders(votes, c');
      assert a !! b;
      assert |a + b| == |a| + |b|;
      SubsetSize(a + b, votes.Keys);
    }
  }

  lemma MajorityWins(votes: Votes, deviceCount: int, c: string)
    requires 3 <= deviceCount && |votes| <= deviceCount && IsMajority(votes, deviceCount, c)
    ensures votes.Keys != {} && WinningChecksum(votes, deviceCount) == c
    ensures StrategyOf(votes, deviceCount) == StrategyMajority
  {
    assert Holders(votes, c) != {};
    var id :| id in Holders(votes, c);
    assert votes[id].checksum == c;
    assert c in Majorities(votes, deviceCount);
    var w := LowestOf(Majorities(votes, deviceCount));
    MajoritiesMeet(votes, deviceCount, c, w);
  }

  /** Any two partial views of one state that are decided by majority agree. */
  lemma MajorityViewsAgree(votes: Votes, view: Votes, view': Votes, deviceCount: int)
    requires |votes| <= deviceCount && PartOf(view, votes) && PartOf(view', votes)
    requires Verdict(view, deviceCount).strategy == StrategyMajority
    requires Verdict(view', deviceCount).strategy == StrategyMajority
    ensures Verdict(view, deviceCount).winningChecksum == Verdict(view', deviceCount).winningChecksum
  {
    var c, c' := WinningChecksum(view, deviceCount), WinningChecksum(view', deviceCount);
    assert c in Majorities(view, deviceCount) && c' in Majorities(view', deviceCount);
    HoldersGrow(view, votes, c);
    HoldersGrow(view', votes, c');
    MajoritiesMeet(votes, deviceCount, c, c');
  }

  /** Renaming checksums one to one changes neither the source device nor the outliers. */
  lemma RelabelledVerdict(votes: Votes, votes': Votes, deviceCount: int)
    requires |votes| <= deviceCount && votes.Keys == votes'.Keys != {}
    requires forall id :: id in votes ==>
      votes[id].version == votes'[id].version && votes[id].timestamp == votes'[id].timestamp
    requires forall a, b :: a in votes && b in votes ==>
      (votes[a].checksum == votes[b].checksum <==> votes'[a].checksum == votes'[b].checksum)
    ensures WinningDevice(votes, deviceCount) == WinningDevice(votes', deviceCount)
    ensures Outliers(votes, deviceCount) == Outliers(votes', deviceCount)
  {
    assert |votes| == |votes.Keys| && |votes'| == |votes'.Keys|;
    forall id | id in votes
      ensures Holders(votes, votes[id].checksum) == Holders(votes', votes'[id].checksum) {}
    var id := RelabelledWinner(votes, votes', deviceCount);
    assert WinningChecksum(votes, deviceCount) == votes[id].checksum;
    LowestUnique(WinningDevice(votes, deviceCount), WinningDevice(votes', deviceCount),
                 Holders(votes, votes[id].checksum));
  }

  lemma RelabelledWinner(votes: Votes, votes': Votes, deviceCount: int) returns (id: string)
    requires |votes| <= deviceCount && |votes'| <= deviceCount && votes.Keys == votes'.Keys != {}
    requires forall id :: id in votes ==>
      votes[id].version == votes'[id].version && votes[id].timestamp == votes'[id].timestamp
    requires forall id :: id in votes ==> Holders(votes, votes[id].checksum) == Holders(votes', votes'[id].checksum)
    ensures id in votes && votes[id].checksum == WinningChecksum(votes, deviceCount)
    ensures votes'[id].checksum == WinningChecksum(votes', deviceCount)
  {
    if deviceCount >= 3 && exists x :: x in votes && IsMajority(votes, deviceCount, votes[x].checksum) {
      id :| id in votes && IsMajority(votes, deviceCount, votes[id].checksum);
      MajorityWins(votes, deviceCount, votes[id].checksum);
      assert Holders(votes, votes[id].checksum) == Holders(votes', votes'[id].checksum);
      MajorityWins(votes', deviceCount, votes'[id].checksum);
    } else {
      id := Newest(votes);
      if deviceCount >= 3 {
        assert Majorities(votes, deviceCount) == {};
        forall x | x in votes' ensures !IsMajority(votes', deviceCount, votes'[x].checksum) {
          assert Holders(votes, votes[x].checksum) == Holders(votes', votes'[x].checksum);
        }
        assert Majorities(votes', deviceCount) == {};
      }
      NewestUnique(votes', id, Newest(votes'));
    }
  }

  /** Bringing some devices, voters or not, over to the winner changes nothing:
      it stays the winner as long as its own holders keep their copies. */
  lemma ConvertsKeepWinner(votes: Votes, votes': Votes, deviceCount: int)
    requires votes.Keys != {} && votes.Keys <= votes'.Keys && |votes'| <= deviceCount
    requires forall id :: id in votes' ==>
      votes'[id].checksum == WinningChecksum(votes, deviceCount) || (id in votes && votes'[id] == votes[id])
    requires forall id :: id in votes && votes[id].checksum == WinningChecksum(votes, deviceCount) ==>
      votes'[id] == votes[id]
    ensures WinningChecksum(votes', deviceCount) == WinningChecksum(votes, deviceCount)
  {
    var c := WinningChecksum(votes, deviceCount);
    SubsetSize(Holders(votes, c), Holders(votes', c));
    if deviceCount >= 3 && Majorities(votes, deviceCount) != {} {
      assert c in Majorities(votes, deviceCount);
      MajorityWins(votes', deviceCount, c);
    } else if deviceCount >= 3 && Majorities(votes', deviceCount) != {} {
      var c' := LowestOf(Majorities(votes', deviceCount));
      assert c' == c || c' in Majorities(votes, deviceCount) by {
        if c' != c { OldMajority(votes, votes', deviceCount, c, c'); }
      }
    } else {
      NewestStaysWinner(votes, votes', c);
    }
  }

  lemma OldMajority(votes: Votes, votes': Votes, deviceCount: int, c: string, c': string)
    requires forall id :: id in votes' ==> votes'[id].checksum == c || (id in votes && votes'[id] == votes[id])
    requires c' != c && c' in Majorities(votes', deviceCount)
    ensures c' in Majorities(votes, deviceCount)
  {
    SubsetSize(Holders(votes', c'), Holders(votes, c'));
    var id :| id in votes' && votes'[id].checksum == c';
    assert votes[id].checksum == c';
  }

  lemma NewestStaysWinner(votes: Votes, votes': Votes, c: string)
    requires votes.Keys != {} && votes.Keys <= votes'.Keys && votes[Newest(votes)].checksum == c
    requires forall id :: id in votes' ==> votes'[id].checksum == c || (id in votes && votes'[id] == votes[id])
    requires forall id :: id in votes && votes[id].checksum == c ==> votes'[id] == votes[id]
    ensures votes'[Newest(votes')].checksum == c
  {
    var best, best' := Newest(votes), Newest(votes');
    if votes'[best'].checksum != c {
      BeatsTotal(best, votes[best], best', votes[best']);
    }
  }

  // ------------------------------------------------------------- quorum writes

  /** The devices of `holders` vote for `c` at `version`; whoever votes for
      something else has an older version. */
  ghost predicate Outlasts(votes: Votes, c: string, version: int, holders: set<string>)
  {
    && holders <= votes.Keys
    && (forall d :: d in holders ==> votes[d].checksum == c && votes[d].version == version)
    && (forall d :: d in votes && votes[d].checksum != c ==> votes[d].version < version)
  }

  /** A strict majority of the devices, or any device when there are at most two. */
  ghost predicate Quorum(holders: set<string>, deviceCount: int)
  {
    holders != {} && (deviceCount >= 3 ==> 2 * |holders| > deviceCount)
  }

  ghost function Restrict(votes: Votes, view: set<string>): Votes
  {
    map d | d in votes && d in view :: votes[d]
  }

  lemma OutvotesOld(votes: Votes, deviceCount: int, c: string, version: int, holders: set<string>,
                    view: set<string>, c': string)
    requires Outlasts(votes, c, version, holders) && 2 * |holders| > deviceCount >= |votes|
    requires c' != c
    ensures !IsMajority(Restrict(votes, view), deviceCount, c')
  {
    var others := Holders(Restrict(votes, view), c');
    assert others !! holders;
    SubsetSize(others + holders, votes.Keys);
    assert |others + holders| == |others| + |holders|;
    assert |votes| == |votes.Keys|;
  }

  /** No content other than `c` is held by a majority. */
  ghost predicate Uncontested(votes: Votes, deviceCount: int, c: string)
  {
    deviceCount >= 3 ==> forall d :: d in votes && votes[d].checksum != c ==>
      !IsMajority(votes, deviceCount, votes[d].checksum)
  }

  lemma MajoritiesMember(votes: Votes, deviceCount: int)
    ensures (exists d :: d in votes && IsMajority(votes, deviceCount, votes[d].checksum)) ==>
      Majorities(votes, deviceCount) != {}
  {
    if d :| d in votes && IsMajority(votes, deviceCount, votes[d].checksum) {
      assert votes[d].checksum in Majorities(votes, deviceCount);
    }
  }

  /** The newest write wins exactly when no older content has a majority. */
  lemma NewestWinsUnlessOutvoted(votes: Votes, deviceCount: int, c: string, version: int, holders: set<string>)
    requires Outlasts(votes, c, version, holders) && holders != {} && |votes| <= deviceCount
    ensures votes.Keys != {}
    ensures WinningChecksum(votes, deviceCount) == c <==> Uncontested(votes, deviceCount, c)
  {
    var h :| h in holders;
    assert h in votes;
    if deviceCount >= 3 && Majorities(votes, deviceCount) != {} {
      var w := LowestOf(Majorities(votes, deviceCount));
      assert IsMajority(votes, deviceCount, w);
      if !Uncontested(votes, deviceCount, c) {
        var d :| d in votes && votes[d].checksum != c && IsMajority(votes, deviceCount, votes[d].checksum);
        MajorityWins(votes, deviceCount, votes[d].checksum);
      }
    } else {
      var best := Newest(votes);
      assert best == h || Beats(best, votes[best], h, votes[h]);
      MajoritiesMember(votes, deviceCount);
    }
  }

  /** A newest write accepted by a quorum wins every view with one of its holders. */
  lemma QuorumWins(votes: Votes, deviceCount: int, c: string, version: int, holders: set<string>, view: set<string>)
    requires Outlasts(votes, c, version, holders) && Quorum(holders, deviceCount) && |votes| <= deviceCount
    requires view * holders != {}
    ensures Restrict(votes, view).Keys != {} && WinningChecksum(Restrict(votes, view), deviceCount) == c
  {
    var seen := Restrict(votes, view);
    assert Outlasts(seen, c, version, view * holders);
    SubsetSize(seen.Keys, votes.Keys);
    assert |seen| == |seen.Keys| && |votes| == |votes.Keys|;
    if deviceCount >= 3 {
      forall d | d in seen && seen[d].checksum != c ensures !IsMajority(seen, deviceCount, seen[d].checksum) {
        OutvotesOld(votes, deviceCount, c, version, holders, view, seen[d].checksum);
      }
    }
    NewestWinsUnlessOutvoted(seen, deviceCount, c, version, view * holders);
  }
}
