/** The two readers of a secret, the API and the HSMSecret controller. */
module Readers {
  import opened GoStrings
  import opened Resolve
  import opened ResolveLaws
  import opened Checksum
  import opened Replica
  import opened Mirror
  import opened MirrorConvergence
  import opened ApiWrite

  /** The data and labels read from one device. */
  datatype DeviceRead = DeviceRead(data: SecretData, labels: Labels)

  type Reads = map<string, DeviceRead>

  function ReadObservation(id: string, sum: string, labels: Labels): Observation
  {
    Observation(id, !labels.deleted, labels.deleted, sum, MetadataVersion(labels), MetadataTimestamp(labels))
  }

  ghost function ReadVotes(hex: string -> string, copies: Reads): Votes
  {
    map d | d in copies :: ReadObservation(d, HsmSum(hex, copies[d].data), copies[d].labels).ToVote()
  }

  /** The data a reader should return: the winner's, unless there is none or it
      is a tombstone. */
  ghost function Authoritative(hex: string -> string, copies: Reads, deviceCount: int): Option<SecretData>
  {
    var votes := ReadVotes(hex, copies);
    if votes.Keys == {} || WinningChecksum(votes, deviceCount) == TOMBSTONE_CHECKSUM then None
    else
      WinnerHasHolders(votes, deviceCount);
      Some(copies[WinningDevice(votes, deviceCount)].data)
  }

  // ---------------------------------------------------- reading the devices

  /** What an opened client answers when it is asked for the secret. */
  datatype Answer = ReadFails | Holds(read: DeviceRead)

  ghost function HeldIn(devices: set<string>, answers: map<string, Answer>): Reads
  {
    map d | d in devices && d in answers && answers[d].Holds? :: answers[d].read
  }

  /** The controller opens a client of its own for each device and lists its secrets before it reads. */
  datatype Visit = Unreachable | ListFails | NotListed | Listed(answer: Answer)

  ghost function Captured(devices: set<string>, visits: map<string, Visit>): Reads
  {
    map d | d in devices && d in visits && visits[d].Listed? && visits[d].answer.Holds? :: visits[d].answer.read
  }

  /** The devices the controller has an observation of. */
  ghost function Spoken(devices: set<string>, visits: map<string, Visit>): set<string>
  {
    set d | d in devices && d in visits && (visits[d].NotListed? || (visits[d].Listed? && visits[d].answer.Holds?))
  }

  ghost function IDs(obs: seq<Observation>): set<string>
  {
    set o | o in obs :: o.deviceID
  }

  /** Observations of the devices in `ids`, one each, with the reads behind them. */
  ghost predicate Gathered(hex: string -> string, obs: seq<Observation>, copies: Reads, ids: set<string>)
  {
    ValidIDs(obs) && VotesOf(obs) == ReadVotes(hex, copies) && IDs(obs) == ids
  }

  lemma ReadVotesStep(hex: string -> string, copies: Reads, d: string, r: DeviceRead)
    ensures ReadVotes(hex, copies[d := r]) ==
      ReadVotes(hex, copies)[d := ReadObservation(d, HsmSum(hex, r.data), r.labels).ToVote()]
  {}

  lemma IDsSnoc(obs: seq<Observation>, o: Observation)
    requires ValidIDs(obs) && o.deviceID !in IDs(obs) && o.deviceID != ""
    ensures ValidIDs(obs + [o]) && IDs(obs + [o]) == IDs(obs) + {o.deviceID}
  {
    forall i | 0 <= i < |obs| ensures obs[i].deviceID != o.deviceID { assert obs[i] in obs; }
    ValidSnoc(obs, o);
    forall id | id in IDs(obs) + {o.deviceID} ensures id in IDs(obs + [o]) {
      if id == o.deviceID {
        assert o in obs + [o];
      } else {
        var p :| p in obs && p.deviceID == id;
        assert p in obs + [o];
      }
    }
  }

  lemma GatherRead(hex: string -> string, obs: seq<Observation>, copies: Reads, ids: set<string>, d: string,
                   r: DeviceRead)
    requires Gathered(hex, obs, copies, ids) && d !in ids && d != ""
    ensures Gathered(hex, obs + [ReadObservation(d, HsmSum(hex, r.data), r.labels)], copies[d := r], ids + {d})
  {
    var o := ReadObservation(d, HsmSum(hex, r.data), r.labels);
    VotesOfSnoc(obs, o);
    ReadVotesStep(hex, copies, d, r);
    IDsSnoc(obs, o);
  }

  lemma GatherNothing(hex: string -> string, obs: seq<Observation>, copies: Reads, ids: set<string>, d: string)
    requires Gathered(hex, obs, copies, ids) && d !in ids && d != ""
    ensures Gathered(hex, obs + [Observation(d, false, false, "", 0, 0)], copies, ids + {d})
  {
    VotesOfSnoc(obs, Observation(d, false, false, "", 0, 0));
    IDsSnoc(obs, Observation(d, false, false, "", 0, 0));
  }

  lemma CapturedStep(devices: set<string>, visits: map<string, Visit>, d: string)
    requires d in visits && d !in devices
    ensures Captured(devices + {d}, visits) ==
      if visits[d].Listed? && visits[d].answer.Holds? then Captured(devices, visits)[d := visits[d].answer.read]
      else Captured(devices, visits)
    ensures Spoken(devices + {d}, visits) ==
      if visits[d].NotListed? || (visits[d].Listed? && visits[d].answer.Holds?) then Spoken(devices, visits) + {d}
      else Spoken(devices, visits)
  {}

  /** The controller's loop over the available devices. */
  method GatherSecretObservations(hex: string -> string, devices: seq<string>, visits: map<string, Visit>)
    returns (obs: seq<Observation>, copies: Reads)
    requires Distinct(devices) && "" !in devices && Elements(devices) <= visits.Keys
    ensures copies == Captured(Elements(devices), visits)
    ensures Gathered(hex, obs, copies, Spoken(Elements(devices), visits))
  {
    obs, copies := [], map[];
    for k := 0 to |devices|
      invariant copies == Captured(Elements(devices[..k]), visits)
      invariant Gathered(hex, obs, copies, Spoken(Elements(devices[..k]), visits))
    {
      var d := devices[k];
      ArrivalStep(devices, k);
      CapturedStep(Elements(devices[..k]), visits, d);
      match visits[d]
      case Listed(answer) =>
        if answer.Holds? {
          GatherRead(hex, obs, copies, Spoken(Elements(devices[..k]), visits), d, answer.read);
          var sum := CalculateChecksum(hex, answer.read.data);
          copies := copies[d := answer.read];
          obs := obs + [ReadObservation(d, sum, answer.read.labels)];
        }
      case NotListed =>
        GatherNothing(hex, obs, copies, Spoken(Elements(devices[..k]), visits), d);
        obs := obs + [Observation(d, false, false, "", 0, 0)];
      case _ =>
    }
    assert devices[..|devices|] == devices;
  }

  datatype ControllerResult = NotFound | NotCaptured | Found(data: SecretData)

  ghost function AsResult(data: Option<SecretData>): ControllerResult
  {
    if data.Some? then Found(data.value) else NotFound
  }

  /** The read half of the controller's Reconcile, which counts every available device. */
  method ReconcileRead(hex: string -> string, devices: seq<string>, visits: map<string, Visit>)
    returns (r: ControllerResult)
    requires Distinct(devices) && "" !in devices && Elements(devices) <= visits.Keys
    ensures r != NotCaptured
    ensures r == AsResult(Authoritative(hex, Captured(Elements(devices), visits), |devices|))
  {
    var obs, copies := GatherSecretObservations(hex, devices, visits);
    var decision := Resolve.Resolve(obs, |devices|);
    if !decision.found || decision.deleted {
      return NotFound;
    }
    WinnerHasHolders(ReadVotes(hex, copies), |devices|);
    if decision.winningDeviceID !in copies {
      return NotCaptured;
    }
    return Found(copies[decision.winningDeviceID].data);
  }

  /** One successful read of the API, as it arrives. */
  datatype SecretResult = SecretResult(deviceName: string, read: DeviceRead)

  ghost function ReadsOf(results: seq<SecretResult>): Reads
  {
    if results == [] then map[]
    else ReadsOf(results[..|results| - 1])[results[|results| - 1].deviceName := results[|results| - 1].read]
  }

  lemma ReadsOfSnoc(results: seq<SecretResult>, r: SecretResult)
    ensures ReadsOf(results + [r]) == ReadsOf(results)[r.deviceName := r.read]
  {
    assert (results + [r])[..|results|] == results;
  }

  ghost predicate ValidNames(results: seq<SecretResult>)
  {
    && (forall i :: 0 <= i < |results| ==> results[i].deviceName != "")
    && (forall i, j :: 0 <= i < j < |results| ==> results[i].deviceName != results[j].deviceName)
  }

  ghost function Names(results: seq<SecretResult>): set<string>
  {
    set r | r in results :: r.deviceName
  }

  lemma NamesStep(results: seq<SecretResult>, k: nat)
    requires ValidNames(results) && k < |results|
    ensures results[k].deviceName !in Names(results[..k])
    ensures Names(results[..k+1]) == Names(results[..k]) + {results[k].deviceName}
  {
    assert results[..k+1] == results[..k] + [results[k]];
  }

  method FindMostRecentSecretResult(hex: string -> string, results: seq<SecretResult>, deviceCount: int)
    returns (data: Option<SecretData>)
    requires ValidNames(results)
    ensures data == Authoritative(hex, ReadsOf(results), deviceCount)
  {
    if |results| == 0 {
      return None;
    }
    var obs: seq<Observation>, dataByDevice: Reads := [], map[];
    for k := 0 to |results|
      invariant dataByDevice == ReadsOf(results[..k])
      invariant Gathered(hex, obs, dataByDevice, Names(results[..k]))
    {
      var r := results[k];
      NamesStep(results, k);
      ReadsOfSnoc(results[..k], r);
      assert results[..k+1] == results[..k] + [r];
      GatherRead(hex, obs, dataByDevice, Names(results[..k]), r.deviceName, r.read);
      var sum := CalculateChecksum(hex, r.read.data);
      dataByDevice := dataByDevice[r.deviceName := r.read];
      obs := obs + [ReadObservation(r.deviceName, sum, r.read.labels)];
    }
    assert results[..|results|] == results;
    var decision := Resolve.Resolve(obs, deviceCount);
    if !decision.found || decision.deleted {
      return None;
    }
    WinnerHasHolders(ReadVotes(hex, dataByDevice), deviceCount);
    return Some(dataByDevice[decision.winningDeviceID].data);
  }

  /** The results collected from the first `k` clients to answer. */
  ghost predicate CollectedUpto(results: seq<SecretResult>, arrival: seq<string>, k: nat, answers: map<string, Answer>)
    requires k <= |arrival| && Elements(arrival) <= answers.Keys
  {
    && ReadsOf(results) == HeldIn(Elements(arrival[..k]), answers)
    && ValidNames(results)
    && forall i :: 0 <= i < |results| ==> results[i].deviceName in Elements(arrival[..k])
  }

  lemma ArrivalStep(arrival: seq<string>, k: nat)
    requires Distinct(arrival) && k < |arrival|
    ensures arrival[k] in Elements(arrival) && arrival[k] !in Elements(arrival[..k])
    ensures Elements(arrival[..k+1]) == Elements(arrival[..k]) + {arrival[k]}
  {}

  lemma CollectedStep(results: seq<SecretResult>, arrival: seq<string>, k: nat, answers: map<string, Answer>)
    requires Distinct(arrival) && "" !in arrival && Elements(arrival) <= answers.Keys && k < |arrival|
    requires CollectedUpto(results, arrival, k, answers)
    ensures arrival[k] in answers
    ensures answers[arrival[k]].Holds? ==>
      CollectedUpto(results + [SecretResult(arrival[k], answers[arrival[k]].read)], arrival, k + 1, answers)
    ensures !answers[arrival[k]].Holds? ==> CollectedUpto(results, arrival, k + 1, answers)
  {
    ArrivalStep(arrival, k);
    HeldInStep(Elements(arrival[..k]), answers, arrival[k]);
    if answers[arrival[k]].Holds? { ReadsOfSnoc(results, SecretResult(arrival[k], answers[arrival[k]].read)); }
  }

  lemma HeldInStep(devices: set<string>, answers: map<string, Answer>, d: string)
    requires d in answers && d !in devices
    ensures HeldIn(devices + {d}, answers) ==
      if answers[d].Holds? then HeldIn(devices, answers)[d := answers[d].read] else HeldIn(devices, answers)
  {}

  /** The API read: `arrival` are the clients that could be opened, in the order they answer, and their number is
  the count the resolver is given. */
  method ReadSecret(hex: string -> string, arrival: seq<string>, answers: map<string, Answer>)
    returns (data: Option<SecretData>)
    requires Distinct(arrival) && "" !in arrival && Elements(arrival) <= answers.Keys
    ensures data == Authoritative(hex, HeldIn(Elements(arrival), answers), |arrival|)
  {
    var results: seq<SecretResult> := [];
    for k := 0 to |arrival|
      invariant CollectedUpto(results, arrival, k, answers)
    {
      CollectedStep(results, arrival, k, answers);
      if answers[arrival[k]].Holds? {
        results := results + [SecretResult(arrival[k], answers[arrival[k]].read)];
      }
    }
    assert arrival[..|arrival|] == arrival;
    data := FindMostRecentSecretResult(hex, results, |arrival|);
  }

  // ------------------------------------------------ what a reader answers

  /** What a copy says, read off its labels: a deletion, or some data. */
  datatype Content = Deletion | Live(sum: string)

  ghost function ContentOf(hex: string -> string, r: DeviceRead): Content
  {
    if r.labels.deleted then Deletion else Live(HsmSum(hex, r.data))
  }

  ghost function VersionOf(r: DeviceRead): int
  {
    match r.labels.version
    case Counter(n) => n
    case _ => 0
  }

  /** A copy without a timestamp counts as written at the time its version spells. */
  ghost function TimeOf(r: DeviceRead): int
  {
    match r.labels.time
    case Some(t) => t
    case None => VersionOf(r)
  }

  ghost predicate Later(copies: Reads, d: string, e: string)
    requires d in copies && e in copies
  {
    var v, v', t, t' := VersionOf(copies[d]), VersionOf(copies[e]), TimeOf(copies[d]), TimeOf(copies[e]);
    v > v' || (v == v' && (t > t' || (t == t' && Less(d, e))))
  }

  ghost predicate LastWritten(copies: Reads, d: string)
  {
    d in copies && forall e :: e in copies && e != d ==> Later(copies, d, e)
  }

  ghost function Backers(hex: string -> string, copies: Reads, k: Content): set<string>
  {
    set d | d in copies && ContentOf(hex, copies[d]) == k
  }

  /** More than half of three or more devices hold the content. */
  ghost predicate Backed(hex: string -> string, copies: Reads, n: int, k: Content)
  {
    n >= 3 && 2 * |Backers(hex, copies, k)| > n
  }

  /** The content that should be answered: what most devices hold, or else what was written last. */
  ghost predicate Prevails(hex: string -> string, copies: Reads, n: int, k: Content)
  {
    || Backed(hex, copies, n, k)
    || ((forall k' :: !Backed(hex, copies, n, k')) &&
        exists d :: LastWritten(copies, d) && ContentOf(hex, copies[d]) == k)
  }

  ghost function SumOf(k: Content): string
  {
    if k.Deletion? then TOMBSTONE_CHECKSUM else k.sum
  }

  lemma VoteOfRead(hex: string -> string, copies: Reads, d: string)
    requires d in copies
    ensures ReadVotes(hex, copies)[d] ==
      Vote(SumOf(ContentOf(hex, copies[d])), VersionOf(copies[d]), TimeOf(copies[d]))
  {}

  lemma BackersAreHolders(hex: string -> string, copies: Reads, d: string, n: int)
    requires d in copies
    ensures var k := ContentOf(hex, copies[d]);
      && Holders(ReadVotes(hex, copies), SumOf(k)) == Backers(hex, copies, k)
      && (n >= 3 ==> (IsMajority(ReadVotes(hex, copies), n, SumOf(k)) <==> Backed(hex, copies, n, k)))
  {
    var k := ContentOf(hex, copies[d]);
    forall e | e in copies
      ensures e in Holders(ReadVotes(hex, copies), SumOf(k)) <==> e in Backers(hex, copies, k)
    {
      VoteOfRead(hex, copies, e);
      SumsAgree(hex, copies[e].data, copies[d].data);
      SumsAgree(hex, copies[d].data, copies[e].data);
    }
    assert Holders(ReadVotes(hex, copies), SumOf(k)) == Backers(hex, copies, k);
  }

  lemma BackedHasBacker(hex: string -> string, copies: Reads, n: int, k: Content) returns (d: string)
    requires Backed(hex, copies, n, k)
    ensures d in copies && ContentOf(hex, copies[d]) == k
  {
    assert Backers(hex, copies, k) != {};
    d :| d in Backers(hex, copies, k);
  }

  lemma LastIsNewest(hex: string -> string, copies: Reads, d: string)
    requires copies.Keys != {}
    ensures ReadVotes(hex, copies).Keys != {}
    ensures LastWritten(copies, d) <==> d == Newest(ReadVotes(hex, copies))
  {
    var votes := ReadVotes(hex, copies);
    assert votes.Keys == copies.Keys;
    forall e | e in copies ensures votes[e] ==
      Vote(SumOf(ContentOf(hex, copies[e])), VersionOf(copies[e]), TimeOf(copies[e])) {
      VoteOfRead(hex, copies, e);
    }
    assert LastWritten(copies, d) <==> IsNewest(votes, d);
    if LastWritten(copies, d) { NewestUnique(votes, d, Newest(votes)); }
  }

  lemma PrevailingWins(hex: string -> string, copies: Reads, n: int, k: Content)
    requires copies.Keys != {} && |copies| <= n && Prevails(hex, copies, n, k)
    ensures ReadVotes(hex, copies).Keys != {} && WinningChecksum(ReadVotes(hex, copies), n) == SumOf(k)
    ensures Backers(hex, copies, k) == Holders(ReadVotes(hex, copies), SumOf(k)) != {}
  {
    var votes := ReadVotes(hex, copies);
    OneVoteEach(hex, copies);
    if Backed(hex, copies, n, k) {
      var d := BackedHasBacker(hex, copies, n, k);
      BackersAreHolders(hex, copies, d, n);
      MajorityWins(votes, n, SumOf(k));
      assert d in Backers(hex, copies, k);
    } else {
      var d :| LastWritten(copies, d) && ContentOf(hex, copies[d]) == k;
      LastIsNewest(hex, copies, d);
      VoteOfRead(hex, copies, d);
      forall e | e in votes ensures n >= 3 ==> !IsMajority(votes, n, votes[e].checksum) {
        BackersAreHolders(hex, copies, e, n);
        VoteOfRead(hex, copies, e);
      }
      NoMajorityNewest(votes, n);
      BackersAreHolders(hex, copies, d, n);
      assert d in Backers(hex, copies, k);
    }
  }

  /** What a reader answers, in terms of the copies alone: nothing if what prevails is a deletion, otherwise the
  data of the lowest device that holds what prevails. */
  lemma ReadAnswers(hex: string -> string, copies: Reads, n: int, k: Content)
    requires copies.Keys != {} && |copies| <= n && Prevails(hex, copies, n, k)
    ensures k.Deletion? ==> Authoritative(hex, copies, n) == None
    ensures k.Live? ==>
      exists d :: IsLowest(d, Backers(hex, copies, k)) && Authoritative(hex, copies, n) == Some(copies[d].data)
  {
    var votes := ReadVotes(hex, copies);
    PrevailingWins(hex, copies, n, k);
    var w := WinningDevice(votes, n);
    assert IsLowest(w, Backers(hex, copies, k));
    SumsAgree(hex, copies[w].data, copies[w].data);
  }

  /** Exactly one content prevails. */
  lemma OnePrevails(hex: string -> string, copies: Reads, n: int) returns (k: Content)
    requires copies.Keys != {} && |copies| <= n
    ensures Prevails(hex, copies, n, k) && forall k' :: Prevails(hex, copies, n, k') ==> k' == k
  {
    var d := Newest(ReadVotes(hex, copies));
    if k' :| Backed(hex, copies, n, k') {
      k := k';
    } else {
      LastIsNewest(hex, copies, d);
      k := ContentOf(hex, copies[d]);
    }
    forall k' | Prevails(hex, copies, n, k') ensures k' == k {
      PrevailingWins(hex, copies, n, k);
      PrevailingWins(hex, copies, n, k');
      var e :| e in Backers(hex, copies, k);
      assert e in Backers(hex, copies, k');
    }
  }

  /** What was written last prevails if and only if nothing else is held by most devices. */
  lemma LastPrevailsIff(hex: string -> string, copies: Reads, n: int, d: string)
    requires LastWritten(copies, d) && |copies| <= n
    ensures var k := ContentOf(hex, copies[d]);
      Prevails(hex, copies, n, k) <==> forall k' :: k' != k ==> !Backed(hex, copies, n, k')
  {
    var k := ContentOf(hex, copies[d]);
    var only := OnePrevails(hex, copies, n);
    if Prevails(hex, copies, n, k) {
      forall k' | k' != k ensures !Backed(hex, copies, n, k') { assert !Prevails(hex, copies, n, k'); }
    }
  }

  /** No reader ever answers with the data of a deleted copy. */
  lemma NeverServesDeleted(hex: string -> string, copies: Reads, n: int)
    requires |copies| <= n
    ensures var r := Authoritative(hex, copies, n);
      r.Some? ==> exists d :: d in copies && !copies[d].labels.deleted && copies[d].data == r.value
  {
    if copies.Keys != {} {
      var k := OnePrevails(hex, copies, n);
      ReadAnswers(hex, copies, n, k);
    }
  }

  /** The exact condition for a secret to read as not found: nothing was read, or the deletion prevails. */
  lemma NotFoundIff(hex: string -> string, copies: Reads, n: int)
    requires |copies| <= n
    ensures Authoritative(hex, copies, n) == None <==> copies.Keys == {} || Prevails(hex, copies, n, Deletion)
  {
    if copies.Keys != {} {
      var k := OnePrevails(hex, copies, n);
      ReadAnswers(hex, copies, n, k);
    }
  }

  // ------------------------------------------------- when the readers agree

  /** A content that would win among `m` devices but not among `n`, and is not the newest. */
  ghost predicate Overcounted(votes: Votes, m: int, n: int, c: string)
    requires votes.Keys != {}
  {
    m >= 3 && IsMajority(votes, m, c) && !IsMajority(votes, n, c) && c != votes[Newest(votes)].checksum
  }

  lemma NoMajorityNewest(votes: Votes, n: int)
    requires votes.Keys != {}
    requires n >= 3 ==> forall d :: d in votes ==> !IsMajority(votes, n, votes[d].checksum)
    ensures WinningChecksum(votes, n) == votes[Newest(votes)].checksum
  {}

  /** With few voters a majority is unanimous, so it is the newest content as well. */
  lemma FewVoters(votes: Votes, m: int, n: int)
    requires votes.Keys != {} && |votes| <= m < 3 && m <= n
    ensures WinningChecksum(votes, n) == votes[Newest(votes)].checksum
  {
    if n >= 3 {
      if d :| d in votes && IsMajority(votes, n, votes[d].checksum) {
        SubsetSize(Holders(votes, votes[d].checksum), votes.Keys);
        assert |votes| == |votes.Keys|;
        assert Newest(votes) in Holders(votes, votes[d].checksum);
        MajorityWins(votes, n, votes[d].checksum);
      } else {
        NoMajorityNewest(votes, n);
      }
    }
  }

  lemma MajorityShrinks(votes: Votes, m: int, n: int, c: string)
    requires 0 <= m <= n && IsMajority(votes, n, c)
    ensures IsMajority(votes, m, c)
  {}

  /** The same votes counted out of `m` and out of `n >= m` devices name different contents exactly when
  some content has a majority of the `m`, none of the `n`, and is not the newest. */
  lemma CountsDifferIff(votes: Votes, m: int, n: int)
    requires votes.Keys != {} && |votes| <= m <= n
    ensures WinningChecksum(votes, m) != WinningChecksum(votes, n) <==> exists c :: Overcounted(votes, m, n, c)
  {
    if m < 3 {
      FewVoters(votes, m, m);
      FewVoters(votes, m, n);
    } else if d :| d in votes && IsMajority(votes, m, votes[d].checksum) {
      MajorityCounts(votes, m, n, votes[d].checksum);
    } else {
      forall d | d in votes ensures !IsMajority(votes, n, votes[d].checksum) {
        if IsMajority(votes, n, votes[d].checksum) { MajorityShrinks(votes, m, n, votes[d].checksum); }
      }
      NoMajorityNewest(votes, m);
      NoMajorityNewest(votes, n);
      forall c ensures !Overcounted(votes, m, n, c) {
        if IsMajority(votes, m, c) { MajorityWins(votes, m, c); }
      }
    }
  }

  lemma MajorityCounts(votes: Votes, m: int, n: int, c: string)
    requires votes.Keys != {} && |votes| <= m <= n && m >= 3 && IsMajority(votes, m, c)
    ensures WinningChecksum(votes, m) != WinningChecksum(votes, n) <==> exists c' :: Overcounted(votes, m, n, c')
  {
    MajorityWins(votes, m, c);
    if IsMajority(votes, n, c) {
      MajorityWins(votes, n, c);
      forall c' ensures !Overcounted(votes, m, n, c') {
        if IsMajority(votes, m, c') { MajoritiesMeet(votes, m, c, c'); }
      }
    } else {
      forall d | d in votes ensures !IsMajority(votes, n, votes[d].checksum) {
        if IsMajority(votes, n, votes[d].checksum) {
          MajorityShrinks(votes, m, n, votes[d].checksum);
          MajoritiesMeet(votes, m, c, votes[d].checksum);
        }
      }
      NoMajorityNewest(votes, n);
      if c != votes[Newest(votes)].checksum {
        assert Overcounted(votes, m, n, c);
      } else {
        forall c' ensures !Overcounted(votes, m, n, c') {
          if IsMajority(votes, m, c') { MajoritiesMeet(votes, m, c, c'); }
        }
      }
    }
  }

  /** The data returned for one set of copies depends on the count only through the winning content. */
  lemma SameWinnerSameData(hex: string -> string, copies: Reads, m: int, n: int)
    requires copies.Keys != {}
    ensures var votes := ReadVotes(hex, copies);
      && votes.Keys != {}
      && (Authoritative(hex, copies, m) == Authoritative(hex, copies, n) <==>
          WinningChecksum(votes, m) == WinningChecksum(votes, n))
  {
    var votes := ReadVotes(hex, copies);
    assert votes.Keys == copies.Keys;
    ReturnedContent(hex, copies, m);
    ReturnedContent(hex, copies, n);
  }

  lemma ReturnedContent(hex: string -> string, copies: Reads, n: int)
    requires copies.Keys != {}
    ensures var votes, data := ReadVotes(hex, copies), Authoritative(hex, copies, n);
      && votes.Keys != {}
      && (data.None? <==> WinningChecksum(votes, n) == TOMBSTONE_CHECKSUM)
      && (data.Some? ==> HsmSum(hex, data.value) == WinningChecksum(votes, n))
  {
    var votes := ReadVotes(hex, copies);
    assert votes.Keys == copies.Keys;
    WinnerHasHolders(votes, n);
    var w := WinningDevice(votes, n);
    assert w in Holders(votes, WinningChecksum(votes, n));
    SumsAgree(hex, copies[w].data, copies[w].data);
  }

  /** Reader agreement: two readers with the same copies, one counting `m` devices and the other `n`, return the same if
  and only if no content is overcounted. */
  lemma ReadersAgreeIff(hex: string -> string, copies: Reads, m: int, n: int)
    requires copies.Keys != {} && |copies| <= m <= n
    ensures ReadVotes(hex, copies).Keys != {}
    ensures Authoritative(hex, copies, m) == Authoritative(hex, copies, n) <==>
            !exists c :: Overcounted(ReadVotes(hex, copies), m, n, c)
  {
    OneVoteEach(hex, copies);
    SameWinnerSameData(hex, copies, m, n);
    CountsDifferIff(ReadVotes(hex, copies), m, n);
  }

  lemma OneVoteEach(hex: string -> string, copies: Reads)
    ensures ReadVotes(hex, copies).Keys == copies.Keys && |ReadVotes(hex, copies)| == |copies|
  {
    assert ReadVotes(hex, copies).Keys == copies.Keys;
    assert |ReadVotes(hex, copies)| == |ReadVotes(hex, copies).Keys| && |copies| == |copies.Keys|;
  }

  /** Where the API gets a copy the controller gets the same, and from no other device does it get one: such
  a device may be out of reach, fail to list or to read, or lack the secret. */
  ghost predicate SameAnswers(devices: set<string>, visits: map<string, Visit>,
                              clients: set<string>, answers: map<string, Answer>)
  {
    && clients <= devices
    && forall d :: d in devices && d in visits ==>
         if d in clients && d in answers && answers[d].Holds? then visits[d] == Listed(answers[d])
         else !(visits[d].Listed? && visits[d].answer.Holds?)
  }

  lemma SameCopies(devices: set<string>, visits: map<string, Visit>, clients: set<string>, answers: map<string, Answer>)
    requires devices <= visits.Keys && clients <= answers.Keys && SameAnswers(devices, visits, clients, answers)
    ensures Captured(devices, visits) == HeldIn(clients, answers)
  {}

  lemma HeldFewer(clients: seq<string>, answers: map<string, Answer>)
    requires Distinct(clients)
    ensures |HeldIn(Elements(clients), answers)| <= |clients|
  {
    var copies := HeldIn(Elements(clients), answers);
    DistinctMultiset(clients);
    assert |clients| == |multiset(clients)| == |Elements(clients)|;
    SubsetSize(copies.Keys, Elements(clients));
    assert |copies| == |copies.Keys|;
  }

  lemma FewerClients(clients: seq<string>, devices: seq<string>)
    requires Distinct(clients) && Distinct(devices) && Elements(clients) <= Elements(devices)
    ensures |clients| <= |devices|
  {
    DistinctMultiset(clients);
    DistinctMultiset(devices);
    assert |clients| == |multiset(clients)| == |Elements(clients)|;
    assert |devices| == |multiset(devices)| == |Elements(devices)|;
    SubsetSize(Elements(clients), Elements(devices));
  }

  /** Both readers over the same devices, whatever the order in which these are asked or answer. */
  method ReadBoth(hex: string -> string, devices: seq<string>, visits: map<string, Visit>,
                  arrival: seq<string>, answers: map<string, Answer>)
    returns (api: Option<SecretData>, controller: ControllerResult)
    requires Distinct(devices) && "" !in devices && Elements(devices) <= visits.Keys
    requires Distinct(arrival) && "" !in arrival && Elements(arrival) <= answers.Keys
    requires SameAnswers(Elements(devices), visits, Elements(arrival), answers)
    ensures controller == AsResult(api) <==>
      !CountsMatter(hex, HeldIn(Elements(arrival), answers), |arrival|, |devices|)
  {
    controller := ReconcileRead(hex, devices, visits);
    api := ReadSecret(hex, arrival, answers);
    SameCopies(Elements(devices), visits, Elements(arrival), answers);
    FewerClients(arrival, devices);
    HeldFewer(arrival, answers);
    ghost var copies := HeldIn(Elements(arrival), answers);
    if copies.Keys != {} { ReadersAgreeIff(hex, copies, |arrival|, |devices|); }
  }

  /** Some content is overcounted when only the opened clients count. */
  ghost predicate CountsMatter(hex: string -> string, copies: Reads, m: int, n: int)
  {
    ReadVotes(hex, copies).Keys != {} && exists c :: Overcounted(ReadVotes(hex, copies), m, n, c)
  }

  // ----------------------------------------------- readers and the mirror

  ghost function AllReads(slots: Slots): Reads
  {
    map d | d in slots && slots[d].Copy? :: DeviceRead(slots[d].data, slots[d].labels)
  }

  ghost predicate NoTombstones(slots: Slots)
  {
    forall d :: d in slots && slots[d].Copy? ==> !slots[d].labels.deleted
  }

  /** On labelled copies without tombstones, the data the readers return is the
      data of the very device the mirror copies from. */
  lemma ReadersAgreeWithMirror(hex: string -> string, slots: Slots, clock: string -> int)
    requires SomeCopy(slots) && FullyLabelled(slots) && NoTombstones(slots)
    ensures Authoritative(hex, AllReads(slots), |slots|) == Some(slots[ChoiceOf(hex, slots, clock).source].data)
  {
    var votes, votes' := SlotVotes(hex, slots, clock), ReadVotes(hex, AllReads(slots));
    VotersExist(hex, slots, clock);
    SubsetSize(votes.Keys, slots.Keys);
    assert |votes| == |votes.Keys| && |slots| == |slots.Keys|;
    assert votes.Keys == votes'.Keys;
    forall d | d in votes
      ensures votes[d].version == votes'[d].version && votes[d].timestamp == votes'[d].timestamp
      ensures votes'[d].checksum == HsmSum(hex, slots[d].data) && votes[d].checksum == MirrorSum(hex, slots[d].data) {}
    forall a, b | a in votes && b in votes
      ensures votes[a].checksum == votes[b].checksum <==> votes'[a].checksum == votes'[b].checksum
    {
      SumsAgree(hex, slots[a].data, slots[b].data);
    }
    RelabelledVerdict(votes, votes', |slots|);
    WinnerHasHolders(votes', |slots|);
    var w := WinningDevice(votes', |slots|);
    SumsAgree(hex, slots[w].data, slots[w].data);
  }

  // --------------------------------------------------------- durable reads

  /** What a reader gets from the devices it hears, the metadata of some of which it cannot read. */
  ghost function ReadsFrom(slots: Slots, heard: set<string>, described: set<string>): Reads
  {
    map d | d in slots && d in heard && slots[d].Copy? ::
      DeviceRead(slots[d].data, LabelsRead(slots[d].labels, d in described))
  }

  lemma WriteOutlastsReads(hex: string -> string, slots: Slots, req: Request, heard: set<string>,
                           described: set<string>)
    requires ReadsAll(slots, req) && !req.deleted
    ensures Outlasts(ReadVotes(hex, ReadsFrom(AfterWrite(slots, req), heard, described)),
                     HsmSum(hex, req.data), Minted(slots, req), heard * described * Accepting(slots, req))
    ensures |ReadVotes(hex, ReadsFrom(AfterWrite(slots, req), heard, described))| <= |heard|
  {
    var after := AfterWrite(slots, req);
    var votes := ReadVotes(hex, ReadsFrom(after, heard, described));
    forall d | d in votes
      ensures votes[d].checksum == HsmSum(hex, req.data) || votes[d].version < Minted(slots, req)
    {
      assert after[d].Copy?;
    }
    SubsetSize(votes.Keys, heard);
    assert |votes| == |votes.Keys|;
  }

  /** A write that read every version is what a reader returns, once it reads one accepting device with its
  metadata, if and only if no other content has a majority of the devices that the reader counts. */
  lemma DurableReadIff(hex: string -> string, slots: Slots, req: Request, heard: set<string>,
                       described: set<string>, count: int)
    requires ReadsAll(slots, req) && !req.deleted && heard * described * Accepting(slots, req) != {}
    requires |heard| <= count
    ensures var seen := ReadsFrom(AfterWrite(slots, req), heard, described);
      var r := Authoritative(hex, seen, count);
      r.Some? && HsmSum(hex, r.value) == HsmSum(hex, req.data) <==>
      Uncontested(ReadVotes(hex, seen), count, HsmSum(hex, req.data))
  {
    var seen := ReadsFrom(AfterWrite(slots, req), heard, described);
    var votes, holders := ReadVotes(hex, seen), heard * described * Accepting(slots, req);
    WriteOutlastsReads(hex, slots, req, heard, described);
    NewestWinsUnlessOutvoted(votes, count, HsmSum(hex, req.data), Minted(slots, req), holders);
    OneVoteEach(hex, seen);
    SumsAgree(hex, req.data, req.data);
    ReturnedContent(hex, seen, count);
  }

  /** Devices that accepted a write vote for nothing else. */
  lemma QuorumUncontested(hex: string -> string, slots: Slots, req: Request, heard: set<string>, described: set<string>)
    requires !req.deleted && Quorum(Accepting(slots, req), |slots|)
    ensures Uncontested(ReadVotes(hex, ReadsFrom(AfterWrite(slots, req), heard, described)), |slots|,
                        HsmSum(hex, req.data))
  {
    var votes, holders := ReadVotes(hex, ReadsFrom(AfterWrite(slots, req), heard, described)), Accepting(slots, req);
    forall d | d in votes && votes[d].checksum != HsmSum(hex, req.data)
      ensures |slots| >= 3 ==> !IsMajority(votes, |slots|, votes[d].checksum)
    {
      var others := Holders(votes, votes[d].checksum);
      assert others !! holders;
      SubsetSize(others + holders, slots.Keys);
      assert |others + holders| == |others| + |holders| && |slots| == |slots.Keys|;
    }
  }

  /** A reader that counts every device, as the controller does while all are available, returns a write
  accepted by a quorum as soon as it reads one accepting device with its metadata. */
  lemma DurableRead(hex: string -> string, slots: Slots, req: Request, heard: set<string>, described: set<string>)
    requires ReadsAll(slots, req) && !req.deleted && Quorum(Accepting(slots, req), |slots|)
    requires heard <= slots.Keys && heard * described * Accepting(slots, req) != {}
    ensures var r := Authoritative(hex, ReadsFrom(AfterWrite(slots, req), heard, described), |slots|);
      r.Some? && HsmSum(hex, r.value) == HsmSum(hex, req.data)
  {
    SubsetSize(heard, slots.Keys);
    assert |slots| == |slots.Keys|;
    QuorumUncontested(hex, slots, req, heard, described);
    DurableReadIff(hex, slots, req, heard, described, |slots|);
  }

  // ---------------------------------------------------- the later write wins

  /** What the write asks to be answered. */
  ghost function Asked(hex: string -> string, req: Request): Content
  {
    if req.deleted then Deletion else Live(HsmSum(hex, req.data))
  }

  /** Every copy the write leaves in place has an older version, or the same version and an earlier time. */
  ghost predicate Outdates(slots: Slots, req: Request)
  {
    && Minted(slots, req) >= 1
    && forall d :: d in slots && slots[d].Copy? && d !in Accepting(slots, req) ==>
         var r := DeviceRead(slots[d].data, slots[d].labels);
         VersionOf(r) < Minted(slots, req) || (VersionOf(r) == Minted(slots, req) && TimeOf(r) < req.now)
  }

  lemma AcceptedRead(hex: string -> string, slots: Slots, req: Request, heard: set<string>, described: set<string>,
                     a: string)
    requires a in heard * described * Accepting(slots, req)
    ensures var seen := ReadsFrom(AfterWrite(slots, req), heard, described);
      && a in seen && ContentOf(hex, seen[a]) == Asked(hex, req)
      && VersionOf(seen[a]) == Minted(slots, req) && TimeOf(seen[a]) == req.now
  {}

  lemma OtherRead(hex: string -> string, slots: Slots, req: Request, heard: set<string>, described: set<string>,
                  d: string)
    requires Outdates(slots, req) && d in ReadsFrom(AfterWrite(slots, req), heard, described)
    requires d !in described * Accepting(slots, req)
    ensures var r := ReadsFrom(AfterWrite(slots, req), heard, described)[d];
      VersionOf(r) < Minted(slots, req) || (VersionOf(r) == Minted(slots, req) && TimeOf(r) < req.now)
  {}

  lemma LastIsAsked(hex: string -> string, slots: Slots, req: Request, heard: set<string>, described: set<string>,
                    d: string)
    requires Outdates(slots, req) && heard * described * Accepting(slots, req) != {}
    requires LastWritten(ReadsFrom(AfterWrite(slots, req), heard, described), d)
    ensures ContentOf(hex, ReadsFrom(AfterWrite(slots, req), heard, described)[d]) == Asked(hex, req)
  {
    var seen := ReadsFrom(AfterWrite(slots, req), heard, described);
    var a :| a in heard * described * Accepting(slots, req);
    AcceptedRead(hex, slots, req, heard, described, a);
    assert d != a ==> Later(seen, d, a);
    if d in described * Accepting(slots, req) {
      AcceptedRead(hex, slots, req, heard, described, d);
    } else {
      OtherRead(hex, slots, req, heard, described, d);
    }
  }

  /** A write that outdates every copy it leaves is what a reader answers, deletions included, if and only if no
  other content is held by more than half of the devices that the reader counts. */
  lemma LaterWriteWinsIff(hex: string -> string, slots: Slots, req: Request, heard: set<string>,
                          described: set<string>, n: int)
    requires Outdates(slots, req) && heard * described * Accepting(slots, req) != {} && |heard| <= n
    ensures var seen := ReadsFrom(AfterWrite(slots, req), heard, described);
      Prevails(hex, seen, n, Asked(hex, req)) <==> forall k :: k != Asked(hex, req) ==> !Backed(hex, seen, n, k)
  {
    var seen := ReadsFrom(AfterWrite(slots, req), heard, described);
    var a :| a in heard * described * Accepting(slots, req);
    AcceptedRead(hex, slots, req, heard, described, a);
    SubsetSize(seen.Keys, heard);
    assert |seen| == |seen.Keys|;
    var d := Newest(ReadVotes(hex, seen));
    LastIsNewest(hex, seen, d);
    LastIsAsked(hex, slots, req, heard, described, d);
    LastPrevailsIff(hex, seen, n, d);
  }

  /** Of two writes that minted the same version the later one outdates the earlier. */
  lemma LaterOfTwo(slots: Slots, first: Request, second: Request)
    requires Minted(AfterWrite(slots, first), second) == Minted(slots, first) >= 1 && first.now < second.now
    requires forall d :: d in slots && slots[d].Copy? ==> MetadataVersion(slots[d].labels) < Minted(slots, first)
    ensures Outdates(AfterWrite(slots, first), second)
  {}

  /** So with at most two devices a reader that hears it answers with the later of two such writes. */
  lemma LaterOfTwoIsRead(hex: string -> string, slots: Slots, first: Request, second: Request, heard: set<string>,
                         described: set<string>, n: int)
    requires Minted(AfterWrite(slots, first), second) == Minted(slots, first) >= 1 && first.now < second.now
    requires forall d :: d in slots && slots[d].Copy? ==> MetadataVersion(slots[d].labels) < Minted(slots, first)
    requires heard * described * Accepting(AfterWrite(slots, first), second) != {} && |heard| <= n <= 2
    ensures var r := Authoritative(hex, ReadsFrom(AfterWrite(AfterWrite(slots, first), second), heard, described), n);
      if second.deleted then r == None else r.Some? && HsmSum(hex, r.value) == HsmSum(hex, second.data)
  {
    var mid := AfterWrite(slots, first);
    var seen := ReadsFrom(AfterWrite(mid, second), heard, described);
    LaterOfTwo(slots, first, second);
    LaterWriteWinsIff(hex, mid, second, heard, described, n);
    var a :| a in heard * described * Accepting(mid, second);
    AcceptedRead(hex, mid, second, heard, described, a);
    SubsetSize(seen.Keys, heard);
    assert |seen| == |seen.Keys|;
    ReadAnswers(hex, seen, n, Asked(hex, second));
  }

  const NO_READS: Reads := map[]

  function Newer(data: SecretData): DeviceRead { DeviceRead(data, Labels(Counter(2), Some(2), false)) }

  function Older(data: SecretData): DeviceRead { DeviceRead(data, Labels(Counter(1), Some(1), false)) }

  /** One copy of the newer `y` at version 2 beside two of the older `x`, read from five devices. */
  function ThreeReads(c: string, d: string, e: string, x: SecretData, y: SecretData): Reads
  {
    NO_READS[c := Newer(y)][d := Older(x)][e := Older(x)]
  }

  function ThreeVotes(c: string, d: string, e: string, stale: string, recent: string): Votes
  {
    map[c := Vote(recent, 2, 2), d := Vote(stale, 1, 1), e := Vote(stale, 1, 1)]
  }

  lemma ThreeReadVotes(hex: string -> string, c: string, d: string, e: string, x: SecretData, y: SecretData)
    requires c != d && d != e && c != e
    ensures ReadVotes(hex, ThreeReads(c, d, e, x, y)) == ThreeVotes(c, d, e, HsmSum(hex, x), HsmSum(hex, y))
  {
    assert ReadVotes(hex, NO_READS) == map[];
    ReadVotesStep(hex, NO_READS, c, Newer(y));
    ReadVotesStep(hex, NO_READS[c := Newer(y)], d, Older(x));
    ReadVotesStep(hex, NO_READS[c := Newer(y)][d := Older(x)], e, Older(x));
  }

  lemma ThreeVoteFacts(c: string, d: string, e: string, stale: string, recent: string)
    requires c != d && d != e && c != e && stale != recent
    ensures var votes := ThreeVotes(c, d, e, stale, recent);
      && votes.Keys != {} && |votes| == 3 && Newest(votes) == c
      && Holders(votes, stale) == {d, e} && Holders(votes, recent) == {c}
  {
    var votes := ThreeVotes(c, d, e, stale, recent);
    assert votes.Keys == {c, d, e} && |votes| == |votes.Keys|;
    assert IsNewest(votes, c);
    NewestUnique(votes, c, Newest(votes));
  }

  lemma ThreeVoteWinners(c: string, d: string, e: string, stale: string, recent: string)
    requires c != d && d != e && c != e && stale != recent
    ensures var votes := ThreeVotes(c, d, e, stale, recent);
      && votes.Keys != {} && WinningChecksum(votes, 3) == stale && WinningChecksum(votes, 5) == recent
      && Overcounted(votes, 3, 5, stale)
  {
    var votes := ThreeVotes(c, d, e, stale, recent);
    ThreeVoteFacts(c, d, e, stale, recent);
    assert |{d, e}| == 2;
    MajorityWins(votes, 3, stale);
    NoMajorityNewest(votes, 5);
  }

  /** With two of five devices unreachable, the API counts three and returns the old `x`, the controller
  counts five and returns `y`. */
  lemma ReadersDiffer(hex: string -> string, c: string, d: string, e: string, x: SecretData, y: SecretData)
    requires c != d && d != e && c != e && HsmSum(hex, x) != HsmSum(hex, y)
    ensures CountsMatter(hex, ThreeReads(c, d, e, x, y), 3, 5)
    ensures var copies := ThreeReads(c, d, e, x, y);
      var api, controller := Authoritative(hex, copies, 3), Authoritative(hex, copies, 5);
      && api.Some? && HsmSum(hex, api.value) == HsmSum(hex, x)
      && controller.Some? && HsmSum(hex, controller.value) == HsmSum(hex, y)
  {
    var copies := ThreeReads(c, d, e, x, y);
    ThreeReadVotes(hex, c, d, e, x, y);
    ThreeVoteWinners(c, d, e, HsmSum(hex, x), HsmSum(hex, y));
    SumsAgree(hex, x, y);
    SumsAgree(hex, y, x);
    ReturnedContent(hex, copies, 3);
    ReturnedContent(hex, copies, 5);
  }
}
