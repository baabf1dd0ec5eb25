/** Series of claims against one deal. The mutex orders concurrent claim
    requests one after another, so a race between clients is a sequence
    of Claim transitions in lock-acquisition order. */
module ClaimSequences {
  import opened Deals
  import opened DealRegistry

  /** One claim request: who claims, and the clock reading when the
      handler ran. */
  datatype ClaimAttempt = ClaimAttempt(user: string, now: Time)

  /** Run the attempts against deal `id`, in order. */
  function ClaimAll(reg: Registry, id: string, attempts: seq<ClaimAttempt>): (t: Trace)
    ensures |t.outcomes| == |attempts|
    ensures SameExceptAt(reg, t.final, id)
    ensures id !in reg ==> t.final == reg && CountOk(t.outcomes) == 0
    ensures id in reg ==>
      && t.final[id].claimed == reg[id].claimed + CountOk(t.outcomes)
      && reg[id].claimants <= t.final[id].claimants
      && t.final[id].id == reg[id].id
      && t.final[id].item == reg[id].item
      && t.final[id].price == reg[id].price
      && t.final[id].endTime == reg[id].endTime
    decreases |attempts|
  {
    if |attempts| == 0 then Trace([], reg)
    else
      var first := Claim(reg, id, attempts[0].user, attempts[0].now);
      var rest := ClaimAll(first.next, id, attempts[1..]);
      assert ([first.outcome] + rest.outcomes)[1..] == rest.outcomes;
      Trace([first.outcome] + rest.outcomes, rest.final)
  }

  /** The number of successful claims made by `user`. */
  function CountOkBy(attempts: seq<ClaimAttempt>, outcomes: seq<Outcome>, user: string): (n: nat)
    requires |attempts| == |outcomes|
    ensures n <= CountOk(outcomes)
  {
    if |attempts| == 0 then 0
    else
      (if attempts[0].user == user && outcomes[0].Ok? then 1 else 0)
      + CountOkBy(attempts[1..], outcomes[1..], user)
  }

  /** The race: distinct users, none a claimant yet, all in time. The
      first `item - claimed` of them succeed and every later one gets
      SoldOut, whatever order the lock hands out. */
  lemma {:induction false} RaceOutcomes(reg: Registry, id: string, attempts: seq<ClaimAttempt>)
    requires id in reg
    requires forall i :: 0 <= i < |attempts| ==> attempts[i].now <= reg[id].endTime
    requires forall i :: 0 <= i < |attempts| ==> attempts[i].user !in reg[id].claimants
    requires forall i, j :: 0 <= i < j < |attempts| ==> attempts[i].user != attempts[j].user
    ensures forall i :: 0 <= i < |attempts| ==>
      if i < reg[id].item - reg[id].claimed
      then ClaimAll(reg, id, attempts).outcomes[i].Ok?
      else ClaimAll(reg, id, attempts).outcomes[i] == SoldOut
    decreases |attempts|
  {
    if |attempts| > 0 {
      var d := reg[id];
      var first := Claim(reg, id, attempts[0].user, attempts[0].now);
      var rest := attempts[1..];
      forall i | 0 <= i < |rest| ensures rest[i].user !in first.next[id].claimants {
        assert rest[i] == attempts[i + 1];
      }
      forall i, j | 0 <= i < j < |rest| ensures rest[i].user != rest[j].user {
        assert rest[i] == attempts[i + 1] && rest[j] == attempts[j + 1];
      }
      forall i | 0 <= i < |rest| ensures rest[i].now <= first.next[id].endTime {
        assert rest[i] == attempts[i + 1];
      }
      RaceOutcomes(first.next, id, rest);
      var t := ClaimAll(reg, id, attempts);
      var tr := ClaimAll(first.next, id, rest);
      assert t.outcomes == [first.outcome] + tr.outcomes;
      if d.claimed < d.item {
        assert first.outcome.Ok?;
        assert first.next[id].item - first.next[id].claimed == d.item - d.claimed - 1;
      } else {
        assert first.outcome == SoldOut;
        assert first.next == reg;
      }
      forall i | 1 <= i < |attempts|
        ensures if i < d.item - d.claimed then t.outcomes[i].Ok? else t.outcomes[i] == SoldOut
      {
        assert t.outcomes[i] == tr.outcomes[i - 1];
      }
    }
  }

  /** The race as usually stated: a fresh deal with `k >= 0` items and
      `n` distinct users in time. Exactly min(k, n) claims succeed, the
      rest report SoldOut, and the counter ends at min(k, n). */
  lemma RaceExactlyMinSucceed(reg: Registry, id: string, attempts: seq<ClaimAttempt>)
    requires id in reg && reg[id].claimed == 0 && reg[id].item >= 0
    requires forall i :: 0 <= i < |attempts| ==> attempts[i].now <= reg[id].endTime
    requires forall i :: 0 <= i < |attempts| ==> attempts[i].user !in reg[id].claimants
    requires forall i, j :: 0 <= i < j < |attempts| ==> attempts[i].user != attempts[j].user
    ensures var k := if reg[id].item < |attempts| then reg[id].item else |attempts|;
      && CountOk(ClaimAll(reg, id, attempts).outcomes) == k
      && ClaimAll(reg, id, attempts).final[id].claimed == k
      && (forall i :: k <= i < |attempts| ==> ClaimAll(reg, id, attempts).outcomes[i] == SoldOut)
  {
    var t := ClaimAll(reg, id, attempts);
    var k := if reg[id].item < |attempts| then reg[id].item else |attempts|;
    RaceOutcomes(reg, id, attempts);
    CountOkPrefix(t.outcomes, k);
  }

  /** Whatever the users and times, the claims that succeed never exceed
      the items left, and once any succeeds the deal ends within
      capacity. */
  lemma {:induction false} SuccessesBounded(reg: Registry, id: string, attempts: seq<ClaimAttempt>)
    requires id in reg
    ensures CountOk(ClaimAll(reg, id, attempts).outcomes) <=
      if reg[id].item - reg[id].claimed < 0 then 0 else reg[id].item - reg[id].claimed
    ensures CountOk(ClaimAll(reg, id, attempts).outcomes) > 0 ==>
      WithinCapacity(ClaimAll(reg, id, attempts).final[id])
    decreases |attempts|
  {
    if |attempts| > 0 {
      var first := Claim(reg, id, attempts[0].user, attempts[0].now);
      var rest := attempts[1..];
      SuccessesBounded(first.next, id, rest);
      var t := ClaimAll(reg, id, attempts);
      var tr := ClaimAll(first.next, id, rest);
      assert t.outcomes[1..] == tr.outcomes;
    }
  }

  /** No double claim: in any series of claims on one deal a user
      succeeds at most once, and never if already a claimant. */
  lemma {:induction false} AtMostOneSuccessPerUser(
    reg: Registry, id: string, attempts: seq<ClaimAttempt>, user: string)
    requires id in reg
    ensures CountOkBy(attempts, ClaimAll(reg, id, attempts).outcomes, user) <=
      if user in reg[id].claimants then 0 else 1
    decreases |attempts|
  {
    if |attempts| > 0 {
      var first := Claim(reg, id, attempts[0].user, attempts[0].now);
      var rest := attempts[1..];
      AtMostOneSuccessPerUser(first.next, id, rest, user);
      var t := ClaimAll(reg, id, attempts);
      var tr := ClaimAll(first.next, id, rest);
      assert t.outcomes[0] == first.outcome;
      assert t.outcomes[1..] == tr.outcomes;
      if attempts[0].user == user && first.outcome.Ok? {
        assert user in first.next[id].claimants;
      } else if user in reg[id].claimants {
        assert user in first.next[id].claimants;
      }
    }
  }
}
