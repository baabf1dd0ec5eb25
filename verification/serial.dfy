/** The service as a whole. Every handler takes the one mutex for its
    whole body, so concurrent requests behave as the four operations
    applied one at a time in lock-acquisition order. */
module Serial {
  import opened Deals
  import opened DealRegistry
  import opened Invariants

  /** A request after routing and decoding, carrying the inputs the
      handler would otherwise read from the clock or the id generator. */
  datatype Request =
    | CreateDeal(payload: Payload<Deal>, newId: string)
    | UpdateDeal(id: string, update: Payload<UpdateData>)
    | ClaimDeal(id: string, user: string, now: Time)
    | EndDeal(id: string)

  /** One handler, run to completion under the lock. */
  function Apply(reg: Registry, req: Request): (r: Response)
    ensures !r.outcome.Ok? ==> r.next == reg
    ensures WellKeyed(reg) ==> WellKeyed(r.next)
    ensures AllConsistent(reg) && !req.CreateDeal? ==> AllConsistent(r.next)
  {
    match req
    case CreateDeal(p, newId) => Create(reg, p, newId)
    case UpdateDeal(id, p) => Update(reg, id, p)
    case ClaimDeal(id, user, now) =>
      ClaimPreservesConsistency(reg, id, user, now);
      Claim(reg, id, user, now)
    case EndDeal(id) => End(reg, id)
  }

  /** The requests, in lock order. */
  function Run(reg: Registry, reqs: seq<Request>): (t: Trace)
    ensures |t.outcomes| == |reqs|
    ensures WellKeyed(reg) ==> WellKeyed(t.final)
    ensures CountOk(t.outcomes) == 0 ==> t.final == reg
    decreases |reqs|
  {
    if |reqs| == 0 then Trace([], reg)
    else
      var first := Apply(reg, reqs[0]);
      var rest := Run(first.next, reqs[1..]);
      assert ([first.outcome] + rest.outcomes)[1..] == rest.outcomes;
      Trace([first.outcome] + rest.outcomes, rest.final)
  }

  /** `req` could put a deal under `id`. */
  predicate Inserts(req: Request, id: string) {
    req.CreateDeal? && req.payload.WellFormed? && req.newId == id
  }

  /** `req` looks up `id` in the registry and would report NotFound if it
      is missing (an update whose body fails to decode reports that
      first). */
  predicate LooksUp(req: Request, id: string) {
    || (req.ClaimDeal? && req.id == id)
    || (req.EndDeal? && req.id == id)
    || (req.UpdateDeal? && req.id == id && req.update.WellFormed?)
  }

  /** An id that is not live stays missing until a Create stores a deal
      under it; until then every lookup of it reports NotFound. */
  lemma {:induction false} AbsentStaysAbsent(reg: Registry, reqs: seq<Request>, id: string)
    requires id !in reg
    requires forall i :: 0 <= i < |reqs| ==> !Inserts(reqs[i], id)
    ensures id !in Run(reg, reqs).final
    ensures forall i :: 0 <= i < |reqs| && LooksUp(reqs[i], id) ==>
      Run(reg, reqs).outcomes[i] == NotFound
    decreases |reqs|
  {
    if |reqs| > 0 {
      var first := Apply(reg, reqs[0]);
      var rest := reqs[1..];
      assert !Inserts(reqs[0], id);
      assert id !in first.next;
      forall i | 0 <= i < |rest| ensures !Inserts(rest[i], id) {
        assert rest[i] == reqs[i + 1];
      }
      AbsentStaysAbsent(first.next, rest, id);
      var t := Run(reg, reqs);
      var tr := Run(first.next, rest);
      assert t.outcomes == [first.outcome] + tr.outcomes;
      forall i | 1 <= i < |reqs| && LooksUp(reqs[i], id) ensures t.outcomes[i] == NotFound {
        assert reqs[i] == rest[i - 1];
        assert t.outcomes[i] == tr.outcomes[i - 1];
      }
    }
  }

  /** After End succeeds on `id`, every later Claim, End or decodable
      Update of that id reports NotFound, until some Create reuses it. */
  lemma EndedDealStaysGone(reg: Registry, id: string, reqs: seq<Request>)
    requires id in reg
    requires forall i :: 0 <= i < |reqs| ==> !Inserts(reqs[i], id)
    ensures Apply(reg, EndDeal(id)).outcome == Ok(reg[id])
    ensures forall i :: 0 <= i < |reqs| && LooksUp(reqs[i], id) ==>
      Run(Apply(reg, EndDeal(id)).next, reqs).outcomes[i] == NotFound
  {
    AbsentStaysAbsent(Apply(reg, EndDeal(id)).next, reqs, id);
  }

  /** A sold-out deal that is still in time: any claims see SoldOut, End
      then reports the deal unchanged, and a claim after End is
      NotFound. */
  lemma SoldOutThenEndScenario(
    d: Deal, id: string, a: string, b: string, c: string, t2: Time, t3: Time, t4: Time)
    requires d.claimed >= d.item
    requires t2 <= d.endTime && t3 <= d.endTime
    ensures
      Run(map[id := d], [ClaimDeal(id, b, t2), ClaimDeal(id, a, t3), EndDeal(id), ClaimDeal(id, c, t4)])
      == Trace([SoldOut, SoldOut, Ok(d), NotFound], map[])
  {
    var r1 := map[id := d];
    var q2 := ClaimDeal(id, b, t2);
    var q3 := ClaimDeal(id, a, t3);
    var q4 := EndDeal(id);
    var q5 := ClaimDeal(id, c, t4);
    assert Apply(r1, q2) == Response(SoldOut, r1);
    assert Apply(r1, q3) == Response(SoldOut, r1);
    assert Apply(r1, q4) == Response(Ok(d), map[]);
    assert Apply(map[], q5) == Response(NotFound, map[]);
    assert Run(map[], []) == Trace([], map[]);
    RunCons(map[], q5, []);
    RunCons(r1, q4, [q5]);
    RunCons(r1, q3, [q4, q5]);
    RunCons(r1, q2, [q3, q4, q5]);
  }

  /** One item: the first claim wins; a second user, and the first user
      again, both see SoldOut; End reports the deal with one claim; a
      claim after End is NotFound and the registry is empty again. */
  lemma SingleItemScenario(
    body: Deal, id: string, a: string, b: string, c: string,
    t1: Time, t2: Time, t3: Time, t4: Time)
    requires body.item == 1 && body.claimed == 0
    requires t1 <= body.endTime && t2 <= body.endTime && t3 <= body.endTime
    ensures
      var t := Run(map[], [
        CreateDeal(WellFormed(body), id),
        ClaimDeal(id, a, t1),
        ClaimDeal(id, b, t2),
        ClaimDeal(id, a, t3),
        EndDeal(id),
        ClaimDeal(id, c, t4)]);
      var taken := body.(id := id, claimed := 1, claimants := {a});
      && t.outcomes == [
        Ok(body.(id := id, claimants := {})),
        Ok(taken),
        SoldOut,
        SoldOut,
        Ok(taken),
        NotFound]
      && t.final == map[]
  {
    var stored := body.(id := id, claimants := {});
    var taken := body.(id := id, claimed := 1, claimants := {a});
    var q0 := CreateDeal(WellFormed(body), id);
    var q1 := ClaimDeal(id, a, t1);
    var tail := [ClaimDeal(id, b, t2), ClaimDeal(id, a, t3), EndDeal(id), ClaimDeal(id, c, t4)];
    var r0 := map[id := stored];
    assert Apply(map[], q0) == Response(Ok(stored), r0);
    assert Apply(r0, q1) == Response(Ok(taken), map[id := taken]);
    SoldOutThenEndScenario(taken, id, a, b, c, t2, t3, t4);
    RunCons(r0, q1, tail);
    RunCons(map[], q0, [q1] + tail);
    assert [q0] + ([q1] + tail) == [q0, q1] + tail;
  }

  /** Running a request and then the rest is running the whole list. */
  lemma RunCons(reg: Registry, q: Request, qs: seq<Request>)
    ensures Run(reg, [q] + qs) ==
      Trace([Apply(reg, q).outcome] + Run(Apply(reg, q).next, qs).outcomes,
            Run(Apply(reg, q).next, qs).final)
  {
    assert ([q] + qs)[1..] == qs;
  }

  /** A deal created with an end time already past refuses every claim. */
  lemma PastEndTimeScenario(body: Deal, newId: string, user: string, now: Time)
    requires now > body.endTime
    ensures
      var t := Run(map[], [CreateDeal(WellFormed(body), newId), ClaimDeal(newId, user, now)]);
      t.outcomes[1] == Expired
  {
    var r0 := Apply(map[], CreateDeal(WellFormed(body), newId));
    var rest := [CreateDeal(WellFormed(body), newId), ClaimDeal(newId, user, now)][1..];
    assert rest == [ClaimDeal(newId, user, now)];
    assert Run(r0.next, rest).outcomes[0] == Expired;
  }
}
