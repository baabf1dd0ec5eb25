/** Which facts about the registry each operation keeps, establishes or
    breaks. None of them is a global invariant of the service: Create
    takes the claim counter from the request body and Update may lower the
    item count below it, so the facts hold only as far as stated here. */
module Invariants {
  import opened Deals
  import opened DealRegistry

  /** Claim keeps each deal whose counter equals its claimant count that
      way, whatever the other deals hold; so it keeps the whole registry
      consistent when it was. */
  lemma ClaimPreservesConsistency(reg: Registry, id: string, user: string, now: Time)
    ensures forall k :: k in reg && Consistent(reg[k]) ==>
      k in Claim(reg, id, user, now).next && Consistent(Claim(reg, id, user, now).next[k])
    ensures AllConsistent(reg) ==> AllConsistent(Claim(reg, id, user, now).next)
  {
    var r := Claim(reg, id, user, now);
    if r.outcome.Ok? {
      assert |reg[id].claimants + {user}| == |reg[id].claimants| + 1;
    }
  }

  /** Claim never pushes a deal past its item count: each deal within
      capacity stays so, whatever the other deals hold, and a successful
      claim leaves the claimed deal within capacity whatever it held
      before. */
  lemma ClaimPreservesCapacity(reg: Registry, id: string, user: string, now: Time)
    ensures forall k :: k in reg && WithinCapacity(reg[k]) ==>
      k in Claim(reg, id, user, now).next && WithinCapacity(Claim(reg, id, user, now).next[k])
    ensures Claim(reg, id, user, now).outcome.Ok? ==>
      WithinCapacity(Claim(reg, id, user, now).next[id])
    ensures AllWithinCapacity(reg) ==> AllWithinCapacity(Claim(reg, id, user, now).next)
  {
  }

  /** The counter goes up by one only when it was below the item count,
      so a deal whose fields fit Go's 64-bit `int` still fits after a
      claim. */
  lemma ClaimStaysInInt64(reg: Registry, id: string, user: string, now: Time)
    requires id in reg && InInt64(reg[id].claimed) && InInt64(reg[id].item)
    ensures id in Claim(reg, id, user, now).next
    ensures InInt64(Claim(reg, id, user, now).next[id].claimed)
  {
  }

  /** A user who is already a claimant never gets a second successful
      claim on that deal. */
  lemma ClaimantCannotClaimAgain(reg: Registry, id: string, user: string, now: Time)
    requires id in reg && user in reg[id].claimants
    ensures !Claim(reg, id, user, now).outcome.Ok?
    ensures Claim(reg, id, user, now).next == reg
  {
  }

  /** Update leaves claim state alone, so it keeps each consistent deal
      consistent, whatever the other deals hold. */
  lemma UpdatePreservesConsistency(reg: Registry, id: string, payload: Payload<UpdateData>)
    ensures forall k :: k in reg && Consistent(reg[k]) ==>
      k in Update(reg, id, payload).next && Consistent(Update(reg, id, payload).next[k])
    ensures AllConsistent(reg) ==> AllConsistent(Update(reg, id, payload).next)
  {
  }

  /** Update does not re-check capacity: a new item count below the
      counter is accepted and leaves the deal over capacity. */
  lemma UpdateCanExceedCapacity(reg: Registry, id: string, u: UpdateData)
    requires id in reg && u.items < reg[id].claimed
    ensures Update(reg, id, WellFormed(u)).outcome.Ok?
    ensures !WithinCapacity(Update(reg, id, WellFormed(u)).outcome.deal)
    ensures Update(reg, id, WellFormed(u)).outcome.deal.claimants == reg[id].claimants
  {
  }

  /** End only removes: every deal that remains is exactly as it was,
      so whatever held of it still holds. */
  lemma EndPreservesInvariants(reg: Registry, id: string)
    ensures forall k :: k in End(reg, id).next ==> k in reg && End(reg, id).next[k] == reg[k]
    ensures AllConsistent(reg) ==> AllConsistent(End(reg, id).next)
    ensures AllWithinCapacity(reg) ==> AllWithinCapacity(End(reg, id).next)
    ensures WellKeyed(reg) ==> WellKeyed(End(reg, id).next)
  {
  }

  /** The deal Create stores is consistent exactly when the request body
      carried a zero counter: the claimant set is always emptied but the
      counter is not reset. */
  lemma CreateConsistentIff(reg: Registry, d: Deal, newId: string)
    ensures newId in Create(reg, WellFormed(d), newId).next
    ensures Consistent(Create(reg, WellFormed(d), newId).next[newId]) <==> d.claimed == 0
  {
  }

  /** Create with an id already in use replaces the live deal under it:
      the registry does not grow and the old deal, with its claimants, is
      gone. */
  lemma CreateOverwritesExisting(reg: Registry, d: Deal, newId: string)
    requires newId in reg
    ensures Create(reg, WellFormed(d), newId).next.Keys == reg.Keys
    ensures |Create(reg, WellFormed(d), newId).next| == |reg|
    ensures Create(reg, WellFormed(d), newId).next[newId].claimants == {}
  {
    var next := Create(reg, WellFormed(d), newId).next;
    assert next.Keys == reg.Keys;
    assert |next.Keys| == |reg.Keys|;
  }

  /** Every operation stores a deal only under its own id. */
  lemma OperationsPreserveWellKeyed(
    reg: Registry, id: string, user: string, now: Time,
    create: Payload<Deal>, newId: string, update: Payload<UpdateData>)
    requires WellKeyed(reg)
    ensures WellKeyed(Create(reg, create, newId).next)
    ensures WellKeyed(Update(reg, id, update).next)
    ensures WellKeyed(Claim(reg, id, user, now).next)
    ensures WellKeyed(End(reg, id).next)
  {
  }
}
