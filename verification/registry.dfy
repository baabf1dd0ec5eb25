/** The four registry operations. Each handler of the service runs its
    whole body under one mutex, so each is modelled as one atomic
    transition from a registry to an outcome and a new registry. */
module DealRegistry {
  import opened Deals

  /** Create: store the decoded deal under the supplied id, with an empty
      claimant set. The id is whatever the id generator produced; it need
      not be fresh, and an existing entry under it is overwritten. The
      claim counter is kept exactly as the payload gave it. */
  function Create(reg: Registry, payload: Payload<Deal>, newId: string): (r: Response)
    ensures payload.Malformed? ==> r == Response(MalformedInput, reg)
    ensures payload.WellFormed? ==> r.outcome.Ok?
    ensures r.outcome.Ok? ==>
      && r.outcome.deal.id == newId
      && r.outcome.deal.claimants == {}
      && r.outcome.deal.item == payload.value.item
      && r.outcome.deal.price == payload.value.price
      && r.outcome.deal.endTime == payload.value.endTime
      && r.outcome.deal.claimed == payload.value.claimed
    ensures r.outcome.Ok? ==>
      && r.next.Keys == reg.Keys + {newId}
      && r.next[newId] == r.outcome.deal
      && forall k :: k in reg && k != newId ==> r.next[k] == reg[k]
  {
    match payload
    case Malformed => Response(MalformedInput, reg)
    case WellFormed(d) =>
      var stored := d.(id := newId, claimants := {});
      Response(Ok(stored), reg[newId := stored])
  }

  /** Update: replace the item count and the end time of an existing
      deal wholesale. A payload that fails to decode is reported before
      the id is looked up. */
  function Update(reg: Registry, id: string, payload: Payload<UpdateData>): (r: Response)
    ensures payload.Malformed? ==> r == Response(MalformedInput, reg)
    ensures payload.WellFormed? && id !in reg ==> r == Response(NotFound, reg)
    ensures r.outcome.Ok? <==> payload.WellFormed? && id in reg
    ensures r.outcome.Ok? ==>
      && r.outcome.deal.item == payload.value.items
      && r.outcome.deal.endTime == payload.value.endTime
      && r.outcome.deal.id == reg[id].id
      && r.outcome.deal.price == reg[id].price
      && r.outcome.deal.claimed == reg[id].claimed
      && r.outcome.deal.claimants == reg[id].claimants
    ensures r.outcome.Ok? ==> SameExceptAt(reg, r.next, id) && r.next[id] == r.outcome.deal
  {
    match payload
    case Malformed => Response(MalformedInput, reg)
    case WellFormed(u) =>
      if id !in reg then Response(NotFound, reg)
      else
        var updated := reg[id].(item := u.items, endTime := u.endTime);
        Response(Ok(updated), reg[id := updated])
  }

  /** Claim: record one successful claim of `user` on deal `id`, or
      report the first check that fails, in the order: missing deal,
      past its end time, no items left, user already a claimant. */
  function Claim(reg: Registry, id: string, user: string, now: Time): (r: Response)
    ensures !r.outcome.Ok? ==> r.next == reg
    ensures r.outcome.Ok? ==> id in reg && now <= reg[id].endTime && user !in reg[id].claimants
    ensures r.outcome.Ok? ==>
      && r.outcome.deal.claimed == reg[id].claimed + 1
      && r.outcome.deal.claimants == reg[id].claimants + {user}
      && r.outcome.deal.id == reg[id].id
      && r.outcome.deal.item == reg[id].item
      && r.outcome.deal.price == reg[id].price
      && r.outcome.deal.endTime == reg[id].endTime
    ensures r.outcome.Ok? ==> r.outcome.deal.claimed <= r.outcome.deal.item
    ensures r.outcome.Ok? ==> SameExceptAt(reg, r.next, id) && r.next[id] == r.outcome.deal
    ensures !r.outcome.MalformedInput?
  {
    if id !in reg then Response(NotFound, reg)
    else
      var d := reg[id];
      if now > d.endTime then Response(Expired, reg)
      else if d.claimed >= d.item then Response(SoldOut, reg)
      else if user in d.claimants then Response(AlreadyClaimed, reg)
      else
        var claimedDeal := d.(claimed := d.claimed + 1, claimants := d.claimants + {user});
        Response(Ok(claimedDeal), reg[id := claimedDeal])
  }

  /** End: remove an existing deal and report it as it was stored. */
  function End(reg: Registry, id: string): (r: Response)
    ensures id !in reg ==> r == Response(NotFound, reg)
    ensures id in reg ==> r.outcome == Ok(reg[id])
    ensures id in reg ==>
      && r.next.Keys == reg.Keys - {id}
      && forall k :: k in r.next ==> r.next[k] == reg[k]
  {
    if id !in reg then Response(NotFound, reg)
    else Response(Ok(reg[id]), reg - {id})
  }

  /** The verdict of Claim is decided by the first failing check, in a
      fixed order; a later check only matters when every earlier one
      passed. In particular `now == endTime` is still in time, an expired
      deal reports Expired even when it is also sold out, and a sold-out
      deal reports SoldOut even to a user who already claimed it. */
  lemma ClaimPrecedence(reg: Registry, id: string, user: string, now: Time)
    ensures Claim(reg, id, user, now).outcome == NotFound <==> id !in reg
    ensures Claim(reg, id, user, now).outcome == Expired <==>
      id in reg && now > reg[id].endTime
    ensures Claim(reg, id, user, now).outcome == SoldOut <==>
      id in reg && now <= reg[id].endTime && reg[id].claimed >= reg[id].item
    ensures Claim(reg, id, user, now).outcome == AlreadyClaimed <==>
      id in reg && now <= reg[id].endTime && reg[id].claimed < reg[id].item
      && user in reg[id].claimants
    ensures Claim(reg, id, user, now).outcome.Ok? <==>
      id in reg && now <= reg[id].endTime && reg[id].claimed < reg[id].item
      && user !in reg[id].claimants
  {
  }

  /** Afterwards End leaves nothing under the id: Claim, End, and an
      Update whose payload decodes, all report NotFound. */
  lemma EndRemovesVisibility(reg: Registry, id: string, user: string, now: Time, u: UpdateData)
    requires id in reg
    ensures id !in End(reg, id).next
    ensures Claim(End(reg, id).next, id, user, now).outcome == NotFound
    ensures Update(End(reg, id).next, id, WellFormed(u)).outcome == NotFound
    ensures End(End(reg, id).next, id).outcome == NotFound
  {
  }
}
