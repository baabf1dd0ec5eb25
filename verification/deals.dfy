/** The data model of the deal registry: a deal, the payloads the handlers
    decode, the outcomes they report, and the registry map itself. */
module Deals {

  /** A reading of the clock, in any fixed unit. */
  type Time = int

  /** A promotional deal. `claimants` is the set of users that have
      successfully claimed it (the Go code keeps `UserId` as a map to `true`). */
  datatype Deal = Deal(
    id: string,
    item: int,
    price: real,
    endTime: Time,
    claimed: int,
    claimants: set<string>)

  /** The body of an update request: new item count and new end time. */
  datatype UpdateData = UpdateData(items: int, endTime: Time)

  /** A request body after decoding: either it failed to decode, or it
      yielded a value. */
  datatype Payload<T> = Malformed | WellFormed(value: T)

  /** What a handler reports back to its caller. */
  datatype Outcome =
    | Ok(deal: Deal)
    | NotFound
    | Expired
    | SoldOut
    | AlreadyClaimed
    | MalformedInput

  /** The live deals, by id. */
  type Registry = map<string, Deal>

  /** The outcome of one handler together with the registry it leaves. */
  datatype Response = Response(outcome: Outcome, next: Registry)

  /** The outcomes of a series of handlers, in order, and the registry
      left after the last one. */
  datatype Trace = Trace(outcomes: seq<Outcome>, final: Registry)

  /** The claim counter agrees with the claimant set. */
  predicate Consistent(d: Deal) {
    d.claimed == |d.claimants|
  }

  /** No more claims recorded than there are items. */
  predicate WithinCapacity(d: Deal) {
    d.claimed <= d.item
  }

  predicate AllConsistent(reg: Registry) {
    forall k :: k in reg ==> Consistent(reg[k])
  }

  predicate AllWithinCapacity(reg: Registry) {
    forall k :: k in reg ==> WithinCapacity(reg[k])
  }

  /** Every deal is stored under its own id. */
  predicate WellKeyed(reg: Registry) {
    forall k :: k in reg ==> reg[k].id == k
  }

  /** `next` has the same keys as `reg` and agrees with it everywhere
      except possibly at `id`. */
  predicate SameExceptAt(reg: Registry, next: Registry, id: string) {
    && next.Keys == reg.Keys
    && forall k :: k in reg && k != id ==> next[k] == reg[k]
  }

  /** The range of Go's `int` on a 64-bit platform. */
  const Int64Min: int := -0x8000_0000_0000_0000
  const Int64Max: int := 0x7FFF_FFFF_FFFF_FFFF

  predicate InInt64(x: int) {
    Int64Min <= x <= Int64Max
  }

  /** The number of successful outcomes in `outcomes`. */
  function CountOk(outcomes: seq<Outcome>): (n: nat)
    ensures n <= |outcomes|
  {
    if |outcomes| == 0 then 0
    else (if outcomes[0].Ok? then 1 else 0) + CountOk(outcomes[1..])
  }

  /** When exactly the first `m` outcomes succeed, `m` outcomes succeed. */
  lemma {:induction false} CountOkPrefix(outcomes: seq<Outcome>, m: int)
    requires 0 <= m <= |outcomes|
    requires forall i :: 0 <= i < |outcomes| ==> (outcomes[i].Ok? <==> i < m)
    ensures CountOk(outcomes) == m
  {
    if |outcomes| > 0 {
      var rest := outcomes[1..];
      if m == 0 {
        assert !outcomes[0].Ok?;
        forall i | 0 <= i < |rest| ensures !rest[i].Ok? {
          assert rest[i] == outcomes[i + 1];
        }
        CountOkPrefix(rest, 0);
      } else {
        assert outcomes[0].Ok?;
        forall i | 0 <= i < |rest| ensures rest[i].Ok? <==> i < m - 1 {
          assert rest[i] == outcomes[i + 1];
        }
        CountOkPrefix(rest, m - 1);
      }
    }
  }
}
