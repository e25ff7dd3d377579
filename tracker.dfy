/** The usage tracker: how one key event changes the per-slot press counts
    and what status the handler returns, and what a whole sequence of key
    events does to the counts. */
module Tracker {
  import opened FixedWidth

  /** Error numbers as Zephyr's C library defines them. */
  const ENOTSUP: int := 134
  const EINVAL: int := 22

  /** An event delivered to the handler: a key position changing state
      (`state` is true for a press) or any other kind of event. */
  datatype Event =
    | PositionStateChanged(position: nat, state: bool)
    | OtherEvent

  /** What the handler decides for one event, in the order its guards are
      checked. */
  datatype Outcome =
    | Inactive          // the effect is not running: nothing is looked at
    | Unsupported       // not a position-state event
    | Released          // a key release: not counted
    | InvalidSlot       // the key's slot lies outside the pixel map
    | Counted(slot: nat)

  /** The handler's decision for `e` on a device with `n` slots, where
      `slotOf` is the key-position-to-slot lookup. */
  function Classify(active: bool, e: Event, slotOf: nat -> nat, n: nat): (o: Outcome)
    ensures o.Counted? <==> active && e.PositionStateChanged? && e.state && slotOf(e.position) < n
    ensures o.Counted? ==> o.slot == slotOf(e.position) && o.slot < n
    ensures !active ==> o == Inactive
    ensures active && e.OtherEvent? ==> o == Unsupported
    ensures active && e.PositionStateChanged? && !e.state ==> o == Released
    ensures active && e.PositionStateChanged? && e.state && slotOf(e.position) >= n ==> o == InvalidSlot
  {
    if !active then Inactive
    else match e
      case OtherEvent => Unsupported
      case PositionStateChanged(position, state) =>
        if !state then Released
        else if slotOf(position) >= n then InvalidSlot
        else Counted(slotOf(position))
  }

  /** The status the handler returns for an outcome. */
  function Status(o: Outcome): (rc: int)
    ensures rc == 0 <==> o.Inactive? || o.Released? || o.Counted?
    ensures o.Unsupported? <==> rc == -ENOTSUP
    ensures o.InvalidSlot? <==> rc == -EINVAL
  {
    match o
    case Unsupported => -ENOTSUP
    case InvalidSlot => -EINVAL
    case _ => 0
  }

  /** The press counts after the handler has seen `e`. */
  function Step(counts: seq<u32>, active: bool, e: Event, slotOf: nat -> nat): (r: seq<u32>)
    ensures |r| == |counts|
  {
    match Classify(active, e, slotOf, |counts|)
    case Counted(k) => counts[k := Inc32(counts[k])]
    case _ => counts
  }

  /** One event increments exactly the counted slot by one, modulo 2^32, and
      changes no other count; an event that is not counted changes nothing. */
  lemma StepChangesOnlyCountedSlot(counts: seq<u32>, active: bool, e: Event, slotOf: nat -> nat, j: nat)
    requires j < |counts|
    ensures |Step(counts, active, e, slotOf)| == |counts|
    ensures Step(counts, active, e, slotOf)[j] ==
              if Classify(active, e, slotOf, |counts|) == Counted(j)
              then (counts[j] + 1) % TWO_32 else counts[j]
  {
  }

  /** The counts after the handler has seen every event of `events` in turn,
      with the effect's activity fixed throughout. */
  function Replay(counts: seq<u32>, active: bool, events: seq<Event>, slotOf: nat -> nat): (r: seq<u32>)
    ensures |r| == |counts|
    decreases |events|
  {
    if events == [] then counts
    else Replay(Step(counts, active, events[0], slotOf), active, events[1..], slotOf)
  }

  /** The number of key presses in `events` whose key maps to slot `k`. */
  function Presses(events: seq<Event>, slotOf: nat -> nat, k: nat): nat
    decreases |events|
  {
    if events == [] then 0
    else
      var e := events[0];
      (if e.PositionStateChanged? && e.state && slotOf(e.position) == k then 1 else 0)
      + Presses(events[1..], slotOf, k)
  }

  /** While the effect is active, every count ends up increased by exactly
      the number of presses of keys that map to its slot, modulo 2^32:
      releases, other events and presses outside the pixel map count for
      nothing. */
  lemma {:induction false} ReplayCountsPresses(counts: seq<u32>, events: seq<Event>, slotOf: nat -> nat, k: nat)
    requires k < |counts|
    ensures Replay(counts, true, events, slotOf)[k] == (counts[k] + Presses(events, slotOf, k)) % TWO_32
    decreases |events|
  {
    if events != [] {
      var next := Step(counts, true, events[0], slotOf);
      StepChangesOnlyCountedSlot(counts, true, events[0], slotOf, k);
      ReplayCountsPresses(next, events[1..], slotOf, k);
      var x := if Classify(true, events[0], slotOf, |counts|) == Counted(k) then 1 else 0;
      assert next[k] == (counts[k] + x) % TWO_32;
      assert Presses(events, slotOf, k) == x + Presses(events[1..], slotOf, k);
      ModAddAssoc(counts[k] + x, Presses(events[1..], slotOf, k));
    }
  }

  /** Reducing an intermediate sum modulo 2^32 does not change the final
      remainder. */
  lemma ModAddAssoc(a: int, b: int)
    ensures (a % TWO_32 + b) % TWO_32 == (a + b) % TWO_32
  {
    var q := a / TWO_32;
    assert a == q * TWO_32 + a % TWO_32;
    assert a + b == (a % TWO_32 + b) + q * TWO_32;
  }

  /** Starting from the zeroed counts that initialisation leaves, each count
      is the number of presses of its keys, modulo 2^32. */
  lemma ReplayFromZero(events: seq<Event>, slotOf: nat -> nat, n: nat, k: nat)
    requires k < n
    ensures Replay(seq(n, _ => 0), true, events, slotOf)[k] == Presses(events, slotOf, k) % TWO_32
  {
    ReplayCountsPresses(seq(n, _ => 0), events, slotOf, k);
  }

  /** While the effect is inactive, no sequence of events changes any
      count. */
  lemma {:induction false} ReplayInactive(counts: seq<u32>, events: seq<Event>, slotOf: nat -> nat)
    ensures Replay(counts, false, events, slotOf) == counts
    decreases |events|
  {
    if events != [] {
      ReplayInactive(counts, events[1..], slotOf);
    }
  }

  /** A sequence of events that holds no key press, only releases and other
      events, leaves every count as it was, active or not. */
  lemma {:induction false} ReplayWithoutPresses(counts: seq<u32>, active: bool, events: seq<Event>, slotOf: nat -> nat)
    requires forall i :: 0 <= i < |events| ==> !(events[i].PositionStateChanged? && events[i].state)
    ensures Replay(counts, active, events, slotOf) == counts
    decreases |events|
  {
    if events != [] {
      assert Step(counts, active, events[0], slotOf) == counts;
      ReplayWithoutPresses(counts, active, events[1..], slotOf);
    }
  }
}
