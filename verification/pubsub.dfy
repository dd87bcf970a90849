/**
 * The single-queue publish/subscribe system (q33-pubsub-system, Solution.java).
 *
 * Messages go into one global FIFO queue and are counted, at send time, for
 * every active subscriber whose filter holds the message's event type. A
 * subscription starts from "now" (nothing is delivered retroactively), and a
 * subscriber's count survives unsubscribing and subscribing again.
 */
module PubSub {
  import opened Common
  import opened Strings

  datatype Event = Event(eventType: string, payload: string)

  /** A subscription: the filters, and the queue length when it started. */
  datatype Subscriber = Subscriber(id: string, filters: set<string>, joinedAtIndex: int)

  datatype PubSubSystem = PubSubSystem(queue: seq<Event>, active: map<string, Subscriber>, processed: map<string, int>)

  /** Each active subscriber is filed under its own id and joined at a point of the queue. */
  predicate Valid(s: PubSubSystem) {
    forall id :: id in s.active ==> s.active[id].id == id && 0 <= s.active[id].joinedAtIndex <= |s.queue|
  }

  /** The constructor: an empty queue, no subscriber, no counts. */
  function NewSystem(): (s: PubSubSystem)
    ensures Valid(s) && s.queue == [] && s.active == map[] && s.processed == map[]
  {
    PubSubSystem([], map[], map[])
  }

  /** `countProcessedMessages`: the cumulative count, 0 for an id that never processed anything. */
  function CountProcessed(s: PubSubSystem, id: string): (r: int)
    ensures id !in s.processed ==> r == 0
    ensures id in s.processed ==> r == s.processed[id]
  {
    if id in s.processed then s.processed[id] else 0
  }

  /** `removeSubscriber`: the subscription ends; the count stays. */
  function RemoveSubscriber(s: PubSubSystem, id: string): (r: PubSubSystem)
    ensures id !in r.active && r.queue == s.queue && r.processed == s.processed
    ensures forall x :: x != id ==> (x in r.active <==> x in s.active) && (x in r.active ==> r.active[x] == s.active[x])
    ensures Valid(s) ==> Valid(r)
  {
    s.(active := s.active - {id})
  }

  /**
   * `addSubscriber`: a blank id changes nothing; otherwise any earlier
   * subscription is replaced by one with the given filters starting at the
   * current end of the queue. Counts are not reset.
   */
  function AddSubscriber(s: PubSubSystem, id: string, eventTypes: seq<string>): (r: PubSubSystem)
    ensures IsTrimBlank(id) ==> r == s
    ensures !IsTrimBlank(id) ==> id in r.active && r.active[id] == Subscriber(id, set t | t in eventTypes, |s.queue|)
    ensures r.queue == s.queue && r.processed == s.processed
    ensures forall x :: x != id ==> (x in r.active <==> x in s.active) && (x in r.active ==> r.active[x] == s.active[x])
    ensures Valid(s) ==> Valid(r)
  {
    if IsTrimBlank(id) then s
    else
      var removed := RemoveSubscriber(s, id);
      removed.(active := removed.active[id := Subscriber(id, set t | t in eventTypes, |s.queue|)])
  }

  /** The active subscribers whose filter holds `eventType`. */
  function Accepting(s: PubSubSystem, eventType: string): set<string> {
    set id | id in s.active && eventType in s.active[id].filters
  }

  /**
   * `sendMessage`: the message joins the queue and one is added to the count
   * of every active subscriber whose filter holds its event type.
   */
  function SendMessage(s: PubSubSystem, eventType: string, message: string): (r: PubSubSystem)
    ensures r.queue == s.queue + [Event(eventType, message)] && r.active == s.active
    ensures forall id :: CountProcessed(r, id) ==
              CountProcessed(s, id) + (if id in s.active && eventType in s.active[id].filters then 1 else 0)
    ensures Valid(s) ==> Valid(r)
  {
    var accepting := Accepting(s, eventType);
    var processed := map id | id in s.processed.Keys + accepting ::
      CountProcessed(s, id) + (if id in accepting then 1 else 0);
    PubSubSystem(s.queue + [Event(eventType, message)], s.active, processed)
  }

  // ---------------------------------------------------------------------------
  // Runs of operations and one subscriber's view of them
  // ---------------------------------------------------------------------------

  datatype Op =
    | Add(id: string, eventTypes: seq<string>)
    | Remove(id: string)
    | Send(eventType: string, message: string)

  function Apply(s: PubSubSystem, op: Op): PubSubSystem {
    match op
    case Add(id, types) => AddSubscriber(s, id, types)
    case Remove(id) => RemoveSubscriber(s, id)
    case Send(t, m) => SendMessage(s, t, m)
  }

  function Run(s: PubSubSystem, ops: seq<Op>): PubSubSystem
    decreases |ops|
  {
    if ops == [] then s else Run(Apply(s, ops[0]), ops[1..])
  }

  /** The filters of `id`'s current subscription, if it has one. */
  function Subscription(s: PubSubSystem, id: string): Option<set<string>> {
    if id in s.active then Some(s.active[id].filters) else None
  }

  /**
   * The reference count for one subscriber: walking the operations with only
   * its own subscription in view, the messages sent while it was subscribed
   * to their event type.
   */
  function Delivered(ops: seq<Op>, id: string, current: Option<set<string>>): nat
    decreases |ops|
  {
    if ops == [] then 0
    else
      match ops[0]
      case Add(x, types) =>
        Delivered(ops[1..], id, if x == id && !IsTrimBlank(x) then Some(set t | t in types) else current)
      case Remove(x) =>
        Delivered(ops[1..], id, if x == id then None else current)
      case Send(t, _) =>
        (if current.Some? && t in current.value then 1 else 0) + Delivered(ops[1..], id, current)
  }

  /** One operation, seen from one subscriber: how its count and its subscription change. */
  lemma ApplyOne(s: PubSubSystem, op: Op, id: string)
    ensures var r := Apply(s, op);
      match op
      case Add(x, types) =>
        CountProcessed(r, id) == CountProcessed(s, id) &&
        Subscription(r, id) == (if x == id && !IsTrimBlank(x) then Some(set t | t in types) else Subscription(s, id))
      case Remove(x) =>
        CountProcessed(r, id) == CountProcessed(s, id) &&
        Subscription(r, id) == (if x == id then None else Subscription(s, id))
      case Send(t, _) =>
        CountProcessed(r, id) == CountProcessed(s, id) + (if Subscription(s, id).Some? && t in Subscription(s, id).value then 1 else 0) &&
        Subscription(r, id) == Subscription(s, id)
  {
  }

  /**
   * Counts accumulate across sessions: after any run of operations, a
   * subscriber's count has grown by exactly the messages of its event types
   * sent while it was subscribed, whatever happened to other subscribers.
   */
  lemma {:induction false} RunCounts(s: PubSubSystem, ops: seq<Op>, id: string)
    ensures CountProcessed(Run(s, ops), id) == CountProcessed(s, id) + Delivered(ops, id, Subscription(s, id))
    decreases |ops|
  {
    if ops != [] {
      ApplyOne(s, ops[0], id);
      RunCounts(Apply(s, ops[0]), ops[1..], id);
    }
  }

  /** `id` does not subscribe again anywhere in `ops`. */
  predicate NoResubscribe(ops: seq<Op>, id: string) {
    forall k :: 0 <= k < |ops| ==> !(ops[k].Add? && ops[k].id == id)
  }

  /** Without a new subscription, nothing is delivered to an unsubscribed id. */
  lemma {:induction false} NothingWhileAway(ops: seq<Op>, id: string)
    requires NoResubscribe(ops, id)
    ensures Delivered(ops, id, None) == 0
    decreases |ops|
  {
    if ops != [] {
      assert !(ops[0].Add? && ops[0].id == id);
      assert NoResubscribe(ops[1..], id) by {
        forall k | 0 <= k < |ops[1..]| ensures !(ops[1..][k].Add? && ops[1..][k].id == id) {
          assert ops[1..][k] == ops[k + 1];
        }
      }
      NothingWhileAway(ops[1..], id);
    }
  }

  /**
   * A removed subscriber stops receiving counts: whatever is sent or whoever
   * else joins or leaves afterwards, its count stays where it was until it
   * subscribes again.
   */
  lemma RemovedStopsCounting(s: PubSubSystem, id: string, ops: seq<Op>)
    requires NoResubscribe(ops, id)
    ensures CountProcessed(Run(RemoveSubscriber(s, id), ops), id) == CountProcessed(s, id)
  {
    RunCounts(RemoveSubscriber(s, id), ops, id);
    NothingWhileAway(ops, id);
  }

  /** Counts never go down. */
  lemma CountsNeverDecrease(s: PubSubSystem, ops: seq<Op>, id: string)
    ensures CountProcessed(Run(s, ops), id) >= CountProcessed(s, id)
  {
    RunCounts(s, ops, id);
  }
}
