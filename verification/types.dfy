/** The values that travel through the engine, and its 64-bit unsigned arithmetic. */
module Types {

  const U64_LIMIT: nat := 0x1_0000_0000_0000_0000

  type u64 = x: int | 0 <= x < 0x1_0000_0000_0000_0000

  /** Unsigned addition: the carry out of bit 63 is dropped. */
  function WrapAdd(a: u64, b: u64): u64 {
    if a + b < U64_LIMIT then a + b else a + b - U64_LIMIT
  }

  /** A record's fields are never looked at by the engine, only by user functions. */
  type Record(!new, ==)

  datatype Event = Event(payload: Record, ts: u64)

  /** What one operator hands to the next: an event, or a watermark. */
  datatype Element = Data(event: Event) | Mark(ts: u64)

  datatype WindowSpec = WindowSpec(size: u64, advance: u64)

  function AsData(events: seq<Event>): (r: seq<Element>)
    ensures |r| == |events|
    ensures forall i :: 0 <= i < |r| ==> r[i] == Data(events[i])
  {
    seq(|events|, i requires 0 <= i < |events| => Data(events[i]))
  }

  function EventOf(elem: Element): seq<Event> {
    if elem.Data? then [elem.event] else []
  }

  /** The events among some elements, in order. */
  function EventsOf(elems: seq<Element>): seq<Event> {
    if elems == [] then [] else EventOf(elems[0]) + EventsOf(elems[1..])
  }

  lemma {:induction false} EventsOfConcat(a: seq<Element>, b: seq<Element>)
    ensures EventsOf(a + b) == EventsOf(a) + EventsOf(b)
  {
    if a == [] {
      assert a + b == b;
    } else {
      assert (a + b)[1..] == a[1..] + b;
      EventsOfConcat(a[1..], b);
    }
  }

  lemma {:induction false} EventsOfAsData(events: seq<Event>)
    ensures EventsOf(AsData(events)) == events
  {
    if events != [] {
      EventsOfAsData(events[1..]);
      assert AsData(events)[1..] == AsData(events[1..]);
    }
  }
}
