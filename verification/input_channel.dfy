/** The queue between two pipelines, as its one writer and one reader see it under the lock. */
module InputChannels {
  import opened Types

  datatype Option<+T> = None | Some(value: T)

  class InputChannel {
    var queue: seq<Event>
    var closed: bool

    constructor ()
      ensures queue == [] && !closed
    {
      queue := [];
      closed := false;
    }

    method Write(event: Event)
      modifies this
      ensures queue == old(queue) + [event] && closed == old(closed)
    {
      queue := queue + [event];
    }

    method Close()
      modifies this
      ensures queue == old(queue) && closed
    {
      closed := true;
    }

    /** The reader waits until the precondition holds; Monitors proves that it is woken in time. */
    method Read() returns (event: Option<Event>)
      requires queue != [] || closed
      modifies this
      ensures closed == old(closed)
      ensures event == None <==> old(queue) == []
      ensures event.Some? ==> old(queue) == [event.value] + queue
      ensures event.None? ==> queue == []
    {
      if |queue| == 0 { return None; }
      event := Some(queue[0]);
      queue := queue[1..];
    }

    method IsDone() returns (r: bool)
      ensures r <==> closed && queue == []
    {
      r := closed && |queue| == 0;
    }
  }
}
