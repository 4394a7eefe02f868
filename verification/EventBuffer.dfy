/** lib/event_buffer.rb: the per-thread lists of events that wait for the end of the transaction. */
module EventBuffers {
  import opened Prelude

  class EventBuffer<T> {
    /** `Thread.current[:event_buffer]`, nil until the first access. */
    var lists: Option<map<string, seq<T>>>

    constructor ()
      ensures lists == None && forall key :: Waiting(key) == []
    {
      lists := None;
    }

    /** What has been added for the key since the last reset. */
    function Waiting(key: string): seq<T>
      reads this
    {
      if lists.Some? && key in lists.value then lists.value[key] else []
    }

    method List(key: string) returns (items: seq<T>)
      modifies this
      ensures items == old(Waiting(key)) && forall k :: Waiting(k) == old(Waiting(k))
    {
      if lists.None? {
        lists := Some(map[]);
      }
      return Waiting(key);
    }

    method Add(key: string, item: T)
      modifies this
      ensures forall k :: Waiting(k) == old(Waiting(k)) + if k == key then [item] else []
    {
      if lists.None? {
        lists := Some(map[]);
      }
      if key !in lists.value {
        lists := Some(lists.value[key := []]);
      }
      lists := Some(lists.value[key := lists.value[key] + [item]]);
    }

    method Reset(key: string)
      modifies this
      ensures forall k :: Waiting(k) == if k == key then [] else old(Waiting(k))
    {
      if lists.None? || key !in lists.value {
        return;
      }
      lists := Some(lists.value[key := []]);
    }
  }
}
