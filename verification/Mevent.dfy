/** The event loop's two lists: events in use and events another thread has asked to delete. */
module Mevent {
  import opened Words
  import opened Queues

  const MEVENT_MAX: nat := 64

  datatype EvType = Read | ReadEt | Write | WriteEt | Timer

  /** What `mevent_add` compares: a file descriptor and an event type. */
  datatype Key = Key(fd: int, kind: EvType)

  /** Events are numbered in order of allocation, `keys[e]` belonging to event `e`. `active` holds the
      events whose `me_state` is not zero, `registered` those epoll may still report. `torn` lists the
      events that were torn down and freed, oldest first. */
  datatype Books = Books(keys: seq<Key>, head: seq<nat>, del: seq<nat>,
                         active: set<nat>, registered: set<nat>, torn: seq<nat>)
  {
    /** The event that is next to be allocated. */
    function Next(): nat { |keys| }

    predicate KeysKnown() { forall k :: 0 <= k < |head| ==> head[k] < |keys| }

    /** The position of the first listed event with this key, or the length of the list. */
    function FirstWith(key: Key, k: nat): (r: nat)
      requires KeysKnown() && k <= |head|
      ensures k <= r <= |head|
      ensures r < |head| ==> keys[head[r]] == key
      ensures forall j :: k <= j < r ==> keys[head[j]] != key
      decreases |head| - k
    {
      if k == |head| || keys[head[k]] == key then k else FirstWith(key, k + 1)
    }

    /** Allocated, filled in and known to epoll, but not yet on the list. */
    function Created(key: Key): Books {
      this.(keys := keys + [key], active := active + {|keys|}, registered := registered + {|keys|})
    }

    function Linked(e: nat): Books { this.(head := [e] + head) }

    function Unlinked(e: nat): Books { this.(head := Remove(head, e)) }

    function Deactivated(e: nat): Books { this.(active := active - {e}) }

    function Unregistered(e: nat): Books { this.(registered := registered - {e}) }

    function Parked(e: nat): Books { this.(del := [e] + del) }

    function Torn(e: nat): Books { this.(torn := torn + [e]) }

    function Drained(): Books { this.(del := [], torn := torn + del) }
  }

  class Events {
    var keys: seq<Key>
    var head: seq<nat>
    var del: seq<nat>
    var active: set<nat>
    var registered: set<nat>
    var torn: seq<nat>

    function View(): Books
      reads this
    {
      Books(keys, head, del, active, registered, torn)
    }

    constructor ()
      ensures View() == Books([], [], [], {}, {}, [])
    {
      keys, head, del, active, registered, torn := [], [], [], {}, {}, [];
    }

    /** `mevent_add`; `gotMemory` and `epollOk` are the answers of `calloc` and `epoll_ctl`. */
    method Add(key: Key, hasRun: bool, gotMemory: bool, epollOk: bool) returns (evp: Option<nat>)
      requires View().KeysKnown()
      modifies this
      ensures key.fd < 0 || !hasRun || key.kind == Timer ==> evp == None && View() == old(View())
      ensures key.fd >= 0 && hasRun && key.kind != Timer ==>
        var k := old(View().FirstWith(key, 0));
        if k < |old(head)| then evp == Some(old(head)[k]) && View() == old(View())
        else if gotMemory && epollOk then
          evp == Some(old(View().Next())) && View() == old(View().Created(key).Linked(|keys|))
        else evp == None && View() == old(View())
      ensures evp.Some? && |keys| > |old(keys)| ==>
        && evp == Some(|old(keys)|) && keys == old(keys) + [key] && head == [evp.value] + old(head)
        && active == old(active) + {evp.value} && registered == old(registered) + {evp.value}
        && del == old(del) && torn == old(torn)
    {
      if key.fd < 0 || !hasRun || key.kind == Timer {
        return None;
      }
      for k := 0 to |head|
        invariant View() == old(View())
        invariant View().FirstWith(key, 0) == View().FirstWith(key, k)
      {
        if keys[head[k]] == key {
          return Some(head[k]);
        }
      }
      if !gotMemory || !epollOk {
        return None;
      }
      var mevp := |keys|;
      keys := keys + [key];
      active := active + {mevp};
      registered := registered + {mevp};
      head := [mevp] + head;
      return Some(mevp);
    }

    /** `mevent_delete_event`: another thread parks the event, the dispatch thread frees it at once. */
    method DeleteEvent(evp: nat, isDispatchThread: bool)
      modifies this
      ensures View() == var gone := old(View().Unlinked(evp).Deactivated(evp).Unregistered(evp));
        if isDispatchThread then gone.Torn(evp) else gone.Parked(evp)
      ensures head == Remove(old(head), evp) && evp !in active && evp !in registered && keys == old(keys)
      ensures active + {evp} == old(active) + {evp} && registered + {evp} == old(registered) + {evp}
      ensures isDispatchThread ==> torn == old(torn) + [evp] && del == old(del)
      ensures !isDispatchThread ==> del == [evp] + old(del) && torn == old(torn)
    {
      head := Remove(head, evp);
      active := active - {evp};
      registered := registered - {evp};
      if !isDispatchThread {
        del := [evp] + del;
      } else {
        torn := torn + [evp];
      }
    }

    /** `mevent_drain_del_list` */
    method DrainDelList()
      modifies this`del, this`torn
      ensures View() == old(View().Drained())
      ensures del == [] && torn == old(torn) + old(del)
    {
      while del != []
        invariant torn + del == old(torn + del)
        decreases |del|
      {
        var evp := del[0];
        del := del[1..];
        torn := torn + [evp];
        assert torn + del == old(torn + del) by {
          assert [evp] + del == old(torn + del)[|torn| - 1..];
        }
      }
    }
  }
}
