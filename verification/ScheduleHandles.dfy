/**
 The schedule handles of `apps/selfhost/src/index.ts`: one live handle for a
 mapping at most, and every live handle in the list that shutdown stops.
 */
module ScheduleHandles {
  import opened Common

  /** A running job; `mapping` is the mapping it syncs, or none for the digest and the other chores. */
  class Handle {
    const mapping: Option<string>
    var live: bool

    constructor (mapping: Option<string>)
      ensures this.mapping == mapping && live
    {
      this.mapping := mapping;
      live := true;
    }

    method Stop()
      modifies this
      ensures !live
    {
      live := false;
    }
  }

  class Appliance {
    /** The shutdown list. */
    var handles: seq<Handle>
    /** The handle of each scheduled mapping. */
    var scheduled: map<string, Handle>
    /** Every handle ever made. */
    ghost var made: set<Handle>

    ghost predicate Valid()
      reads this, made
    {
      && (forall h :: h in handles ==> h in made)
      && (forall h :: h in made ==> h in handles)
      && (forall id :: id in scheduled ==>
           scheduled[id] in made && scheduled[id].mapping == Some(id) && scheduled[id].live)
      && (forall h :: h in made && h.live && h.mapping.Some? ==>
           h.mapping.value in scheduled && scheduled[h.mapping.value] == h)
    }

    /** The handles that would still fire. */
    ghost function Live(): (r: set<Handle>)
      reads this, made
    {
      set h | h in made && h.live
    }

    constructor ()
      ensures Valid() && made == {} && scheduled == map[]
    {
      handles, scheduled, made := [], map[], {};
    }

    /** At most one live handle per mapping, and none outside the shutdown list. */
    lemma OneLiveEach(a: Handle, b: Handle)
      requires Valid() && a in Live() && b in Live()
      ensures a in handles && b in handles
      ensures a.mapping.Some? && a.mapping == b.mapping ==> a == b
    {
    }

    /** `scheduleMapping`: pressed twice, it schedules once. */
    method ScheduleMapping(id: string)
      requires Valid()
      modifies this
      ensures Valid() && scheduled.Keys == old(scheduled).Keys + {id}
      ensures id in old(scheduled) ==> scheduled == old(scheduled) && handles == old(handles) && made == old(made)
      ensures id !in old(scheduled) ==>
        && fresh(scheduled[id]) && scheduled == old(scheduled)[id := scheduled[id]]
        && handles == old(handles) + [scheduled[id]] && Live() == old(Live()) + {scheduled[id]}
    {
      if id in scheduled { return; }
      var handle := new Handle(Some(id));
      handles := handles + [handle];
      scheduled := scheduled[id := handle];
      made := made + {handle};
    }

    /** `unscheduleMapping`: the handle is stopped and forgotten, and stays in the shutdown list. */
    method UnscheduleMapping(id: string)
      requires Valid()
      modifies this, made
      ensures Valid() && handles == old(handles) && made == old(made)
      ensures scheduled == old(scheduled) - {id}
      ensures Live() == if id in old(scheduled) then old(Live()) - {old(scheduled)[id]} else old(Live())
    {
      if id !in scheduled {
        assert scheduled - {id} == scheduled;
        return;
      }
      scheduled[id].Stop();
      scheduled := scheduled - {id};
    }

    /** A chore of the appliance's own: in the shutdown list, and no mapping's. */
    method ScheduleChore()
      requires Valid()
      modifies this
      ensures Valid() && scheduled == old(scheduled)
      ensures |handles| == |old(handles)| + 1 && Live() == old(Live()) + {handles[|handles| - 1]}
    {
      var handle := new Handle(None);
      handles := handles + [handle];
      made := made + {handle};
    }

    /** Shutdown stops what is in the list, and that is everything that was live. */
    method Shutdown()
      requires Valid()
      modifies made
      ensures Live() == {} && made == old(made)
    {
      for k := 0 to |handles|
        invariant forall j :: 0 <= j < k ==> !handles[j].live
      {
        handles[k].Stop();
      }
      forall h | h in made
        ensures !h.live
      {
        assert h in handles;
      }
    }
  }
}
