/**
 * The page's mutable state: the global `jobs` list and the storage slot
 * `saveJobs` writes it to, with the three operations that change them.
 * Form fields, `Date.now()` and the answer to the `confirm` dialog arrive
 * as parameters.
 */
module Tracker {
  import opened Wrappers
  import opened Jobs

  class Tracker {
    /** The in-memory list, newest first. */
    var jobs: seq<Job>
    /** The persisted slot: `None` when nothing was ever saved. */
    var stored: Option<seq<Job>>

    /** The slot holds exactly the in-memory list. */
    predicate Saved()
      reads this
    {
      stored == Some(jobs)
    }

    /** Start-up: the saved list, or an empty one when the slot is empty. */
    constructor (slot: Option<seq<Job>>)
      ensures stored == slot
      ensures jobs == (if slot.Some? then slot.value else [])
      ensures slot.Some? ==> Saved()
    {
      stored := slot;
      jobs := if slot.Some? then slot.value else [];
    }

    /** `saveJobs`: write the whole list to the slot. */
    method SaveJobs()
      modifies this`stored
      ensures Saved()
    {
      stored := Some(jobs);
    }

    /**
     * `addJob`: a record built from the form goes to the front; the earlier
     * records follow unchanged and in order; the list is then saved.
     */
    method AddJob(now: int, company: string, role: string, date: string, status: string, link: string)
      modifies this
      ensures |jobs| == |old(jobs)| + 1
      ensures jobs[0] == Job(now, company, role, date, status, link)
      ensures jobs[1..] == old(jobs)
      ensures Saved()
    {
      var job := Job(now, company, role, date, status, link);
      jobs := [job] + jobs;
      SaveJobs();
    }

    /**
     * `deleteJob`: when confirmed, every record with `id` goes and the rest
     * keep their order, and the list is saved; when refused nothing changes.
     */
    method DeleteJob(id: int, confirmed: bool)
      modifies this
      ensures confirmed ==> jobs == Without(old(jobs), id) && Saved()
      ensures confirmed && !HasId(old(jobs), id) ==> jobs == old(jobs)
      ensures !confirmed ==> jobs == old(jobs) && stored == old(stored)
    {
      if confirmed {
        WithoutUnchanged(jobs, id);
        jobs := Without(jobs, id);
        SaveJobs();
      }
    }

    /**
     * `updateStatus`: the first record with `id` takes the new status and
     * the list is saved; without such a record nothing changes.
     */
    method UpdateStatus(id: int, newStatus: string)
      modifies this
      ensures jobs == WithStatus(old(jobs), id, newStatus)
      ensures |jobs| == |old(jobs)|
      ensures forall k :: 0 <= k < |jobs| && !IsFirst(old(jobs), id, k) ==> jobs[k] == old(jobs)[k]
      ensures forall k :: IsFirst(old(jobs), id, k) ==> jobs[k] == old(jobs)[k].(status := newStatus)
      ensures HasId(old(jobs), id) ==> Saved()
      ensures !HasId(old(jobs), id) ==> jobs == old(jobs) && stored == old(stored)
    {
      WithStatusAtFirst(jobs, id, newStatus);
      var found := FirstIndex(jobs, id);
      if found.Some? {
        var k := found.value;
        jobs := jobs[k := jobs[k].(status := newStatus)];
        SaveJobs();
      }
    }
  }
}
