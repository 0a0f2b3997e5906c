/** Optional values: an absent storage slot, a record that is not found. */
module Wrappers {
  datatype Option<+T> = None | Some(value: T)
}

/**
 * The job record and the list operations `tracker.js` performs on the
 * in-memory `jobs` list: removing every record with an id (`filter`),
 * finding the first record with an id (`find`) and changing that record's
 * status.
 */
module Jobs {
  import opened Wrappers

  /** One application record, with the fields `addJob` fills from the form. */
  datatype Job = Job(id: int, company: string, role: string, date: string, status: string, link: string)

  /** Some record of `js` carries `id`. */
  predicate HasId(js: seq<Job>, id: int) {
    exists k :: 0 <= k < |js| && js[k].id == id
  }

  /** `k` is the position of the first record of `js` that carries `id`. */
  predicate IsFirst(js: seq<Job>, id: int, k: int) {
    0 <= k < |js| && js[k].id == id && forall m :: 0 <= m < k ==> js[m].id != id
  }

  /**
   * The list `deleteJob` keeps: `js` with every record whose id is `id`
   * filtered out, front to back.
   */
  function Without(js: seq<Job>, id: int): (r: seq<Job>)
    ensures |r| <= |js|
    ensures forall k :: 0 <= k < |r| ==> r[k].id != id
    ensures forall j :: j in r ==> j in js
  {
    if js == [] then []
    else if js[0].id == id then Without(js[1..], id)
    else [js[0]] + Without(js[1..], id)
  }

  /** `jobs.find(j => j.id === id)`, as the index of the record it returns. */
  function FirstIndex(js: seq<Job>, id: int): (r: Option<nat>)
    ensures r.None? <==> !HasId(js, id)
    ensures r.Some? ==> IsFirst(js, id, r.value)
  {
    if js == [] then None
    else if js[0].id == id then Some(0)
    else
      match FirstIndex(js[1..], id)
      case None => None
      case Some(k) => Some(k + 1)
  }

  /**
   * The list after `updateStatus`: the first record with `id` gets status
   * `s`; every other field and every other record stay as they were.
   */
  function WithStatus(js: seq<Job>, id: int, s: string): (r: seq<Job>)
    ensures |r| == |js|
    ensures forall k :: 0 <= k < |js| ==>
      r[k] == if IsFirst(js, id, k) then js[k].(status := s) else js[k]
  {
    if js == [] then []
    else if js[0].id == id then [js[0].(status := s)] + js[1..]
    else [js[0]] + WithStatus(js[1..], id, s)
  }

  /** Filtering distributes over concatenation, so relative order is kept. */
  lemma {:induction false} WithoutConcat(a: seq<Job>, b: seq<Job>, id: int)
    ensures Without(a + b, id) == Without(a, id) + Without(b, id)
  {
    if a == [] {
      assert a + b == b;
    } else {
      assert (a + b)[1..] == a[1..] + b;
      WithoutConcat(a[1..], b, id);
    }
  }

  /**
   * Every record whose id differs from `id` keeps its number of occurrences;
   * every record with that id is gone.
   */
  lemma {:induction false} WithoutCount(js: seq<Job>, id: int, j: Job)
    ensures multiset(Without(js, id))[j] == if j.id == id then 0 else multiset(js)[j]
  {
    if js != [] {
      WithoutCount(js[1..], id, j);
      assert js == [js[0]] + js[1..];
    }
  }

  /** Deleting changes the list exactly when some record has the id. */
  lemma {:induction false} WithoutUnchanged(js: seq<Job>, id: int)
    ensures Without(js, id) == js <==> !HasId(js, id)
    ensures HasId(js, id) ==> |Without(js, id)| < |js|
  {
    if js != [] {
      WithoutUnchanged(js[1..], id);
      if js[0].id == id {
        assert HasId(js, id);
      } else if HasId(js[1..], id) {
        var k :| 0 <= k < |js[1..]| && js[1..][k].id == id;
        assert js[k + 1].id == id;
      } else {
        assert js == [js[0]] + js[1..];
        assert !HasId(js, id) by {
          forall k | 0 <= k < |js| ensures js[k].id != id {
            if k > 0 { assert js[k] == js[1..][k - 1]; }
          }
        }
      }
    }
  }

  /** Deleting the same id twice is the same as deleting it once. */
  lemma WithoutIdempotent(js: seq<Job>, id: int)
    ensures Without(Without(js, id), id) == Without(js, id)
  {
    WithoutUnchanged(Without(js, id), id);
  }

  /**
   * Adding a record whose id is new and then deleting by that id gives back
   * the list as it was.
   */
  lemma AddThenDelete(js: seq<Job>, j: Job)
    requires !HasId(js, j.id)
    ensures Without([j] + js, j.id) == js
  {
    assert ([j] + js)[1..] == js;
    WithoutUnchanged(js, j.id);
  }

  /**
   * Changing the status at the index `find` returns is the recursive
   * specification; when nothing is found the list is untouched.
   */
  lemma {:induction false} WithStatusAtFirst(js: seq<Job>, id: int, s: string)
    ensures FirstIndex(js, id).None? ==> WithStatus(js, id, s) == js
    ensures FirstIndex(js, id).Some? ==>
      var k := FirstIndex(js, id).value;
      WithStatus(js, id, s) == js[k := js[k].(status := s)]
  {
    var r := WithStatus(js, id, s);
    match FirstIndex(js, id)
    case None =>
      assert forall k :: 0 <= k < |js| ==> !IsFirst(js, id, k);
    case Some(k) =>
      forall m | 0 <= m < |js| ensures r[m] == js[k := js[k].(status := s)][m] {
        if m != k {
          assert !IsFirst(js, id, m);
        }
      }
  }

  /** The ids, and so the membership of every id, survive a status change. */
  lemma {:induction false} WithStatusKeepsIds(js: seq<Job>, id: int, s: string, other: int)
    ensures HasId(WithStatus(js, id, s), other) <==> HasId(js, other)
  {
    var r := WithStatus(js, id, s);
    assert forall k :: 0 <= k < |js| ==> r[k].id == js[k].id;
    if HasId(js, other) {
      var k :| 0 <= k < |js| && js[k].id == other;
      assert r[k].id == other;
    }
    if HasId(r, other) {
      var k :| 0 <= k < |r| && r[k].id == other;
      assert js[k].id == other;
    }
  }

  /** Setting the same status twice is the same as setting it once. */
  lemma {:induction false} WithStatusIdempotent(js: seq<Job>, id: int, s: string)
    ensures WithStatus(WithStatus(js, id, s), id, s) == WithStatus(js, id, s)
  {
    if js != [] && js[0].id != id {
      WithStatusIdempotent(js[1..], id, s);
      assert WithStatus(js, id, s)[1..] == WithStatus(js[1..], id, s);
    } else if js != [] {
      assert WithStatus(js, id, s)[1..] == js[1..];
    }
  }

  /** Updating a record and then deleting its id is the same as deleting it. */
  lemma {:induction false} DeleteAfterUpdate(js: seq<Job>, id: int, s: string)
    ensures Without(WithStatus(js, id, s), id) == Without(js, id)
  {
    if js != [] {
      var r := WithStatus(js, id, s);
      if js[0].id == id {
        assert r[1..] == js[1..];
      } else {
        assert r[1..] == WithStatus(js[1..], id, s);
        DeleteAfterUpdate(js[1..], id, s);
      }
    }
  }
}
