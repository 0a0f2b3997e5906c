/**
 * The values `tracker.js` derives from the job list: the counters and the
 * response rate shown by `calculateStats`, and the CSS class `getStatusClass`
 * gives a status badge.
 */
module Stats {
  import opened Jobs

  const INTERVIEW := "Interview"
  const OFFER := "Offer"
  const REJECTED := "Rejected"

  /** The records `calculateStats` counts as a response: an interview or an offer. */
  predicate IsResponse(j: Job) {
    j.status == INTERVIEW || j.status == OFFER
  }

  /** Number of records counted as a response. */
  function CountResponses(js: seq<Job>): (n: nat)
    ensures n <= |js|
    ensures n == 0 <==> forall k :: 0 <= k < |js| ==> !IsResponse(js[k])
    ensures n == |js| <==> forall k :: 0 <= k < |js| ==> IsResponse(js[k])
  {
    if js == [] then 0
    else (if IsResponse(js[0]) then 1 else 0) + CountResponses(js[1..])
  }

  /** Number of records whose status is exactly `s`. */
  function CountStatus(js: seq<Job>, s: string): (n: nat)
    ensures n <= |js|
    ensures n == 0 <==> forall k :: 0 <= k < |js| ==> js[k].status != s
  {
    if js == [] then 0
    else (if js[0].status == s then 1 else 0) + CountStatus(js[1..], s)
  }

  /**
   * `Math.round(part / whole * 100)` over exact rationals: the nearest
   * integer to 100 * part / whole, halves rounded up, and 0 for an empty list.
   */
  function RoundedPercent(part: nat, whole: nat): (r: nat)
    ensures whole == 0 ==> r == 0
    ensures whole > 0 ==> 2 * whole * r <= 200 * part + whole < 2 * whole * (r + 1)
    ensures part <= whole ==> r <= 100
    ensures part == 0 ==> r == 0
    ensures 0 < part == whole ==> r == 100
  {
    if whole == 0 then 0
    else
      var r := (200 * part + whole) / (2 * whole);
      DivBounds(200 * part + whole, 2 * whole, r);
      PercentAtMost100(part, whole, r);
      PercentEnds(part, whole, r);
      r
  }

  /** Euclidean division brackets its dividend. */
  lemma DivBounds(n: nat, d: nat, q: nat)
    requires d > 0 && q == n / d
    ensures d * q <= n < d * (q + 1)
  {
    assert n == d * q + n % d;
  }

  /** A rounded share of at most the whole is at most 100 percent. */
  lemma PercentAtMost100(part: nat, whole: nat, r: nat)
    requires whole > 0 && 2 * whole * r <= 200 * part + whole
    ensures part <= whole ==> r <= 100
  {
    if part <= whole {
      assert 2 * whole * r < 2 * whole * 101;
      MulLess(2 * whole, r, 101);
    }
  }

  /** No responses is 0 percent; all responses is 100 percent. */
  lemma PercentEnds(part: nat, whole: nat, r: nat)
    requires whole > 0 && 2 * whole * r <= 200 * part + whole < 2 * whole * (r + 1)
    ensures part == 0 ==> r == 0
    ensures part == whole ==> r == 100
  {
    if part == 0 {
      MulLess(2 * whole, r, 1);
    }
    if part == whole {
      MulLess(2 * whole, r, 101);
      MulLess(2 * whole, 99, r + 1);
    }
  }

  /** A positive factor preserves a strict bound on the other factor. */
  lemma MulLess(d: nat, q: nat, b: nat)
    requires d > 0 && d * q < d * b
    ensures q < b
  {
    assert d * (b - q) == d * b - d * q;
  }

  /** The figures `calculateStats` computes (`offers` is computed but never shown). */
  datatype Figures = Figures(total: nat, interviews: nat, offers: nat, rate: nat)

  /** `calculateStats` without the writes to the page. */
  function CalculateStats(js: seq<Job>): (st: Figures)
    ensures st.total == |js|
    ensures st.offers <= st.interviews <= st.total
    ensures st.rate <= 100
    ensures st.total == 0 ==> st.rate == 0
    ensures st.total > 0 ==>
      2 * st.total * st.rate <= 200 * st.interviews + st.total < 2 * st.total * (st.rate + 1)
    ensures st.total > 0 && st.interviews == st.total ==> st.rate == 100
    ensures st.interviews == 0 ==> st.rate == 0
    ensures st.interviews == st.total <==> forall k :: 0 <= k < |js| ==> IsResponse(js[k])
  {
    ResponsesSplit(js);
    var total := |js|;
    var interviews := CountResponses(js);
    Figures(total, interviews, CountStatus(js, OFFER), RoundedPercent(interviews, total))
  }

  /** A response is an interview or an offer, and no record is both. */
  lemma {:induction false} ResponsesSplit(js: seq<Job>)
    ensures CountResponses(js) == CountStatus(js, INTERVIEW) + CountStatus(js, OFFER)
  {
    if js != [] {
      ResponsesSplit(js[1..]);
    }
  }

  /** Counting responses distributes over concatenation. */
  lemma {:induction false} CountResponsesConcat(a: seq<Job>, b: seq<Job>)
    ensures CountResponses(a + b) == CountResponses(a) + CountResponses(b)
  {
    if a == [] {
      assert a + b == b;
    } else {
      assert (a + b)[1..] == a[1..] + b;
      CountResponsesConcat(a[1..], b);
    }
  }

  /** After `addJob` the total grows by one and the response count by the new record's share. */
  lemma StatsAfterAdd(js: seq<Job>, j: Job)
    ensures CalculateStats([j] + js).total == CalculateStats(js).total + 1
    ensures CalculateStats([j] + js).interviews ==
      CalculateStats(js).interviews + (if IsResponse(j) then 1 else 0)
  {
    assert ([j] + js)[1..] == js;
  }

  /**
   * Deleting never raises the response count, and lowers it by at most the
   * number of records removed.
   */
  lemma {:induction false} StatsAfterDelete(js: seq<Job>, id: int)
    ensures CountResponses(Without(js, id)) <= CountResponses(js)
    ensures CountResponses(js) - CountResponses(Without(js, id)) <= |js| - |Without(js, id)|
  {
    if js != [] {
      StatsAfterDelete(js[1..], id);
      if js[0].id != id {
        assert ([js[0]] + Without(js[1..], id))[1..] == Without(js[1..], id);
      }
    }
  }

  /** A status change keeps the total and moves the response count by at most one. */
  lemma {:induction false} StatsAfterUpdate(js: seq<Job>, id: int, s: string)
    ensures |WithStatus(js, id, s)| == |js|
    ensures CountResponses(js) - 1 <= CountResponses(WithStatus(js, id, s)) <= CountResponses(js) + 1
  {
    if js != [] {
      var r := WithStatus(js, id, s);
      if js[0].id == id {
        assert r[1..] == js[1..];
      } else {
        assert r[1..] == WithStatus(js[1..], id, s);
        StatsAfterUpdate(js[1..], id, s);
      }
    }
  }

  /** `getStatusClass`: the badge class for a status; anything unrecognised looks applied. */
  function StatusClass(status: string): (c: string)
    ensures c in {"status-interview", "status-rejected", "status-offer", "status-applied"}
    ensures c == "status-interview" <==> status == INTERVIEW
    ensures c == "status-rejected" <==> status == REJECTED
    ensures c == "status-offer" <==> status == OFFER
  {
    if status == INTERVIEW then "status-interview"
    else if status == REJECTED then "status-rejected"
    else if status == OFFER then "status-offer"
    else "status-applied"
  }

  /** The response records are exactly those shown with the interview or offer badge. */
  lemma ResponseBadge(j: Job)
    ensures IsResponse(j) <==> StatusClass(j.status) in {"status-interview", "status-offer"}
  {
  }
}
