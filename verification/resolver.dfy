/** The resolver: for each request row, walk the ZIP rows of its zipcode,
    collect the Silver rates of their rate areas, and write the SLCSP into the
    row's rate cell when one can be determined. */
module Resolver {
  import opened Records
  import opened ZipCodes
  import opened CoveragePlans
  import opened Ranking

  /** The rates of the Silver plans among `plans`, in order. */
  function SilverRates(plans: seq<PlanRow>): (rates: seq<Rate>)
    ensures forall x :: x in rates <==> exists plan :: plan in plans && plan.metalLevel == SilverTier && plan.rate == x
    decreases |plans|
  {
    if |plans| == 0 then []
    else
      assert forall plan :: plan in plans <==> plan == plans[0] || plan in plans[1..];
      (if plans[0].metalLevel == SilverTier then [plans[0].rate] else []) + SilverRates(plans[1..])
  }

  /** The plans of a ZIP row's own (state, rate area). */
  function PlansFor(planIndex: map<string, seq<PlanRow>>, row: ZipRow): seq<PlanRow>
  {
    GetByStateRateArea(planIndex, row.state, row.rateArea)
  }

  /** The rows of one zipcode agree on their rate area: no row after a row
      with a non-empty rate area carries a different one. Rows with an empty
      rate area before the first non-empty one are not in conflict, and the
      states are not compared. */
  ghost predicate Consistent(rows: seq<ZipRow>)
  {
    forall i, j :: 0 <= i < j < |rows| && rows[i].rateArea != "" ==> rows[j].rateArea == rows[i].rateArea
  }

  /** The rows agree with an already adopted rate area; the empty string means
      nothing has been adopted yet. */
  ghost predicate ConsistentFrom(adopted: string, rows: seq<ZipRow>)
  {
    if adopted == "" then Consistent(rows)
    else forall j :: 0 <= j < |rows| ==> rows[j].rateArea == adopted
  }

  /** The walk over a zipcode's rows. While nothing (or only the empty string)
      has been adopted, the row's rate area is adopted; a row whose rate area
      differs from the adopted one discards every collected rate and ends the
      walk before its own plans are read; otherwise the Silver rates of the
      row's plans are appended. */
  function Walk(planIndex: map<string, seq<PlanRow>>, adopted: string, rows: seq<ZipRow>, collected: seq<Rate>): seq<Rate>
    decreases |rows|
  {
    if |rows| == 0 then collected
    else
      var row := rows[0];
      if adopted == "" then
        Walk(planIndex, row.rateArea, rows[1..], collected + SilverRates(PlansFor(planIndex, row)))
      else if adopted != row.rateArea then
        []
      else
        Walk(planIndex, adopted, rows[1..], collected + SilverRates(PlansFor(planIndex, row)))
  }

  /** The empty-head case of `Consistent`: a leading row without a rate area
      constrains nothing. */
  lemma ConsistentSkipEmpty(rows: seq<ZipRow>)
    requires |rows| > 0 && rows[0].rateArea == ""
    ensures Consistent(rows) <==> Consistent(rows[1..])
  {
  }

  /** The adopting case of `Consistent`: a leading row with a rate area makes
      the rows consistent exactly when all later rows carry that area. */
  lemma ConsistentAdopt(rows: seq<ZipRow>)
    requires |rows| > 0 && rows[0].rateArea != ""
    ensures Consistent(rows) <==> ConsistentFrom(rows[0].rateArea, rows[1..])
  {
  }

  /** A walk ends with nothing when the rows conflict, and otherwise with the
      rates collected so far plus every Silver rate of every row's plans. */
  lemma {:induction false} WalkCollects(planIndex: map<string, seq<PlanRow>>, adopted: string, rows: seq<ZipRow>, collected: seq<Rate>)
    ensures !ConsistentFrom(adopted, rows) ==> Walk(planIndex, adopted, rows, collected) == []
    ensures ConsistentFrom(adopted, rows) ==>
              forall x :: x in Walk(planIndex, adopted, rows, collected) <==>
                          x in collected || exists row :: row in rows && x in SilverRates(PlansFor(planIndex, row))
    decreases |rows|
  {
    if |rows| > 0 {
      var row := rows[0];
      var rest := rows[1..];
      var more := collected + SilverRates(PlansFor(planIndex, row));
      assert forall r :: r in rows <==> r == row || r in rest;
      if adopted == "" {
        WalkCollects(planIndex, row.rateArea, rest, more);
        if row.rateArea == "" {
          ConsistentSkipEmpty(rows);
        } else {
          ConsistentAdopt(rows);
        }
      } else if adopted == row.rateArea {
        WalkCollects(planIndex, adopted, rest, more);
      }
    }
  }

  /** The rates collected for one zipcode. */
  function CollectRates(zipIndex: map<string, seq<ZipRow>>, planIndex: map<string, seq<PlanRow>>, zipcode: string): seq<Rate>
  {
    Walk(planIndex, "", GetByZipcode(zipIndex, zipcode), [])
  }

  /** Resolves one request row: with no collected rate the row is returned as
      it came; otherwise only its rate cell changes, to the SLCSP of the
      collected rates. */
  function ResolveRow(request: Request, zipIndex: map<string, seq<ZipRow>>, planIndex: map<string, seq<PlanRow>>): (out: Request)
    ensures CollectRates(zipIndex, planIndex, request.zipcode) == [] ==> out == request
    ensures CollectRates(zipIndex, planIndex, request.zipcode) != [] ==>
              && out == request.(rate := out.rate)
              && out.rate.Computed?
              && IsSlcsp(Distinct(CollectRates(zipIndex, planIndex, request.zipcode)), out.rate.value)
  {
    var rates := CollectRates(zipIndex, planIndex, request.zipcode);
    if |rates| > 0 then request.(rate := Computed(Pick(rates)))
    else request
  }

  /** Resolves every request row, in order. */
  function CalculateSlcsp(requests: seq<Request>, zipIndex: map<string, seq<ZipRow>>, planIndex: map<string, seq<PlanRow>>): (out: seq<Request>)
    ensures |out| == |requests|
    ensures forall i :: 0 <= i < |requests| ==>
              && out[i].zipcode == requests[i].zipcode
              && out[i].otherFields == requests[i].otherFields
              && (out[i].rate == requests[i].rate || out[i].rate.Computed?)
    ensures forall i :: 0 <= i < |requests| ==> out[i] == ResolveRow(requests[i], zipIndex, planIndex)
  {
    seq(|requests|, i requires 0 <= i < |requests| => ResolveRow(requests[i], zipIndex, planIndex))
  }

  /** Resolving a row twice gives what resolving it once gives. */
  lemma ResolveRowIdempotent(request: Request, zipIndex: map<string, seq<ZipRow>>, planIndex: map<string, seq<PlanRow>>)
    ensures ResolveRow(ResolveRow(request, zipIndex, planIndex), zipIndex, planIndex) == ResolveRow(request, zipIndex, planIndex)
  {
  }

  /** Running the calculation on its own output changes nothing. */
  lemma CalculateSlcspIdempotent(requests: seq<Request>, zipIndex: map<string, seq<ZipRow>>, planIndex: map<string, seq<PlanRow>>)
    ensures CalculateSlcsp(CalculateSlcsp(requests, zipIndex, planIndex), zipIndex, planIndex) == CalculateSlcsp(requests, zipIndex, planIndex)
  {
    var once := CalculateSlcsp(requests, zipIndex, planIndex);
    forall i | 0 <= i < |requests|
      ensures ResolveRow(once[i], zipIndex, planIndex) == once[i]
    {
      ResolveRowIdempotent(requests[i], zipIndex, planIndex);
    }
  }

  /** A row with an empty rate area is never adopted, so a later row with a
      rate area is not a conflict; the reverse order is one. */
  lemma EmptyRateAreaNotAdopted(zipcode: string)
    ensures Consistent([ZipRow(zipcode, "AL", "01001", ""), ZipRow(zipcode, "AL", "01003", "1")])
    ensures !Consistent([ZipRow(zipcode, "AL", "01001", "1"), ZipRow(zipcode, "AL", "01003", "")])
  {
    var bad := [ZipRow(zipcode, "AL", "01001", "1"), ZipRow(zipcode, "AL", "01003", "")];
    assert bad[0].rateArea != "" && bad[1].rateArea != bad[0].rateArea;
  }

  /** Only rate areas are compared: rows of two states with the same rate area
      do not conflict. */
  lemma StatesNotCompared(zipcode: string)
    ensures Consistent([ZipRow(zipcode, "AL", "01001", "1"), ZipRow(zipcode, "GA", "13001", "1")])
  {
  }
}
