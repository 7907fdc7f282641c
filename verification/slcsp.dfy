/** The calculator stated against the three raw tables: what `CalculateSlcsp`
    writes for a request, in terms of the ZIP rows and plan rows themselves
    rather than the indexes built from them. */
module Slcsp {
  import opened Records
  import ZipCodes
  import CoveragePlans
  import opened Ranking
  import opened Resolver

  /** The ZIP rows of a zipcode, in table order. */
  function ZipRowsOf(zipRows: seq<ZipRow>, zipcode: string): seq<ZipRow>
  {
    ZipCodes.RowsOf(zipRows, zipcode)
  }

  /** The rate of every Silver plan whose key equals the key of some ZIP row of
      the zipcode. Each ZIP row contributes the plans of its own state, so rows
      with the same rate area but different states pool their plans. */
  ghost function Candidates(zipRows: seq<ZipRow>, planRows: seq<PlanRow>, zipcode: string): set<Rate>
  {
    set plan | plan in planRows && plan.metalLevel == SilverTier &&
               (exists row :: row in zipRows && row.zipcode == zipcode &&
                              CoveragePlans.PlanKey(plan) == CoveragePlans.Key(row.state, row.rateArea))
             :: plan.rate
  }

  /** Resolves every request against the indexes built from the two tables. */
  function CalculateFromTables(requests: seq<Request>, zipRows: seq<ZipRow>, planRows: seq<PlanRow>): seq<Request>
  {
    CalculateSlcsp(requests, ZipCodes.Load(zipRows), CoveragePlans.Load(planRows))
  }

  /** A Silver plan matching one ZIP row, the plan that puts `x` among the
      rates that row contributes. */
  ghost predicate SilverPlanFor(planRows: seq<PlanRow>, row: ZipRow, x: Rate)
  {
    exists plan :: plan in planRows && plan.metalLevel == SilverTier && plan.rate == x &&
                   CoveragePlans.PlanKey(plan) == CoveragePlans.Key(row.state, row.rateArea)
  }

  /** The Silver rates one ZIP row contributes are the rates of the Silver
      plans whose key equals the row's key. */
  lemma RowSilverRates(planRows: seq<PlanRow>, row: ZipRow, x: Rate)
    ensures x in SilverRates(PlansFor(CoveragePlans.Load(planRows), row)) <==> SilverPlanFor(planRows, row, x)
  {
    CoveragePlans.GetByStateRateAreaAfterLoad(planRows, row.state, row.rateArea);
  }

  /** Every rate collected for a zipcode with consistent rows is a candidate. */
  lemma CollectedIsCandidate(zipRows: seq<ZipRow>, planRows: seq<PlanRow>, zipcode: string, x: Rate)
    requires Consistent(ZipRowsOf(zipRows, zipcode))
    requires x in CollectRates(ZipCodes.Load(zipRows), CoveragePlans.Load(planRows), zipcode)
    ensures x in Candidates(zipRows, planRows, zipcode)
  {
    var rows := ZipRowsOf(zipRows, zipcode);
    ZipCodes.GetByZipcodeAfterLoad(zipRows, zipcode);
    WalkCollects(CoveragePlans.Load(planRows), "", rows, []);
    var row :| row in rows && x in SilverRates(PlansFor(CoveragePlans.Load(planRows), row));
    RowSilverRates(planRows, row, x);
    var plan :| plan in planRows && plan.metalLevel == SilverTier && plan.rate == x &&
                CoveragePlans.PlanKey(plan) == CoveragePlans.Key(row.state, row.rateArea);
    assert row in zipRows && row.zipcode == zipcode;
  }

  /** Every candidate of a zipcode with consistent rows is collected. */
  lemma CandidateIsCollected(zipRows: seq<ZipRow>, planRows: seq<PlanRow>, zipcode: string, x: Rate)
    requires Consistent(ZipRowsOf(zipRows, zipcode))
    requires x in Candidates(zipRows, planRows, zipcode)
    ensures x in CollectRates(ZipCodes.Load(zipRows), CoveragePlans.Load(planRows), zipcode)
  {
    var rows := ZipRowsOf(zipRows, zipcode);
    ZipCodes.GetByZipcodeAfterLoad(zipRows, zipcode);
    WalkCollects(CoveragePlans.Load(planRows), "", rows, []);
    var plan, row :| plan in planRows && plan.metalLevel == SilverTier && plan.rate == x &&
                     row in zipRows && row.zipcode == zipcode &&
                     CoveragePlans.PlanKey(plan) == CoveragePlans.Key(row.state, row.rateArea);
    assert row in rows;
    RowSilverRates(planRows, row, x);
  }

  /** The rates collected for a zipcode: nothing when its ZIP rows conflict on
      the rate area, and otherwise, up to repeats, exactly the candidates. */
  lemma CollectRatesFromTables(zipRows: seq<ZipRow>, planRows: seq<PlanRow>, zipcode: string)
    ensures !Consistent(ZipRowsOf(zipRows, zipcode)) ==>
              CollectRates(ZipCodes.Load(zipRows), CoveragePlans.Load(planRows), zipcode) == []
    ensures Consistent(ZipRowsOf(zipRows, zipcode)) ==>
              Distinct(CollectRates(ZipCodes.Load(zipRows), CoveragePlans.Load(planRows), zipcode))
              == Candidates(zipRows, planRows, zipcode)
  {
    var rows := ZipRowsOf(zipRows, zipcode);
    ZipCodes.GetByZipcodeAfterLoad(zipRows, zipcode);
    WalkCollects(CoveragePlans.Load(planRows), "", rows, []);
    if Consistent(rows) {
      var collected := CollectRates(ZipCodes.Load(zipRows), CoveragePlans.Load(planRows), zipcode);
      forall x
        ensures x in Distinct(collected) <==> x in Candidates(zipRows, planRows, zipcode)
      {
        if x in collected {
          CollectedIsCandidate(zipRows, planRows, zipcode, x);
        }
        if x in Candidates(zipRows, planRows, zipcode) {
          CandidateIsCollected(zipRows, planRows, zipcode, x);
        }
      }
    }
  }

  /** The resolution of one request against the two tables: the row comes
      back unchanged when its ZIP rows conflict or no candidate exists, and
      otherwise only its rate cell changes, to the SLCSP of the candidates. */
  lemma ResolveFromTables(zipRows: seq<ZipRow>, planRows: seq<PlanRow>, request: Request)
    ensures var out := ResolveRow(request, ZipCodes.Load(zipRows), CoveragePlans.Load(planRows));
            !Consistent(ZipRowsOf(zipRows, request.zipcode)) || Candidates(zipRows, planRows, request.zipcode) == {}
            ==> out == request
    ensures var out := ResolveRow(request, ZipCodes.Load(zipRows), CoveragePlans.Load(planRows));
            Consistent(ZipRowsOf(zipRows, request.zipcode)) && Candidates(zipRows, planRows, request.zipcode) != {}
            ==> && out == request.(rate := out.rate)
                && out.rate.Computed?
                && IsSlcsp(Candidates(zipRows, planRows, request.zipcode), out.rate.value)
  {
    var collected := CollectRates(ZipCodes.Load(zipRows), CoveragePlans.Load(planRows), request.zipcode);
    CollectRatesFromTables(zipRows, planRows, request.zipcode);
    if collected != [] {
      assert collected[0] in Distinct(collected);
    }
  }

  /** A request whose zipcode is not in the ZIP table comes back unchanged,
      including whatever its rate cell held. */
  lemma UnknownZipcodeUnchanged(zipRows: seq<ZipRow>, planRows: seq<PlanRow>, request: Request)
    requires forall row :: row in zipRows ==> row.zipcode != request.zipcode
    ensures ResolveRow(request, ZipCodes.Load(zipRows), CoveragePlans.Load(planRows)) == request
  {
    ResolveFromTables(zipRows, planRows, request);
  }

  /** When a ZIP row after one with a rate area carries a different rate area,
      the request comes back unchanged, however many agreeing rows came first. */
  lemma ConflictUnchanged(zipRows: seq<ZipRow>, planRows: seq<PlanRow>, request: Request)
    requires var rows := ZipRowsOf(zipRows, request.zipcode);
             exists i, j :: 0 <= i < j < |rows| && rows[i].rateArea != "" && rows[j].rateArea != rows[i].rateArea
    ensures ResolveRow(request, ZipCodes.Load(zipRows), CoveragePlans.Load(planRows)) == request
  {
    ResolveFromTables(zipRows, planRows, request);
  }

  /** When none of the plans reached from the zipcode's rows is a Silver plan,
      the request comes back unchanged. */
  lemma NoSilverUnchanged(zipRows: seq<ZipRow>, planRows: seq<PlanRow>, request: Request)
    requires forall row, plan :: row in zipRows && row.zipcode == request.zipcode && plan in planRows &&
                                 CoveragePlans.PlanKey(plan) == CoveragePlans.Key(row.state, row.rateArea)
                                 ==> plan.metalLevel != SilverTier
    ensures ResolveRow(request, ZipCodes.Load(zipRows), CoveragePlans.Load(planRows)) == request
  {
    assert Candidates(zipRows, planRows, request.zipcode) == {};
    ResolveFromTables(zipRows, planRows, request);
  }

  /** With consistent ZIP rows and a single distinct Silver rate, that rate is
      written. */
  lemma SingleRateWritten(zipRows: seq<ZipRow>, planRows: seq<PlanRow>, request: Request, rate: Rate)
    requires Consistent(ZipRowsOf(zipRows, request.zipcode))
    requires Candidates(zipRows, planRows, request.zipcode) == {rate}
    ensures ResolveRow(request, ZipCodes.Load(zipRows), CoveragePlans.Load(planRows)) == request.(rate := Computed(rate))
  {
    ResolveFromTables(zipRows, planRows, request);
  }

  /** With consistent ZIP rows and two or more distinct Silver rates, the rate
      written is a candidate with exactly one distinct candidate below it. */
  lemma SecondLowestWritten(zipRows: seq<ZipRow>, planRows: seq<PlanRow>, request: Request, low: Rate, high: Rate)
    requires Consistent(ZipRowsOf(zipRows, request.zipcode))
    requires low in Candidates(zipRows, planRows, request.zipcode)
    requires high in Candidates(zipRows, planRows, request.zipcode)
    requires low < high
    ensures var out := ResolveRow(request, ZipCodes.Load(zipRows), CoveragePlans.Load(planRows));
            var candidates := Candidates(zipRows, planRows, request.zipcode);
            && out == request.(rate := out.rate)
            && out.rate.Computed?
            && out.rate.value in candidates
            && |Below(candidates, out.rate.value)| == 1
  {
    ResolveFromTables(zipRows, planRows, request);
  }

  /** The calculation keeps the number and order of the request rows and
      changes nothing but rate cells; each rate cell it writes is the SLCSP of
      that row's candidates. */
  lemma CalculateFromTablesShape(requests: seq<Request>, zipRows: seq<ZipRow>, planRows: seq<PlanRow>)
    ensures var out := CalculateFromTables(requests, zipRows, planRows);
            && |out| == |requests|
            && forall i :: 0 <= i < |requests| ==>
                 && out[i] == requests[i].(rate := out[i].rate)
                 && (out[i].rate == requests[i].rate ||
                     (out[i].rate.Computed? && IsSlcsp(Candidates(zipRows, planRows, requests[i].zipcode), out[i].rate.value)))
  {
    forall i | 0 <= i < |requests| {
      ResolveFromTables(zipRows, planRows, requests[i]);
    }
  }
}
