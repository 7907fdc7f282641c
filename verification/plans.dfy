/** The plan index: coverage-plan rows grouped by the text key
    `state + " " + rate_area`. */
module CoveragePlans {
  import opened Records
  import opened Grouping

  /** The composite key of a (state, rate area) pair, built by joining the two
      fields with one space. */
  function Key(state: string, rateArea: string): string
  {
    state + " " + rateArea
  }

  /** The key a plan row is grouped under. */
  function PlanKey(plan: PlanRow): string
  {
    Key(plan.state, plan.rateArea)
  }

  /** Groups the plan table by key; the keys are exactly the keys of the
      table's rows. */
  function Load(rows: seq<PlanRow>): (index: map<string, seq<PlanRow>>)
    ensures forall key :: key in index <==> exists plan :: plan in rows && PlanKey(plan) == key
  {
    var index := GroupBy(rows, PlanKey);
    assert forall key :: key in index <==> exists i :: 0 <= i < |rows| && PlanKey(rows[i]) == key;
    index
  }

  /** The plan rows of one (state, rate area), or none when the key is absent. */
  function GetByStateRateArea(index: map<string, seq<PlanRow>>, state: string, rateArea: string): seq<PlanRow>
  {
    Lookup(index, Key(state, rateArea))
  }

  /** After loading, a lookup returns exactly the plan rows whose key equals the
      key of the requested pair, in input order, and the empty list when no
      row has that key. */
  lemma GetByStateRateAreaAfterLoad(rows: seq<PlanRow>, state: string, rateArea: string)
    ensures GetByStateRateArea(Load(rows), state, rateArea) == Select(rows, PlanKey, Key(state, rateArea))
    ensures forall plan :: plan in GetByStateRateArea(Load(rows), state, rateArea) <==>
                           plan in rows && PlanKey(plan) == Key(state, rateArea)
    ensures GetByStateRateArea(Load(rows), state, rateArea) == [] <==>
            forall plan :: plan in rows ==> PlanKey(plan) != Key(state, rateArea)
  {
    LookupGroupBy(rows, PlanKey, Key(state, rateArea));
  }

  /** The position of the first space in `s`, or `|s|` when there is none. */
  function FirstSpace(s: string): (i: nat)
    ensures i <= |s|
    ensures forall j :: 0 <= j < i ==> s[j] != ' '
    ensures i < |s| ==> s[i] == ' '
  {
    if |s| == 0 then 0
    else if s[0] == ' ' then 0
    else 1 + FirstSpace(s[1..])
  }

  /** A state without spaces ends exactly where its key's first space is. */
  lemma {:induction false} FirstSpaceOfKey(state: string, rateArea: string)
    requires ' ' !in state
    ensures FirstSpace(Key(state, rateArea)) == |state|
    decreases |state|
  {
    if |state| > 0 {
      assert Key(state, rateArea)[1..] == Key(state[1..], rateArea);
      FirstSpaceOfKey(state[1..], rateArea);
    }
  }

  /** When neither state contains a space, equal keys come from equal pairs:
      the text key then identifies the (state, rate area) pair. */
  lemma KeyInjective(state1: string, area1: string, state2: string, area2: string)
    requires ' ' !in state1 && ' ' !in state2
    requires Key(state1, area1) == Key(state2, area2)
    ensures state1 == state2 && area1 == area2
  {
    var k := Key(state1, area1);
    FirstSpaceOfKey(state1, area1);
    FirstSpaceOfKey(state2, area2);
    assert |state1| == |state2|;
    assert state1 == k[..|state1|] == state2;
    assert area1 == k[|state1| + 1..] == area2;
  }

  /** A space inside a state lets two different pairs share a key, so their
      plans land in one group. */
  lemma KeyCollision()
    ensures Key("A B", "1") == Key("A", "B 1")
  {
  }
}
