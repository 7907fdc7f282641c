/** The records the SLCSP calculator reads and writes, with the CSV plumbing
    stripped away: each table row is a value of one of these datatypes. */
module Records {

  /** A coverage-plan rate, already parsed from its decimal text.
      The calculator only compares rates for equality and order. */
  type Rate = real

  /** The plan tier whose rates are ranked (`PLAN_TYPE`). */
  const SilverTier: string := "Silver"

  /** A row of the ZIP table. Several rows may share one zipcode. */
  datatype ZipRow = ZipRow(zipcode: string, state: string, countyCode: string, rateArea: string)

  /** A row of the coverage-plan table. */
  datatype PlanRow = PlanRow(planId: string, state: string, metalLevel: string, rate: Rate, rateArea: string)

  /** The `rate` cell of a request row: either the text read from the request
      table (usually empty) or a rate written by the calculator. */
  datatype RateCell = Text(text: string) | Computed(value: Rate)

  /** A row of the request table: its zipcode, its rate cell and whatever
      other columns the table carries. */
  datatype Request = Request(zipcode: string, rate: RateCell, otherFields: map<string, string>)
}
