/** The `Team` model of the automation framework. */
module Models {
  /**
   * A team as the standings page reports it. The source also stores a win
   * percentage, a `double`; it is not kept here.
   */
  datatype Team = Team(name: string, conference: string, wins: int, losses: int)
}
