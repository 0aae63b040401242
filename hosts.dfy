/** The fixed strings that name the Papers with Code site in URLs. */
module Hosts {

  /** The main host of the legacy index. */
  const Host := "paperswithcode.com"

  /** The sibling host under which the index also published its paper pages. */
  const CsHost := "cs.paperswithcode.com"

  /** The path segment in front of a paper's slug. */
  const PaperPath := "/paper/"
}
