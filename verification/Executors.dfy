/** What both recycling pools see of a ProcessPoolExecutor. */
module Executors {
  /** Taking tasks; inside shutdown(wait=True); or past it. */
  datatype Stage = Open | Closing | Shut

  /** futures[i] says whether the i-th accepted task is done. */
  predicate AllDone(futures: seq<bool>) {
    forall i :: 0 <= i < |futures| ==> futures[i]
  }
}
