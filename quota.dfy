/** The budget arithmetic shared by the web app and the extension. */
module Quota {
  /** Milliseconds in a minute: the web app counts minutes, the extension milliseconds. */
  const MS_PER_MINUTE := 60000

  /** `Math.max(0, timeLimit - timeUsed)`: what is left of a budget, never negative. */
  function Remaining(timeLimit: int, timeUsed: int): (r: int)
    ensures r >= 0
    ensures timeUsed <= timeLimit ==> r == timeLimit - timeUsed
    ensures timeUsed >= timeLimit ==> r == 0
  {
    if timeLimit - timeUsed > 0 then timeLimit - timeUsed else 0
  }
}
