/** The tick length of the unfade animations, `getIntervalTime()`. The
    user-agent tests behind it become the two inputs. */
module Timing {

  /** Milliseconds per tick: 50 on a mobile device, otherwise 35 on Firefox
      and 10 on every other browser. */
  function GetIntervalTime(isMobile: bool, isFirefox: bool): (ms: nat)
    ensures ms == 50 <==> isMobile
    ensures ms == 35 <==> !isMobile && isFirefox
    ensures ms == 10 <==> !isMobile && !isFirefox
  {
    if !isMobile then (if isFirefox then 35 else 10) else 50
  }
}
