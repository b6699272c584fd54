/**
 * `requestPermission` in app.js. The directory handle's permission methods
 * are asynchronous calls into the browser; here `queried` is the state
 * `queryPermission` resolves to and `answered` is what `requestPermission`
 * would resolve to if it were asked.
 */
module AppPermission {
  import opened Wrappers

  /** Which of the two permission methods a directory handle offers. */
  datatype PermissionApi = PermissionApi(hasQuery: bool, hasRequest: bool)

  /** Whether access was granted, and whether the user had to be asked. */
  datatype PermissionOutcome = PermissionOutcome(granted: bool, prompted: bool)

  predicate Usable(handle: Option<PermissionApi>)
  {
    handle.Some? && handle.value.hasQuery && handle.value.hasRequest
  }

  function RequestPermission(handle: Option<PermissionApi>, queried: string, answered: string): (r: PermissionOutcome)
    ensures r.granted <==> Usable(handle) && (queried == "granted" || (queried != "denied" && answered == "granted"))
    ensures r.prompted <==> Usable(handle) && queried != "granted" && queried != "denied"
  {
    if !Usable(handle) then PermissionOutcome(false, false)
    else if queried == "granted" then PermissionOutcome(true, false)
    else if queried == "denied" then PermissionOutcome(false, false)
    else PermissionOutcome(answered == "granted", true)
  }

  /** The user's answer matters only when the user is asked. */
  lemma AnswerMattersOnlyWhenPrompted(handle: Option<PermissionApi>, queried: string, a1: string, a2: string)
    requires !RequestPermission(handle, queried, a1).prompted
    ensures RequestPermission(handle, queried, a1) == RequestPermission(handle, queried, a2)
  {
  }
}
