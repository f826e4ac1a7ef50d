/** A reference reading of a request handler: an ordered list of guards, each
    with the status it answers when it fails. The first failing guard decides
    the status; when all pass, the handler's own success status does. */
module Checks {

  datatype Check = Check(passes: bool, onFailure: int)

  predicate AllPass(checks: seq<Check>)
  {
    forall i :: 0 <= i < |checks| ==> checks[i].passes
  }

  function FirstFailure(checks: seq<Check>, onSuccess: int): (r: int)
    ensures AllPass(checks) ==> r == onSuccess
    ensures forall i :: 0 <= i < |checks| && !checks[i].passes && AllPass(checks[..i]) ==> r == checks[i].onFailure
  {
    if |checks| == 0 then onSuccess
    else if !checks[0].passes then checks[0].onFailure
    else
      var r := FirstFailure(checks[1..], onSuccess);
      assert forall i :: 1 <= i < |checks| && AllPass(checks[..i]) ==> AllPass(checks[1..][..i - 1]) by {
        forall i | 1 <= i < |checks| && AllPass(checks[..i])
          ensures AllPass(checks[1..][..i - 1])
        {
          assert checks[1..][..i - 1] == checks[..i][1..];
        }
      }
      r
  }

  /** The position of the first failing guard, or the number of guards when
      all pass; the status FirstFailure picks is that guard's. */
  function FirstFailing(checks: seq<Check>): (i: nat)
    ensures i <= |checks| && AllPass(checks[..i])
    ensures forall j :: 0 <= j < i ==> checks[j].passes
    ensures i < |checks| ==> !checks[i].passes
    ensures forall onSuccess :: FirstFailure(checks, onSuccess) == if i < |checks| then checks[i].onFailure else onSuccess
  {
    if |checks| == 0 then 0
    else if !checks[0].passes then 0
    else
      var j := FirstFailing(checks[1..]);
      assert checks[..j + 1] == [checks[0]] + checks[1..][..j];
      j + 1
  }
}
