/** The reductions over a vector that the MATLAB code relies on. */
module Builtins {

  /** The index of the least element; the first one when there are ties. */
  function FirstMin(s: seq<real>): (k: nat)
    requires |s| > 0
    ensures k < |s|
    ensures forall j :: 0 <= j < |s| ==> s[k] <= s[j]
    ensures forall j :: 0 <= j < k ==> s[k] < s[j]
  {
    if |s| == 1 then 0
    else
      var n := |s| - 1;
      var k := FirstMin(s[..n]);
      assert forall j :: 0 <= j < n ==> s[j] == s[..n][j];
      if s[n] < s[k] then n else k
  }

  function Sum(s: seq<real>): real {
    if s == [] then 0.0 else Sum(s[..|s| - 1]) + s[|s| - 1]
  }

  function MaxOf(s: seq<real>): (m: real)
    requires |s| > 0
    ensures forall j :: 0 <= j < |s| ==> s[j] <= m
    ensures m in s
  {
    if |s| == 1 then s[0]
    else
      var n := |s| - 1;
      var m := MaxOf(s[..n]);
      assert forall j :: 0 <= j < n ==> s[j] == s[..n][j];
      if m < s[n] then s[n] else m
  }
}
