/** Values that may be absent, and the least of a set. */
module Wrappers {

  datatype Option<+T> = None | Some(value: T) {
    function GetOr(default: T): T { if Some? then value else default }
  }

  method Least(members: set<nat>) returns (least: nat)
    requires members != {}
    ensures least in members && forall n | n in members :: least <= n
  {
    least :| least in members;
    var rest := members - {least};
    while rest != {}
      invariant least in members && rest <= members && forall n | n in members :: n in rest || least <= n
      decreases |rest|
    {
      var n :| n in rest;
      rest := rest - {n};
      if n < least {
        least := n;
      }
    }
  }
}
