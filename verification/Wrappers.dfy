// Values for results that may be missing or may be an error.
module Wrappers {
  datatype Option<+T> = None | Some(value: T)

  datatype Result<+T> = Ok(value: T) | Err(error: string)

  // A string that is not in use.
  lemma FreshString(used: set<string>) returns (s: string)
    ensures s != "" && s !in used
  {
    var n := LongerThanAll(used);
    s := seq(n + 1, _ => 'x');
  }

  lemma LongerThanAll(used: set<string>) returns (n: nat)
    ensures forall s :: s in used ==> |s| < n
  {
    if used == {} {
      n := 0;
    } else {
      var s :| s in used;
      var m := LongerThanAll(used - {s});
      n := if |s| < m then m else |s| + 1;
    }
  }
}
