/** The argument list a function's code receives when it is called. */
module Calls {
  import opened Values

  /** The declared number of parameters filled from the actual arguments:
      extra arguments are dropped, missing ones are undefined. */
  function Fit(args: seq<Value>, argcount: nat): (r: seq<Value>)
    ensures |r| == argcount
    ensures forall i :: 0 <= i < argcount && i < |args| ==> r[i] == args[i]
    ensures forall i :: |args| <= i < argcount ==> r[i] == Undefined
  {
    if |args| > argcount then args[..argcount]
    else args + seq(argcount - |args|, _ => Undefined)
  }

  /** What `call` hands to the code: the fitted arguments, then `this`,
      then the `arguments` object. */
  function CallArgs(args: seq<Value>, argcount: nat, self: Value, arguments: Value): (r: seq<Value>)
    ensures |r| == argcount + 2
    ensures r[..argcount] == Fit(args, argcount)
    ensures r[argcount] == self && r[argcount + 1] == arguments
  {
    Fit(args, argcount) + [self, arguments]
  }

  /** Fitting is the identity on a list of exactly the declared length,
      and fitting twice is fitting once. */
  lemma FitExact(args: seq<Value>, argcount: nat)
    ensures |args| == argcount ==> Fit(args, argcount) == args
    ensures Fit(Fit(args, argcount), argcount) == Fit(args, argcount)
  {
  }
}
