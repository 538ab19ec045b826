/**
  Settled promises. An asynchronous call is observed only by how it settles:
  it resolves with a value or it rejects (the reason is never inspected by
  the components modelled here).
 */
module Promises {

  datatype Settled<+T> = Resolved(value: T) | Rejected

  /**
    `Promise.all`: resolves with every value, in the order of the input
    promises, when all of them resolve; rejects as soon as any of them
    rejects. The result does not depend on the order in which the promises
    settle in time.
   */
  function All<T>(ps: seq<Settled<T>>): (r: Settled<seq<T>>)
    ensures r.Resolved? <==> forall i :: 0 <= i < |ps| ==> ps[i].Resolved?
    ensures r.Resolved? ==>
              |r.value| == |ps| && forall i :: 0 <= i < |ps| ==> ps[i] == Resolved(r.value[i])
  {
    if |ps| == 0 then Resolved([])
    else
      match ps[0]
      case Rejected => Rejected
      case Resolved(v) =>
        match All(ps[1..])
        case Rejected => Rejected
        case Resolved(vs) => Resolved([v] + vs)
  }
}
