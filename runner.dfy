// The sandbox runner: each probe snippet is evaluated in a fresh context and
// the evaluation is collapsed to a boolean. The evaluation itself (the
// engine running the snippet) is not modelled; its outcome is an input.

module Runner {

  /** What evaluating one probe snippet can do. */
  datatype Outcome = Truthy | Falsy | Throws

  /** The runner's catch-all: only a truthy result counts as support; a falsy
      result and a thrown error both read as unsupported. */
  function Supported(o: Outcome): (r: bool)
    ensures r <==> o.Truthy?
    ensures o.Throws? ==> !r
  {
    match o
    case Truthy => true
    case Falsy => false
    case Throws => false
  }
}
