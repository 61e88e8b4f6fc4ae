/** Outcomes of the modelled Python code: a value, or the exception it raises. */
module Results {

  datatype Option<+T> = None | Some(value: T)

  /** The Python exceptions the modelled code can raise. */
  datatype PyError = KeyError | ValueError | IndexError | AttributeError

  datatype Result<+T> = Ok(value: T) | Err(error: PyError)

  /**
   * Two computations that build a string or a list, one after the other: the
   * results joined, or the first exception raised.
   */
  function Append<T>(p: Result<seq<T>>, q: Result<seq<T>>): (r: Result<seq<T>>)
    ensures r.Ok? <==> p.Ok? && q.Ok?
    ensures r.Ok? ==> r.value == p.value + q.value
    ensures p.Err? ==> r == p
    ensures p.Ok? && q.Err? ==> r == q
  {
    match p
    case Err(e) => Err(e)
    case Ok(x) =>
      match q
      case Err(e) => Err(e)
      case Ok(y) => Ok(x + y)
  }

  lemma AppendAssociative<T>(p: Result<seq<T>>, q: Result<seq<T>>, r: Result<seq<T>>)
    ensures Append(Append(p, q), r) == Append(p, Append(q, r))
  {
    if p.Ok? && q.Ok? && r.Ok? {
      assert p.value + q.value + r.value == p.value + (q.value + r.value);
    }
  }

  /** Nothing built first leaves the second result as it is. */
  lemma AppendEmpty<T>(q: Result<seq<T>>)
    ensures Append(Ok([]), q) == q
  {
    if q.Ok? {
      assert [] + q.value == q.value;
    }
  }
}
