/** The success/failure outcome every service operation returns instead of throwing. */
module Results {

  /** The payload of a success that carries no value. */
  datatype Unit = Unit

  /**
   * `Result<TValue, TError>`: exactly one of a success value and an error. The constructors
   * play the part of the static factories `Success` and `Failure`.
   */
  datatype Result<V, E> = Success(value: V) | Failure(error: E) {

    predicate IsSuccess() {
      Success?
    }

    /** Always the negation of `IsSuccess`. */
    predicate IsFailure()
      ensures IsFailure() <==> !IsSuccess()
    {
      !IsSuccess()
    }

    /** Reading the value of a failure throws, so it is a precondition here. */
    function Value(): (v: V)
      requires IsSuccess()
      ensures this == Success(v)
    {
      value
    }

    /** Reading the error of a success throws, so it is a precondition here. */
    function Error(): (e: E)
      requires IsFailure()
      ensures this == Failure(e)
    {
      error
    }

    /** Applies `onSuccess` to the value of a success, and `onFailure` to the error otherwise. */
    function Match<T>(onSuccess: V -> T, onFailure: E -> T): (r: T)
      ensures IsSuccess() ==> r == onSuccess(Value())
      ensures IsFailure() ==> r == onFailure(Error())
    {
      if IsSuccess() then onSuccess(value) else onFailure(error)
    }
  }

  /** `EmptyResult`: a result without a payload whose error is a message. */
  type EmptyResult = Result<Unit, string>

  /** `EmptyResult.Success()`. */
  function EmptySuccess(): (r: EmptyResult)
    ensures r.IsSuccess() && r.Value() == Unit
  {
    Success(Unit)
  }

  /** `EmptyResult.Failure(error)`. */
  function EmptyFailure(error: string): (r: EmptyResult)
    ensures r.IsFailure() && r.Error() == error
  {
    Failure(error)
  }

  lemma SuccessAccessors<V, E>(v: V)
    ensures Result<V, E>.Success(v).IsSuccess() && !Result<V, E>.Success(v).IsFailure()
    ensures Result<V, E>.Success(v).Value() == v
  {
  }

  lemma FailureAccessors<V, E>(e: E)
    ensures !Result<V, E>.Failure(e).IsSuccess() && Result<V, E>.Failure(e).IsFailure()
    ensures Result<V, E>.Failure(e).Error() == e
  {
  }
}
