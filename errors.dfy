/** The error values the containers return, with the messages of the `ArrayVec` errors. */
module Errors {
  /** `CapacityError`/`InsufficientCapacityError`: there is not enough spare capacity. */
  datatype CapacityError = CapacityError

  /** `CapacityErrorVal(value)`/`InsufficientCapacityErrorVal(value)`: the same, handing back the value. */
  datatype CapacityErrorVal<T> = CapacityErrorVal(value: T)

  /** `InsertError` of `ArrayVec` and `ArrayString`. */
  datatype InsertError = InvalidIndex | InsufficientCapacity

  /** `InsertErrorVal` of `ArrayVec`: an `InsertError` that hands back the value that was to be inserted. */
  datatype InsertErrorVal<T> = InvalidIndexVal(iv: T) | InsufficientCapacityVal(cv: T)
  {
    /** `value()`: the carried element, whichever the variant. */
    function Value(): (r: T)
      ensures this == InvalidIndexVal(r) || this == InsufficientCapacityVal(r)
    {
      match this
      case InvalidIndexVal(v) => v
      case InsufficientCapacityVal(v) => v
    }

    /** `into_value()`: consumes the error and returns the carried element; the same as `value()` except that the source takes the error by value. */
    function IntoValue(): (r: T)
      ensures this == InvalidIndexVal(r) || this == InsufficientCapacityVal(r)
    {
      match this
      case InvalidIndexVal(v) => v
      case InsufficientCapacityVal(v) => v
    }

    /** The kind of insertion failure, without the value. */
    function Kind(): InsertError
    {
      if InvalidIndexVal? then InvalidIndex else InsufficientCapacity
    }
  }

  /** `IndexError`: the index is not a valid position (not a char boundary, or past the end). */
  datatype IndexError = IndexError

  /** `ReservationError`: the capacity would not fit the length type or the layout, or the allocator refused. */
  datatype ReservationError = CapacityOverflow | AllocError(size: nat)

  /** `InsertError` of `SmallVec`. */
  datatype SmallVecInsertError = InvalidIndexS | ReservationErrorS(reason: ReservationError)

  /** `io::Error` as far as a writer returns one: the allocator ran out of memory. */
  datatype IoError = OutOfMemory

  /** `fmt::Error`. */
  datatype FmtError = FmtError

  const CapacityMessage: string := "arrayvec insufficient capacity"
  const InsertPrefix: string := "arrayvec insert error: "

  /** `Display` of `InsufficientCapacityError`. */
  function CapacityErrorMessage(e: CapacityError): (r: string)
    ensures r == CapacityMessage
  {
    "arrayvec insufficient capacity"
  }

  /** `Display` of `InsufficientCapacityErrorVal`: the payload is never printed, so the text is `CapacityErrorMessage`'s, as in the source. */
  function CapacityErrorValMessage<T>(e: CapacityErrorVal<T>): (r: string)
    ensures r == CapacityMessage
  {
    "arrayvec insufficient capacity"
  }

  /** `Display` of `InsertError`. */
  function InsertErrorMessage(e: InsertError): (r: string)
    ensures InsertPrefix <= r
  {
    var reason := match e
      case InvalidIndex => "index is out of bounds"
      case InsufficientCapacity => "insufficient capacity";
    "arrayvec insert error: " + reason
  }

  /** `Display` of `InsertErrorVal`: the message of the corresponding kind, whatever the payload. */
  function InsertErrorValMessage<T>(e: InsertErrorVal<T>): (r: string)
    ensures InsertPrefix <= r
  {
    var reason := match e
      case InvalidIndexVal(_) => "index is out of bounds"
      case InsufficientCapacityVal(_) => "insufficient capacity";
    "arrayvec insert error: " + reason
  }

  /** The two insertion failures print different messages, each the prefix followed by its reason. */
  lemma InsertMessages()
    ensures InsertErrorMessage(InvalidIndex) == InsertPrefix + "index is out of bounds"
    ensures InsertErrorMessage(InsufficientCapacity) == InsertPrefix + "insufficient capacity"
    ensures InsertErrorMessage(InvalidIndex) != InsertErrorMessage(InsufficientCapacity)
  {
    assert InsertErrorMessage(InvalidIndex)[25] != InsertErrorMessage(InsufficientCapacity)[25];
  }

  /** An `InsertErrorVal` prints like the `InsertError` of its kind, and its payload does not matter. */
  lemma InsertErrorValMessageIgnoresPayload<T>(e: InsertErrorVal<T>, v: T)
    ensures InsertErrorValMessage(e) == InsertErrorMessage(e.Kind())
    ensures e.InvalidIndexVal? ==> InsertErrorValMessage(e) == InsertErrorValMessage(InvalidIndexVal(v))
    ensures e.InsufficientCapacityVal? ==> InsertErrorValMessage(e) == InsertErrorValMessage(InsufficientCapacityVal(v))
  {
  }

  /** The payloads of `into_value` in the test of both variants. */
  lemma IntoValueExamples()
    ensures InvalidIndexVal("Hello, world!").IntoValue() == "Hello, world!"
    ensures InsufficientCapacityVal("Hello again!").IntoValue() == "Hello again!"
    ensures InvalidIndexVal(17).Value() == 17 && InsufficientCapacityVal(717).Value() == 717
  {
  }
}
