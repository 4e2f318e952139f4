/** Small value wrappers shared by the model: an optional value (Go's nil
    pointer or nil map) and a Go slice, whose nil value is distinguishable
    from an empty non-nil one. */
module Wrappers {

  /** A value that may be absent, as a Go pointer or map may be nil. */
  datatype Option<+T> = None | Some(value: T) {

    /** The wrapped value, or `default` when absent. */
    function GetOr(default: T): T
    {
      match this
      case Some(v) => v
      case None => default
    }
  }

  /** A Go slice: `Nil` is the nil slice, `NonNil([])` the empty literal `[]T{}`.
      Both range over no elements, but a protocol client serialises the first
      as `null` and the second as `[]`. */
  datatype Slice<+T> = Nil | NonNil(items: seq<T>) {

    /** The elements a `range` loop visits; a nil slice has none. */
    function Elems(): seq<T>
    {
      match this
      case Nil => []
      case NonNil(s) => s
    }
  }

  /** What Go's `append` leaves behind when appending `s` to a nil slice:
      still nil when nothing was appended. */
  function AppendToNil<T>(s: seq<T>): (r: Slice<T>)
    ensures r.Elems() == s
    ensures r.Nil? <==> |s| == 0
  {
    if |s| == 0 then Nil else NonNil(s)
  }
}
