module Bytes {
  type Byte = b: int | 0 <= b < 256

  /** What several buffers hold, one after the other. */
  function Flatten(buffers: seq<seq<Byte>>): seq<Byte> {
    if buffers == [] then [] else Flatten(buffers[..|buffers| - 1]) + buffers[|buffers| - 1]
  }
}
