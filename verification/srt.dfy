/** Constants of the SRT engine and of the binding (ext/rbsrt/rbsrt.h).
    The engine's numeric enumerations come from the SRT library header `srt.h`,
    which is not part of this model; the values are those of its
    SRT_SOCKSTATUS, SRT_EPOLL_OPT and SRT_TRANSTYPE enumerations. */
module Srt {

  /** RBSRT_PAYLOAD_SIZE: one live-mode packet payload. */
  const PayloadSize: nat := 1316

  /** Return value of a failing engine call. */
  const SrtError: int := -1

  // SRT_SOCKSTATUS
  const StatusInit: int := 1
  const StatusOpened: int := 2
  const StatusListening: int := 3
  const StatusConnecting: int := 4
  const StatusConnected: int := 5
  const StatusBroken: int := 6
  const StatusClosing: int := 7
  const StatusClosed: int := 8
  const StatusNonexist: int := 9

  // SRT_EPOLL_OPT bits
  const EpollIn: bv32 := 0x1
  const EpollOut: bv32 := 0x4
  const EpollErr: bv32 := 0x8
  const EpollEdge: bv32 := 0x8000_0000

  // SRT_TRANSTYPE
  const TransLive: int := 0
  const TransFile: int := 1

  /** Range of a C `int` (FIX2INT raises RangeError outside it). */
  const IntMin: int := -0x8000_0000
  const IntMax: int := 0x7fff_ffff

  /** Range of a Ruby Fixnum on a 64-bit build; larger integers are Bignums. */
  const FixnumMin: int := -0x4000_0000_0000_0000
  const FixnumMax: int := 0x3fff_ffff_ffff_ffff

  predicate HasBit(mask: bv32, bit: bv32) {
    mask & bit != 0
  }

  /** The answer the engine gives to one call that returns 0 or SRT_ERROR. */
  datatype EngineReply = Done | Failed(code: int)
}
