/** The session record of session.h, as far as the modelled code uses it. */
module Sessions {
  import opened MachineInts

  datatype Option<+T> = None | Some(value: T)

  /** The sizes of the line and command buffers, the argument buffer, and what a read of a line asks
      for (common.h). */
  const MAX_COMMAND := 32
  const MAX_ARG := 1024
  const MAX_COMMAND_LINE := 1024

  /** The value of a descriptor field that names no descriptor. */
  const NO_FD := -1

  class Session {
    const ctrlFd: nat
    var pasvListenFd: int
    var dataFd: int
    var restartPos: int64
    var rnfrName: Option<string>
    var aborReceived: bool

    /** `init_session`, with the control socket filled in. */
    constructor (ctrlFd: nat)
      ensures this.ctrlFd == ctrlFd && pasvListenFd == dataFd == -1
      ensures restartPos == 0 && rnfrName == None && !aborReceived
    {
      this.ctrlFd := ctrlFd;
      pasvListenFd, dataFd := NO_FD, NO_FD;
      restartPos, rnfrName, aborReceived := 0, None, false;
    }
  }
}
