/** The numbers the kernel's single entry point speaks in: interrupt kinds,
    system-call numbers and the negative error codes. */
module KernelCodes {
  const INTERRUPT_USER: int := 0
  const INTERRUPT_DISK: int := 1
  const INTERRUPT_POWER_ON: int := 2

  const SYSCALL_OUTPUT: int := 0
  const SYSCALL_INPUT: int := 1
  const SYSCALL_EXEC: int := 2
  const SYSCALL_JOIN: int := 3
  const SYSCALL_FORMAT: int := 4
  const SYSCALL_CREATE: int := 5
  const SYSCALL_READ: int := 6
  const SYSCALL_WRITE: int := 7
  const SYSCALL_DELETE: int := 8
  const SYSCALL_READDIR: int := 9
  const SYSCALL_SHUTDOWN: int := 10
  const SYSCALL_GET_BLOCK_SIZE: int := 11

  const ERROR_BAD_ARGUMENT: int := -1
  const ERROR_NO_CLASS: int := -2
  const ERROR_NO_MAIN: int := -3
  const ERROR_BAD_COMMAND: int := -4
  const ERROR_OUT_OF_RANGE: int := -5
  const ERROR_END_OF_FILE: int := -6
  const ERROR_IO: int := -7
  const ERROR_IN_CHILD: int := -8
  const ERROR_NO_SUCH_PROCESS: int := -9
}
