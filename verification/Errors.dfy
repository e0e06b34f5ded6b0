/** Result codes (include/error.h) and the errno values that the code compares against. */
module Errors {
  const KP_SUCCESS: nat := 0
  const KP_EINPUT: nat := 2
  const KP_INVALID_STORAGE: nat := 4
  const KP_ERRNO: nat := 5
  const KP_EDECRYPT: nat := 7
  const KP_EENCRYPT: nat := 8
  const KP_INVALID_MSG: nat := 9

  const ENOENT: nat := 2
}
