/**
 * Types and sequence operations that several modules share.
 */
module Common {
  datatype Option<T> = None | Some(value: T)

  // errno values, for functions that return them as numbers
  const ERRNO_EIO: int := 5
  const ERRNO_EAGAIN: int := 11
  const ERRNO_ENOMEM: int := 12
  const ERRNO_EINVAL: int := 22

  /** Error returns; EATTACH stands for whatever dmabuf_attach returned. */
  datatype Errno = Ok | EINVAL | ENOMEM | EIO | EOPNOTSUPP | EATTACH

  function RemoveAt<T>(s: seq<T>, k: nat): (t: seq<T>)
    requires k < |s|
    ensures |t| == |s| - 1
    ensures forall j :: 0 <= j < k ==> t[j] == s[j]
    ensures forall j :: k <= j < |t| ==> t[j] == s[j + 1]
  {
    s[..k] + s[k + 1..]
  }

  function InsertAt<T>(s: seq<T>, k: nat, x: T): (t: seq<T>)
    requires k <= |s|
    ensures |t| == |s| + 1 && t[k] == x
    ensures forall j :: 0 <= j < k ==> t[j] == s[j]
    ensures forall j :: k < j < |t| ==> t[j] == s[j - 1]
  {
    s[..k] + [x] + s[k..]
  }
}
