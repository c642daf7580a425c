/** What several components share. */
module Basics {

  type byte = bv8

  datatype Option<T> = None | Some(value: T)

  /** `s` with `chunk` in place of what stood at `at`. */
  function Patched<T>(s: seq<T>, at: nat, chunk: seq<T>): (r: seq<T>)
    requires at + |chunk| <= |s|
    ensures |r| == |s|
  {
    s[..at] + chunk + s[at + |chunk|..]
  }
}
