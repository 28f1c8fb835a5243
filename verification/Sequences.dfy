/** Sequences and options, for all modules. */
module Sequences {
  datatype Option<T> = None | Some(value: T)

  function Inserted<T>(s: seq<T>, k: nat, x: T): seq<T>
    requires k <= |s|
  {
    s[..k] + [x] + s[k..]
  }

  function Removed<T>(s: seq<T>, k: nat): seq<T>
    requires k < |s|
  {
    s[..k] + s[k + 1..]
  }

  /** A sequence without its last element. */
  function Front<T>(s: seq<T>): (b: seq<T>)
    requires s != []
    ensures |b| == |s| - 1
  {
    s[..|s| - 1]
  }

  function Last<T>(s: seq<T>): T
    requires s != []
  {
    s[|s| - 1]
  }
}
