/** The optional value used wherever the kernel uses Rust's `Option`, and tables of slots that may be free. */
module Options {
  datatype Option<+T> = None | Some(value: T)

  /** The first free slot, or the end of the table when every slot is taken. */
  function FirstFree<T>(t: seq<Option<T>>): (i: nat)
    ensures i <= |t|
    ensures i < |t| ==> t[i].None?
    ensures forall j :: 0 <= j < i ==> t[j].Some?
  {
    if t == [] || t[0].None? then 0 else 1 + FirstFree(t[1..])
  }

  /** `x` goes into the first free slot, or at the end. */
  function Put<T>(t: seq<Option<T>>, x: T): (r: seq<Option<T>>)
    ensures |r| >= |t| && FirstFree(t) < |r| && r[FirstFree(t)] == Some(x)
    ensures forall j :: 0 <= j < |t| && j != FirstFree(t) ==> r[j] == t[j]
    ensures |r| == if FirstFree(t) < |t| then |t| else |t| + 1
  {
    if FirstFree(t) < |t| then t[FirstFree(t) := Some(x)] else t + [Some(x)]
  }
}
