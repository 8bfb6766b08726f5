/** `split_as_mut` from the unsafe-Rust exercise: two mutable views of one
    slice, built with raw pointers, one over `values[..mid]` and one over
    `values[mid..]`. A view is modelled as an index range over the caller's
    array, so both views alias the same storage. */
module SplitAsMut {

  /** The sub-slice `data[lo..hi]`, sharing `data`'s storage. */
  datatype View = View(data: array<int>, lo: nat, hi: nat) {
    predicate Valid() {
      lo <= hi <= data.Length
    }

    /** The elements seen through the view. */
    function Contents(): seq<int>
      reads data
      requires Valid()
    {
      data[lo..hi]
    }
  }

  /** Either the two views, or the panic of the `mid <= len` assertion. */
  datatype Split = Halves(left: View, right: View) | Panic

  /** `split_as_mut(values, mid)`. */
  function SplitAt(values: array<int>, mid: nat): (r: Split)
    reads values
    ensures r.Panic? <==> mid > values.Length
    ensures r.Halves? ==>
              && r.left.Valid() && r.right.Valid()
              && r.left.data == values && r.right.data == values
              && |r.left.Contents()| == mid && r.left.Contents() == values[..mid]
              && |r.right.Contents()| == values.Length - mid && r.right.Contents() == values[mid..]
              && r.left.hi <= r.right.lo
              && r.left.Contents() + r.right.Contents() == values[..]
  {
    if mid <= values.Length then
      Halves(View(values, 0, mid), View(values, mid, values.Length))
    else
      Panic
  }

  /** Writing through one view: the store a `&mut` element assignment does. */
  method Store(v: View, k: nat, x: int)
    requires v.Valid() && k < v.hi - v.lo
    modifies v.data
    ensures v.data[v.lo + k] == x
    ensures forall p :: 0 <= p < v.data.Length && p != v.lo + k ==> v.data[p] == old(v.data[p])
  {
    v.data[v.lo + k] := x;
  }

  /** The two views do not overlap: a write through the left one leaves
      what the right one sees unchanged. */
  method StoreLeft(values: array<int>, mid: nat, k: nat, x: int) returns (r: Split)
    requires mid <= values.Length && k < mid
    modifies values
    ensures r == SplitAt(values, mid) && r.Halves?
    ensures r.left.Contents() == old(values[..mid])[k := x]
    ensures r.right.Contents() == old(values[mid..])
  {
    r := SplitAt(values, mid);
    Store(r.left, k, x);
  }

  /** The program's `main`: `[1, 2, 3, 4]` split at 2. */
  method MainSplit() returns (left: seq<int>, right: seq<int>)
    ensures left == [1, 2] && right == [3, 4]
  {
    var v := new int[4] [1, 2, 3, 4];
    var r := SplitAt(v, 2);
    left, right := r.left.Contents(), r.right.Contents();
  }
}
