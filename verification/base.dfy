/**
 Shared vocabulary of the model: optional values, results with an error
 value, and the two list idioms the Python code leans on — concatenating a
 list of lists and `zip(*rows)`.
 */
module Base {

  /** `None` stands for a missing value (pandas NaN, Python None). */
  datatype Option<+T> = None | Some(value: T)

  /** The outcome of an operation that raises an exception in the source. */
  datatype Result<+T, +E> = Ok(value: T) | Err(error: E)

  /** The concatenation of a list of lists, built from the back. */
  function Flatten<T>(parts: seq<seq<T>>): seq<T>
  {
    if |parts| == 0 then [] else Flatten(parts[..|parts| - 1]) + parts[|parts| - 1]
  }

  /** The length of the shortest list, as `zip` stops at the shortest argument. */
  function MinLength<T>(rows: seq<seq<T>>): (m: nat)
    ensures |rows| == 0 ==> m == 0
    ensures forall l :: 0 <= l < |rows| ==> m <= |rows[l]|
    ensures |rows| > 0 ==> exists l :: 0 <= l < |rows| && m == |rows[l]|
  {
    if |rows| == 0 then 0
    else if |rows| == 1 then |rows[0]|
    else
      var rest := MinLength(rows[1..]);
      assert forall l :: 1 <= l < |rows| ==> rows[1..][l - 1] == rows[l];
      if |rows[0]| <= rest then |rows[0]| else rest
  }

  /** Two lists of lists whose members pairwise agree in length have the same shortest length. */
  lemma {:induction false} MinLengthOfSameShape<A, B>(a: seq<seq<A>>, b: seq<seq<B>>)
    requires |a| == |b|
    requires forall l :: 0 <= l < |a| ==> |a[l]| == |b[l]|
    ensures MinLength(a) == MinLength(b)
  {
    if |a| > 1 {
      MinLengthOfSameShape(a[1..], b[1..]);
    }
  }

  /** `list(zip(*rows))`: one tuple per position, up to the shortest row. */
  function Transpose<T>(rows: seq<seq<T>>): (t: seq<seq<T>>)
    ensures |t| == MinLength(rows)
    ensures forall p :: 0 <= p < |t| ==> |t[p]| == |rows|
    ensures forall p, l :: 0 <= p < |t| && 0 <= l < |rows| ==> t[p][l] == rows[l][p]
  {
    var m := MinLength(rows);
    seq(m, p requires 0 <= p < m => seq(|rows|, l requires 0 <= l < |rows| => rows[l][p]))
  }

  /** `list(zip(a, b))`: pairs up to the shorter list. */
  function Zip<A, B>(a: seq<A>, b: seq<B>): (z: seq<(A, B)>)
    ensures |z| == if |a| <= |b| then |a| else |b|
    ensures forall i :: 0 <= i < |z| ==> z[i] == (a[i], b[i])
  {
    var n := if |a| <= |b| then |a| else |b|;
    seq(n, i requires 0 <= i < n => (a[i], b[i]))
  }
}
