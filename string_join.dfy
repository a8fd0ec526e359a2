/** Python's `sep.join(parts)` and the concatenations it is built from. */
module StringJoin {

  /** The concatenation of all `parts`, in order: `"".join(parts)`. */
  function Concat(parts: seq<string>): string {
    if parts == [] then "" else parts[0] + Concat(parts[1..])
  }

  /** Total number of characters over all `parts`. */
  function TotalLength(parts: seq<string>): nat {
    if parts == [] then 0 else |parts[0]| + TotalLength(parts[1..])
  }

  /** `sep.join(parts)`: the parts in order with one `sep` between each neighbouring pair;
      its length is that of the parts plus one separator fewer than there are parts. */
  function Join(sep: string, parts: seq<string>): (r: string)
    ensures parts == [] ==> r == ""
    ensures parts != [] ==> |r| == TotalLength(parts) + (|parts| - 1) * |sep|
  {
    if parts == [] then ""
    else if |parts| == 1 then parts[0]
    else parts[0] + sep + Join(sep, parts[1..])
  }

  /** The pieces that `sep.join(parts)` lays end to end: the parts at the even positions and
      `sep` at the odd ones, so `n` parts give `2n - 1` pieces of which `n - 1` are separators. */
  function Interleave(sep: string, parts: seq<string>): (pieces: seq<string>)
    ensures parts == [] ==> pieces == []
    ensures parts != [] ==> |pieces| == 2 * |parts| - 1
    ensures forall k :: 0 <= k < |pieces| && k % 2 == 0 ==> pieces[k] == parts[k / 2]
    ensures forall k :: 0 <= k < |pieces| && k % 2 == 1 ==> pieces[k] == sep
  {
    if parts == [] then []
    else seq(2 * |parts| - 1, k requires 0 <= k < 2 * |parts| - 1 => if k % 2 == 0 then parts[k / 2] else sep)
  }

  lemma {:induction false} ConcatAppend(a: seq<string>, b: seq<string>)
    ensures Concat(a + b) == Concat(a) + Concat(b)
  {
    if a != [] {
      ConcatAppend(a[1..], b);
      assert (a + b)[1..] == a[1..] + b;
    } else {
      assert a + b == b;
    }
  }

  /** `sep.join(parts)` is exactly the parts interleaved with `n - 1` separators, laid end to end. */
  lemma {:induction false} JoinIsInterleaved(sep: string, parts: seq<string>)
    ensures Join(sep, parts) == Concat(Interleave(sep, parts))
  {
    if |parts| == 1 {
      assert Interleave(sep, parts) == [parts[0]];
    } else if |parts| > 1 {
      JoinIsInterleaved(sep, parts[1..]);
      var rest := Interleave(sep, parts[1..]);
      assert Interleave(sep, parts) == [parts[0], sep] + rest;
      ConcatAppend([parts[0], sep], rest);
      assert Concat([parts[0], sep]) == parts[0] + sep;
    }
  }

  /** Joining one more part appends a separator and that part at the end, and leaves the rest as it was. */
  lemma {:induction false} JoinSnoc(sep: string, parts: seq<string>, p: string)
    requires parts != []
    ensures Join(sep, parts + [p]) == Join(sep, parts) + sep + p
  {
    if |parts| > 1 {
      JoinSnoc(sep, parts[1..], p);
      assert (parts + [p])[1..] == parts[1..] + [p];
    }
  }
}
