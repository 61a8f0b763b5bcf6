/** `SummationCompactor`, the rule the hex-tree map calls for a candidate
    parent cell with its seven optional children: merge the seven into their
    sum, or decline. The value type is abstract, with its `+` as `add`. */
module Compaction {
  import opened Wrappers

  const CHILD_COUNT: nat := 7

  /** The `[Option<&V>; 7]` a candidate parent's children arrive in. */
  type Children<V> = (Option<V>, Option<V>, Option<V>, Option<V>, Option<V>, Option<V>, Option<V>)

  /** The seven children in order, as a sequence. */
  function ChildList<V>(c: Children<V>): (s: seq<Option<V>>)
    ensures |s| == CHILD_COUNT
  {
    [c.0, c.1, c.2, c.3, c.4, c.5, c.6]
  }

  /** All seven children hold a value. */
  predicate AllPresent<V>(children: seq<Option<V>>)
  {
    forall i :: 0 <= i < |children| ==> children[i].Some?
  }

  /** v0 + v1 + … + vn, associated to the left as Rust evaluates `a + b + c`. */
  function SumLeft<V>(vs: seq<V>, add: (V, V) -> V): V
    requires |vs| > 0
  {
    if |vs| == 1 then vs[0] else add(SumLeft(vs[..|vs| - 1], add), vs[|vs| - 1])
  }

  /** The values of children that are all present. */
  function Values<V>(children: seq<Option<V>>): (vs: seq<V>)
    requires AllPresent(children)
    ensures |vs| == |children|
    ensures forall i :: 0 <= i < |vs| ==> children[i] == Some(vs[i])
  {
    seq(|children|, i requires 0 <= i < |children| => children[i].value)
  }

  lemma ChildrenPresent<V>(c: Children<V>)
    ensures AllPresent(ChildList(c))
        <==> c.0.Some? && c.1.Some? && c.2.Some? && c.3.Some? && c.4.Some? && c.5.Some? && c.6.Some?
  {
    var l := ChildList(c);
    assert l[0] == c.0 && l[1] == c.1 && l[2] == c.2 && l[3] == c.3;
    assert l[4] == c.4 && l[5] == c.5 && l[6] == c.6;
  }

  lemma SumOfSeven<V>(vs: seq<V>, add: (V, V) -> V)
    requires |vs| == CHILD_COUNT
    ensures SumLeft(vs, add) == add(add(add(add(add(add(vs[0], vs[1]), vs[2]), vs[3]), vs[4]), vs[5]), vs[6])
  {
    var s1 := vs[0];
    var s2 := add(s1, vs[1]);
    var s3 := add(s2, vs[2]);
    var s4 := add(s3, vs[3]);
    var s5 := add(s4, vs[4]);
    var s6 := add(s5, vs[5]);
    assert vs[..2][..1] == vs[..1] && SumLeft(vs[..1], add) == s1;
    assert vs[..3][..2] == vs[..2] && SumLeft(vs[..2], add) == s2;
    assert vs[..4][..3] == vs[..3] && SumLeft(vs[..3], add) == s3;
    assert vs[..5][..4] == vs[..4] && SumLeft(vs[..4], add) == s4;
    assert vs[..6][..5] == vs[..5] && SumLeft(vs[..5], add) == s5;
    assert vs[..6] == vs[..|vs| - 1] && SumLeft(vs[..6], add) == s6;
  }

  /** The compactor's configuration: the target resolution. */
  datatype SummationCompactor = SummationCompactor(resolution: nat)
  {
    /** `compact(cell, children)` for a cell of resolution `cellRes`. */
    function Compact<V>(cellRes: nat, children: Children<V>, add: (V, V) -> V): (r: Option<V>)
      ensures r.Some? <==> resolution <= cellRes && AllPresent(ChildList(children))
      ensures r.Some? ==> r.value == SumLeft(Values(ChildList(children)), add)
    {
      ChildrenPresent(children);
      if cellRes < resolution then None
      else match children
        case (Some(v0), Some(v1), Some(v2), Some(v3), Some(v4), Some(v5), Some(v6)) =>
          assert Values(ChildList(children)) == [v0, v1, v2, v3, v4, v5, v6];
          SumOfSeven(Values(ChildList(children)), add);
          Some(add(add(add(add(add(add(v0, v1), v2), v3), v4), v5), v6))
        case _ => None
    }
  }

  /** Below the target resolution nothing merges, whatever the children hold. */
  lemma BelowTargetNeverMerges<V>(c: SummationCompactor, cellRes: nat, children: Children<V>, add: (V, V) -> V)
    requires cellRes < c.resolution
    ensures c.Compact(cellRes, children, add) == None
  {
  }

  /** A missing child prevents the merge. */
  lemma MissingChildNeverMerges<V>(c: SummationCompactor, cellRes: nat, children: Children<V>,
                                   add: (V, V) -> V, i: nat)
    requires i < CHILD_COUNT && ChildList(children)[i] == None
    ensures c.Compact(cellRes, children, add) == None
  {
  }

  /** Seven siblings each holding v merge, at or above the target resolution,
      into one entry holding 7v. */
  lemma SevenEqualSiblingsSum(c: SummationCompactor, cellRes: nat, v: int)
    requires c.resolution <= cellRes
    ensures c.Compact(cellRes, (Some(v), Some(v), Some(v), Some(v), Some(v), Some(v), Some(v)),
                      (a: int, b: int) => a + b) == Some(7 * v)
  {
  }

  /** Six of seven siblings present: no merge, at any resolution. */
  lemma SixOfSevenSiblingsStay(c: SummationCompactor, cellRes: nat, v: int, missing: nat)
    requires missing < CHILD_COUNT
    ensures var child := (i: nat) => if i == missing then None else Some(v);
            c.Compact(cellRes, (child(0), child(1), child(2), child(3), child(4), child(5), child(6)),
                      (a: int, b: int) => a + b) == None
  {
  }
}
