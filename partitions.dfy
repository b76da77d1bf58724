/**
 * The partition generator of StringPartitions.php: `partitions(length, min)`
 * lists every ordered composition of `length` into parts of at least `min`,
 * the whole length `[length]` first, then the compositions grouped by their
 * first part in ascending order.
 */
module PartitionGenerator {

  /** Sum of the parts of a partition. */
  function Sum(q: seq<int>): int
  {
    if q == [] then 0 else q[0] + Sum(q[1..])
  }

  /** `q` is an ordered composition of `length` into parts of at least `min`. */
  predicate IsComposition(q: seq<int>, length: int, min: int)
  {
    q != [] && Sum(q) == length && forall j :: 0 <= j < |q| ==> q[j] >= min
  }

  /** The inner `array_map`: `[p]` merged in front of every partition of `ps`. */
  function Prepend(p: int, ps: seq<seq<int>>): (r: seq<seq<int>>)
    ensures |r| == |ps|
    ensures forall i :: 0 <= i < |r| ==> |r[i]| == |ps[i]| + 1 && r[i][0] == p && r[i][1..] == ps[i]
  {
    seq(|ps|, i requires 0 <= i < |ps| => [p] + ps[i])
  }

  /**
   * `partitions(length, min)`: the whole length as one part, followed, when
   * `length >= 2 * min`, by the partitions whose first part ranges over
   * `min .. length - min`.
   */
  function Partitions(length: int, min: int): (r: seq<seq<int>>)
    requires min > 0
    ensures |r| >= 1 && r[0] == [length]
    ensures |r| == 1 <==> length < 2 * min
    ensures forall i :: 0 <= i < |r| ==> |r[i]| >= 1
    decreases length, 1, 0
  {
    [[length]] + (if length >= 2 * min then FirstParts(length, min, min) else [])
  }

  /**
   * The outer `array_map` over `range(p, length - min)` flattened by
   * `array_merge`: for each first part `p, p + 1, ..., length - min` in turn,
   * that part prepended to every partition of the remaining length.
   */
  function FirstParts(length: int, min: int, p: int): (r: seq<seq<int>>)
    requires 0 < min <= p
    ensures |r| == 0 <==> p > length - min
    ensures forall i :: 0 <= i < |r| ==> |r[i]| >= 2 && p <= r[i][0] <= length - min
    decreases length, 0, length - p
  {
    if p > length - min then []
    else Prepend(p, Partitions(length - p, min)) + FirstParts(length, min, p + 1)
  }

  /** Sum of `|partitions(length - p, min)|` for first parts `p .. length - min`. */
  ghost function CountFrom(length: int, min: int, p: int): int
    requires 0 < min <= p
    decreases length - p
  {
    if p > length - min then 0
    else |Partitions(length - p, min)| + CountFrom(length, min, p + 1)
  }

  lemma {:induction false} FirstPartsCount(length: int, min: int, p: int)
    requires 0 < min <= p
    ensures |FirstParts(length, min, p)| == CountFrom(length, min, p)
    decreases length - p
  {
    if p <= length - min {
      FirstPartsCount(length, min, p + 1);
    }
  }

  /**
   * The count recurrence: one whole-length partition plus, for each first
   * part, as many partitions as the remaining length has.
   */
  lemma PartitionsCount(length: int, min: int)
    requires min > 0
    ensures |Partitions(length, min)| ==
      if length >= 2 * min then 1 + CountFrom(length, min, min) else 1
  {
    if length >= 2 * min {
      FirstPartsCount(length, min, min);
    }
  }

  lemma {:induction false} FirstPartsShift(length: int, min: int, p: int)
    requires 0 < min <= p
    ensures |FirstParts(length, min, p + 1)| == |FirstParts(length - 1, min, p)|
    decreases length - p
  {
    if p + 1 <= length - min {
      FirstPartsShift(length, min, p + 1);
    }
  }

  /**
   * A closed recurrence for the count: from `2 * min` on, each length has as
   * many partitions as the previous length plus the length `min` below.
   */
  lemma PartitionsCountStep(length: int, min: int)
    requires min > 0 && length >= 2 * min
    ensures |Partitions(length, min)| ==
      |Partitions(length - 1, min)| + |Partitions(length - min, min)|
  {
    FirstPartsShift(length, min, min);
  }

  lemma {:induction false} SumNonNegative(q: seq<int>)
    requires forall j :: 0 <= j < |q| ==> q[j] >= 0
    ensures Sum(q) >= 0
  {
    if q != [] {
      SumNonNegative(q[1..]);
    }
  }

  lemma {:induction false} PartAtMostSum(q: seq<int>, j: int)
    requires forall k :: 0 <= k < |q| ==> q[k] >= 0
    requires 0 <= j < |q|
    ensures q[j] <= Sum(q)
  {
    SumNonNegative(q[1..]);
    if j > 0 {
      PartAtMostSum(q[1..], j - 1);
    }
  }

  /**
   * Every emitted partition sums to `length`; every one after the first is a
   * composition into at least two parts of at least `min` whose first part
   * lies in `min .. length - min`.
   */
  lemma {:induction false} PartitionsSound(length: int, min: int)
    requires min > 0
    ensures forall i :: 0 <= i < |Partitions(length, min)| ==>
      Sum(Partitions(length, min)[i]) == length
    ensures forall i :: 1 <= i < |Partitions(length, min)| ==>
      IsComposition(Partitions(length, min)[i], length, min)
    decreases length, 1, 0
  {
    var r := Partitions(length, min);
    assert Sum(r[0]) == length + Sum([]);
    if length >= 2 * min {
      var f := FirstParts(length, min, min);
      FirstPartsSound(length, min, min);
      forall i | 1 <= i < |r|
        ensures Sum(r[i]) == length && IsComposition(r[i], length, min)
      {
        assert r[i] == f[i - 1];
      }
    }
  }

  lemma {:induction false} FirstPartsSound(length: int, min: int, p: int)
    requires 0 < min <= p
    ensures forall i :: 0 <= i < |FirstParts(length, min, p)| ==>
      IsComposition(FirstParts(length, min, p)[i], length, min)
    decreases length, 0, length - p
  {
    if p <= length - min {
      var sub := Partitions(length - p, min);
      PartitionsSound(length - p, min);
      FirstPartsSound(length, min, p + 1);
      var a := Prepend(p, sub);
      var r := FirstParts(length, min, p);
      assert r == a + FirstParts(length, min, p + 1);
      forall i | 0 <= i < |a|
        ensures IsComposition(a[i], length, min)
      {
        assert a[i][1..] == sub[i];
        assert Sum(a[i]) == p + Sum(sub[i]);
        if i == 0 {
          assert sub[i] == [length - p];
          assert Sum(sub[i]) == length - p + Sum([]);
        } else {
          assert IsComposition(sub[i], length - p, min);
        }
      }
    }
  }

  /**
   * With `length >= min`, every part of every emitted partition lies in
   * `min .. length`; otherwise the only partition is `[length]`.
   */
  lemma PartsBounded(length: int, min: int)
    requires min > 0
    ensures var r := Partitions(length, min);
      length >= min ==>
        forall i, j :: 0 <= i < |r| && 0 <= j < |r[i]| ==> min <= r[i][j] <= length
    ensures length < min ==> Partitions(length, min) == [[length]]
  {
    var r := Partitions(length, min);
    PartitionsSound(length, min);
    if length >= min {
      forall i, j | 0 <= i < |r| && 0 <= j < |r[i]|
        ensures min <= r[i][j] <= length
      {
        if i > 0 {
          assert IsComposition(r[i], length, min);
          PartAtMostSum(r[i], j);
        }
      }
    }
  }

  lemma {:induction false} FirstPartsContains(length: int, min: int, s: int, p: int, x: seq<int>)
    requires 0 < min <= s <= p <= length - min
    requires x in Partitions(length - p, min)
    ensures [p] + x in FirstParts(length, min, s)
    decreases p - s
  {
    var sub := Partitions(length - s, min);
    var a := Prepend(s, sub);
    assert FirstParts(length, min, s) == a + FirstParts(length, min, s + 1);
    if s == p {
      var k :| 0 <= k < |sub| && sub[k] == x;
      assert a[k] == [p] + x;
    } else {
      FirstPartsContains(length, min, s + 1, p, x);
    }
  }

  /** Without its first part, a composition of two or more parts is one of what is left. */
  lemma CompositionTail(q: seq<int>, length: int, min: int)
    requires min > 0 && IsComposition(q, length, min) && |q| >= 2
    ensures IsComposition(q[1..], length - q[0], min)
    ensures min <= q[0] <= length - min
  {
    var rest := q[1..];
    assert Sum(q) == q[0] + Sum(rest);
    assert forall j :: 0 <= j < |rest| ==> rest[j] == q[j + 1];
    assert Sum(rest) == rest[0] + Sum(rest[1..]);
    SumNonNegative(rest[1..]);
  }

  /** Every composition of `length` into parts of at least `min` is emitted. */
  lemma {:induction false} PartitionsComplete(q: seq<int>, length: int, min: int)
    requires min > 0 && IsComposition(q, length, min)
    ensures q in Partitions(length, min)
    decreases |q|
  {
    var p, rest := q[0], q[1..];
    if |q| == 1 {
      assert Sum(q) == p + Sum(rest);
      assert q == [length];
    } else {
      assert IsComposition(rest, length - p, min) && min <= p <= length - min by {
        CompositionTail(q, length, min);
      }
      assert rest in Partitions(length - p, min) by {
        PartitionsComplete(rest, length - p, min);
      }
      assert [p] + rest in FirstParts(length, min, min) by {
        FirstPartsContains(length, min, min, p, rest);
      }
      assert q == [p] + rest;
      assert Partitions(length, min) == [[length]] + FirstParts(length, min, min);
    }
  }

  /**
   * For `length >= min` the emitted partitions are exactly the ordered
   * compositions of `length` into parts of at least `min`.
   */
  lemma PartitionsExactly(q: seq<int>, length: int, min: int)
    requires 0 < min <= length
    ensures q in Partitions(length, min) <==> IsComposition(q, length, min)
  {
    var r := Partitions(length, min);
    if q in r {
      var i :| 0 <= i < |r| && r[i] == q;
      PartitionsSound(length, min);
      if i == 0 {
        assert Sum(q) == length + Sum([]);
      }
    }
    if IsComposition(q, length, min) {
      PartitionsComplete(q, length, min);
    }
  }

  /** No partition is emitted twice. */
  lemma {:induction false} PartitionsDistinct(length: int, min: int)
    requires min > 0
    ensures forall i, j :: 0 <= i < j < |Partitions(length, min)| ==>
      Partitions(length, min)[i] != Partitions(length, min)[j]
    decreases length, 1, 0
  {
    if length >= 2 * min {
      var r := Partitions(length, min);
      var f := FirstParts(length, min, min);
      FirstPartsDistinct(length, min, min);
      forall i, j | 0 <= i < j < |r|
        ensures r[i] != r[j]
      {
        assert r[j] == f[j - 1];
        if i > 0 {
          assert r[i] == f[i - 1];
        }
      }
    }
  }

  lemma {:induction false} FirstPartsDistinct(length: int, min: int, p: int)
    requires 0 < min <= p
    ensures forall i, j :: 0 <= i < j < |FirstParts(length, min, p)| ==>
      FirstParts(length, min, p)[i] != FirstParts(length, min, p)[j]
    decreases length, 0, length - p
  {
    if p <= length - min {
      var sub := Partitions(length - p, min);
      var a := Prepend(p, sub);
      var b := FirstParts(length, min, p + 1);
      var r := FirstParts(length, min, p);
      assert r == a + b;
      PartitionsDistinct(length - p, min);
      FirstPartsDistinct(length, min, p + 1);
      forall i, j | 0 <= i < j < |r|
        ensures r[i] != r[j]
      {
        if j < |a| {
          assert a[i][1..] == sub[i] && a[j][1..] == sub[j];
        } else if i < |a| {
          assert r[i][0] == p && r[j] == b[j - |a|];
        } else {
          assert r[i] == b[i - |a|] && r[j] == b[j - |a|];
        }
      }
    }
  }

  lemma {:induction false} FirstPartsOrdered(length: int, min: int, p: int)
    requires 0 < min <= p
    ensures forall i, j :: 0 <= i < j < |FirstParts(length, min, p)| ==>
      FirstParts(length, min, p)[i][0] <= FirstParts(length, min, p)[j][0]
    decreases length - p
  {
    if p <= length - min {
      var a := Prepend(p, Partitions(length - p, min));
      var b := FirstParts(length, min, p + 1);
      var r := FirstParts(length, min, p);
      assert r == a + b;
      FirstPartsOrdered(length, min, p + 1);
      forall i, j | 0 <= i < j < |r|
        ensures r[i][0] <= r[j][0]
      {
        if j >= |a| {
          assert r[j] == b[j - |a|];
          if i >= |a| {
            assert r[i] == b[i - |a|];
          }
        }
      }
    }
  }

  /**
   * After `[length]`, every partition has at least two parts and the
   * partitions come grouped by first part, ascending over `min .. length - min`.
   */
  lemma PartitionsOrdered(length: int, min: int)
    requires min > 0
    ensures forall i :: 1 <= i < |Partitions(length, min)| ==>
      |Partitions(length, min)[i]| >= 2 &&
      min <= Partitions(length, min)[i][0] <= length - min
    ensures forall i, j :: 1 <= i < j < |Partitions(length, min)| ==>
      Partitions(length, min)[i][0] <= Partitions(length, min)[j][0]
  {
    if length >= 2 * min {
      var r := Partitions(length, min);
      var f := FirstParts(length, min, min);
      FirstPartsOrdered(length, min, min);
      assert forall i :: 1 <= i < |r| ==> r[i] == f[i - 1];
    }
  }

  /** The documented example: `partitions(10, 4)`. */
  lemma PartitionsOf10By4()
    ensures Partitions(10, 4) == [[10], [4, 6], [5, 5], [6, 4]]
  {
    assert Partitions(4, 4) == [[4]];
    assert Partitions(5, 4) == [[5]];
    assert Partitions(6, 4) == [[6]];
    assert Prepend(6, [[4]])[0] == [6] + [4] == [6, 4];
    assert Prepend(5, [[5]])[0] == [5] + [5] == [5, 5];
    assert Prepend(4, [[6]])[0] == [4] + [6] == [4, 6];
    assert FirstParts(10, 4, 7) == [];
    assert FirstParts(10, 4, 6) == [[6, 4]];
    assert FirstParts(10, 4, 5) == [[5, 5], [6, 4]];
    assert FirstParts(10, 4, 4) == [[4, 6], [5, 5], [6, 4]];
  }

  /** Lengths below `2 * min`, zero included, give only the whole length. */
  lemma PartitionsOf0By4()
    ensures Partitions(0, 4) == [[0]]
  {
  }

  /**
   * The count by its closed recurrence: one partition below `2 * min`, and
   * from there on the count of the previous length plus that of the length
   * `min` below.
   */
  function Count(length: int, min: int): nat
    requires min > 0
    decreases if length < 0 then 0 else length
  {
    if length < 2 * min then 1 else Count(length - 1, min) + Count(length - min, min)
  }

  lemma {:induction false} PartitionsCountIsCount(length: int, min: int)
    requires min > 0
    ensures |Partitions(length, min)| == Count(length, min)
    decreases if length < 0 then 0 else length
  {
    if length >= 2 * min {
      PartitionsCountStep(length, min);
      PartitionsCountIsCount(length - 1, min);
      PartitionsCountIsCount(length - min, min);
    }
  }

  /** The closed recurrence evaluated at length 25 with minimum 4. */
  lemma CountValue25By4()
    ensures Count(25, 4) == 476
  {
    assert Count(8, 4) == 2;
    assert Count(9, 4) == 3;
    assert Count(10, 4) == 4;
    assert Count(11, 4) == 5;
    assert Count(12, 4) == 7;
    assert Count(13, 4) == 10;
    assert Count(14, 4) == 14;
    assert Count(15, 4) == 19;
    assert Count(16, 4) == 26;
    assert Count(17, 4) == 36;
    assert Count(18, 4) == 50;
    assert Count(19, 4) == 69;
    assert Count(20, 4) == 95;
    assert Count(21, 4) == 131;
    assert Count(22, 4) == 181;
    assert Count(23, 4) == 250;
    assert Count(24, 4) == 345;
  }

  /** The count asserted for `partitions(25, 4)`. */
  lemma CountOf25By4()
    ensures |Partitions(25, 4)| == 476
  {
    PartitionsCountIsCount(25, 4);
    CountValue25By4();
  }
}
