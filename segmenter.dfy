/**
 * The string segmenter of StringPartitions.php: `splitString` cuts a string
 * into consecutive pieces of the sizes a partition gives, and `processString`
 * does so for every partition of the string's length.
 */
module StringSegmenter {
  import opened PartitionGenerator

  /** PHP strings are byte strings: `strlen(s)` is `|s|`. */
  type String = seq<char>

  datatype Option<T> = None | Some(value: T)

  function Min(a: int, b: int): int
  {
    if a <= b then a else b
  }

  /**
   * PHP 8 `substr(s, offset, length)`, with `None` for an omitted length:
   * a negative offset counts from the end (clamped to the start), an offset
   * past the end gives "", a negative length leaves that many bytes off the
   * end (or gives "" when that is more than what is left), and a length
   * past the end is clamped to what is left.
   */
  function Substr(s: String, offset: int, length: Option<int>): (r: String)
    ensures |r| <= |s|
    ensures offset == 0 && length.Some? && length.value >= 0 ==>
      r == s[..Min(length.value, |s|)]
    ensures offset >= 0 && length.None? ==> r == s[Min(offset, |s|)..]
  {
    if offset > |s| then []
    else
      var start := if offset >= 0 then offset else if -offset > |s| then 0 else |s| + offset;
      var avail := |s| - start;
      var count :=
        match length
        case None => avail
        case Some(l) =>
          if l < 0 then (if -l > avail then 0 else avail + l)
          else if l > avail then avail else l;
      s[start..start + count]
  }

  /**
   * Cutting `substr(s, 0, p)` off the front and keeping `substr(s, p)` loses
   * and duplicates nothing, whatever the sign and size of `p`.
   */
  lemma CutKeepsEverything(s: String, p: int)
    ensures Substr(s, 0, Some(p)) + Substr(s, p, None) == s
  {
    if p < 0 && -p <= |s| {
      assert s[..|s| + p] + s[|s| + p..] == s;
    }
  }

  /** The pieces joined in order. */
  function Concat(pieces: seq<String>): String
  {
    if pieces == [] then [] else pieces[0] + Concat(pieces[1..])
  }

  lemma {:induction false} ConcatAppend(pieces: seq<String>, x: String)
    ensures Concat(pieces + [x]) == Concat(pieces) + x
  {
    if pieces != [] {
      assert (pieces + [x])[1..] == pieces[1..] + [x];
      ConcatAppend(pieces[1..], x);
    }
  }

  /** The sizes of the pieces (`strlen` of each). */
  function Lengths(pieces: seq<String>): seq<int>
  {
    seq(|pieces|, i requires 0 <= i < |pieces| => |pieces[i]|)
  }

  lemma {:induction false} ConcatLength(pieces: seq<String>)
    ensures Sum(Lengths(pieces)) == |Concat(pieces)|
  {
    if pieces != [] {
      assert Lengths(pieces)[1..] == Lengths(pieces[1..]);
      ConcatLength(pieces[1..]);
    }
  }

  /** The `array_reduce` accumulator `['l' => pieces so far, 's' => rest of the string]`. */
  datatype Acc = Acc(l: seq<String>, s: String)

  /** One reduction step: append `substr(s, 0, p)` to the pieces, keep `substr(s, p)`. */
  function Cut(c: Acc, p: int): (r: Acc)
    ensures |r.l| == |c.l| + 1 && r.l[..|c.l|] == c.l
  {
    Acc(c.l + [Substr(c.s, 0, Some(p))], Substr(c.s, p, None))
  }

  /** One reduction step keeps the pieces joined, then the rest, the same text. */
  lemma CutKeepsText(c: Acc, p: int)
    ensures Concat(Cut(c, p).l) + Cut(c, p).s == Concat(c.l) + c.s
  {
    ConcatAppend(c.l, Substr(c.s, 0, Some(p)));
    CutKeepsEverything(c.s, p);
  }

  /** `array_reduce(partition, Cut, c)`: a left fold over the part sizes. */
  function Reduce(c: Acc, partition: seq<int>): (r: Acc)
    ensures |r.l| == |c.l| + |partition|
    decreases |partition|
  {
    if partition == [] then c else Reduce(Cut(c, partition[0]), partition[1..])
  }

  /** The fold's invariant: the pieces joined, then the rest, are always the same text. */
  lemma {:induction false} ReduceKeepsText(c: Acc, partition: seq<int>)
    ensures Concat(Reduce(c, partition).l) + Reduce(c, partition).s == Concat(c.l) + c.s
    decreases |partition|
  {
    if partition != [] {
      CutKeepsText(c, partition[0]);
      ReduceKeepsText(Cut(c, partition[0]), partition[1..]);
    }
  }

  /** `splitString(str, partition)`: one piece per part. */
  function SplitString(str: String, partition: seq<int>): (r: seq<String>)
    ensures |r| == |partition|
  {
    Reduce(Acc([], str), partition).l
  }

  /** Whatever the parts, the pieces join to a prefix of `str`. */
  lemma SplitStringPrefix(str: String, partition: seq<int>)
    ensures Concat(SplitString(str, partition)) <= str
  {
    var c := Reduce(Acc([], str), partition);
    ReduceKeepsText(Acc([], str), partition);
    assert Concat(c.l) + c.s == str;
  }

  lemma {:induction false} ReduceFrom(l: seq<String>, s: String, partition: seq<int>)
    ensures Reduce(Acc(l, s), partition).l == l + Reduce(Acc([], s), partition).l
    decreases |partition|
  {
    if partition != [] {
      var piece, rest := Substr(s, 0, Some(partition[0])), Substr(s, partition[0], None);
      assert Cut(Acc(l, s), partition[0]) == Acc(l + [piece], rest);
      assert Cut(Acc([], s), partition[0]) == Acc([piece], rest);
      ReduceFrom(l + [piece], rest, partition[1..]);
      ReduceFrom([piece], rest, partition[1..]);
    }
  }

  /** The fold read from the front: the first piece, then the rest split by the remaining parts. */
  lemma SplitStringCons(str: String, partition: seq<int>)
    requires partition != []
    ensures SplitString(str, partition) ==
      [Substr(str, 0, Some(partition[0]))] +
      SplitString(Substr(str, partition[0], None), partition[1..])
  {
    var piece, rest := Substr(str, 0, Some(partition[0])), Substr(str, partition[0], None);
    assert Cut(Acc([], str), partition[0]) == Acc([piece], rest);
    assert Reduce(Acc([], str), partition) == Reduce(Acc([piece], rest), partition[1..]);
    ReduceFrom([piece], rest, partition[1..]);
  }

  /** All part sizes are non-negative. */
  predicate NonNegative(partition: seq<int>)
  {
    forall j :: 0 <= j < |partition| ==> partition[j] >= 0
  }

  /**
   * Cutting by non-negative sizes without a fold: each piece is the window of
   * `str` that opens at `start` and is as long as its size, both ends clamped
   * to the end of the string, and the next window opens where this one closes.
   */
  function Windows(str: String, sizes: seq<nat>, start: nat): (r: seq<String>)
    ensures |r| == |sizes|
    decreases |sizes|
  {
    if sizes == [] then []
    else [str[Min(start, |str|)..Min(start + sizes[0], |str|)]] + Windows(str, sizes[1..], start + sizes[0])
  }

  /** The two `substr` cuts of what is left of `str` after `k` characters, as slices of `str`. */
  lemma CutOfRest(str: String, rest: String, k: int, p: int)
    requires 0 <= k && 0 <= p
    requires rest == str[Min(k, |str|)..]
    ensures Substr(rest, 0, Some(p)) == str[Min(k, |str|)..Min(k + p, |str|)]
    ensures Substr(rest, p, None) == str[Min(k + p, |str|)..]
  {
    assert rest[..Min(p, |rest|)] == str[Min(k, |str|)..Min(k + p, |str|)];
  }

  /** The fold over what is left of `str` after `k` characters, read from the front. */
  lemma SplitStringOfRest(str: String, rest: String, partition: seq<int>, k: nat)
    requires partition != [] && partition[0] >= 0
    requires rest == str[Min(k, |str|)..]
    ensures SplitString(rest, partition) ==
      [str[Min(k, |str|)..Min(k + partition[0], |str|)]] +
      SplitString(str[Min(k + partition[0], |str|)..], partition[1..])
  {
    SplitStringCons(rest, partition);
    CutOfRest(str, rest, k, partition[0]);
  }

  /**
   * With non-negative parts, `splitString`'s left fold with `substr` over what
   * is left of `str` after `k` characters yields the windows opening at `k`.
   */
  lemma {:induction false} SplitStringIsWindows(str: String, rest: String, partition: seq<int>, k: nat)
    requires NonNegative(partition)
    requires rest == str[Min(k, |str|)..]
    ensures SplitString(rest, partition) == Windows(str, partition, k)
    decreases |partition|
  {
    if partition != [] {
      var p, tail := partition[0], partition[1..];
      assert p >= 0 && NonNegative(tail);
      SplitStringOfRest(str, rest, partition, k);
      SplitStringIsWindows(str, str[Min(k + p, |str|)..], tail, k + p);
    }
  }

  /** Where piece `i` starts: the sum of the parts before it. */
  function Offset(partition: seq<int>, i: int): int
    requires 0 <= i <= |partition|
  {
    if i == 0 then 0 else Offset(partition, i - 1) + partition[i - 1]
  }

  lemma {:induction false} OffsetOfTail(partition: seq<int>, i: int)
    requires 1 <= i <= |partition|
    ensures Offset(partition, i) == partition[0] + Offset(partition[1..], i - 1)
  {
    if i > 1 {
      OffsetOfTail(partition, i - 1);
    }
  }

  /** Window `i` opens `Offset(sizes, i)` after `start` and is `sizes[i]` long. */
  lemma {:induction false} WindowAt(str: String, sizes: seq<nat>, start: nat, i: int)
    requires 0 <= i < |sizes|
    ensures Offset(sizes, i) >= 0
    ensures Windows(str, sizes, start)[i] ==
      str[Min(start + Offset(sizes, i), |str|)..Min(start + Offset(sizes, i) + sizes[i], |str|)]
    decreases i
  {
    if i > 0 {
      WindowAt(str, sizes[1..], start + sizes[0], i - 1);
      OffsetOfTail(sizes, i);
    }
  }

  /**
   * With non-negative parts, piece `i` starts at the sum of the parts before
   * it and is `partition[i]` long, both clamped to the end of `str`.
   */
  lemma SplitStringPieces(str: String, partition: seq<int>, i: int)
    requires NonNegative(partition)
    requires 0 <= i < |partition|
    ensures Offset(partition, i) >= 0
    ensures SplitString(str, partition)[i] ==
      str[Min(Offset(partition, i), |str|)..Min(Offset(partition, i) + partition[i], |str|)]
  {
    assert str[Min(0, |str|)..] == str;
    SplitStringIsWindows(str, str, partition, 0);
    WindowAt(str, partition, 0, i);
  }

  lemma PrefixOfRest(str: String, rest: String, p: int, a: int)
    requires 0 <= p && 0 <= a
    requires rest == str[Min(p, |str|)..]
    ensures str[..Min(p, |str|)] + rest[..Min(a, |rest|)] == str[..Min(p + a, |str|)]
  {
  }

  /** With non-negative parts the pieces join to `str` cut at the parts' sum. */
  lemma {:induction false} SplitStringJoins(str: String, partition: seq<int>)
    requires NonNegative(partition)
    ensures Sum(partition) >= 0
    ensures Concat(SplitString(str, partition)) == str[..Min(Sum(partition), |str|)]
    decreases |partition|
  {
    if partition != [] {
      var p, tail := partition[0], partition[1..];
      var rest := str[Min(p, |str|)..];
      var r := SplitString(str, partition);
      SplitStringCons(str, partition);
      assert r == [str[..Min(p, |str|)]] + SplitString(rest, tail);
      assert Concat(r) == str[..Min(p, |str|)] + Concat(SplitString(rest, tail));
      SplitStringJoins(rest, tail);
      PrefixOfRest(str, rest, p, Sum(tail));
    }
  }

  /** The round trip: parts summing to `|str|` give pieces that join back to `str`. */
  lemma SplitStringRoundTrip(str: String, partition: seq<int>)
    requires NonNegative(partition) && Sum(partition) == |str|
    ensures Concat(SplitString(str, partition)) == str
  {
    SplitStringJoins(str, partition);
  }

  /** Parts that fit in `str` give pieces of exactly those sizes. */
  lemma {:induction false} SplitStringLengths(str: String, partition: seq<int>)
    requires NonNegative(partition) && Sum(partition) <= |str|
    ensures Lengths(SplitString(str, partition)) == partition
    decreases |partition|
  {
    if partition != [] {
      SplitStringCons(str, partition);
      var p, tail := partition[0], partition[1..];
      PartAtMostSum(partition, 0);
      var r := SplitString(str, partition);
      assert r[1..] == SplitString(str[p..], tail);
      SplitStringLengths(str[p..], tail);
      assert Lengths(r)[1..] == Lengths(r[1..]);
    }
  }

  /** The other round trip: splitting joined pieces by their own sizes gives them back. */
  lemma {:induction false} SplitStringOfConcat(pieces: seq<String>)
    ensures SplitString(Concat(pieces), Lengths(pieces)) == pieces
    decreases |pieces|
  {
    if pieces != [] {
      var str, q := Concat(pieces), Lengths(pieces);
      SplitStringCons(str, q);
      assert q[1..] == Lengths(pieces[1..]);
      assert str[..|pieces[0]|] == pieces[0];
      assert str[|pieces[0]|..] == Concat(pieces[1..]);
      SplitStringOfConcat(pieces[1..]);
    }
  }

  /** The documented example of `splitString`. */
  lemma SplitStringExample()
    ensures SplitString("asdfqwerzx", [4, 6]) == ["asdf", "qwerzx"]
  {
    var str := "asdfqwerzx";
    SplitStringCons(str, [4, 6]);
    assert [4, 6][1..] == [6];
    assert Substr(str, 0, Some(4)) == str[..4] == "asdf";
    assert Substr(str, 4, None) == str[4..] == "qwerzx";
    SplitStringCons("qwerzx", [6]);
    assert Substr("qwerzx", 0, Some(6)) == "qwerzx";
    assert SplitString(Substr("qwerzx", 6, None), []) == [];
  }

  /**
   * `processString(str, min)`: `str` split by every partition of its length,
   * in the order the partitions are generated.
   */
  function ProcessString(str: String, min: int): (r: seq<seq<String>>)
    requires min > 0
    ensures |r| == |Partitions(|str|, min)|
    ensures |r[0]| == 1
  {
    var ps := Partitions(|str|, min);
    seq(|ps|, i requires 0 <= i < |ps| => SplitString(str, ps[i]))
  }

  /** Every partition of a non-negative length has non-negative parts summing to it. */
  lemma PartitionFits(length: nat, min: int, i: int)
    requires min > 0 && 0 <= i < |Partitions(length, min)|
    ensures NonNegative(Partitions(length, min)[i])
    ensures Sum(Partitions(length, min)[i]) == length
  {
    PartitionsSound(length, min);
    PartsBounded(length, min);
  }

  /**
   * Every segmentation joins back to `str`, and its piece sizes are the
   * partition it was cut by.
   */
  lemma ProcessStringSegmentations(str: String, min: int)
    requires min > 0
    ensures forall i :: 0 <= i < |ProcessString(str, min)| ==>
      Concat(ProcessString(str, min)[i]) == str &&
      Lengths(ProcessString(str, min)[i]) == Partitions(|str|, min)[i]
  {
    var r, ps := ProcessString(str, min), Partitions(|str|, min);
    forall i | 0 <= i < |r|
      ensures Concat(r[i]) == str && Lengths(r[i]) == ps[i]
    {
      PartitionFits(|str|, min, i);
      SplitStringRoundTrip(str, ps[i]);
      SplitStringLengths(str, ps[i]);
    }
  }

  /** The segmentations are pairwise distinct. */
  lemma ProcessStringDistinct(str: String, min: int)
    requires min > 0
    ensures forall i, j :: 0 <= i < j < |ProcessString(str, min)| ==>
      ProcessString(str, min)[i] != ProcessString(str, min)[j]
  {
    ProcessStringSegmentations(str, min);
    PartitionsDistinct(|str|, min);
  }

  /** Cutting into consecutive pieces of at least `min` bytes. */
  predicate IsSegmentation(seg: seq<String>, str: String, min: int)
  {
    seg != [] && Concat(seg) == str && forall j :: 0 <= j < |seg| ==> |seg[j]| >= min
  }

  lemma ProcessStringSound(str: String, min: int, i: int)
    requires 0 < min <= |str| && 0 <= i < |ProcessString(str, min)|
    ensures IsSegmentation(ProcessString(str, min)[i], str, min)
  {
    var seg, q := ProcessString(str, min)[i], Partitions(|str|, min)[i];
    ProcessStringSegmentations(str, min);
    PartitionsExactly(q, |str|, min);
    assert Lengths(seg) == q;
    assert forall j :: 0 <= j < |seg| ==> |seg[j]| == Lengths(seg)[j];
  }

  lemma ProcessStringComplete(str: String, min: int, seg: seq<String>)
    requires 0 < min <= |str| && IsSegmentation(seg, str, min)
    ensures seg in ProcessString(str, min)
  {
    var r, ps := ProcessString(str, min), Partitions(|str|, min);
    var q := Lengths(seg);
    ConcatLength(seg);
    assert IsComposition(q, |str|, min);
    PartitionsExactly(q, |str|, min);
    var i :| 0 <= i < |ps| && ps[i] == q;
    SplitStringOfConcat(seg);
    assert r[i] == seg;
  }

  /**
   * For `|str| >= min` the result holds exactly the ways of cutting `str`
   * into consecutive pieces of at least `min` bytes.
   */
  lemma ProcessStringExactly(str: String, min: int, seg: seq<String>)
    requires 0 < min <= |str|
    ensures seg in ProcessString(str, min) <==> IsSegmentation(seg, str, min)
  {
    var r := ProcessString(str, min);
    if seg in r {
      var i :| 0 <= i < |r| && r[i] == seg;
      ProcessStringSound(str, min, i);
    }
    if IsSegmentation(seg, str, min) {
      ProcessStringComplete(str, min, seg);
    }
  }

  /** The empty string has the one segmentation `[""]`. */
  lemma ProcessStringOfEmpty()
    ensures ProcessString("", 4) == [[""]]
  {
    assert Partitions(0, 4) == [[0]];
    SplitStringCons("", [0]);
    assert [0][1..] == [];
    assert Substr("", 0, Some(0)) == "";
    assert SplitString(Substr("", 0, None), []) == [];
    assert SplitString("", [0]) == [""];
  }

  lemma SplitWhole(str: String)
    ensures SplitString(str, [|str|]) == [str]
  {
    SplitStringCons(str, [|str|]);
    assert [|str|][1..] == [];
    assert Substr(str, 0, Some(|str|)) == str[..|str|] == str;
    assert SplitString(Substr(str, |str|, None), []) == [];
  }

  lemma SplitInTwo(str: String, p: nat)
    requires p <= |str|
    ensures SplitString(str, [p, |str| - p]) == [str[..p], str[p..]]
  {
    SplitStringCons(str, [p, |str| - p]);
    assert [p, |str| - p][1..] == [|str[p..]|];
    SplitWhole(str[p..]);
  }

  /** The documented example of `processString`. */
  lemma ProcessStringExample()
    ensures ProcessString("asdfqwerzx", 4) ==
      [["asdfqwerzx"], ["asdf", "qwerzx"], ["asdfq", "werzx"], ["asdfqw", "erzx"]]
  {
    var str := "asdfqwerzx";
    var r := ProcessString(str, 4);
    var ps := Partitions(|str|, 4);
    PartitionsOf10By4();
    assert ps == [[10], [4, 6], [5, 5], [6, 4]];
    assert |r| == 4;
    SplitWhole(str);
    assert r[0] == SplitString(str, [|str|]);
    assert r[1] == SplitString(str, [4, |str| - 4]);
    assert r[2] == SplitString(str, [5, |str| - 5]);
    assert r[3] == SplitString(str, [6, |str| - 6]);
    SplitInTwo(str, 4);
    SplitInTwo(str, 5);
    SplitInTwo(str, 6);
    assert str[..4] == "asdf" && str[4..] == "qwerzx";
    assert str[..5] == "asdfq" && str[5..] == "werzx";
    assert str[..6] == "asdfqw" && str[6..] == "erzx";
  }
}
