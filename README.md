# String partitions, modelled in Dafny

A model of `StringPartitions.php`, a small PHP library that lists every way
to cut a string into consecutive pieces of at least a minimum length.

- `partitions(length, min)` lists every ordered composition of `length` into
  parts of at least `min`. The whole length `[length]` always comes first,
  even when `length < min`. Then, when `length >= 2 * min`, come the
  compositions grouped by first part `p = min .. length - min`, each being
  `p` in front of every partition of `length - p`.
- `splitString(str, partition)` folds over the part sizes with PHP's
  `substr`, cutting one piece per part off the front of the rest of the
  string.
- `processString(str, min)` splits `str` by every partition of its length.

The two Dafny modules follow the library's two halves:

- `PartitionGenerator` (`partitions.dfy`) holds `Partitions`. Its mutually
  recursive partner `FirstParts` is the `array_map` over `range(min,
  length - min)` flattened by `array_merge`.
- `StringSegmenter` (`segmenter.dfy`) holds `Substr`, which is PHP 8
  `substr`. It also holds the `array_reduce` step `Cut`, the fold `Reduce`,
  `SplitString` and `ProcessString`. `Windows` is an independent reference
  for the fold: it cuts each piece straight out of `str` at the running sum
  of the sizes, for non-negative sizes.

Strings are byte strings, modelled as `seq<char>`, with `strlen` as `|s|`.
PHP integers are unbounded `int`s here.

What is proved:

- The partitions are exactly the compositions of the length into parts of
  at least `min`, provided `length >= min`.
- They are pairwise distinct and ordered by first part.
- Their count follows the source's recurrence and also
  `c(n) = c(n - 1) + c(n - min)`. That gives the counts asserted by the
  tests.
- Splitting round-trips in both directions.
- For `|str| >= min`, `processString` yields exactly the segmentations of
  `str` into pieces of at least `min` bytes, each once.

## Model

| member | source | states |
|---|---|---|
| `PartitionGenerator.Prepend` | StringPartitions.php:53-58 | one result per partition of what is left, each being that partition with `p` put in front |
| `PartitionGenerator.Partitions` | StringPartitions.php:25-70 | the first partition is always `[length]`, and it is the only one exactly when `length < 2 * min`; every partition is non-empty |
| `PartitionGenerator.FirstParts` | StringPartitions.php:42-63 | the flattened map over first parts `p .. length - min` is empty exactly when that range is; each of its partitions has at least two parts and a first part within the range |
| `PartitionGenerator.PartitionsCount` | StringPartitions.php:27-68 | `|partitions(n, m)|` is `1 + Σ_{p=m}^{n-m} |partitions(n - p, m)|` when `n >= 2m` and `1` otherwise |
| `PartitionGenerator.PartitionsCountStep` | StringPartitions.php:36-61 | for `n >= 2m`, `|partitions(n, m)| = |partitions(n - 1, m)| + |partitions(n - m, m)|` |
| `PartitionGenerator.PartitionsSound` | StringPartitions.php:53-61 | every emitted partition sums to `length`; every one after the first is a composition with all parts `>= min` |
| `PartitionGenerator.PartsBounded` | StringPartitions.php:31-61 | for `length >= min` every part lies in `min .. length`; for `length < min` the result is `[[length]]` |
| `PartitionGenerator.PartitionsComplete` | StringPartitions.php:36-61 | every composition of `length` into parts `>= min` is emitted |
| `PartitionGenerator.PartitionsExactly` | StringPartitions.php:25-70 | for `length >= min`, `q` is emitted if and only if it is a composition of `length` into parts `>= min` |
| `PartitionGenerator.PartitionsDistinct` | StringPartitions.php:27-61 | no two emitted partitions are equal |
| `PartitionGenerator.PartitionsOrdered` | StringPartitions.php:42-61 | after `[length]` every partition has at least two parts, its first part is in `min .. length - min`, and first parts never decrease |
| `PartitionGenerator.PartitionsOf10By4` | StringPartitions.php:11-17 | `partitions(10, 4)` is `[[10], [4, 6], [5, 5], [6, 4]]` |
| `PartitionGenerator.PartitionsOf0By4` | StringPartitions.php:27-36 | `partitions(0, 4)` is `[[0]]` |
| `PartitionGenerator.PartitionsCountIsCount` | StringPartitions.php:27-68 | the number of partitions equals the closed recurrence `Count`: `1` below `2 * min`, else `Count(n - 1) + Count(n - min)` |
| `PartitionGenerator.CountOf25By4` | test.php:27-28 | `partitions(25, 4)` has 476 elements |
| `StringSegmenter.Substr` | StringPartitions.php:93-94 | the result is never longer than the string; `substr(s, 0, n)` with `n >= 0` is the first `min(n, |s|)` bytes; `substr(s, p)` with `p >= 0` is everything from byte `min(p, |s|)` on |
| `StringSegmenter.CutKeepsEverything` | StringPartitions.php:93-94 | for any integer `p`, `substr(s, 0, p) . substr(s, p)` is `s` |
| `StringSegmenter.Cut` | StringPartitions.php:90-96 | one reduction step appends exactly one piece and keeps the pieces collected so far |
| `StringSegmenter.CutKeepsText` | StringPartitions.php:90-96 | one reduction step keeps the pieces joined, followed by the rest of the string, unchanged |
| `StringSegmenter.Reduce` | StringPartitions.php:90-101 | the fold adds exactly one piece per part |
| `StringSegmenter.ReduceKeepsText` | StringPartitions.php:90-101 | whatever the parts, the fold keeps the collected pieces joined, followed by the rest of the string, unchanged |
| `StringSegmenter.SplitString` | StringPartitions.php:85-102 | one piece per part |
| `StringSegmenter.SplitStringPrefix` | StringPartitions.php:85-102 | whatever the parts, even negative ones, the pieces join to a prefix of `str` |
| `StringSegmenter.SplitStringCons` | StringPartitions.php:90-101 | the left fold equals cutting the first piece and splitting the rest by the remaining parts |
| `StringSegmenter.SplitStringOfRest` | StringPartitions.php:90-101 | with a first part `p >= 0`, the fold over what is left after `k` bytes gives the clamped slice from `k` to `k + p` of `str`, then the fold over what is left after `k + p` bytes |
| `StringSegmenter.SplitStringIsWindows` | StringPartitions.php:90-101 | with non-negative parts, the `substr` fold over what is left after `k` bytes equals `Windows`: consecutive clamped windows of `str` opening at `k` |
| `StringSegmenter.WindowAt` | StringPartitions.php:90-101 | window `i` opens at `start` plus the sum of the sizes before it and is `sizes[i]` long, both ends clamped to `|str|` |
| `StringSegmenter.SplitStringPieces` | StringPartitions.php:90-101 | with non-negative parts, piece `i` is `str` from `min(Σ_{j<i} p_j, |str|)` to `min(Σ_{j<=i} p_j, |str|)` |
| `StringSegmenter.SplitStringJoins` | StringPartitions.php:90-101 | with non-negative parts, the pieces join to the first `min(Σ p, |str|)` bytes of `str` |
| `StringSegmenter.SplitStringRoundTrip` | StringPartitions.php:85-102 | with non-negative parts summing to `|str|`, the pieces join back to `str` |
| `StringSegmenter.SplitStringLengths` | StringPartitions.php:85-102 | with non-negative parts summing to at most `|str|`, the piece lengths are the parts |
| `StringSegmenter.SplitStringOfConcat` | StringPartitions.php:85-102 | splitting joined pieces by their own lengths gives the pieces back |
| `StringSegmenter.SplitStringExample` | StringPartitions.php:75-77 | `splitString("asdfqwerzx", [4, 6])` is `["asdf", "qwerzx"]` |
| `StringSegmenter.ProcessString` | StringPartitions.php:122-133 | one segmentation per partition of `|str|`, the first one a single piece |
| `StringSegmenter.ProcessStringSegmentations` | StringPartitions.php:127-131 | segmentation `i` joins back to `str`, and its piece lengths are partition `i` |
| `StringSegmenter.ProcessStringDistinct` | StringPartitions.php:127-131 | no segmentation appears twice |
| `StringSegmenter.ProcessStringSound` | StringPartitions.php:122-133 | for `|str| >= min`, every result is a non-empty cut of `str` into pieces of at least `min` bytes |
| `StringSegmenter.ProcessStringComplete` | StringPartitions.php:122-133 | for `|str| >= min`, every cut of `str` into pieces of at least `min` bytes is in the result |
| `StringSegmenter.ProcessStringExactly` | StringPartitions.php:122-133 | for `|str| >= min`, `seg` is in the result if and only if it is such a cut |
| `StringSegmenter.ProcessStringOfEmpty` | test.php:11-12 | `processString("", 4)` is `[[""]]` |
| `StringSegmenter.ProcessStringExample` | StringPartitions.php:107-114 | `processString("asdfqwerzx", 4)` is the four documented segmentations, in order |

## Left out

- `echoStrings` (StringPartitions.php:145-153) is not modelled. It only prints each segmentation with `echo` and `json_encode`, which is console I/O and serialisation.
- `min <= 0` is a precondition (`requires min > 0`). The code raises no error for it, so the model has none. For `min <= 0` the source recurses without end whenever `length >= 2 * min`, which always holds for a string's length: `range(min, length - min)` (StringPartitions.php:61) then contains a first part `<= 0`, so the call at StringPartitions.php:57 does not shrink `length`. For a negative `length < 2 * min` it returns `[[length]]`, which the precondition also excludes.
- `Substr` models PHP 8. PHP 7 returns `false` in two cases where PHP 8 returns `""`: an offset past the end of the string, and a negative length that drops more bytes than remain. `splitString` over partitions of `strlen(str)` reaches neither.
- Multibyte encodings are not modelled: `strlen` and `substr` count bytes, and the model treats a string as a plain sequence.
- Run time and memory are not modelled. The output grows exponentially and the source does not memoise.
