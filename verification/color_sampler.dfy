/**
 * The colour sampler of sortimages.py (`image_list`): which files of the directory walk
 * are accepted as icons, and how each accepted icon is summarised by the per-channel
 * truncated mean of its colour histogram.
 *
 * The image library is not modelled: a file is given as what the library reports about
 * it (its size and its `getcolors()` histograms in RGBA and in HSV).
 */
module ColorSampler {

  /** A colour as the image library reports it: one natural per channel. */
  type Color = seq<nat>

  /** One `(count, colour)` pair of a `getcolors()` histogram. */
  datatype Entry = Entry(count: nat, color: Color)

  type Histogram = seq<Entry>

  /** A file produced by the directory walk, with its decoded size and histograms. */
  datatype FileRecord = FileRecord(path: string, width: nat, height: nat, rgba: Histogram, hsv: Histogram)

  /** Side of an accepted icon, in pixels. */
  const IconSide: nat := 16

  /** The tuple `(average_hsv, image_path, average_rgba)` appended per accepted icon. */
  datatype IconRecord = IconRecord(averageHsv: seq<nat>, path: string, averageRgba: seq<nat>)

  // ---------------------------------------------------------------------------
  // Strings

  /** `s.endswith(suffix)` */
  predicate EndsWith(s: string, suffix: string)
  {
    |suffix| <= |s| && s[|s| - |suffix|..] == suffix
  }

  /** `sub` occurs in `s` starting at position `i`. */
  predicate OccursAt(s: string, sub: string, i: nat)
  {
    i + |sub| <= |s| && s[i..i + |sub|] == sub
  }

  /** Searches for `sub` in `s` from position `i` rightwards. */
  predicate ContainsFrom(s: string, sub: string, i: nat)
    decreases |s| - i
  {
    if i + |sub| > |s| then false
    else OccursAt(s, sub, i) || ContainsFrom(s, sub, i + 1)
  }

  /** `sub in s` */
  predicate Contains(s: string, sub: string)
  {
    ContainsFrom(s, sub, 0)
  }

  lemma {:induction false} ContainsFromIff(s: string, sub: string, i: nat)
    ensures ContainsFrom(s, sub, i) <==> exists j: nat :: i <= j && OccursAt(s, sub, j)
    decreases |s| - i
  {
    if i + |sub| <= |s| {
      ContainsFromIff(s, sub, i + 1);
      if j: nat :| i <= j && OccursAt(s, sub, j) {
        assert j == i || (i + 1 <= j && OccursAt(s, sub, j));
      }
    }
  }

  /** `sub in s` holds exactly when `sub` occurs at some position of `s`. */
  lemma ContainsIff(s: string, sub: string)
    ensures Contains(s, sub) <==> exists i: nat :: OccursAt(s, sub, i)
  {
    ContainsFromIff(s, sub, 0);
  }

  // ---------------------------------------------------------------------------
  // zip(*xs): transposing a list of colours into a list of channels

  function Min(a: nat, b: nat): nat { if a <= b then a else b }

  /** How many channels `zip(*xs)` yields: the length of the shortest colour, 0 for no colours. */
  function Arity(xs: seq<Color>): (k: nat)
    ensures forall i :: 0 <= i < |xs| ==> k <= |xs[i]|
    ensures |xs| == 0 ==> k == 0
  {
    if |xs| == 0 then 0
    else if |xs| == 1 then |xs[0]|
    else
      var k := Arity(xs[1..]);
      assert forall i :: 1 <= i < |xs| ==> xs[i] == xs[1..][i - 1];
      Min(|xs[0]|, k)
  }

  /** The channel count of a non-empty list of colours is the length of one of them. */
  lemma {:induction false} ArityAttained(xs: seq<Color>) returns (i: nat)
    requires |xs| > 0
    ensures i < |xs| && Arity(xs) == |xs[i]|
  {
    if |xs| == 1 {
      i := 0;
    } else if |xs[0]| <= Arity(xs[1..]) {
      i := 0;
    } else {
      var j := ArityAttained(xs[1..]);
      i := j + 1;
    }
  }

  /** Channel `c` of every colour of `xs`, in order. */
  function Channel(xs: seq<Color>, c: nat): seq<nat>
    requires forall i :: 0 <= i < |xs| ==> c < |xs[i]|
  {
    seq(|xs|, i requires 0 <= i < |xs| => xs[i][c])
  }

  /** `list(zip(*xs))`: one sequence per channel, as many as the shortest colour has. */
  function Transpose(xs: seq<Color>): seq<seq<nat>>
  {
    seq(Arity(xs), c requires 0 <= c < Arity(xs) => Channel(xs, c))
  }

  // ---------------------------------------------------------------------------
  // The acceptance filter

  /** `list(zip(*histogram))[1]`: the colour of each histogram entry. */
  function Colors(h: Histogram): seq<Color>
  {
    seq(|h|, i requires 0 <= i < |h| => h[i].color)
  }

  /**
   * The guard of sortimages.py:31, kept as written: skip when the path does not end in ".png"
   * or when it ends in ".jpg".
   */
  predicate SkipByExtension(path: string)
  {
    !EndsWith(path, ".png") || EndsWith(path, ".jpg")
  }

  /** The ".jpg" disjunct never decides anything: a path ending in ".png" does not end in ".jpg". */
  lemma JpgClauseIsDead(path: string)
    ensures SkipByExtension(path) <==> !EndsWith(path, ".png")
  {
  }

  /** sortimages.py:38: zero occurs in the last channel of the transposed RGBA colours. */
  predicate HasTransparentPixel(rgba: Histogram)
  {
    var t := Transpose(Colors(rgba));
    |t| > 0 && 0 in t[|t| - 1]
  }

  /** For an RGBA histogram, the check of sortimages.py:38 is "some colour has alpha 0". */
  lemma TransparentIff(rgba: Histogram)
    requires |rgba| > 0
    requires forall i :: 0 <= i < |rgba| ==> |rgba[i].color| == 4
    ensures HasTransparentPixel(rgba) <==> exists i :: 0 <= i < |rgba| && rgba[i].color[3] == 0
  {
    var xs := Colors(rgba);
    var w := ArityAttained(xs);
    var t := Transpose(xs);
    assert |t| == 4;
    assert t[3] == Channel(xs, 3);
    if HasTransparentPixel(rgba) {
      var j :| 0 <= j < |t[3]| && t[3][j] == 0;
      assert rgba[j].color[3] == 0;
    }
    if i :| 0 <= i < |rgba| && rgba[i].color[3] == 0 {
      assert t[3][i] == 0;
    }
  }

  /** The filter of sortimages.py:31, 35, 38 and 45, evaluated in the program's order. */
  predicate Accepted(f: FileRecord)
  {
    !SkipByExtension(f.path)
    && f.width == IconSide && f.height == IconSide
    && !HasTransparentPixel(f.rgba)
    && !Contains(f.path, "debug")
  }

  /**
   * For a file whose RGBA colours have four channels each, a file is kept exactly when its
   * path ends in ".png", it is 16x16, no colour has alpha 0 and "debug" does not occur in its path.
   */
  lemma AcceptedIff(f: FileRecord)
    requires |f.rgba| > 0
    requires forall i :: 0 <= i < |f.rgba| ==> |f.rgba[i].color| == 4
    ensures Accepted(f) <==>
      EndsWith(f.path, ".png")
      && f.width == IconSide && f.height == IconSide
      && (forall i :: 0 <= i < |f.rgba| ==> f.rgba[i].color[3] != 0)
      && (forall k: nat :: !OccursAt(f.path, "debug", k))
  {
    JpgClauseIsDead(f.path);
    TransparentIff(f.rgba);
    ContainsIff(f.path, "debug");
  }

  // ---------------------------------------------------------------------------
  // Histogram expansion and the per-channel truncated mean

  /** Total number of pixels a histogram describes. */
  function TotalCount(h: Histogram): nat
  {
    if |h| == 0 then 0 else h[0].count + TotalCount(h[1..])
  }

  function Repeat(c: Color, n: nat): seq<Color>
  {
    seq(n, _ => c)
  }

  /**
   * `[color[1] for color in h for i in range(color[0])]`: every colour repeated by its count.
   * Every expanded colour comes from an entry of positive count.
   */
  function Expand(h: Histogram): (xs: seq<Color>)
    ensures |xs| == TotalCount(h)
    ensures forall j :: 0 <= j < |xs| ==> exists i :: 0 <= i < |h| && h[i].count > 0 && xs[j] == h[i].color
  {
    if |h| == 0 then []
    else
      var rest := Expand(h[1..]);
      var xs := Repeat(h[0].color, h[0].count) + rest;
      assert forall j :: h[0].count <= j < |xs| ==> xs[j] == rest[j - h[0].count];
      assert forall i :: 1 <= i < |h| ==> h[i] == h[1..][i - 1];
      xs
  }

  function Sum(s: seq<nat>): nat
  {
    if |s| == 0 then 0 else s[0] + Sum(s[1..])
  }

  /** `tuple(int(sum(color)/len(color)) for color in zip(*xs))`: the truncated mean per channel. */
  function Average(xs: seq<Color>): (avg: seq<nat>)
    ensures |avg| == Arity(xs)
  {
    var t := Transpose(xs);
    seq(|t|, c requires 0 <= c < |t| => Sum(t[c]) / |t[c]|)
  }

  /** The averaged colour of a histogram (sortimages.py:48-52 and 60). */
  function Summarise(h: Histogram): seq<nat>
  {
    Average(Expand(h))
  }

  /** The record emitted for an accepted file (sortimages.py:61). */
  function Record(f: FileRecord): IconRecord
  {
    IconRecord(Summarise(f.hsv), f.path, Summarise(f.rgba))
  }

  /** Sum over channel `c`, weighting each histogram colour by its count. */
  function WeightedSum(h: Histogram, c: nat): nat
  {
    if |h| == 0 then 0
    else h[0].count * (if c < |h[0].color| then h[0].color[c] else 0) + WeightedSum(h[1..], c)
  }

  lemma {:induction false} SumConcat(a: seq<nat>, b: seq<nat>)
    ensures Sum(a + b) == Sum(a) + Sum(b)
  {
    if |a| > 0 {
      assert (a + b)[1..] == a[1..] + b;
      SumConcat(a[1..], b);
    } else {
      assert a + b == b;
    }
  }

  lemma {:induction false} SumConstant(n: nat, v: nat)
    ensures Sum(seq(n, _ => v)) == n * v
  {
    if n > 0 {
      assert seq(n, _ => v)[1..] == seq(n - 1, _ => v);
      SumConstant(n - 1, v);
      assert n * v == (n - 1) * v + v;
    }
  }

  /** Channel `c` of a concatenation, and its sum, split at the seam. */
  lemma ChannelSumConcat(a: seq<Color>, b: seq<Color>, c: nat)
    requires forall j :: 0 <= j < |a| ==> c < |a[j]|
    requires forall j :: 0 <= j < |b| ==> c < |b[j]|
    ensures forall j :: 0 <= j < |a + b| ==> c < |(a + b)[j]|
    ensures Sum(Channel(a + b, c)) == Sum(Channel(a, c)) + Sum(Channel(b, c))
  {
    assert Channel(a + b, c) == Channel(a, c) + Channel(b, c);
    SumConcat(Channel(a, c), Channel(b, c));
  }

  /** Channel `c` of `n` copies of one colour sums to `n` times that channel. */
  lemma ChannelSumRepeat(col: Color, n: nat, c: nat)
    requires n > 0 ==> c < |col|
    ensures forall j :: 0 <= j < n ==> c < |Repeat(col, n)[j]|
    ensures Sum(Channel(Repeat(col, n), c)) == n * (if c < |col| then col[c] else 0)
  {
    if n == 0 {
      assert Channel(Repeat(col, n), c) == [];
    } else {
      assert Channel(Repeat(col, n), c) == seq(n, _ => col[c]);
      SumConstant(n, col[c]);
    }
  }

  /** Summing channel `c` of the expanded list gives the count-weighted channel sum. */
  lemma {:induction false} ExpandedChannelSum(h: Histogram, c: nat)
    requires forall j :: 0 <= j < |Expand(h)| ==> c < |Expand(h)[j]|
    ensures Sum(Channel(Expand(h), c)) == WeightedSum(h, c)
  {
    if |h| > 0 {
      var xs := Expand(h);
      var head := Repeat(h[0].color, h[0].count);
      var rest := Expand(h[1..]);
      assert xs == head + rest;
      assert forall j :: 0 <= j < |rest| ==> c < |rest[j]| by {
        forall j | 0 <= j < |rest| ensures c < |rest[j]| {
          assert rest[j] == xs[j + |head|];
        }
      }
      assert h[0].count > 0 ==> c < |h[0].color| by {
        if h[0].count > 0 { assert xs[0] == h[0].color; }
      }
      ExpandedChannelSum(h[1..], c);
      ChannelSumRepeat(h[0].color, h[0].count, c);
      ChannelSumConcat(head, rest, c);
    }
  }

  /** Each channel of the summary is ⌊Σ countᵢ·channelᵢ / Σ countᵢ⌋. */
  lemma WeightedMean(h: Histogram, c: nat)
    requires c < |Summarise(h)|
    ensures TotalCount(h) > 0
    ensures Summarise(h)[c] == WeightedSum(h, c) / TotalCount(h)
  {
    var xs := Expand(h);
    var t := Transpose(xs);
    assert t[c] == Channel(xs, c);
    ExpandedChannelSum(h, c);
  }

  lemma MulSucc(a: nat, n: nat)
    ensures a * (n + 1) == a * n + a
  {
  }

  lemma {:induction false} SumBounds(s: seq<nat>, lo: nat, hi: nat)
    requires forall i :: 0 <= i < |s| ==> lo <= s[i] <= hi
    ensures lo * |s| <= Sum(s) <= hi * |s|
  {
    if |s| > 0 {
      var tail := s[1..];
      assert forall i :: 0 <= i < |tail| ==> lo <= tail[i] <= hi by {
        forall i | 0 <= i < |tail| ensures lo <= tail[i] <= hi { assert tail[i] == s[i + 1]; }
      }
      SumBounds(tail, lo, hi);
      MulSucc(lo, |tail|);
      MulSucc(hi, |tail|);
    }
  }

  lemma MulCancel(a: int, b: int, n: int)
    requires n > 0 && a * n < b * n
    ensures a < b
  {
  }

  lemma FloorDivBounds(total: nat, n: nat, lo: nat, hi: nat)
    requires n > 0 && lo * n <= total <= hi * n
    ensures lo <= total / n <= hi
  {
    var q, r := total / n, total % n;
    assert total == q * n + r && 0 <= r < n;
    assert (q + 1) * n == q * n + n;
    MulCancel(lo, q + 1, n);
    MulCancel(q, hi + 1, n);
  }

  /**
   * Each channel of the summary lies between bounds that hold for that channel of every
   * colour the histogram actually contains.
   */
  lemma AverageBounds(h: Histogram, c: nat, lo: nat, hi: nat)
    requires c < |Summarise(h)|
    requires forall i :: 0 <= i < |h| && h[i].count > 0 && c < |h[i].color| ==> lo <= h[i].color[c] <= hi
    ensures lo <= Summarise(h)[c] <= hi
  {
    var xs := Expand(h);
    var t := Transpose(xs);
    var col := Channel(xs, c);
    assert t[c] == col;
    forall j | 0 <= j < |col|
      ensures lo <= col[j] <= hi
    {
      var i :| 0 <= i < |h| && h[i].count > 0 && xs[j] == h[i].color;
    }
    SumBounds(col, lo, hi);
    FloorDivBounds(Sum(col), |col|, lo, hi);
  }

  /** Channels in [0, 255] give a summary whose channels are in [0, 255]. */
  lemma AverageInByteRange(h: Histogram)
    requires forall i :: 0 <= i < |h| ==> forall c :: 0 <= c < |h[i].color| ==> h[i].color[c] <= 255
    ensures forall c :: 0 <= c < |Summarise(h)| ==> Summarise(h)[c] <= 255
  {
    forall c | 0 <= c < |Summarise(h)|
      ensures Summarise(h)[c] <= 255
    {
      AverageBounds(h, c, 0, 255);
    }
  }

  /**
   * A histogram of positive total whose colours all have `k` channels summarises to `k`
   * channels; an empty histogram summarises to the empty tuple.
   */
  lemma SummaryArity(h: Histogram, k: nat)
    requires forall i :: 0 <= i < |h| ==> |h[i].color| == k
    ensures |Summarise(h)| == if TotalCount(h) == 0 then 0 else k
  {
    var xs := Expand(h);
    if |xs| > 0 {
      var j := ArityAttained(xs);
      var i :| 0 <= i < |h| && h[i].count > 0 && xs[j] == h[i].color;
    }
  }

  lemma UniformArity(h: Histogram, col: Color)
    requires TotalCount(h) > 0
    requires forall i :: 0 <= i < |h| && h[i].count > 0 ==> h[i].color == col
    ensures |Summarise(h)| == |col|
  {
    var xs := Expand(h);
    var j := ArityAttained(xs);
    var i :| 0 <= i < |h| && h[i].count > 0 && xs[j] == h[i].color;
  }

  /** An icon of one colour `col` (every entry with pixels has that colour) averages to exactly `col`. */
  lemma UniformColor(h: Histogram, col: Color)
    requires TotalCount(h) > 0
    requires forall i :: 0 <= i < |h| && h[i].count > 0 ==> h[i].color == col
    ensures Summarise(h) == col
  {
    UniformArity(h, col);
    var avg := Summarise(h);
    forall c | 0 <= c < |col|
      ensures avg[c] == col[c]
    {
      AverageBounds(h, c, col[c], col[c]);
    }
  }

  // ---------------------------------------------------------------------------
  // image_list

  /** The images of the elements of `xs` that `keep` accepts, in order. */
  function FilterMap<A, B>(xs: seq<A>, keep: A -> bool, f: A -> B): seq<B>
  {
    if |xs| == 0 then []
    else
      var n := |xs| - 1;
      FilterMap(xs[..n], keep, f) + (if keep(xs[n]) then [f(xs[n])] else [])
  }

  /** Positions of the elements of `xs` that `keep` accepts, in order. */
  function KeptIndices<A>(xs: seq<A>, keep: A -> bool): seq<nat>
  {
    if |xs| == 0 then []
    else
      var n := |xs| - 1;
      KeptIndices(xs[..n], keep) + (if keep(xs[n]) then [n] else [])
  }

  lemma {:induction false} KeptIndicesSound<A>(xs: seq<A>, keep: A -> bool)
    ensures |KeptIndices(xs, keep)| <= |xs|
    ensures forall k :: 0 <= k < |KeptIndices(xs, keep)| ==>
              KeptIndices(xs, keep)[k] < |xs| && keep(xs[KeptIndices(xs, keep)[k]])
    ensures forall k, l :: 0 <= k < l < |KeptIndices(xs, keep)| ==>
              KeptIndices(xs, keep)[k] < KeptIndices(xs, keep)[l]
  {
    if |xs| > 0 {
      var n := |xs| - 1;
      var init := xs[..n];
      KeptIndicesSound(init, keep);
      var idx, pre := KeptIndices(xs, keep), KeptIndices(init, keep);
      assert idx[..|pre|] == pre;
      forall k | 0 <= k < |pre|
        ensures idx[k] < n && keep(xs[idx[k]])
      {
        assert idx[k] == pre[k] && xs[pre[k]] == init[pre[k]];
      }
    }
  }

  lemma {:induction false} KeptIndicesComplete<A>(xs: seq<A>, keep: A -> bool)
    ensures forall i :: 0 <= i < |xs| && keep(xs[i]) ==> i in KeptIndices(xs, keep)
  {
    if |xs| > 0 {
      var n := |xs| - 1;
      var init := xs[..n];
      KeptIndicesComplete(init, keep);
      forall i | 0 <= i < n && keep(xs[i])
        ensures i in KeptIndices(xs, keep)
      {
        assert xs[i] == init[i];
      }
    }
  }

  lemma {:induction false} FilterMapAt<A, B>(xs: seq<A>, keep: A -> bool, f: A -> B)
    ensures |FilterMap(xs, keep, f)| == |KeptIndices(xs, keep)|
    ensures forall k :: 0 <= k < |FilterMap(xs, keep, f)| ==>
              KeptIndices(xs, keep)[k] < |xs| && FilterMap(xs, keep, f)[k] == f(xs[KeptIndices(xs, keep)[k]])
  {
    if |xs| > 0 {
      var n := |xs| - 1;
      var init := xs[..n];
      FilterMapAt(init, keep, f);
      var idx, pre := KeptIndices(xs, keep), KeptIndices(init, keep);
      var out, outPre := FilterMap(xs, keep, f), FilterMap(init, keep, f);
      var tail: seq<B>, tailIdx: seq<nat> := if keep(xs[n]) then [f(xs[n])] else [], if keep(xs[n]) then [n] else [];
      assert out == outPre + tail && idx == pre + tailIdx;
      forall k | 0 <= k < |out|
        ensures idx[k] < |xs| && out[k] == f(xs[idx[k]])
      {
        if k < |outPre| {
          assert idx[k] == pre[k] && out[k] == outPre[k] && xs[pre[k]] == init[pre[k]];
        }
      }
    }
  }

  /** The records `image_list` emits for the files of the walk, in walk order. */
  function Collected(files: seq<FileRecord>): seq<IconRecord>
  {
    FilterMap(files, Accepted, Record)
  }

  /**
   * `image_list` is an order-preserving filter-map: record `k` is the record of the
   * `k`-th accepted file, the indices of accepted files increase, and every accepted
   * file appears.
   */
  lemma CollectedIsFilterMap(files: seq<FileRecord>)
    ensures var idx := KeptIndices(files, Accepted);
      |Collected(files)| == |idx| <= |files|
      && (forall k :: 0 <= k < |idx| ==>
            idx[k] < |files| && Accepted(files[idx[k]]) && Collected(files)[k] == Record(files[idx[k]]))
      && (forall k, l :: 0 <= k < l < |idx| ==> idx[k] < idx[l])
      && (forall i :: 0 <= i < |files| && Accepted(files[i]) ==> i in idx)
  {
    KeptIndicesSound(files, Accepted);
    KeptIndicesComplete(files, Accepted);
    FilterMapAt(files, Accepted, Record);
  }

  /** Later files never change the records of earlier ones. */
  lemma {:induction false} CollectedPrefix(files: seq<FileRecord>, more: seq<FileRecord>)
    ensures Collected(files) <= Collected(files + more)
    decreases |more|
  {
    if |more| == 0 {
      assert files + more == files;
    } else {
      var all := files + more;
      var m := more[..|more| - 1];
      assert all[..|all| - 1] == files + m;
      CollectedPrefix(files, m);
    }
  }

  /** A rejected file contributes nothing; an accepted one contributes its own record. */
  lemma CollectedStep(files: seq<FileRecord>, f: FileRecord)
    ensures Collected(files + [f]) == Collected(files) + (if Accepted(f) then [Record(f)] else [])
  {
    assert (files + [f])[..|files|] == files;
  }

  /**
   * `image_list` over the walk's files: the nested loops with `continue` on each rejection,
   * appending one record per accepted file.
   */
  method ImageList(files: seq<FileRecord>) returns (images: seq<IconRecord>)
    ensures images == Collected(files)
  {
    images := [];
    for i := 0 to |files|
      invariant images == Collected(files[..i])
    {
      var f := files[i];
      assert files[..i + 1][..i] == files[..i];
      if SkipByExtension(f.path) { continue; }
      if f.width != 16 || f.height != 16 { continue; }
      if HasTransparentPixel(f.rgba) { continue; }
      if Contains(f.path, "debug") { continue; }
      images := images + [Record(f)];
    }
    assert files[..|files|] == files;
  }
}
