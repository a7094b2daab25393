/**
 * The frame loop of create_movie_from_vtk: walk the sorted snapshot files
 * with a 0-based index, keep every stride-th one, where the stride is
 * round(60 / fps), and collect one image name per kept snapshot. Rendering,
 * screenshots and video encoding are left to external libraries; the model
 * records which snapshot goes into which image and in what order.
 */
module Movie {
  import opened Wrappers
  import opened PathNames
  import opened PyText
  import opened SortedFiles

  /** The capture rate, in snapshots per second, the stride assumes. */
  const CaptureRate: nat := 60

  /** Digits the image index is padded to. */
  const IndexWidth: nat := 5

  /** Python's round(n / d) for d > 0: the nearest integer, ties to the even one. */
  function RoundHalfEven(n: nat, d: nat): (q: nat)
    requires d > 0
  {
    var q, r := n / d, n % d;
    if 2 * r < d then q
    else if 2 * r > d then q + 1
    else if q % 2 == 0 then q else q + 1
  }

  /** The rounded quotient is within half a step of n / d, and even on a tie. */
  lemma RoundHalfEvenNearest(n: nat, d: nat)
    requires d > 0
    ensures var q := RoundHalfEven(n, d); var e := 2 * n - 2 * (q * d);
      -(d as int) <= e <= d && (e == d || e == -(d as int) ==> q % 2 == 0)
  {
    var q, r := n / d, n % d;
    assert n == q * d + r;
    assert (q + 1) * d == q * d + d;
  }

  /** No other integer is as near to n / d under the same tie rule. */
  lemma RoundHalfEvenUnique(n: nat, d: nat, m: int)
    requires d > 0
    requires var f := 2 * n - 2 * (m * d);
      -(d as int) < f < d || ((f == d || f == -(d as int)) && m % 2 == 0)
    ensures m == RoundHalfEven(n, d)
  {
    RoundHalfEvenNearest(n, d);
    NearestEvenUnique(n, d, RoundHalfEven(n, d), m);
  }

  /** Two integers that are both nearest to n / d, ties going to the even one, are equal. */
  lemma NearestEvenUnique(n: int, d: int, q: int, m: int)
    requires d > 0
    requires var e := 2 * n - 2 * (q * d); -d <= e <= d && (e == d || e == -d ==> q % 2 == 0)
    requires var f := 2 * n - 2 * (m * d); -d < f < d || ((f == d || f == -d) && m % 2 == 0)
    ensures m == q
  {
    if m > q {
      ProductGap(m, q, d);
      assert false;
    } else if m < q {
      ProductGap(q, m, d);
      assert false;
    }
  }

  /** Between k * d and j * d for k > j lies at least one step d, two when k > j + 1. */
  lemma ProductGap(k: int, j: int, d: int)
    requires d > 0 && k > j
    ensures k * d >= j * d + d
    ensures k > j + 1 ==> k * d >= j * d + 2 * d
  {
    MulAtLeast(k, j + 1, d);
    assert (j + 1) * d == j * d + d;
    if k > j + 1 {
      MulAtLeast(k, j + 2, d);
      assert (j + 2) * d == j * d + 2 * d;
    }
  }

  lemma MulAtLeast(k: int, j: int, d: int)
    requires d >= 0 && k >= j
    ensures k * d >= j * d
  {
    assert k * d == j * d + (k - j) * d;
  }

  /** int(round(60 / fps)); dividing by a zero fps raises ZeroDivisionError. */
  function Stride(fps: int): (r: Result<int, Failure>)
    ensures r.Err? <==> fps == 0
    ensures r.Err? ==> r.error == ZeroDivision
  {
    if fps == 0 then Err(ZeroDivision)
    else if fps > 0 then Ok(RoundHalfEven(CaptureRate, fps))
    else Ok(-(RoundHalfEven(CaptureRate, -fps) as int))
  }

  /** The stride for the usual frame rates: 60 keeps every snapshot, 10 every sixth. */
  lemma StrideOfCommonRates()
    ensures Stride(60) == Ok(1) && Stride(30) == Ok(2) && Stride(24) == Ok(2)
    ensures Stride(10) == Ok(6) && Stride(8) == Ok(8) && Stride(40) == Ok(2)
  {
  }

  /**
   * For either sign of fps the stride is the integer nearest to 60 / fps,
   * ties going to the even one: |60 / fps - stride| <= 1/2, scaled by 2 * |fps|.
   */
  lemma StrideNearest(fps: int)
    requires fps != 0
    ensures var s, d := Stride(fps).value, Abs(fps);
      var e := 2 * CaptureRate - 2 * (s * fps);
      -d <= e <= d && (e == d || e == -d ==> s % 2 == 0)
  {
    var d := Abs(fps);
    RoundHalfEvenNearest(CaptureRate, d);
    var q := RoundHalfEven(CaptureRate, d);
    if fps < 0 {
      assert Stride(fps).value == -(q as int);
      assert Stride(fps).value * fps == q * d by {
        assert d == -fps;
        NegateBoth(q, d);
      }
    }
  }

  /** No other integer is as near to 60 / fps under the same tie rule. */
  lemma StrideUnique(fps: int, m: int)
    requires fps != 0
    requires var d := Abs(fps); var f := 2 * CaptureRate - 2 * (m * fps);
      -d < f < d || ((f == d || f == -d) && m % 2 == 0)
    ensures Stride(fps) == Ok(m)
  {
    var d := Abs(fps);
    var q := RoundHalfEven(CaptureRate, d);
    RoundHalfEvenNearest(CaptureRate, d);
    if fps > 0 {
      NearestEvenUnique(CaptureRate, d, q, m);
    } else {
      assert (-m) * d == m * fps by {
        assert d == -fps;
        NegateBoth(m, fps);
      }
      assert m % 2 == 0 ==> (-m) % 2 == 0;
      NearestEvenUnique(CaptureRate, d, q, -m);
      assert Stride(fps) == Ok(-(q as int));
    }
  }

  lemma NegateBoth(a: int, b: int)
    ensures (-a) * (-b) == a * b
  {
  }

  function Abs(x: int): (a: int)
    ensures a >= 0 && (a == x || a == -x)
  {
    if x < 0 then -x else x
  }

  /** From 120 frames per second on, in either direction, the stride rounds to 0. */
  lemma StrideVanishes(fps: int)
    requires fps >= 120 || fps <= -120
    ensures Stride(fps) == Ok(0)
  {
  }

  /**
   * The positions below n that the loop keeps: those where index % stride == 0.
   * Python's % takes the sign of the divisor and Dafny's is never negative,
   * but both are 0 exactly when the stride divides the index.
   */
  function SampledPositions(n: nat, stride: int): seq<nat>
    requires stride != 0
  {
    if n == 0 then []
    else SampledPositions(n - 1, stride) + (if (n - 1) % stride == 0 then [n - 1] else [])
  }

  /** A position is sampled exactly when it is below n and a multiple of the stride; positions increase. */
  lemma {:induction false} SampledPositionsExact(n: nat, stride: int)
    requires stride != 0
    ensures forall i :: i in SampledPositions(n, stride) <==> 0 <= i < n && i % stride == 0
    ensures forall a, b :: 0 <= a < b < |SampledPositions(n, stride)| ==>
      SampledPositions(n, stride)[a] < SampledPositions(n, stride)[b]
  {
    if n > 0 {
      SampledPositionsExact(n - 1, stride);
      var before := SampledPositions(n - 1, stride);
      var added: seq<nat> := if (n - 1) % stride == 0 then [n - 1] else [];
      assert SampledPositions(n, stride) == before + added;
      assert forall i :: i in before + added <==> i in before || i in added;
      assert forall a :: 0 <= a < |before| ==> before[a] in before;
    }
  }

  /** Division by s of q * s + t with 0 <= t < s. */
  lemma DivUnique(x: int, s: int, q: int, t: int)
    requires s >= 1 && 0 <= t < s && x == q * s + t
    ensures x / s == q && x % s == t
  {
    var q', t' := x / s, x % s;
    assert x == q' * s + t';
    if q' > q {
      MulAtLeast(q', q + 1, s);
      assert false;
    } else if q' < q {
      MulAtLeast(q, q' + 1, s);
      assert false;
    }
  }

  /**
   * For a positive stride s the kept positions are 0, s, 2s, ... and there
   * are ceil(n / s) of them.
   */
  lemma {:induction false} SampledPositionsArithmetic(n: nat, s: int)
    requires s >= 1
    ensures forall k :: 0 <= k < |SampledPositions(n, s)| ==> SampledPositions(n, s)[k] == k * s
    ensures |SampledPositions(n, s)| == (n + s - 1) / s
  {
    if n == 0 {
      DivUnique(s - 1, s, 0, s - 1);
    } else {
      var m := n - 1;
      var before := SampledPositions(m, s);
      SampledPositionsArithmetic(m, s);
      var q, r := m / s, m % s;
      assert m == q * s + r;
      assert (q + 1) * s == q * s + s;
      DivUnique(n + s - 1, s, q + 1, r);
      if r == 0 {
        DivUnique(m + s - 1, s, q, s - 1);
        assert SampledPositions(n, s) == before + [m];
      } else {
        DivUnique(m + s - 1, s, q + 1, r - 1);
        assert SampledPositions(n, s) == before;
      }
    }
  }

  /** A negative stride samples the same positions as its absolute value. */
  lemma {:induction false} SampledPositionsNegative(n: nat, s: int)
    requires s >= 1
    ensures SampledPositions(n, -s) == SampledPositions(n, s)
  {
    if n > 0 {
      SampledPositionsNegative(n - 1, s);
      var m := n - 1;
      var q, r := m / s, m % s;
      assert m == q * s + r;
      assert m == (-q) * (-s) + r;
      assert m % (-s) == r;
    }
  }

  /** "frame_" + str(index).zfill(5) + ".png", the image name of one frame. */
  function FrameName(index: nat): (name: string)
    ensures |name| == |"frame_"| + |ZFill(Decimal(index), IndexWidth)| + |".png"|
    ensures |ZFill(Decimal(index), IndexWidth)| >= IndexWidth && |ZFill(Decimal(index), IndexWidth)| >= |Decimal(index)|
  {
    "frame_" + ZFill(Decimal(index), IndexWidth) + ".png"
  }

  /** The padded index is all digits, at least five of them, and worth the index itself. */
  lemma FrameDigits(index: nat)
    ensures var z := ZFill(Decimal(index), IndexWidth);
      |z| >= IndexWidth && AllDigits(z) && DigitsValue(z) == index
  {
    var d := Decimal(index);
    if |d| < IndexWidth {
      LeadingZeros(IndexWidth - |d|, d);
    }
  }

  /**
   * The sorter reads every image name back: suffix ".png", key the index.
   * So distinct indices give distinct image names.
   */
  lemma FrameNameKey(index: nat)
    ensures Suffix(FrameName(index)) == ".png"
    ensures KeyOf(FrameName(index), "_") == Ok(index)
  {
    FrameDigits(index);
    var z := ZFill(Decimal(index), IndexWidth);
    var ext := ".png";
    assert forall j :: 1 <= j < |ext| ==> ext[j] != '.';
    assert FrameName(index) == "frame" + "_" + z + ext;
    KeyOfDigits("frame", z, ext);
  }

  lemma FrameNameInjective(i: nat, j: nat)
    requires FrameName(i) == FrameName(j)
    ensures i == j
  {
    FrameNameKey(i);
    FrameNameKey(j);
  }

  /**
   * Below 100000 the image names sort alphabetically in index order, so the
   * images read in name order are in time order.
   */
  lemma FrameNamesAlphabetical(i: nat, j: nat)
    requires i < j < Pow10(IndexWidth)
    ensures LexLess(FrameName(i), FrameName(j))
  {
    var zi, zj := ZFill(Decimal(i), IndexWidth), ZFill(Decimal(j), IndexWidth);
    PaddedIndexOrder(i, j);
    LexLessAppend(zi, zj, ".png", ".png");
    LexLessPrefix("frame_", zi + ".png", zj + ".png");
    assert FrameName(i) == "frame_" + (zi + ".png");
    assert FrameName(j) == "frame_" + (zj + ".png");
  }

  /** Below 100000 the padded indices all have five digits, and a smaller index is the smaller text. */
  lemma PaddedIndexOrder(i: nat, j: nat)
    requires i < j < Pow10(IndexWidth)
    ensures var zi, zj := ZFill(Decimal(i), IndexWidth), ZFill(Decimal(j), IndexWidth);
      |zi| == |zj| == IndexWidth && LexLess(zi, zj)
  {
    DecimalLength(i, IndexWidth);
    DecimalLength(j, IndexWidth);
    FrameDigits(i);
    FrameDigits(j);
    LexLessDigits(ZFill(Decimal(i), IndexWidth), ZFill(Decimal(j), IndexWidth));
  }

  /** What the loop collects: each image name and the snapshot rendered into it. */
  datatype Rendering = Rendering(frames: seq<string>, snapshots: seq<string>)

  /**
   * The positions the loop renders, or the exception it raises: none when
   * there are no files (the stride is only computed inside the loop),
   * ZeroDivisionError for fps == 0 or a stride that rounds to 0.
   */
  function Sampled(files: seq<string>, fps: int): (r: Result<seq<nat>, Failure>)
    ensures r.Err? ==> r.error == ZeroDivision
    ensures r.Err? <==> files != [] && (fps == 0 || Stride(fps).value == 0)
    ensures r.Ok? ==> forall i :: i in r.value <==> 0 <= i < |files| && i % Stride(fps).value == 0
  {
    if files == [] then Ok([])
    else
      match Stride(fps)
      case Err(e) => Err(e)
      case Ok(s) =>
        if s == 0 then Err(ZeroDivision)
        else SampledPositionsExact(|files|, s); Ok(SampledPositions(|files|, s))
  }

  /** `r` is what the loop yields on `files` at `fps`. */
  ghost predicate RendersAs(files: seq<string>, fps: int, r: Result<Rendering, Failure>)
  {
    match Sampled(files, fps)
    case Err(e) => r == Err(e)
    case Ok(ps) =>
      r.Ok? && |r.value.frames| == |ps| && |r.value.snapshots| == |ps| &&
      forall k :: 0 <= k < |ps| ==>
        ps[k] < |files| && r.value.frames[k] == FrameName(ps[k]) && r.value.snapshots[k] == files[ps[k]]
  }

  /** The sampling loop of create_movie_from_vtk over already sorted files. */
  method CollectFrames(files: seq<string>, fps: int) returns (r: Result<Rendering, Failure>)
    ensures RendersAs(files, fps, r)
  {
    var frames: seq<string> := [];
    var snapshots: seq<string> := [];
    var index := 0;
    while index < |files|
      invariant 0 <= index <= |files|
      invariant index == 0 ==> frames == [] && snapshots == []
      invariant index > 0 ==> Stride(fps).Ok? && Stride(fps).value != 0
      invariant index > 0 ==>
        var ps := SampledPositions(index, Stride(fps).value);
        |frames| == |ps| && |snapshots| == |ps| &&
        forall k :: 0 <= k < |ps| ==> ps[k] < index && frames[k] == FrameName(ps[k]) && snapshots[k] == files[ps[k]]
    {
      var stride := Stride(fps);
      if stride.Err? {
        return Err(stride.error);
      }
      if stride.value == 0 {
        return Err(ZeroDivision);
      }
      if index % stride.value == 0 {
        frames := frames + [FrameName(index)];
        snapshots := snapshots + [files[index]];
      }
      index := index + 1;
    }
    r := Ok(Rendering(frames, snapshots));
  }

  /**
   * create_movie_from_vtk without rendering and encoding: sort the ".vtk"
   * files of the directory on "_"-separated keys, then run the sampling loop.
   * A sorting failure surfaces before any frame is considered.
   */
  method CreateMovieFromVtk(vtkOutputDir: string, listing: Option<seq<string>>, fps: int)
    returns (r: Result<Rendering, Failure>)
    ensures GetSortedFiles(vtkOutputDir, listing, ".vtk", "_").Err? ==>
      r == Err(GetSortedFiles(vtkOutputDir, listing, ".vtk", "_").error)
    ensures GetSortedFiles(vtkOutputDir, listing, ".vtk", "_").Ok? ==>
      RendersAs(GetSortedFiles(vtkOutputDir, listing, ".vtk", "_").value, fps, r)
  {
    var vtkFiles := GetSortedFiles(vtkOutputDir, listing, ".vtk", "_");
    if vtkFiles.Err? {
      return Err(vtkFiles.error);
    }
    r := CollectFrames(vtkFiles.value, fps);
  }

  /** At 60 frames per second every file becomes a frame, in order. */
  lemma EveryFileAtSixty(files: seq<string>)
    ensures Sampled(files, 60) == Ok(seq(|files|, i => i))
  {
    if files != [] {
      assert Stride(60) == Ok(1);
      SampledPositionsArithmetic(|files|, 1);
      assert SampledPositions(|files|, 1) == seq(|files|, i => i);
    } else {
      assert seq(|files|, i => i) == [];
    }
  }

  /** 100 files at 10 frames per second: 17 frames, from positions 0, 6, ..., 96. */
  lemma HundredFilesAtTen(files: seq<string>)
    requires |files| == 100
    ensures Sampled(files, 10).Ok? && |Sampled(files, 10).value| == 17
    ensures forall k :: 0 <= k < 17 ==> Sampled(files, 10).value[k] == 6 * k
  {
    assert Stride(10) == Ok(6);
    SampledPositionsArithmetic(100, 6);
  }

  /**
   * Frames are in file order: the sorter reads back from each image name the
   * position of its snapshot, and those positions strictly increase.
   */
  lemma FramesInFileOrder(files: seq<string>, fps: int, r: Result<Rendering, Failure>)
    requires RendersAs(files, fps, r) && r.Ok?
    ensures Sampled(files, fps).Ok? && |Sampled(files, fps).value| == |r.value.frames|
    ensures forall k :: 0 <= k < |r.value.frames| ==>
      KeyOf(r.value.frames[k], "_") == Ok(Sampled(files, fps).value[k] as int)
    ensures forall a, b :: 0 <= a < b < |r.value.frames| ==>
      Sampled(files, fps).value[a] < Sampled(files, fps).value[b]
  {
    if files != [] {
      var ps := SampledPositions(|files|, Stride(fps).value);
      assert Sampled(files, fps) == Ok(ps);
      SampledPositionsExact(|files|, Stride(fps).value);
      forall k | 0 <= k < |r.value.frames|
        ensures KeyOf(r.value.frames[k], "_") == Ok(ps[k] as int)
      {
        FrameNameKey(ps[k]);
      }
    } else {
      assert Sampled(files, fps) == Ok([]);
    }
  }

  /** With at most 100000 files the image names are also in alphabetical order. */
  lemma FramesAlphabetical(files: seq<string>, fps: int, r: Result<Rendering, Failure>)
    requires RendersAs(files, fps, r) && r.Ok?
    requires |files| <= Pow10(IndexWidth)
    ensures forall a, b :: 0 <= a < b < |r.value.frames| ==> LexLess(r.value.frames[a], r.value.frames[b])
  {
    if files != [] {
      var ps := SampledPositions(|files|, Stride(fps).value);
      assert Sampled(files, fps) == Ok(ps);
      SampledPositionsExact(|files|, Stride(fps).value);
      forall a, b | 0 <= a < b < |r.value.frames|
        ensures LexLess(r.value.frames[a], r.value.frames[b])
      {
        FrameNamesAlphabetical(ps[a], ps[b]);
      }
    } else {
      assert Sampled(files, fps) == Ok([]);
    }
  }
}
