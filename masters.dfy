/** Master bias, dark and flat frames: a fold over the directory listing that
    corrects each qualifying frame, adds it to an all-zero accumulator,
    counts it, and divides the sum by the count at the end. */
module Masters {
  import opened Results
  import opened Grids
  import opened Frames

  /** Which master is being built, with the masters its correction uses. */
  datatype Kind = BiasFrames | DarkFrames(bias: Image) | FlatFrames(bias: Image, dark: Image)

  /** A master argument: a ready array, or the listing to build it from
      (the pipeline's "array or path" arguments). */
  datatype Source = Given(master: Image) | Directory(listing: seq<Entry>)

  datatype Acc = Acc(sum: Image, count: nat)

  /** get_dark's per-frame correction: trim, subtract the bias, and divide
      by the exposure time to get counts per second. */
  function DarkCorrected(f: Frame, bias: Image): (r: Result<Image>)
  {
    var data :- Overscan(f);
    if !SameShape(data, bias) then Err(ShapeMismatch)
    else if f.header.exptime == 0.0 then Err(ZeroExposure)
    else Ok(Scale(Sub(data, bias), f.header.exptime))
  }

  /** get_flat's per-frame correction before normalisation: the dark
      correction, minus the dark master. */
  function FlatCorrected(f: Frame, bias: Image, dark: Image): (r: Result<Image>)
  {
    var rate :- DarkCorrected(f, bias);
    if !SameShape(rate, dark) then Err(ShapeMismatch) else Ok(Sub(rate, dark))
  }

  /** data / np.amin(data). */
  function Normalize(g: Image): (r: Result<Image>)
  {
    if g.rows == 0 || g.cols == 0 then Err(EmptyFrame)
    else
      var m := Minimum(g);
      if m == 0.0 then Err(ZeroMinimum) else Ok(Scale(g, m))
  }

  /** Whether the fold uses an entry: every FITS entry, and for the bias only
      those with an exposure time of exactly 0. */
  predicate Qualifies(k: Kind, e: Entry)
  {
    IsFits(e.name) && (k.BiasFrames? ==> e.frame.header.exptime == 0.0)
  }

  /** What one listing entry adds to the accumulator; None for an entry the
      fold skips.  sigma_clip is the identity here. */
  function Contribution(k: Kind, e: Entry): (r: Result<Option<Image>>)
    ensures r.Ok? && r.value.None? <==> !Qualifies(k, e)
  {
    if !Qualifies(k, e) then Ok(None)
    else match k
      case BiasFrames =>
        var data :- Overscan(e.frame); Ok(Some(data))
      case DarkFrames(bias) =>
        var data :- DarkCorrected(e.frame, bias); Ok(Some(data))
      case FlatFrames(bias, dark) =>
        var data :- FlatCorrected(e.frame, bias, dark);
        var normal :- Normalize(data);
        Ok(Some(normal))
  }

  /** What the loop body does with one entry: skip it, add an image, or fail.
      The fold and its structural lemmas are stated for any such step, so
      that they do not depend on how a particular kind corrects a frame. */
  type Step = Entry -> Result<Option<Image>>

  /** The step of the loop for master kind `k`. */
  function StepOf(k: Kind): Step
  {
    e => Contribution(k, e)
  }

  /** The entries whose step is not a skip, for master kind `k`. */
  function Qualifier(k: Kind): Entry -> bool
  {
    e => Qualifies(k, e)
  }

  /** The loop of get_bias, get_dark and get_flat from accumulator `acc` over
      the remaining `entries`: `master += data; count += 1` per qualifying
      entry; the first failure, or a frame whose shape differs from the
      accumulator's, ends it. */
  function Fold(step: Step, acc: Acc, entries: seq<Entry>): Result<Acc>
    decreases |entries|
  {
    if |entries| == 0 then Ok(acc)
    else match step(entries[0])
      case Err(e) => Err(e)
      case Ok(None) => Fold(step, acc, entries[1..])
      case Ok(Some(data)) =>
        if !SameShape(acc.sum, data) then Err(ShapeMismatch)
        else Fold(step, Acc(Add(acc.sum, data), acc.count + 1), entries[1..])
  }

  /** The master frame: the accumulated sum over the count.  An average of
      no frames is a failure. */
  function Master(k: Kind, listing: seq<Entry>): Result<Image>
  {
    var zero :- EmptyMaster(listing);
    var a :- Fold(StepOf(k), Acc(zero, 0), listing);
    if a.count == 0 then Err(NoQualifyingFrames) else Ok(Scale(a.sum, a.count as real))
  }

  function BiasOf(s: Source): Result<Image>
  {
    match s
    case Given(m) => Ok(m)
    case Directory(l) => Master(BiasFrames, l)
  }

  function DarkOf(s: Source, bias: Image): Result<Image>
  {
    match s
    case Given(m) => Ok(m)
    case Directory(l) => Master(DarkFrames(bias), l)
  }

  function FlatOf(s: Source, bias: Image, dark: Image): Result<Image>
  {
    match s
    case Given(m) => Ok(m)
    case Directory(l) => Master(FlatFrames(bias, dark), l)
  }

  /** get_dark with its bias argument resolved first. */
  function DarkMaster(listing: seq<Entry>, bias: Source): Result<Image>
  {
    var b :- BiasOf(bias);
    Master(DarkFrames(b), listing)
  }

  /** get_flat with its bias and dark arguments resolved first, the dark
      built against the resolved bias. */
  function FlatMaster(listing: seq<Entry>, bias: Source, dark: Source): Result<Image>
  {
    var b :- BiasOf(bias);
    var d :- DarkOf(dark, b);
    Master(FlatFrames(b, d), listing)
  }

  /** One step of the fold, unfolded. */
  lemma FoldFirst(step: Step, acc: Acc, entries: seq<Entry>)
    requires |entries| > 0
    ensures step(entries[0]).Err? ==>
              Fold(step, acc, entries) == Err(step(entries[0]).error)
    ensures step(entries[0]) == Ok(None) ==>
              Fold(step, acc, entries) == Fold(step, acc, entries[1..])
    ensures step(entries[0]).Ok? && step(entries[0]).value.Some? ==>
              var data := step(entries[0]).value.value;
              Fold(step, acc, entries) ==
                if !SameShape(acc.sum, data) then Err(ShapeMismatch)
                else Fold(step, Acc(Add(acc.sum, data), acc.count + 1), entries[1..])
  {
  }

  // ----- the folds as the pipeline runs them -----

  /** The accumulation loop over the listing, starting from `zero`, with
      `step` doing the per-entry work of the loop body. */
  method Accumulate(step: Step, zero: Image, listing: seq<Entry>) returns (r: Result<Acc>)
    ensures r == Fold(step, Acc(zero, 0), listing)
  {
    var master := zero;
    var count := 0;
    var i := 0;
    while i < |listing|
      invariant 0 <= i <= |listing|
      invariant Fold(step, Acc(master, count), listing[i..]) == Fold(step, Acc(zero, 0), listing)
    {
      var e := listing[i];
      FoldFirst(step, Acc(master, count), listing[i..]);
      assert listing[i..][0] == e && listing[i..][1..] == listing[i + 1..];
      match step(e) {
        case Err(err) =>
          return Err(err);
        case Ok(None) =>
        case Ok(Some(data)) =>
          if !SameShape(master, data) {
            return Err(ShapeMismatch);
          }
          master := Add(master, data);
          count := count + 1;
      }
      i := i + 1;
    }
    return Ok(Acc(master, count));
  }

  /** Builds a master of kind `k`: allocate the accumulator, fold, average. */
  method Combine(k: Kind, listing: seq<Entry>) returns (r: Result<Image>)
    ensures r == Master(k, listing)
  {
    var empty := EmptyMaster(listing);
    if empty.Err? {
      return Err(empty.error);
    }
    var acc := Accumulate(StepOf(k), empty.value, listing);
    if acc.Err? {
      return Err(acc.error);
    }
    if acc.value.count == 0 {
      return Err(NoQualifyingFrames);
    }
    return Ok(Scale(acc.value.sum, acc.value.count as real));
  }

  /** get_bias. */
  method GetBias(listing: seq<Entry>) returns (r: Result<Image>)
    ensures r == Master(BiasFrames, listing)
  {
    r := Combine(BiasFrames, listing);
  }

  /** get_dark: a bias given as a listing is built first. */
  method GetDark(listing: seq<Entry>, bias: Source) returns (r: Result<Image>)
    ensures r == DarkMaster(listing, bias)
  {
    var b: Result<Image>;
    match bias {
      case Given(m) => b := Ok(m);
      case Directory(l) => b := GetBias(l);
    }
    if b.Err? {
      return Err(b.error);
    }
    r := Combine(DarkFrames(b.value), listing);
  }

  /** get_flat: a bias given as a listing is built first, then a dark given
      as a listing against that bias. */
  method GetFlat(listing: seq<Entry>, bias: Source, dark: Source) returns (r: Result<Image>)
    ensures r == FlatMaster(listing, bias, dark)
  {
    var b: Result<Image>;
    match bias {
      case Given(m) => b := Ok(m);
      case Directory(l) => b := GetBias(l);
    }
    if b.Err? {
      return Err(b.error);
    }
    var d: Result<Image>;
    match dark {
      case Given(m) => d := Ok(m);
      case Directory(l) => d := GetDark(l, Given(b.value));
    }
    if d.Err? {
      return Err(d.error);
    }
    r := Combine(FlatFrames(b.value, d.value), listing);
  }

  // ----- properties -----

  /** The images the fold adds, in listing order. */
  function Contributions(step: Step, entries: seq<Entry>): Result<seq<Image>>
    decreases |entries|
  {
    if |entries| == 0 then Ok([])
    else match step(entries[0])
      case Err(e) => Err(e)
      case Ok(None) => Contributions(step, entries[1..])
      case Ok(Some(data)) =>
        var rest :- Contributions(step, entries[1..]);
        Ok([data] + rest)
  }

  /** The entries that satisfy `keep`, in listing order. */
  function Filter(keep: Entry -> bool, entries: seq<Entry>): (r: seq<Entry>)
    ensures forall e :: e in r ==> e in entries && keep(e)
    ensures forall e :: e in entries && keep(e) ==> e in r
    ensures |r| <= |entries|
  {
    if |entries| == 0 then []
    else
      var rest := Filter(keep, entries[1..]);
      assert forall e :: e in entries ==> e == entries[0] || e in entries[1..];
      if keep(entries[0]) then [entries[0]] + rest else rest
  }

  /** The entries the fold uses, in listing order. */
  function QualifyingEntries(k: Kind, entries: seq<Entry>): (r: seq<Entry>)
    ensures forall e :: e in r ==> e in entries && Qualifies(k, e)
    ensures forall e :: e in entries && Qualifies(k, e) ==> e in r
  {
    Filter(Qualifier(k), entries)
  }

  predicate AllShaped(cs: seq<Image>, g: Image)
  {
    forall n :: 0 <= n < |cs| ==> SameShape(cs[n], g)
  }

  /** Sum of the pixels at (i, j) over the images `cs`. */
  function PixelSum(cs: seq<Image>, i: nat, j: nat): real
    requires forall n :: 0 <= n < |cs| ==> i < cs[n].rows && j < cs[n].cols
  {
    if |cs| == 0 then 0.0 else cs[0].px[i][j] + PixelSum(cs[1..], i, j)
  }

  /** The fold succeeds exactly when every image the step yields has the
      accumulator's shape; the count then grows by the number of those
      images and every pixel of the sum by their pixels. */
  lemma {:induction false} FoldIsSum(step: Step, acc: Acc, entries: seq<Entry>)
    ensures Fold(step, acc, entries).Ok? <==>
              Contributions(step, entries).Ok? && AllShaped(Contributions(step, entries).value, acc.sum)
    ensures Fold(step, acc, entries).Ok? ==>
              var a := Fold(step, acc, entries).value;
              var cs := Contributions(step, entries).value;
              AllShaped(cs, acc.sum) &&
              a.count == acc.count + |cs| && SameShape(a.sum, acc.sum) &&
              forall i, j :: 0 <= i < acc.sum.rows && 0 <= j < acc.sum.cols ==>
                a.sum.px[i][j] == acc.sum.px[i][j] + PixelSum(cs, i, j)
    decreases |entries|
  {
    if |entries| > 0 {
      var rest := entries[1..];
      match step(entries[0])
      case Err(e) =>
      case Ok(None) =>
        FoldIsSum(step, acc, rest);
      case Ok(Some(data)) =>
        if SameShape(acc.sum, data) {
          var acc' := Acc(Add(acc.sum, data), acc.count + 1);
          FoldIsSum(step, acc', rest);
          if Contributions(step, rest).Ok? {
            var cs' := Contributions(step, rest).value;
            var cs := [data] + cs';
            assert cs[1..] == cs';
            assert AllShaped(cs', acc'.sum) <==> AllShaped(cs, acc.sum) by {
              assert forall n :: 0 < n < |cs| ==> cs[n] == cs'[n - 1];
            }
          }
        } else {
          if Contributions(step, rest).Ok? {
            assert Contributions(step, entries).value[0] == data;
          }
        }
    }
  }

  /** Leaving out entries that the step skips changes nothing. */
  lemma {:induction false} FoldSkips(step: Step, keep: Entry -> bool, acc: Acc, entries: seq<Entry>)
    requires forall e :: !keep(e) ==> step(e) == Ok(None)
    ensures Fold(step, acc, entries) == Fold(step, acc, Filter(keep, entries))
    decreases |entries|
  {
    if |entries| > 0 {
      var q := Filter(keep, entries);
      if keep(entries[0]) {
        assert q[0] == entries[0] && q[1..] == Filter(keep, entries[1..]);
        match step(entries[0])
        case Err(e) =>
        case Ok(o) =>
          if o.Some? && SameShape(acc.sum, o.value) {
            FoldSkips(step, keep, Acc(Add(acc.sum, o.value), acc.count + 1), entries[1..]);
          } else if o.None? {
            FoldSkips(step, keep, acc, entries[1..]);
          }
      } else {
        FoldSkips(step, keep, acc, entries[1..]);
      }
    }
  }

  /** The step for kind `k` skips exactly the entries that do not qualify. */
  lemma StepSkipsUnqualified(k: Kind)
    ensures forall e :: StepOf(k)(e) == Ok(None) <==> !Qualifier(k)(e)
  {
    forall e ensures StepOf(k)(e) == Ok(None) <==> !Qualifier(k)(e) {
      assert StepOf(k)(e) == Contribution(k, e);
      assert Qualifier(k)(e) == Qualifies(k, e);
    }
  }

  /** The fold gives the same result on the qualifying entries alone: an
      entry that is not a FITS file, or (for the bias) has a non-zero
      exposure time, changes neither the sum nor the count. */
  lemma FoldSkipsUnqualified(k: Kind, acc: Acc, entries: seq<Entry>)
    ensures Fold(StepOf(k), acc, entries) == Fold(StepOf(k), acc, QualifyingEntries(k, entries))
  {
    StepSkipsUnqualified(k);
    FoldSkips(StepOf(k), Qualifier(k), acc, entries);
  }

  /** Each entry the step does not skip contributes exactly one image. */
  lemma {:induction false} ContributionsCount(step: Step, keep: Entry -> bool, entries: seq<Entry>)
    requires forall e :: step(e) == Ok(None) <==> !keep(e)
    requires Contributions(step, entries).Ok?
    ensures |Contributions(step, entries).value| == |Filter(keep, entries)|
    decreases |entries|
  {
    if |entries| > 0 {
      ContributionsCount(step, keep, entries[1..]);
    }
  }

  /** The master is the per-pixel average of the contributed images; it
      exists exactly when the accumulator can be built, every qualifying
      entry yields an image of its shape, and there is at least one. */
  lemma MasterIsAverage(k: Kind, listing: seq<Entry>)
    ensures Master(k, listing).Ok? <==>
              EmptyMaster(listing).Ok? && Contributions(StepOf(k), listing).Ok? &&
              |Contributions(StepOf(k), listing).value| > 0 &&
              AllShaped(Contributions(StepOf(k), listing).value, EmptyMaster(listing).value)
    ensures Master(k, listing).Ok? ==>
              var m := Master(k, listing).value;
              var cs := Contributions(StepOf(k), listing).value;
              AllShaped(cs, m) && |cs| > 0 && |cs| == |QualifyingEntries(k, listing)| &&
              forall i, j :: 0 <= i < m.rows && 0 <= j < m.cols ==>
                m.px[i][j] == PixelSum(cs, i, j) / |cs| as real
  {
    if EmptyMaster(listing).Ok? {
      var zero := EmptyMaster(listing).value;
      FoldIsSum(StepOf(k), Acc(zero, 0), listing);
      if Contributions(StepOf(k), listing).Ok? {
        StepSkipsUnqualified(k);
        ContributionsCount(StepOf(k), Qualifier(k), listing);
      }
    }
  }

  /** A sum of images that are all `v` at (i, j) is their number times `v`. */
  lemma {:induction false} PixelSumOfEqual(cs: seq<Image>, i: nat, j: nat, v: real)
    requires forall n :: 0 <= n < |cs| ==> i < cs[n].rows && j < cs[n].cols && cs[n].px[i][j] == v
    ensures PixelSum(cs, i, j) == |cs| as real * v
    decreases |cs|
  {
    if |cs| > 0 {
      PixelSumOfEqual(cs[1..], i, j, v);
    }
  }

  /** Averaging frames that are all uniformly `v` gives a master that is
      uniformly `v`. */
  lemma MasterOfUniform(k: Kind, listing: seq<Entry>, v: real)
    requires Master(k, listing).Ok? && Contributions(StepOf(k), listing).Ok?
    requires forall n :: 0 <= n < |Contributions(StepOf(k), listing).value| ==>
               Uniform(Contributions(StepOf(k), listing).value[n], v)
    ensures Uniform(Master(k, listing).value, v)
  {
    MasterIsAverage(k, listing);
    AverageOfUniform(Master(k, listing).value, Contributions(StepOf(k), listing).value, v);
  }

  /** An image that is the pixel-wise mean of images all uniformly `v` is
      uniformly `v`. */
  lemma AverageOfUniform(m: Image, cs: seq<Image>, v: real)
    requires AllShaped(cs, m) && |cs| > 0
    requires forall n :: 0 <= n < |cs| ==> Uniform(cs[n], v)
    requires forall i, j :: 0 <= i < m.rows && 0 <= j < m.cols ==> m.px[i][j] == PixelSum(cs, i, j) / |cs| as real
    ensures Uniform(m, v)
  {
    forall i, j | 0 <= i < m.rows && 0 <= j < m.cols ensures m.px[i][j] == v {
      assert forall n :: 0 <= n < |cs| ==> i < cs[n].rows && j < cs[n].cols && cs[n].px[i][j] == v;
      MeanOfEqual(cs, i, j, v);
    }
  }

  /** The mean at (i, j) of images that all hold `v` there is `v`. */
  lemma MeanOfEqual(cs: seq<Image>, i: nat, j: nat, v: real)
    requires |cs| > 0
    requires forall n :: 0 <= n < |cs| ==> i < cs[n].rows && j < cs[n].cols && cs[n].px[i][j] == v
    ensures PixelSum(cs, i, j) / |cs| as real == v
  {
    PixelSumOfEqual(cs, i, j, v);
    MulDivCancel(|cs| as real, v);
  }

  /** get_dark's correction in terms of the raw frame: it fails exactly on
      a frame with too few rows, a trimmed shape unlike the bias, or a zero
      exposure time, and otherwise gives (raw - bias) / EXPTIME per pixel. */
  lemma DarkRate(f: Frame, bias: Image)
    ensures DarkCorrected(f, bias).Ok? <==>
              f.data.rows >= 2 && SameShape(Overscan(f).value, bias) && f.header.exptime != 0.0
    ensures DarkCorrected(f, bias).Ok? ==>
              var c := DarkCorrected(f, bias).value;
              SameShape(c, bias) &&
              forall i, j :: 0 <= i < c.rows && 0 <= j < c.cols ==>
                c.px[i][j] == (f.data.px[i][j] - bias.px[i][j]) / f.header.exptime
  {
  }

  /** A bias of 100 everywhere and a raw dark of 160 everywhere exposed for
      60 seconds give a rate of 1.0 everywhere. */
  lemma DarkRateExample(f: Frame, bias: Image)
    requires f.data.rows >= 2 && SameShape(Overscan(f).value, bias)
    requires Uniform(f.data, 160.0) && Uniform(bias, 100.0) && f.header.exptime == 60.0
    ensures DarkCorrected(f, bias).Ok? && Uniform(DarkCorrected(f, bias).value, 1.0)
  {
    DarkRate(f, bias);
  }

  /** Dividing by its own minimum pins a frame's minimal pixel to exactly 1;
      when that minimum is positive no pixel ends up below 1. */
  lemma NormalizePinsMinimum(g: Image)
    ensures Normalize(g).Ok? <==> g.rows > 0 && g.cols > 0 && Minimum(g) != 0.0
    ensures Normalize(g).Ok? ==>
              var n := Normalize(g).value;
              SameShape(n, g) &&
              (exists i, j :: 0 <= i < n.rows && 0 <= j < n.cols && n.px[i][j] == 1.0) &&
              (Minimum(g) > 0.0 ==> forall i, j :: 0 <= i < n.rows && 0 <= j < n.cols ==> n.px[i][j] >= 1.0)
  {
    if g.rows > 0 && g.cols > 0 && Minimum(g) != 0.0 {
      var m := Minimum(g);
      var n := Scale(g, m);
      assert Normalize(g) == Ok(n);
      var i, j :| 0 <= i < g.rows && 0 <= j < g.cols && m == g.px[i][j];
      assert n.px[i][j] == m / m;
      DivSelf(m);
      if m > 0.0 {
        forall i, j | 0 <= i < n.rows && 0 <= j < n.cols ensures n.px[i][j] >= 1.0 {
          assert n.px[i][j] == g.px[i][j] / m;
          QuotientAtLeastOne(g.px[i][j], m);
        }
      }
    }
  }

  lemma MulDivCancel(s: real, v: real)
    requires s != 0.0
    ensures s * v / s == v
  {
  }

  lemma DivSelf(c: real)
    requires c != 0.0
    ensures c / c == 1.0
  {
  }

  lemma QuotientAtLeastOne(x: real, m: real)
    requires 0.0 < m <= x
    ensures x / m >= 1.0
  {
  }

  /** A corrected flat that is uniformly non-zero normalises to uniformly 1. */
  lemma NormalizeUniform(g: Image, c: real)
    requires g.rows > 0 && g.cols > 0 && c != 0.0 && Uniform(g, c)
    ensures Normalize(g).Ok? && Uniform(Normalize(g).value, 1.0)
  {
    var i, j :| 0 <= i < g.rows && 0 <= j < g.cols && Minimum(g) == g.px[i][j];
    assert Minimum(g) == c;
    var n := Scale(g, c);
    assert Normalize(g) == Ok(n);
    forall i, j | 0 <= i < n.rows && 0 <= j < n.cols ensures n.px[i][j] == 1.0 {
      assert n.px[i][j] == g.px[i][j] / c;
      DivSelf(c);
    }
  }
}
