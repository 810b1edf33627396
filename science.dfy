/** `get_science`: every FITS frame of the science listing trimmed, calibrated
    against the three masters as ((data - bias) / EXPTIME - dark) / flat,
    cleaned by remove_lines with its default limits, and collected with its
    file name, the number it would be saved under and its CRDER2S value. */
module Science {
  import opened Results
  import opened Grids
  import opened Frames
  import opened Masters
  import opened Lines

  /** One reduced science frame: the file it came from, the cleaned image,
      the counter of its Sci_<n>.fits file and the value written to that
      file's ERROR keyword. */
  datatype Reduced = Reduced(file: string, image: Image, index: nat, error: real)

  /** (((data - bias) / time) - dark) / flat for one frame, with the shape
      and division checks in the order numpy meets them. */
  function Calibrate(f: Frame, bias: Image, dark: Image, flat: Image): (r: Result<Image>)
  {
    var s :- FlatCorrected(f, bias, dark);
    if !SameShape(s, flat) then Err(ShapeMismatch)
    else if !NoZero(flat) then Err(ZeroFlatPixel)
    else Ok(Divide(s, flat))
  }

  /** One science frame calibrated and cleaned; remove_lines cannot take a
      percentile of an image without columns. */
  function Reduce(f: Frame, bias: Image, dark: Image, flat: Image): (r: Result<Image>)
  {
    var s :- Calibrate(f, bias, dark, flat);
    if s.cols == 0 then Err(EmptyProfile) else Ok(Cleaned(s, MaxLim, MinLim))
  }

  /** The per-frame work of get_science against the given masters. */
  function Reducer(bias: Image, dark: Image, flat: Image): Frame -> Result<Image>
  {
    f => Reduce(f, bias, dark, flat)
  }

  /** The loop of get_science from the frames reduced so far and the next
      save counter over the remaining entries, each FITS frame reduced by
      `step`; the first failure ends it. */
  function ScienceFold(done: seq<Reduced>, count: nat, entries: seq<Entry>,
                       step: Frame -> Result<Image>): Result<seq<Reduced>>
    decreases |entries|
  {
    if |entries| == 0 then Ok(done)
    else
      var e := entries[0];
      if !IsFits(e.name) then ScienceFold(done, count, entries[1..], step)
      else match step(e.frame)
        case Err(err) => Err(err)
        case Ok(img) =>
          ScienceFold(done + [Reduced(e.name, img, count, e.frame.header.crder2s)], count + 1,
                      entries[1..], step)
  }

  /** get_science with its master arguments resolved as it resolves them:
      the bias first, the dark against that bias, the flat against both. */
  function ScienceOf(listing: seq<Entry>, bias: Source, dark: Source, flat: Source): Result<seq<Reduced>>
  {
    var b :- BiasOf(bias);
    var d :- DarkOf(dark, b);
    var fl :- FlatOf(flat, b, d);
    ScienceFold([], 1, listing, Reducer(b, d, fl))
  }

  /** get_science. */
  method GetScience(listing: seq<Entry>, bias: Source, dark: Source, flat: Source)
    returns (r: Result<seq<Reduced>>)
    ensures r == ScienceOf(listing, bias, dark, flat)
  {
    var b: Result<Image>;
    match bias {
      case Given(m) => b := Ok(m);
      case Directory(l) => b := GetBias(l);
    }
    if b.Err? {
      return Err(b.error);
    }
    var d: Result<Image>;
    match dark {
      case Given(m) => d := Ok(m);
      case Directory(l) => d := GetDark(l, Given(b.value));
    }
    if d.Err? {
      return Err(d.error);
    }
    var fl: Result<Image>;
    match flat {
      case Given(m) => fl := Ok(m);
      case Directory(l) => fl := GetFlat(l, Given(b.value), Given(d.value));
    }
    if fl.Err? {
      return Err(fl.error);
    }
    ghost var step := Reducer(b.value, d.value, fl.value);
    var reduced: seq<Reduced> := [];
    var count: nat := 1;
    for i := 0 to |listing|
      invariant ScienceFold(reduced, count, listing[i..], step) == ScienceFold([], 1, listing, step)
    {
      var e := listing[i];
      assert listing[i..][0] == e && listing[i..][1..] == listing[i + 1..];
      if IsFits(e.name) {
        var data := Calibrate(e.frame, b.value, d.value, fl.value);
        if data.Err? {
          return Err(data.error);
        }
        if data.value.cols == 0 {
          return Err(EmptyProfile);
        }
        var cleaned := RemoveLines(data.value, MaxLim, MinLim);
        reduced := reduced + [Reduced(e.name, cleaned, count, e.frame.header.crder2s)];
        count := count + 1;
      }
    }
    assert listing[|listing|..] == [];
    r := Ok(reduced);
  }

  // ----- properties -----

  /** The FITS entries of a listing, in listing order. */
  function FitsEntries(entries: seq<Entry>): (r: seq<Entry>)
    ensures forall e :: e in r <==> e in entries && IsFits(e.name)
    ensures |r| <= |entries|
  {
    Filter(FitsTest(), entries)
  }

  /** The `'fits' in file` test, as a predicate on entries. */
  function FitsTest(): Entry -> bool
  {
    (e: Entry) => IsFits(e.name)
  }

  /** Reference definition of the records of a listing, from the front:
      one record per FITS entry, numbered on from `count`, its image given
      by `step`. */
  function Records(entries: seq<Entry>, count: nat, step: Frame -> Result<Image>): Result<seq<Reduced>>
    decreases |entries|
  {
    if |entries| == 0 then Ok([])
    else
      var e := entries[0];
      if !IsFits(e.name) then Records(entries[1..], count, step)
      else
        var img :- step(e.frame);
        var rest :- Records(entries[1..], count + 1, step);
        Ok([Reduced(e.name, img, count, e.frame.header.crder2s)] + rest)
  }

  /** The loop's fold appends the reference records, with the same step,
      to what it has done, or fails as they do. */
  lemma {:induction false} ScienceFoldIsRecords(done: seq<Reduced>, count: nat, entries: seq<Entry>,
                                                step: Frame -> Result<Image>)
    ensures ScienceFold(done, count, entries, step) ==
      match Records(entries, count, step)
      case Ok(rs) => Ok(done + rs)
      case Err(err) => Err(err)
    decreases |entries|
  {
    if |entries| == 0 {
      assert done + [] == done;
    } else {
      var e := entries[0];
      var rest := entries[1..];
      if IsFits(e.name) {
        var red := step(e.frame);
        if red.Ok? {
          var rec := Reduced(e.name, red.value, count, e.frame.header.crder2s);
          ScienceFoldIsRecords(done + [rec], count + 1, rest, step);
          var tail := Records(rest, count + 1, step);
          if tail.Ok? {
            assert done + [rec] + tail.value == done + ([rec] + tail.value);
          }
        }
      } else {
        ScienceFoldIsRecords(done, count, rest, step);
      }
    }
  }

  /** The records exist exactly when the step succeeds on every FITS entry. */
  lemma {:induction false} RecordsOk(entries: seq<Entry>, count: nat, step: Frame -> Result<Image>)
    ensures Records(entries, count, step).Ok? <==>
      forall e :: e in FitsEntries(entries) ==> step(e.frame).Ok?
    decreases |entries|
  {
    if |entries| > 0 {
      var e := entries[0];
      var rest := entries[1..];
      if IsFits(e.name) {
        assert FitsEntries(entries) == [e] + FitsEntries(rest);
        RecordsOk(rest, count + 1, step);
      } else {
        assert FitsEntries(entries) == FitsEntries(rest);
        RecordsOk(rest, count, step);
      }
    }
  }

  /** A successful record list over a listing that starts with a FITS entry
      starts with that entry's record. */
  lemma RecordsFirst(entries: seq<Entry>, count: nat, step: Frame -> Result<Image>)
    requires |entries| > 0 && IsFits(entries[0].name) && Records(entries, count, step).Ok?
    ensures step(entries[0].frame).Ok? && Records(entries[1..], count + 1, step).Ok?
    ensures Records(entries, count, step).value ==
              [Reduced(entries[0].name, step(entries[0].frame).value, count, entries[0].frame.header.crder2s)] +
              Records(entries[1..], count + 1, step).value
  {
  }

  /** Records numbered from count + 1 for `fr`, behind the record of `e`
      numbered count, are numbered from count for `[e] + fr`. */
  lemma NumberedCons(e: Entry, fr: seq<Entry>, tail: seq<Reduced>, count: nat, step: Frame -> Result<Image>)
    requires step(e.frame).Ok?
    requires |tail| == |fr|
    requires forall k :: 0 <= k < |fr| ==>
      step(fr[k].frame).Ok? &&
      tail[k] == Reduced(fr[k].name, step(fr[k].frame).value, count + 1 + k, fr[k].frame.header.crder2s)
    ensures
      var fe := [e] + fr;
      var rs := [Reduced(e.name, step(e.frame).value, count, e.frame.header.crder2s)] + tail;
      forall k :: 0 <= k < |fe| ==>
        step(fe[k].frame).Ok? &&
        rs[k] == Reduced(fe[k].name, step(fe[k].frame).value, count + k, fe[k].frame.header.crder2s)
  {
    var fe := [e] + fr;
    var rs := [Reduced(e.name, step(e.frame).value, count, e.frame.header.crder2s)] + tail;
    forall k | 0 <= k < |fe|
      ensures step(fe[k].frame).Ok? &&
              rs[k] == Reduced(fe[k].name, step(fe[k].frame).value, count + k, fe[k].frame.header.crder2s)
    {
      if k > 0 {
        assert fe[k] == fr[k - 1] && rs[k] == tail[k - 1];
      }
    }
  }

  /** The k-th record is the k-th FITS entry's, numbered count + k. */
  lemma {:induction false} RecordsValue(entries: seq<Entry>, count: nat, step: Frame -> Result<Image>)
    requires Records(entries, count, step).Ok?
    ensures
      var rs := Records(entries, count, step).value;
      var fe := FitsEntries(entries);
      |rs| == |fe| &&
      forall k :: 0 <= k < |fe| ==>
        step(fe[k].frame).Ok? &&
        rs[k] == Reduced(fe[k].name, step(fe[k].frame).value, count + k, fe[k].frame.header.crder2s)
    decreases |entries|
  {
    if |entries| > 0 {
      var e := entries[0];
      var rest := entries[1..];
      if IsFits(e.name) {
        var fe := FitsEntries(entries);
        var fr := FitsEntries(rest);
        assert fe == [e] + fr;
        RecordsFirst(entries, count, step);
        RecordsValue(rest, count + 1, step);
        var tail := Records(rest, count + 1, step).value;
        NumberedCons(e, fr, tail, count, step);
      } else {
        assert FitsEntries(entries) == FitsEntries(rest);
        assert Records(entries, count, step) == Records(rest, count, step);
        RecordsValue(rest, count, step);
      }
    }
  }

  /** get_science returns one record per FITS file of the listing, in
      listing order, numbered from 1, each carrying its CRDER2S value and its
      calibrated, cleaned image; it fails exactly when the masters fail or
      some FITS frame cannot be reduced. */
  lemma ScienceIsPerFrame(listing: seq<Entry>, bias: Image, dark: Image, flat: Image)
    ensures ScienceOf(listing, Given(bias), Given(dark), Given(flat)).Ok? <==>
      forall e :: e in FitsEntries(listing) ==> Reduce(e.frame, bias, dark, flat).Ok?
    ensures ScienceOf(listing, Given(bias), Given(dark), Given(flat)).Ok? ==>
      var out := ScienceOf(listing, Given(bias), Given(dark), Given(flat)).value;
      var fe := FitsEntries(listing);
      |out| == |fe| &&
      forall k :: 0 <= k < |fe| ==>
        out[k].file == fe[k].name && out[k].index == k + 1 &&
        out[k].error == fe[k].frame.header.crder2s &&
        Reduce(fe[k].frame, bias, dark, flat).Ok? &&
        out[k].image == Reduce(fe[k].frame, bias, dark, flat).value
  {
    var step := Reducer(bias, dark, flat);
    ScienceFoldIsRecords([], 1, listing, step);
    RecordsOk(listing, 1, step);
    if Records(listing, 1, step).Ok? {
      RecordsValue(listing, 1, step);
      assert [] + Records(listing, 1, step).value == Records(listing, 1, step).value;
    }
  }

  /** Uniform inputs calibrate to the uniform value ((raw - b) / t - d) / fl. */
  lemma CalibrateUniform(f: Frame, bias: Image, dark: Image, flat: Image,
                         raw: real, b: real, d: real, fl: real)
    requires f.data.rows >= 2 && Uniform(f.data, raw)
    requires Uniform(bias, b) && Uniform(dark, d) && Uniform(flat, fl)
    requires f.header.exptime != 0.0 && fl != 0.0
    requires SameShape(Overscan(f).value, bias) && SameShape(bias, dark) && SameShape(bias, flat)
    ensures Calibrate(f, bias, dark, flat).Ok?
    ensures Uniform(Calibrate(f, bias, dark, flat).value, ((raw - b) / f.header.exptime - d) / fl)
  {
    var t := f.header.exptime;
    var data := Overscan(f).value;
    assert Uniform(data, raw);
    var rate := Scale(Sub(data, bias), t);
    assert DarkCorrected(f, bias) == Ok(rate);
    assert Uniform(rate, (raw - b) / t);
    var s := Sub(rate, dark);
    assert FlatCorrected(f, bias, dark) == Ok(s);
    assert Uniform(s, (raw - b) / t - d);
    assert NoZero(flat);
    assert Calibrate(f, bias, dark, flat) == Ok(Divide(s, flat));
  }

  /** A frame of uniform raw value against uniform masters reduces to the
      uniform value v = ((raw - b) / t - d) / fl: the lines step finds
      nothing to repair. */
  lemma ReduceUniform(f: Frame, bias: Image, dark: Image, flat: Image,
                      raw: real, b: real, d: real, fl: real, v: real)
    requires f.data.rows >= 2 && Uniform(f.data, raw)
    requires Uniform(bias, b) && Uniform(dark, d) && Uniform(flat, fl)
    requires f.header.exptime != 0.0 && fl != 0.0
    requires SameShape(Overscan(f).value, bias) && SameShape(bias, dark) && SameShape(bias, flat)
    requires bias.cols > 0
    requires v == ((raw - b) / f.header.exptime - d) / fl
    ensures Reduce(f, bias, dark, flat).Ok?
    ensures Uniform(Reduce(f, bias, dark, flat).value, v)
  {
    CalibrateUniform(f, bias, dark, flat, raw, b, d, fl);
    var s := Calibrate(f, bias, dark, flat).value;
    CleanedUniform(s, v, MaxLim, MinLim);
    assert Reduce(f, bias, dark, flat) == Ok(s);
  }

  /** A worked instance: raw 1100, bias 100, a 30 s exposure, dark 1 and flat
      1 give 97/3 in every pixel. */
  lemma ReduceExample(f: Frame, bias: Image, dark: Image, flat: Image)
    requires f.data.rows >= 2 && Uniform(f.data, 1100.0) && f.header.exptime == 30.0
    requires Uniform(bias, 100.0) && Uniform(dark, 1.0) && Uniform(flat, 1.0)
    requires SameShape(Overscan(f).value, bias) && SameShape(bias, dark) && SameShape(bias, flat)
    requires bias.cols > 0
    ensures Reduce(f, bias, dark, flat).Ok? && Uniform(Reduce(f, bias, dark, flat).value, 97.0 / 3.0)
  {
    RateOverThirty(1100.0, 100.0, f.header.exptime);
    ReduceUniform(f, bias, dark, flat, 1100.0, 100.0, 1.0, 1.0, 97.0 / 3.0);
  }

  /** The example's arithmetic: (1100 - 100) / 30 - 1 is 97/3. */
  lemma RateOverThirty(raw: real, b: real, t: real)
    requires raw == 1100.0 && b == 100.0 && t == 30.0
    ensures 97.0 / 3.0 == ((raw - b) / t - 1.0) / 1.0
  {
  }
}
