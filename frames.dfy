/** Raw frames as they come out of the directory listing, overscan trimming
    and the accumulator that the master builders start from. */
module Frames {
  import opened Results
  import opened Grids

  /** The header keywords the pipeline reads.  NAXIS1 and NAXIS2 are not
      stored: they are the column and row counts of the frame's data. */
  datatype Header = Header(exptime: real, cover: int, rover: int, crder2s: real)

  datatype Frame = Frame(header: Header, data: Image)
  {
    function Naxis1(): nat { data.cols }
    function Naxis2(): nat { data.rows }
  }

  /** One directory entry: a file name and, when the file is a FITS file,
      its header and pixel data. */
  datatype Entry = Entry(name: string, frame: Frame)

  /** `pat` occurs in `s` as a contiguous substring (Python's `pat in s`). */
  predicate Contains(s: string, pat: string)
    decreases |s|
  {
    |pat| <= |s| && (s[..|pat|] == pat || Contains(s[1..], pat))
  }

  /** The pipeline's test for a FITS file: "fits" occurs in the file name. */
  predicate IsFits(name: string)
  {
    Contains(name, "fits")
  }

  /** Start of a Python slice `start:` on an axis of length `n`: negative
      starts count from the end, and the result is clamped into 0..n. */
  function SliceStart(start: int, n: nat): (k: nat)
    ensures k <= n
    ensures 0 <= start <= n ==> k == start
    ensures start > n ==> k == n
    ensures -(n as int) <= start < 0 ==> k == start + n
    ensures start < -(n as int) ==> k == 0
  {
    if start < 0 then (if start + n < 0 then 0 else start + n)
    else if start > n then n
    else start
  }

  /** Number of columns `overscan` keeps: it deletes columns from
      len(data[1]) - COVER on, and len(data[1]) is the column count. */
  function KeptColumns(f: Frame): nat
  {
    SliceStart(f.Naxis1() - f.header.cover, f.Naxis1())
  }

  /** Number of rows `overscan` keeps: it deletes rows from
      len(data[0]) - ROVER on, where len(data[0]) is the column count left
      after the column trim, not the row count. */
  function KeptRows(f: Frame): nat
  {
    SliceStart(KeptColumns(f) - f.header.rover, f.Naxis2())
  }

  /** `overscan`: drop the trailing columns, then the trailing rows.  Reading
      data[1] fails on a frame with fewer than two rows. */
  function Overscan(f: Frame): (r: Result<Image>)
    ensures r.Ok? <==> f.data.rows >= 2
    ensures r.Ok? ==> r.value.rows == KeptRows(f) && r.value.cols == KeptColumns(f)
    ensures r.Ok? ==> forall i, j :: 0 <= i < r.value.rows && 0 <= j < r.value.cols ==>
                        r.value.px[i][j] == f.data.px[i][j]
  {
    if f.data.rows < 2 then Err(MissingRow)
    else
      var c := KeptColumns(f);
      var n := KeptRows(f);
      Ok(Grid(n, c, seq(n, i requires 0 <= i < n => f.data.px[i][..c])))
  }

  /** The first entry whose name marks it as a FITS file, if any. */
  function FirstFits(listing: seq<Entry>): (r: Option<Entry>)
    ensures r.Some? ==> r.value in listing && IsFits(r.value.name)
    ensures r.None? <==> forall k :: 0 <= k < |listing| ==> !IsFits(listing[k].name)
  {
    if |listing| == 0 then None
    else if IsFits(listing[0].name) then Some(listing[0])
    else FirstFits(listing[1..])
  }

  /** `empty_master`: zeros shaped (NAXIS1 - COVER, NAXIS2 - ROVER) from the
      header of the first FITS entry.  No FITS entry, or a negative
      dimension for np.zeros, is a failure. */
  function EmptyMaster(listing: seq<Entry>): (r: Result<Image>)
  {
    match FirstFits(listing)
    case None => Err(NoFitsFile)
    case Some(e) =>
      var d1 := e.frame.Naxis1() - e.frame.header.cover;
      var d2 := e.frame.Naxis2() - e.frame.header.rover;
      if d1 < 0 || d2 < 0 then Err(NegativeShape) else Ok(Zeros(d1, d2))
  }

  // ----- properties -----

  /** The entry `empty_master` reads is the first FITS entry: every entry
      before it is skipped. */
  lemma {:induction false} FirstFitsIsFirst(listing: seq<Entry>)
    requires FirstFits(listing).Some?
    ensures exists k :: 0 <= k < |listing| && listing[k] == FirstFits(listing).value &&
              (forall m :: 0 <= m < k ==> !IsFits(listing[m].name))
  {
    if !IsFits(listing[0].name) {
      var rest := listing[1..];
      FirstFitsIsFirst(rest);
      var k :| 0 <= k < |rest| && rest[k] == FirstFits(rest).value &&
        (forall m :: 0 <= m < k ==> !IsFits(rest[m].name));
      assert listing[k + 1] == FirstFits(listing).value;
      forall m | 0 < m < k + 1 ensures !IsFits(listing[m].name) {
        assert listing[m] == rest[m - 1];
      }
    } else {
      assert listing[0] == FirstFits(listing).value;
    }
  }

  /** With 0 <= COVER <= NAXIS1 the trim keeps exactly the first
      NAXIS1 - COVER columns of every kept row, unchanged; with
      0 <= ROVER <= NAXIS1 - COVER it keeps min(NAXIS2, NAXIS1 - COVER - ROVER)
      rows. */
  lemma OverscanShape(f: Frame)
    requires f.data.rows >= 2
    requires 0 <= f.header.cover <= f.Naxis1()
    requires 0 <= f.header.rover <= f.Naxis1() - f.header.cover
    ensures Overscan(f).Ok?
    ensures Overscan(f).value.cols == f.Naxis1() - f.header.cover
    ensures var keep := f.Naxis1() - f.header.cover - f.header.rover;
            Overscan(f).value.rows == if keep < f.Naxis2() then keep else f.Naxis2()
    ensures forall i :: 0 <= i < Overscan(f).value.rows ==>
              Overscan(f).value.px[i] == f.data.px[i][..f.Naxis1() - f.header.cover]
  {
    var r := Overscan(f).value;
    forall i | 0 <= i < r.rows ensures r.px[i] == f.data.px[i][..f.Naxis1() - f.header.cover] {
      assert |r.px[i]| == r.cols;
    }
  }

  /** With zero overscan extents, a frame with at least as many columns as
      rows passes through the trim unchanged. */
  lemma OverscanZeroExtents(f: Frame)
    requires f.data.rows >= 2 && f.header.cover == 0 && f.header.rover == 0
    requires f.Naxis2() <= f.Naxis1()
    ensures Overscan(f) == Ok(f.data)
  {
    var r := Overscan(f).value;
    assert r.rows == f.data.rows && r.cols == f.data.cols;
    forall i | 0 <= i < r.rows ensures r.px[i] == f.data.px[i] {
      assert |r.px[i]| == r.cols;
    }
    assert r.px == f.data.px;
  }

  /** `empty_master` is an all-zero array shaped by the first FITS entry, and
      it fails exactly when there is none or a dimension is negative. */
  lemma EmptyMasterShape(listing: seq<Entry>)
    ensures EmptyMaster(listing).Err? <==>
              FirstFits(listing).None? ||
              FirstFits(listing).value.frame.Naxis1() < FirstFits(listing).value.frame.header.cover ||
              FirstFits(listing).value.frame.Naxis2() < FirstFits(listing).value.frame.header.rover
    ensures EmptyMaster(listing).Ok? ==>
              var e := FirstFits(listing).value;
              var z := EmptyMaster(listing).value;
              z.rows == e.frame.Naxis1() - e.frame.header.cover &&
              z.cols == e.frame.Naxis2() - e.frame.header.rover &&
              Uniform(z, 0.0)
  {
  }

  /** The accumulator that `empty_master` builds from a frame's header has
      the shape of that frame's trimmed data only when ROVER is 0 and the
      frame has NAXIS1 - COVER rows: its shape is transposed with respect to
      the (rows, columns) order of the data, and the row trim counts from the
      column count. */
  lemma MasterMatchesTrimIff(f: Frame)
    requires f.data.rows >= 2
    requires 0 <= f.header.cover <= f.Naxis1()
    requires 0 <= f.header.rover <= f.Naxis1() - f.header.cover
    ensures var t := Overscan(f).value;
            var d1 := f.Naxis1() - f.header.cover;
            var d2 := f.Naxis2() - f.header.rover;
            (t.rows == d1 && t.cols == d2) <==>
              (f.header.rover == 0 && f.Naxis2() == f.Naxis1() - f.header.cover)
  {
    OverscanShape(f);
  }
}
