/**
 * The single-option filter `survey_df.where(~survey_df.F.str.contains(';', na=False), np.nan, inplace=True)`.
 * The condition is one boolean per row, so `where` blanks the WHOLE row, in
 * every column, whenever field `F` holds more than one answer.
 */
module Cleaning {
  import opened Wrappers
  import opened Seqs
  import opened Tokens

  /** A data frame of optional text cells: distinct column labels, rows of equal width. */
  datatype Frame = Frame(columns: seq<string>, rows: seq<seq<Option<string>>>)

  predicate WellFormed(f: Frame) {
    && NoDup(f.columns)
    && forall i :: 0 <= i < |f.rows| ==> |f.rows[i]| == |f.columns|
  }

  /** Attribute access to a column that does not exist raises. */
  datatype CleanError = NoSuchColumn(field: string)

  /** `v.str.contains(';', na=False)`: an absent cell does not match. */
  predicate HasSeveral(v: Option<string>) {
    v.Some? && Sep in v.value
  }

  /** A row of NaN. */
  function BlankRow(width: nat): (row: seq<Option<string>>)
    ensures |row| == width && forall k :: 0 <= k < width ==> row[k].None?
  {
    seq(width, _ => None)
  }

  /** Value of `field` in row `i`. */
  function Field(f: Frame, i: nat, field: string): Option<string>
    requires WellFormed(f) && i < |f.rows| && field in f.columns
  {
    f.rows[i][IndexOf(f.columns, field)]
  }

  /** The filter on `field`, or the error raised when the frame has no such column. */
  function KeepSingleOption(f: Frame, field: string): (r: Result<Frame, CleanError>)
    requires WellFormed(f)
    ensures r.Failure? <==> field !in f.columns
    ensures r.Failure? ==> r.error == NoSuchColumn(field)
    ensures r.Success? ==> WellFormed(r.value) && r.value.columns == f.columns
    ensures r.Success? ==> |r.value.rows| == |f.rows|
    ensures r.Success? ==> forall i :: 0 <= i < |f.rows| ==> !HasSeveral(Field(r.value, i, field))
    ensures r.Success? ==> forall i :: 0 <= i < |f.rows| ==>
      r.value.rows[i] == if HasSeveral(Field(f, i, field)) then BlankRow(|f.columns|) else f.rows[i]
  {
    if field !in f.columns then Failure(NoSuchColumn(field))
    else
      var k := IndexOf(f.columns, field);
      Success(Frame(f.columns, seq(|f.rows|, i requires 0 <= i < |f.rows| =>
        if HasSeveral(f.rows[i][k]) then BlankRow(|f.columns|) else f.rows[i])))
  }

  /** Filtering twice on the same field changes nothing more. */
  lemma KeepSingleOptionIdempotent(f: Frame, field: string)
    requires WellFormed(f) && field in f.columns
    ensures KeepSingleOption(KeepSingleOption(f, field).value, field) == KeepSingleOption(f, field)
  {
    var g := KeepSingleOption(f, field).value;
    var h := KeepSingleOption(g, field).value;
    assert h.rows == g.rows;
  }

  /** The three filters of the survey cleaning, applied in order: Gender, Employment, DevType. */
  function CleanSurvey(f: Frame): Result<Frame, CleanError>
    requires WellFormed(f)
  {
    match KeepSingleOption(f, "Gender")
    case Failure(e) => Failure(e)
    case Success(g) =>
      match KeepSingleOption(g, "Employment")
      case Failure(e) => Failure(e)
      case Success(h) => KeepSingleOption(h, "DevType")
  }

  /**
   * After the three filters a row survives unchanged exactly when none of its
   * three fields held several answers in the original frame, and is blank
   * otherwise: a row blanked by one filter no longer matches the next.
   */
  lemma CleanSurveyRows(f: Frame)
    requires WellFormed(f)
    requires "Gender" in f.columns && "Employment" in f.columns && "DevType" in f.columns
    ensures CleanSurvey(f).Success?
    ensures CleanSurvey(f).value.columns == f.columns
    ensures |CleanSurvey(f).value.rows| == |f.rows|
    ensures forall i :: 0 <= i < |f.rows| ==>
      CleanSurvey(f).value.rows[i] ==
        if HasSeveral(Field(f, i, "Gender")) || HasSeveral(Field(f, i, "Employment")) || HasSeveral(Field(f, i, "DevType"))
        then BlankRow(|f.columns|) else f.rows[i]
  {
    var g := KeepSingleOption(f, "Gender").value;
    var h := KeepSingleOption(g, "Employment").value;
    var e := KeepSingleOption(h, "DevType").value;
    forall i | 0 <= i < |f.rows|
      ensures e.rows[i] ==
        if HasSeveral(Field(f, i, "Gender")) || HasSeveral(Field(f, i, "Employment")) || HasSeveral(Field(f, i, "DevType"))
        then BlankRow(|f.columns|) else f.rows[i]
    {
      var w := |f.columns|;
      if HasSeveral(Field(f, i, "Gender")) {
        assert g.rows[i] == BlankRow(w);
        assert !HasSeveral(Field(g, i, "Employment"));
        assert !HasSeveral(Field(h, i, "DevType"));
      }
    }
  }
}
