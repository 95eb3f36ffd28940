/**
 * The survey analysis put together: multi-answer columns of the cleaned frame
 * are decomposed, then turned into usage and loved percentages.
 */
module Survey {
  import opened Wrappers
  import opened Seqs
  import opened Tokens
  import opened OptionVocabulary
  import opened Indicators
  import opened Aggregate
  import Cleaning

  /** The series `survey_df.F`. */
  function Column(f: Cleaning.Frame, field: string): (col: seq<Option<string>>)
    requires Cleaning.WellFormed(f) && field in f.columns
    ensures |col| == |f.rows|
  {
    seq(|f.rows|, i requires 0 <= i < |f.rows| => Cleaning.Field(f, i, field))
  }

  /** After the single-option filter on `field`, decomposing that field marks at most one option per row. */
  lemma SingleAnswerAfterFilter(f: Cleaning.Frame, field: string, name: string)
    requires Cleaning.WellFormed(f) && field in f.columns
    ensures var t := Decompose(Column(Cleaning.KeepSingleOption(f, field).value, field), name);
      forall c1, c2, r ::
        (0 <= c1 < |t.options| && 0 <= c2 < |t.options| && 0 <= r < t.height && t.columns[c1][r] && t.columns[c2][r])
        ==> c1 == c2
  {
    var col := Column(Cleaning.KeepSingleOption(f, field).value, field);
    var t := Decompose(col, name);
    VocabularySpec(col, name);
    forall c1, c2, r | 0 <= c1 < |t.options| && 0 <= c2 < |t.options| && 0 <= r < t.height &&
        t.columns[c1][r] && t.columns[c2][r]
      ensures c1 == c2
    {
      assert Split(col[r].value) == [col[r].value];
    }
  }

  /**
   * On decomposed survey columns, a respondent loves option `o` exactly when
   * both their worked-with and their want-to answers list it (and `o` is not
   * the want column's own name, which never becomes an option).
   */
  lemma LovedOfDecompositions(worked: seq<Option<string>>, workedName: string,
                              want: seq<Option<string>>, wantName: string)
    requires |worked| == |want|
    ensures var loved := Loved(Decompose(worked, workedName), Decompose(want, wantName));
      forall c, r :: 0 <= c < |loved.options| && 0 <= r < |worked| ==>
        (loved.columns[c][r] <==>
          Marked(worked[r], loved.options[c]) && Marked(want[r], loved.options[c]) && loved.options[c] != wantName)
  {
    var loved := Loved(Decompose(worked, workedName), Decompose(want, wantName));
    forall c, r | 0 <= c < |loved.options| && 0 <= r < |worked|
      ensures loved.columns[c][r] <==>
        Marked(worked[r], loved.options[c]) && Marked(want[r], loved.options[c]) && loved.options[c] != wantName
    {
      LovedCell(worked, workedName, want, wantName, c, r);
    }
  }

  /** One cell of `LovedOfDecompositions`. */
  lemma LovedCell(worked: seq<Option<string>>, workedName: string,
                  want: seq<Option<string>>, wantName: string, c: nat, r: nat)
    requires |worked| == |want|
    requires c < |Vocabulary(worked, workedName)| && r < |worked|
    ensures var loved := Loved(Decompose(worked, workedName), Decompose(want, wantName));
      loved.columns[c][r] <==>
        Marked(worked[r], loved.options[c]) && Marked(want[r], loved.options[c]) && loved.options[c] != wantName
  {
    var a := Decompose(worked, workedName);
    var b := Decompose(want, wantName);
    VocabularySpec(want, wantName);
    var o := a.options[c];
    if Marked(worked[r], o) && Marked(want[r], o) && o != wantName {
      assert o in b.options;
      var k := IndexOf(b.options, o);
      assert b.columns[k][r];
    }
  }

  /**
   * The loved percentage of decomposed survey columns: every option of the
   * worked-with column gets a number in [0, 100], never NaN, since somebody
   * has worked with every option that made it into the vocabulary.
   */
  lemma LovedPercentOfSurvey(worked: seq<Option<string>>, workedName: string,
                             want: seq<Option<string>>, wantName: string)
    requires |worked| == |want|
    ensures forall e :: e in LovedPercent(Decompose(worked, workedName), Decompose(want, wantName)) ==>
      e.percent.Some? && 0.0 <= e.percent.value <= 100.0
  {
    VocabularySpec(worked, workedName);
    VocabularySpec(want, wantName);
    ColumnsInhabited(worked, workedName);
    LovedPercentDefined(Decompose(worked, workedName), Decompose(want, wantName));
  }

  /**
   * The usage percentage of a decomposed survey column: every option gets a
   * number in (0, 100], because somebody selected it and the denominator is
   * every row, absent answers included.
   */
  lemma UsagePercentOfSurvey(col: seq<Option<string>>, name: string)
    ensures forall e :: e in UsagePercent(Decompose(col, name)) ==>
      e.percent.Some? && 0.0 < e.percent.value <= 100.0
  {
    var t := Decompose(col, name);
    VocabularySpec(col, name);
    ColumnsInhabited(col, name);
    forall e | e in UsagePercent(t)
      ensures e.percent.Some? && 0.0 < e.percent.value <= 100.0
    {
      var c :| 0 <= c < |t.options| && e == Entry(t.options[c], Percent(Count(t.columns[c]), t.height));
      assert true in t.columns[c];
    }
  }
}
