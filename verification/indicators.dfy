/**
 * `split_multicolumn`: a column of optional `;`-joined answers becomes a table
 * of boolean indicator columns, one per vocabulary option, one row per input row.
 */
module Indicators {
  import opened Wrappers
  import opened Seqs
  import opened Tokens
  import opened OptionVocabulary

  /**
   * A boolean indicator table, stored column by column like a data frame:
   * `columns[c][r]` says whether row `r` selected `options[c]`.
   */
  datatype Table = Table(height: nat, options: seq<string>, columns: seq<seq<bool>>)

  /** Option labels are distinct, each has one column, and every column one cell per row. */
  predicate WellFormed(t: Table) {
    && NoDup(t.options)
    && |t.columns| == |t.options|
    && forall c :: 0 <= c < |t.columns| ==> |t.columns[c]| == t.height
  }

  /** Row `r` of a table, across all options. */
  function Row(t: Table, r: nat): seq<bool>
    requires WellFormed(t) && r < t.height
  {
    seq(|t.options|, c requires 0 <= c < |t.options| => t.columns[c][r])
  }

  /** The table `split_multicolumn` returns, as a function of its input. */
  function Decompose(col: seq<Option<string>>, name: string): Table {
    var opts := Vocabulary(col, name);
    Table(|col|, opts, seq(|opts|, c requires 0 <= c < |opts| =>
      seq(|col|, r requires 0 <= r < |col| => Marked(col[r], opts[c]))))
  }

  /**
   * The cells after rows `0..i-1` and the tokens `done` of row `i`: one column of
   * `|col|` cells per option, set exactly where a processed token selected it.
   */
  ghost predicate Cells(col: seq<Option<string>>, i: nat, done: seq<string>,
                        options: seq<string>, columns: seq<seq<bool>>)
  {
    && |columns| == |options|
    && (forall c :: 0 <= c < |columns| ==> |columns[c]| == |col|)
    && forall c, r {:trigger columns[c][r]} :: 0 <= c < |options| && 0 <= r < |col| ==>
         (columns[c][r] <==> (r < i && Marked(col[r], options[c])) || (r == i && options[c] in done))
  }

  /** The state of the pass once rows `0..i-1` and the tokens `done` of row `i` are processed. */
  ghost predicate PassState(col: seq<Option<string>>, name: string, i: nat, done: seq<string>,
                            options: seq<string>, columns: seq<seq<bool>>)
    requires i <= |col|
  {
    options == Vocab(Stream(col[..i]) + done, name) && Cells(col, i, done, options, columns)
  }

  /** Visiting one more token appends it to the options exactly when it is new and not `name`. */
  lemma VocabStep(s: seq<string>, option: string, name: string)
    ensures Vocab(s + [option], name) ==
      if option == name || option in Vocab(s, name) then Vocab(s, name) else Vocab(s, name) + [option]
  {
    assert (s + [option])[..|s|] == s;
  }

  /** One cell of a `Cells` state. */
  lemma CellAt(col: seq<Option<string>>, i: nat, done: seq<string>,
               options: seq<string>, columns: seq<seq<bool>>, c: nat, r: nat)
    requires Cells(col, i, done, options, columns)
    requires c < |options| && r < |col|
    ensures columns[c][r] <==> (r < i && Marked(col[r], options[c])) || (r == i && options[c] in done)
  {
  }

  /** A column with no cell set, as `result_df[option] = False` creates. */
  function Unmarked(n: nat): (column: seq<bool>)
    ensures |column| == n && forall r :: 0 <= r < n ==> !column[r]
  {
    seq(n, _ => false)
  }

  /** A fresh all-false column for a token no processed cell selected keeps the cells exact. */
  lemma CellsNewColumn(col: seq<Option<string>>, i: nat, done: seq<string>,
                       options: seq<string>, columns: seq<seq<bool>>, option: string)
    requires Cells(col, i, done, options, columns)
    requires option !in done
    requires forall r :: 0 <= r < i && r < |col| ==> !Marked(col[r], option)
    ensures Cells(col, i, done, options + [option], columns + [Unmarked(|col|)])
  {
    var options', columns' := options + [option], columns + [Unmarked(|col|)];
    forall c, r | 0 <= c < |options'| && 0 <= r < |col|
      ensures columns'[c][r] <==> (r < i && Marked(col[r], options'[c])) || (r == i && options'[c] in done)
    {
      if c < |options| {
        assert columns'[c] == columns[c] && options'[c] == options[c];
        CellAt(col, i, done, options, columns, c, r);
      } else {
        assert !columns'[c][r] && options'[c] == option;
        assert r < i ==> !Marked(col[r], option);
      }
    }
    assert |columns'| == |options'|;
    assert forall c :: 0 <= c < |columns'| ==> |columns'[c]| == |col|;
    assert Cells(col, i, done, options', columns');
  }

  /** Setting row `i`'s cell for `option` records that `option` has now been processed. */
  lemma CellsMark(col: seq<Option<string>>, i: nat, done: seq<string>,
                  options: seq<string>, columns: seq<seq<bool>>, option: string)
    requires i < |col|
    requires Cells(col, i, done, options, columns)
    requires NoDup(options) && option in options
    ensures Cells(col, i, done + [option], options,
                  columns[IndexOf(options, option) := columns[IndexOf(options, option)][i := true]])
  {
    var k := IndexOf(options, option);
    var columns' := columns[k := columns[k][i := true]];
    forall c, r | 0 <= c < |options| && 0 <= r < |col|
      ensures columns'[c][r] <==> (r < i && Marked(col[r], options[c])) || (r == i && options[c] in done + [option])
    {
      assert options[c] in done + [option] <==> options[c] in done || options[c] == option;
      CellAt(col, i, done, options, columns, c, r);
      if c != k {
        IndexOfNoDup(options, c);
        assert columns'[c] == columns[c];
      } else {
        assert options[c] == option;
      }
    }
  }

  /** A token that is not an option leaves the cells of every option as they were. */
  lemma CellsSkip(col: seq<Option<string>>, i: nat, done: seq<string>,
                  options: seq<string>, columns: seq<seq<bool>>, option: string)
    requires Cells(col, i, done, options, columns)
    requires option !in options
    ensures Cells(col, i, done + [option], options, columns)
  {
  }

  /**
   * Token `j` of row `i`, one step of the inner loop of `split_multicolumn`: a token not yet among the columns gets
   * a fresh all-false column; then the row's cell for it is set.
   */
  method MarkToken(col: seq<Option<string>>, name: string, i: nat, tokens: seq<string>, j: nat,
                   options: seq<string>, columns: seq<seq<bool>>)
    returns (options': seq<string>, columns': seq<seq<bool>>)
    requires i < |col| && j < |tokens|
    requires PassState(col, name, i, tokens[..j], options, columns)
    ensures PassState(col, name, i, tokens[..j + 1], options', columns')
  {
    var done, option := tokens[..j], tokens[j];
    assert tokens[..j + 1] == done + [option];
    var seen := Stream(col[..i]);
    assert seen + (done + [option]) == (seen + done) + [option];
    VocabStep(seen + done, option, name);
    options', columns' := options, columns;
    if option == name {
      // The membership test sees the source column's own name: the token is
      // written into that column, which the final projection drops.
      CellsSkip(col, i, done, options, columns, option);
      return;
    }
    if option !in options {
      forall r | 0 <= r < i
        ensures !Marked(col[r], option)
      {
        StreamMembership(col[..i], option);
        assert col[..i][r] == col[r];
      }
      CellsNewColumn(col, i, done, options, columns, option);
      options' := options + [option];
      columns' := columns + [Unmarked(|col|)];
    }
    CellsMark(col, i, done, options', columns', option);
    var c := IndexOf(options', option);
    columns' := columns'[c := columns'[c][i := true]];
  }

  /** All tokens of row `i`, left to right: the inner loop of `split_multicolumn` for one row. */
  method MarkRow(col: seq<Option<string>>, name: string, i: nat,
                 options: seq<string>, columns: seq<seq<bool>>)
    returns (options': seq<string>, columns': seq<seq<bool>>)
    requires i < |col|
    requires PassState(col, name, i, [], options, columns)
    ensures PassState(col, name, i + 1, [], options', columns')
  {
    options', columns' := options, columns;
    var tokens := TokensOf(col[i]);
    assert tokens[..0] == [];
    for j := 0 to |tokens|
      invariant PassState(col, name, i, tokens[..j], options', columns')
    {
      options', columns' := MarkToken(col, name, i, tokens, j, options', columns');
    }
    assert tokens[..|tokens|] == tokens;
    FinishRow(col, name, i, options', columns');
  }

  /** Once all tokens of row `i` are processed, the pass is at the start of row `i + 1`. */
  lemma FinishRow(col: seq<Option<string>>, name: string, i: nat,
                  options: seq<string>, columns: seq<seq<bool>>)
    requires i < |col|
    requires PassState(col, name, i, TokensOf(col[i]), options, columns)
    ensures PassState(col, name, i + 1, [], options, columns)
  {
    assert col[..i + 1][..i] == col[..i];
    assert Stream(col[..i + 1]) + [] == Stream(col[..i]) + TokensOf(col[i]);
    forall c, r | 0 <= c < |options| && 0 <= r < |col|
      ensures columns[c][r] <==> (r < i + 1 && Marked(col[r], options[c])) || (r == i + 1 && options[c] in [])
    {
      CellAt(col, i, TokensOf(col[i]), options, columns, c, r);
    }
  }

  /**
   * The pass of `split_multicolumn` over the series `col` named `name`: for each
   * present value and each of its tokens, add a new all-false column the first
   * time the token is seen, then set the row's cell in that token's column.
   */
  method SplitMulticolumn(col: seq<Option<string>>, name: string) returns (t: Table)
    ensures WellFormed(t)
    ensures t.height == |col|
    ensures t.options == Vocabulary(col, name)
    ensures forall c, r :: 0 <= c < |t.options| && 0 <= r < |col| ==>
      (t.columns[c][r] <==> col[r].Some? && t.options[c] in Split(col[r].value))
    ensures t == Decompose(col, name)
  {
    var options: seq<string> := [];
    var columns: seq<seq<bool>> := [];
    assert Stream(col[..0]) + [] == [];
    for i := 0 to |col|
      invariant PassState(col, name, i, [], options, columns)
    {
      options, columns := MarkRow(col, name, i, options, columns);
    }
    assert col[..|col|] == col;
    assert Stream(col) + [] == Stream(col);
    t := Table(|col|, options, columns);
    var d := Decompose(col, name);
    forall c | 0 <= c < |options|
      ensures columns[c] == d.columns[c]
    {
    }
  }

  /** Every option column has at least one set cell. */
  predicate Inhabited(t: Table) {
    forall c :: 0 <= c < |t.columns| ==> true in t.columns[c]
  }

  /**
   * Every option column of a decomposition has a set cell: a column is created
   * only for a token that some row selects, and that row is marked at once.
   */
  lemma ColumnsInhabited(col: seq<Option<string>>, name: string)
    ensures Inhabited(Decompose(col, name))
  {
    var t := Decompose(col, name);
    VocabularySpec(col, name);
    forall c | 0 <= c < |t.columns|
      ensures true in t.columns[c]
    {
      assert t.options[c] in Vocabulary(col, name);
      var r :| 0 <= r < |col| && Marked(col[r], t.options[c]);
      assert t.columns[c][r];
    }
  }

  /**
   * The order and repetition of answers inside one value do not matter: two
   * rows whose values join the same set of tokens get identical marks.
   */
  lemma RowIgnoresTokenOrder(col: seq<Option<string>>, name: string, r1: nat, r2: nat,
                             ts1: seq<string>, ts2: seq<string>)
    requires r1 < |col| && r2 < |col|
    requires |ts1| >= 1 && |ts2| >= 1
    requires forall k :: 0 <= k < |ts1| ==> Sep !in ts1[k]
    requires forall k :: 0 <= k < |ts2| ==> Sep !in ts2[k]
    requires forall t :: t in ts1 <==> t in ts2
    requires col[r1] == Some(Join(ts1)) && col[r2] == Some(Join(ts2))
    ensures Row(Decompose(col, name), r1) == Row(Decompose(col, name), r2)
  {
    SplitJoin(ts1);
    SplitJoin(ts2);
  }
}
