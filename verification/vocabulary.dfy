/**
 * The option vocabulary `split_multicolumn` discovers: every token of every
 * present value, once each, in the order the pass over the rows first meets it.
 * A token equal to the series' own name is never added, because the membership
 * test looks at the result frame's columns, which start out holding that name.
 */
module OptionVocabulary {
  import opened Wrappers
  import opened Seqs
  import opened Tokens

  /** The tokens of one value: none for an absent value, its split otherwise. */
  function TokensOf(v: Option<string>): seq<string> {
    match v
    case None => []
    case Some(s) => Split(s)
  }

  /** Row value `v` selects option `t`. */
  predicate Marked(v: Option<string>, t: string) {
    v.Some? && t in Split(v.value)
  }

  /** The tokens in the order the pass visits them: row by row, left to right within a row. */
  function Stream(col: seq<Option<string>>): seq<string> {
    if |col| == 0 then []
    else Stream(col[..|col| - 1]) + TokensOf(col[|col| - 1])
  }

  /**
   * The options list after visiting the tokens `s`: a token is appended when it
   * is neither already an option nor the column's own `name`.
   */
  function Vocab(s: seq<string>, name: string): (v: seq<string>)
    ensures NoDup(v)
    ensures forall t :: t in v <==> t in s && t != name
  {
    if |s| == 0 then []
    else
      var v := Vocab(s[..|s| - 1], name);
      var t := s[|s| - 1];
      assert s == s[..|s| - 1] + [t];
      if t == name || t in v then v else v + [t]
  }

  /** The vocabulary of a column. */
  function Vocabulary(col: seq<Option<string>>, name: string): seq<string> {
    Vocab(Stream(col), name)
  }

  /** A token is visited by the pass exactly when some row selects it. */
  lemma {:induction false} StreamMembership(col: seq<Option<string>>, t: string)
    ensures t in Stream(col) <==> exists r :: 0 <= r < |col| && Marked(col[r], t)
  {
    if |col| > 0 {
      var init := col[..|col| - 1];
      StreamMembership(init, t);
      if t in Stream(col) && t !in Stream(init) {
        assert Marked(col[|col| - 1], t);
      }
      if r :| 0 <= r < |col| && Marked(col[r], t) {
        if r < |col| - 1 {
          assert init[r] == col[r];
        }
      }
    }
  }

  /** Vocabulary entries appear in the order of their first occurrence in the pass. */
  lemma {:induction false} VocabFirstSeen(s: seq<string>, name: string)
    ensures forall i, j :: 0 <= i < j < |Vocab(s, name)| ==>
      IndexOf(s, Vocab(s, name)[i]) < IndexOf(s, Vocab(s, name)[j])
  {
    if |s| > 0 {
      var init := s[..|s| - 1];
      var t := s[|s| - 1];
      var v0 := Vocab(init, name);
      var v := Vocab(s, name);
      assert s == init + [t];
      VocabFirstSeen(init, name);
      forall x | x in v0
        ensures IndexOf(s, x) == IndexOf(init, x)
      {
        IndexOfAppend(init, t, x);
      }
      if v != v0 {
        assert t !in init;
        IndexOfUnique(s, t, |s| - 1);
      }
    }
  }

  /**
   * The vocabulary of a column: no option twice; exactly the tokens some row
   * selects, except the column's own name; ordered by first appearance.
   */
  lemma VocabularySpec(col: seq<Option<string>>, name: string)
    ensures NoDup(Vocabulary(col, name))
    ensures forall t :: t in Vocabulary(col, name) <==>
      t != name && exists r :: 0 <= r < |col| && Marked(col[r], t)
    ensures forall i, j :: 0 <= i < j < |Vocabulary(col, name)| ==>
      IndexOf(Stream(col), Vocabulary(col, name)[i]) < IndexOf(Stream(col), Vocabulary(col, name)[j])
  {
    forall t {
      StreamMembership(col, t);
    }
    VocabFirstSeen(Stream(col), name);
  }
}
