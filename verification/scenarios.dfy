/** Worked examples of the decomposition and the loved percentage on small columns. */
module Scenarios {
  import opened Wrappers
  import opened Tokens
  import opened OptionVocabulary
  import opened Indicators
  import opened Aggregate

  /** The pass over `[a;b, b, absent, a]` visits `a, b, b, a`. */
  lemma ExampleStream(a: string, b: string)
    requires Sep !in a && Sep !in b
    ensures Stream([Some(a + [Sep] + b), Some(b), None, Some(a)]) == [a, b, b, a]
  {
    var col := [Some(a + [Sep] + b), Some(b), None, Some(a)];
    SplitLeading(a, b);
    assert TokensOf(col[0]) == [a, b];
    assert TokensOf(col[1]) == [b];
    assert TokensOf(col[3]) == [a];
    assert col[..1][..0] == [];
    assert Stream(col[..1]) == [a, b];
    assert col[..2][..1] == col[..1];
    assert Stream(col[..2]) == [a, b, b];
    assert col[..3][..2] == col[..2];
    assert Stream(col[..3]) == [a, b, b];
    assert col[..3] == col[..|col| - 1];
  }

  /** The options discovered from the tokens `a, b, b, a`. */
  lemma ExampleVocab(a: string, b: string, name: string)
    requires a != b && a != name && b != name
    ensures Vocab([a, b, b, a], name) == [a, b]
  {
    var s := [a, b, b, a];
    assert s[..1][..0] == [];
    assert Vocab(s[..1], name) == [a];
    assert s[..2][..1] == s[..1];
    assert Vocab(s[..2], name) == [a, b];
    assert s[..3][..2] == s[..2];
    assert Vocab(s[..3], name) == [a, b];
    assert s[..3] == s[..|s| - 1];
  }

  /** Which rows of `[a;b, b, absent, a]` select `a` and which select `b`. */
  lemma ExampleMarks(a: string, b: string)
    requires Sep !in a && Sep !in b && a != b
    ensures var col := [Some(a + [Sep] + b), Some(b), None, Some(a)];
      && Marked(col[0], a) && !Marked(col[1], a) && !Marked(col[2], a) && Marked(col[3], a)
      && Marked(col[0], b) && Marked(col[1], b) && !Marked(col[2], b) && !Marked(col[3], b)
  {
    SplitLeading(a, b);
  }

  /**
   * Two answers `a` and `b`, column `["a;b", "b", absent, "a"]`: the options are
   * `[a, b]` in first-seen order, and the absent row is all false.
   */
  lemma DecomposeExample(a: string, b: string, name: string)
    requires Sep !in a && Sep !in b
    requires a != b && a != name && b != name
    ensures Decompose([Some(a + [Sep] + b), Some(b), None, Some(a)], name) ==
      Table(4, [a, b], [[true, false, false, true], [true, true, false, false]])
  {
    var col := [Some(a + [Sep] + b), Some(b), None, Some(a)];
    assert Vocabulary(col, name) == [a, b] by {
      ExampleStream(a, b);
      ExampleVocab(a, b, name);
    }
    ExampleMarks(a, b);
    var t := Decompose(col, name);
    assert t.columns[0] == [true, false, false, true];
    assert t.columns[1] == [true, true, false, false];
  }

  /**
   * Four respondents: rows 0 and 1 have worked with `o`, rows 0 and 2 want to;
   * only row 0 does both, so the loved percentage of `o` is 50.
   */
  lemma LovedExample(o: string)
    ensures LovedPercent(Table(4, [o], [[true, true, false, false]]), Table(4, [o], [[true, false, true, false]]))
      == [Entry(o, Some(50.0))]
  {
    var worked := Table(4, [o], [[true, true, false, false]]);
    var want := Table(4, [o], [[true, false, true, false]]);
    assert Loved(worked, want).columns[0] == [true, false, false, false];
    CountOfFour(true, false, false, false);
    CountOfFour(true, true, false, false);
    assert LovedRates(worked, want) == [Entry(o, Some(50.0))];
  }

  /** The number of set cells among four. */
  lemma CountOfFour(x0: bool, x1: bool, x2: bool, x3: bool)
    ensures Count([x0, x1, x2, x3]) ==
      (if x0 then 1 else 0) + (if x1 then 1 else 0) + (if x2 then 1 else 0) + (if x3 then 1 else 0)
  {
    var l := [x0, x1, x2, x3];
    assert l[..1][..0] == [];
    assert Count(l[..1]) == (if x0 then 1 else 0);
    assert l[..2][..1] == l[..1];
    assert Count(l[..2]) == Count(l[..1]) + (if x1 then 1 else 0);
    assert l[..3][..2] == l[..2];
    assert Count(l[..3]) == Count(l[..2]) + (if x2 then 1 else 0);
    assert l[..3] == l[..|l| - 1];
  }

  /** A column with no answer at all: the pass visits no token. */
  lemma {:induction false} AllAbsentStream(col: seq<Option<string>>)
    requires forall r :: 0 <= r < |col| ==> col[r].None?
    ensures Stream(col) == []
  {
    if |col| > 0 {
      AllAbsentStream(col[..|col| - 1]);
    }
  }

  /** A column with no answer at all gives no option, and still one row per respondent. */
  lemma AllAbsentExample(col: seq<Option<string>>, name: string)
    requires forall r :: 0 <= r < |col| ==> col[r].None?
    ensures Decompose(col, name).options == []
    ensures Decompose(col, name).height == |col|
  {
    AllAbsentStream(col);
  }
}
