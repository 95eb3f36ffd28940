/**
 * Python's `str.split(';')` as used by `split_multicolumn`: the value is cut at
 * every separator and empty pieces are kept, so `"a;;b"` gives `["a", "", "b"]`
 * and `""` gives `[""]`.
 */
module Tokens {

  /** The delimiter between the answers of a multi-answer survey field. */
  const Sep: char := ';'

  /** `s.split(Sep)`. */
  function Split(s: string): (r: seq<string>)
    ensures forall i :: 0 <= i < |r| ==> Sep !in r[i]
    ensures Sep !in s ==> r == [s]
    decreases |s|
  {
    if |s| == 0 then [""]
    else
      var rest := Split(s[1..]);
      assert s == [s[0]] + s[1..];
      if s[0] == Sep then [""] + rest
      else [[s[0]] + rest[0]] + rest[1..]
  }

  /** A value with `k` separators splits into `k + 1` tokens. */
  lemma {:induction false} SplitLength(s: string)
    ensures |Split(s)| == multiset(s)[Sep] + 1
    decreases |s|
  {
    if |s| > 0 {
      SplitLength(s[1..]);
      assert s == [s[0]] + s[1..];
    }
  }

  /** `Sep.join(ts)`: the inverse of `Split`. */
  function Join(ts: seq<string>): string
    requires |ts| >= 1
  {
    if |ts| == 1 then ts[0] else ts[0] + [Sep] + Join(ts[1..])
  }

  /** Joining the pieces of a split gives back the value. */
  lemma {:induction false} JoinSplit(s: string)
    ensures Join(Split(s)) == s
    decreases |s|
  {
    if |s| > 0 {
      JoinSplit(s[1..]);
      SplitStep(s);
    }
  }

  /** Joining a token in front of a non-empty list. */
  lemma JoinCons(h: string, ts: seq<string>)
    requires |ts| >= 1
    ensures Join([h] + ts) == h + [Sep] + Join(ts)
  {
    assert ([h] + ts)[1..] == ts;
  }

  /** One step of `JoinSplit`: re-joining the split of `s` puts `s[0]` back. */
  lemma SplitStep(s: string)
    requires |s| > 0
    ensures Join(Split(s)) == [s[0]] + Join(Split(s[1..]))
  {
    var rest := Split(s[1..]);
    if s[0] == Sep {
      SplitStepAtSep(s);
    } else if |rest| == 1 {
      assert Split(s) == [[s[0]] + rest[0]];
    } else {
      SplitStepInToken(s, rest);
    }
  }

  /** `SplitStep` when `s` starts with a separator: an empty first token. */
  lemma SplitStepAtSep(s: string)
    requires |s| > 0 && s[0] == Sep
    ensures Join(Split(s)) == [s[0]] + Join(Split(s[1..]))
  {
    var rest := Split(s[1..]);
    assert Split(s) == [""] + rest;
    JoinCons("", rest);
  }

  /** `SplitStep` when `s[0]` extends the first of several tokens. */
  lemma SplitStepInToken(s: string, rest: seq<string>)
    requires |s| > 0 && s[0] != Sep
    requires rest == Split(s[1..]) && |rest| > 1
    ensures Join(Split(s)) == [s[0]] + Join(rest)
  {
    var head := [s[0]] + rest[0];
    var tail := Join(rest[1..]);
    calc {
      Join(Split(s));
      { SplitUnfold(s); }
      Join([head] + rest[1..]);
      { JoinCons(head, rest[1..]); }
      head + [Sep] + tail;
      { Assoc([s[0]], rest[0], [Sep], tail); }
      [s[0]] + (rest[0] + [Sep] + tail);
      { JoinCons(rest[0], rest[1..]); assert [rest[0]] + rest[1..] == rest; }
      [s[0]] + Join(rest);
    }
  }

  /** Concatenation regroups freely. */
  lemma Assoc<T>(a: seq<T>, b: seq<T>, c: seq<T>, d: seq<T>)
    ensures a + b + c + d == a + (b + c + d)
  {
  }

  /** `Split` of a value that does not start with a separator, one step unfolded. */
  lemma SplitUnfold(s: string)
    requires |s| > 0 && s[0] != Sep
    ensures Split(s) == [[s[0]] + Split(s[1..])[0]] + Split(s[1..])[1..]
  {
  }

  /** A piece without separator followed by a separator splits off as one token. */
  lemma {:induction false} SplitLeading(a: string, b: string)
    requires Sep !in a
    ensures Split(a + [Sep] + b) == [a] + Split(b)
    decreases |a|
  {
    if |a| == 0 {
      assert (a + [Sep] + b)[1..] == b;
    } else {
      SplitLeading(a[1..], b);
      assert (a + [Sep] + b)[1..] == a[1..] + [Sep] + b;
      assert [a[0]] + a[1..] == a;
    }
  }

  /** Splitting a join of separator-free tokens gives back the tokens, empty ones included. */
  lemma {:induction false} SplitJoin(ts: seq<string>)
    requires |ts| >= 1
    requires forall i :: 0 <= i < |ts| ==> Sep !in ts[i]
    ensures Split(Join(ts)) == ts
    decreases |ts|
  {
    if |ts| > 1 {
      SplitJoin(ts[1..]);
      SplitLeading(ts[0], Join(ts[1..]));
    }
  }
}
