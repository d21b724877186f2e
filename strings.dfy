/**
 * Python's string joining and slicing as the import script and the filter
 * action use them: `sep.join(xs)`, `''.join(xs)` and `s[1:]`. `Split` is
 * `s.split(c)` for one character; neither core file splits, but the model's
 * readers do, and the lemmas relating splitting to joining are what the
 * round-trip properties of both core files rest on.
 */
module Strings {

  /** `sep.join(xs)`: the items of `xs` with `sep` between neighbours. */
  function Join(sep: string, xs: seq<string>): string
  {
    if xs == [] then "" else xs[0] + PrefixEach(sep, xs[1..])
  }

  /** Every item of `xs`, each preceded by `sep`, concatenated. */
  function PrefixEach(sep: string, xs: seq<string>): string
  {
    if xs == [] then "" else sep + xs[0] + PrefixEach(sep, xs[1..])
  }

  /** `''.join(xs)`. */
  function Concat(xs: seq<string>): string
  {
    if xs == [] then "" else xs[0] + Concat(xs[1..])
  }

  /** `s[1:]`: everything after the first character, and "" for "". */
  function Drop1(s: string): (r: string)
    ensures s != [] ==> [s[0]] + r == s
    ensures s == [] ==> r == []
  {
    if s == [] then [] else s[1..]
  }

  /**
   * `s.split(c)` for a single-character separator: the maximal pieces
   * between occurrences of `c`; there is always at least one piece.
   */
  function Split(s: string, c: char): (parts: seq<string>)
    ensures |parts| >= 1
    decreases |s|
  {
    if s == [] then [""]
    else
      var rest := Split(s[1..], c);
      if s[0] == c then [""] + rest
      else [[s[0]] + rest[0]] + rest[1..]
  }

  /** Text without the separator glues onto the first piece. */
  lemma {:induction false} SplitPrepend(x: string, y: string, c: char)
    requires c !in x
    ensures Split(x + y, c) == [x + Split(y, c)[0]] + Split(y, c)[1..]
  {
    if x != [] {
      assert (x + y)[1..] == x[1..] + y;
      SplitPrepend(x[1..], y, c);
      var rest := Split((x + y)[1..], c);
      assert rest == [x[1..] + Split(y, c)[0]] + Split(y, c)[1..];
      assert rest[1..] == Split(y, c)[1..];
      assert [x[0]] + (x[1..] + Split(y, c)[0]) == x + Split(y, c)[0];
    } else {
      assert x + y == y;
      assert x + Split(y, c)[0] == Split(y, c)[0];
    }
  }

  /** A string without the separator is a single piece. */
  lemma SplitNoSeparator(x: string, c: char)
    requires c !in x
    ensures Split(x, c) == [x]
  {
    SplitPrepend(x, "", c);
    assert x + "" == x;
  }

  /** Splitting at the first separator. */
  lemma SplitAt(x: string, y: string, c: char)
    requires c !in x
    ensures Split(x + [c] + y, c) == [x] + Split(y, c)
  {
    SplitPrepend(x, [c] + y, c);
    assert x + [c] + y == x + ([c] + y);
    assert ([c] + y)[1..] == y;
    assert Split([c] + y, c) == [""] + Split(y, c);
    assert x + "" == x;
  }

  /** `c.join(xs).split(c) == xs` when no item contains `c`. */
  lemma {:induction false} SplitJoin(xs: seq<string>, c: char)
    requires |xs| >= 1
    requires forall i :: 0 <= i < |xs| ==> c !in xs[i]
    ensures Split(Join([c], xs), c) == xs
  {
    if |xs| == 1 {
      assert Join([c], xs) == xs[0];
      SplitNoSeparator(xs[0], c);
    } else {
      var rest := xs[1..];
      assert Join([c], xs) == xs[0] + [c] + Join([c], rest);
      SplitJoin(rest, c);
      SplitAt(xs[0], Join([c], rest), c);
      assert [xs[0]] + rest == xs;
    }
  }

  /** A character in neither the separator nor any item is not in the joined text. */
  lemma {:induction false} JoinAvoids(sep: string, xs: seq<string>, c: char)
    requires c !in sep
    requires forall i :: 0 <= i < |xs| ==> c !in xs[i]
    ensures c !in Join(sep, xs)
  {
    if xs != [] {
      PrefixEachAvoids(sep, xs[1..], c);
    }
  }

  lemma {:induction false} PrefixEachAvoids(sep: string, xs: seq<string>, c: char)
    requires c !in sep
    requires forall i :: 0 <= i < |xs| ==> c !in xs[i]
    ensures c !in PrefixEach(sep, xs)
    decreases |xs|
  {
    if xs != [] {
      PrefixEachAvoids(sep, xs[1..], c);
    }
  }
}
