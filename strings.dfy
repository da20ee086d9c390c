/** Option, shared by the modules of this project. */
module Wrappers {
  datatype Option<+T> = None | Some(value: T)
}

/**
  Operations of Go's `strings` package, specialised to single-character
  separators: the building blocks of this model. Of these, the modelled code
  calls only `Cut` (autocompleteImageNames). `HasPrefix`, `TrimPrefix`,
  `TrimSuffix`, `IndexByte`, `Split` and `Join` are the model's building
  blocks for the selector parser, getSubPath and the rendering of selectors.
  Go strings are byte strings; here they are sequences of characters.
*/
module Strings {
  import opened Wrappers

  predicate HasPrefix(s: string, p: string) {
    |p| <= |s| && s[..|p|] == p
  }

  predicate HasSuffix(s: string, p: string) {
    |p| <= |s| && s[|s| - |p|..] == p
  }

  /** `f` occurs in `s` as a contiguous fragment (Go's strings.Contains). */
  ghost predicate Contains(s: string, f: string) {
    exists i: nat :: OccursAt(s, f, i)
  }

  /** `f` occurs in `s` starting at position `i`. */
  predicate OccursAt(s: string, f: string, i: nat) {
    i + |f| <= |s| && s[i..i + |f|] == f
  }

  /** A string starts with the first character of each of its non-empty prefixes. */
  lemma PrefixFirst(s: string, p: string)
    requires HasPrefix(s, p) && p != ""
    ensures s[0] == p[0]
  {
    assert s[..|p|][0] == s[0];
  }

  /** strings.TrimPrefix: removes `p` once, if `s` starts with it. */
  function TrimPrefix(s: string, p: string): (r: string)
    ensures HasPrefix(s, p) ==> s == p + r
    ensures !HasPrefix(s, p) ==> r == s
  {
    if HasPrefix(s, p) then s[|p|..] else s
  }

  /** strings.TrimSuffix: removes `p` once, if `s` ends with it. */
  function TrimSuffix(s: string, p: string): (r: string)
    ensures HasSuffix(s, p) ==> s == r + p
    ensures !HasSuffix(s, p) ==> r == s
  {
    if HasSuffix(s, p) then s[..|s| - |p|] else s
  }

  /** strings.IndexByte: the position of the first `c` in `s`, if any. */
  function IndexOf(s: string, c: char): (r: Option<nat>)
    ensures r.None? <==> c !in s
    ensures r.Some? ==> r.value < |s| && s[r.value] == c && c !in s[..r.value]
  {
    if |s| == 0 then None
    else if s[0] == c then Some(0)
    else match IndexOf(s[1..], c)
      case None => None
      case Some(i) =>
        assert s[1..][..i] == s[1..i + 1];
        Some(i + 1)
  }

  /** The first occurrence of `c` is the one right after a prefix free of `c`. */
  lemma IndexOfAfter(a: string, c: char, b: string)
    requires c !in a
    ensures IndexOf(a + [c] + b, c) == Some(|a|)
  {
    var s := a + [c] + b;
    assert s[|a|] == c;
    assert forall j | 0 <= j < |a| :: s[j] == a[j];
    assert s[..|a| + 1][|a|] == c;
  }

  /**
    strings.Cut: the text before the first `sep`, the text after it, and
    whether `sep` was found at all.
  */
  function Cut(s: string, sep: char): (r: (string, string, bool))
    ensures r.2 ==> s == r.0 + [sep] + r.1 && sep !in r.0
    ensures !r.2 ==> r.0 == s && r.1 == "" && sep !in s
  {
    match IndexOf(s, sep)
    case None => (s, "", false)
    case Some(i) =>
      assert s == s[..i] + [sep] + s[i + 1..];
      (s[..i], s[i + 1..], true)
  }

  /** Cutting at the first separator recovers the two sides. */
  lemma CutAfter(a: string, sep: char, b: string)
    requires sep !in a
    ensures Cut(a + [sep] + b, sep) == (a, b, true)
  {
    IndexOfAfter(a, sep, b);
    var s := a + [sep] + b;
    assert s[..|a|] == a;
    assert s[|a| + 1..] == b;
  }

  /**
    strings.Split with a one-character separator: the pieces between the
    separators, at least one, none containing the separator.
  */
  function Split(s: string, sep: char): (r: seq<string>)
    ensures |r| >= 1
    ensures forall i | 0 <= i < |r| :: sep !in r[i]
    decreases |s|
  {
    match IndexOf(s, sep)
    case None => [s]
    case Some(i) => [s[..i]] + Split(s[i + 1..], sep)
  }

  /** A character missing from a string is missing from each of its slices. */
  lemma NotInSlice(s: string, ch: char, i: nat, j: nat)
    requires ch !in s && i <= j <= |s|
    ensures ch !in s[i..j]
  {
    assert forall k | i <= k < j :: s[i..j][k - i] == s[k];
  }

  /** The pieces after the first separator are those of the text after it. */
  lemma SplitStep(s: string, sep: char, i: nat)
    requires IndexOf(s, sep) == Some(i)
    ensures Split(s, sep) == [s[..i]] + Split(s[i + 1..], sep)
  {
  }

  lemma PrependExcludes(x: string, xs: seq<string>, ch: char)
    requires ch !in x && forall k | 0 <= k < |xs| :: ch !in xs[k]
    ensures forall k | 0 <= k < |[x] + xs| :: ch !in ([x] + xs)[k]
  {
    assert forall k | 1 <= k < |[x] + xs| :: ([x] + xs)[k] == xs[k - 1];
  }

  /** No piece holds a character that `s` lacks. */
  lemma {:induction false} SplitExcludes(s: string, sep: char, ch: char)
    requires ch !in s
    ensures forall i | 0 <= i < |Split(s, sep)| :: ch !in Split(s, sep)[i]
    decreases |s|
  {
    if IndexOf(s, sep).Some? {
      var i := IndexOf(s, sep).value;
      SplitStep(s, sep, i);
      NotInSlice(s, ch, 0, i);
      NotInSlice(s, ch, i + 1, |s|);
      assert s[i + 1..|s|] == s[i + 1..];
      assert s[0..i] == s[..i];
      SplitExcludes(s[i + 1..], sep, ch);
      PrependExcludes(s[..i], Split(s[i + 1..], sep), ch);
    }
  }

  /** strings.Join with a one-character separator. */
  function Join(xs: seq<string>, sep: char): string {
    if |xs| == 0 then ""
    else if |xs| == 1 then xs[0]
    else xs[0] + [sep] + Join(xs[1..], sep)
  }

  /** Splitting at a first separator gives the text before it, then the rest split. */
  lemma SplitAfter(a: string, sep: char, b: string)
    requires sep !in a
    ensures Split(a + [sep] + b, sep) == [a] + Split(b, sep)
  {
    var s := a + [sep] + b;
    IndexOfAfter(a, sep, b);
    assert s[..|a|] == a;
    assert s[|a| + 1..] == b;
  }

  /** Splitting what was joined gives the pieces back. */
  lemma {:induction false} SplitJoin(xs: seq<string>, sep: char)
    requires |xs| >= 1
    requires forall i | 0 <= i < |xs| :: sep !in xs[i]
    ensures Split(Join(xs, sep), sep) == xs
  {
    if |xs| > 1 {
      SplitAfter(xs[0], sep, Join(xs[1..], sep));
      SplitJoin(xs[1..], sep);
      assert xs == [xs[0]] + xs[1..];
    }
  }

  /** Joining what was split gives the string back. */
  lemma {:induction false} JoinSplit(s: string, sep: char)
    ensures Join(Split(s, sep), sep) == s
    decreases |s|
  {
    match IndexOf(s, sep)
    case None =>
    case Some(i) =>
      JoinSplit(s[i + 1..], sep);
      var r := Split(s, sep);
      assert r[1..] == Split(s[i + 1..], sep);
      assert s == s[..i] + [sep] + s[i + 1..];
  }

  /** A character other than the separator occurs in a join only if it occurs in a piece. */
  lemma {:induction false} JoinExcludes(xs: seq<string>, sep: char, ch: char)
    requires ch != sep
    requires forall i | 0 <= i < |xs| :: ch !in xs[i]
    ensures ch !in Join(xs, sep)
  {
    if |xs| > 1 {
      JoinExcludes(xs[1..], sep, ch);
    }
  }

  /** Every piece occurs in the joined string. */
  lemma {:induction false} JoinContainsPiece(xs: seq<string>, sep: char, i: nat)
    requires i < |xs|
    ensures Contains(Join(xs, sep), xs[i])
  {
    var s := Join(xs, sep);
    if i == 0 {
      assert s[0..|xs[0]|] == xs[0];
      assert OccursAt(s, xs[0], 0);
    } else {
      JoinContainsPiece(xs[1..], sep, i - 1);
      var tail := Join(xs[1..], sep);
      var k: nat :| OccursAt(tail, xs[i], k);
      var off := |xs[0]| + 1;
      assert s == xs[0] + [sep] + tail;
      assert s[off + k..off + k + |xs[i]|] == tail[k..k + |xs[i]|];
      assert OccursAt(s, xs[i], off + k);
    }
  }

  /** Text that starts with a given character is that character and the rest. */
  lemma ConcatFirst(a: string, c: char, rest: string)
    requires rest != "" && rest[0] == c
    ensures a + [c] + rest[1..] == a + rest
  {
    assert rest == [c] + rest[1..];
  }

  lemma ConcatAssoc(a: string, b: string, c: string)
    ensures a + (b + c) == a + b + c
  {
  }

  /** The middle of a concatenation occurs in it right after the first part. */
  lemma OccursInConcat(a: string, b: string, c: string)
    ensures OccursAt(a + b + c, b, |a|)
  {
    assert (a + b + c)[|a|..|a| + |b|] == b;
  }

  /** A suffix of a string occurs in it. */
  lemma SuffixContains(s: string, rest: string)
    requires |rest| <= |s| && rest == s[|s| - |rest|..]
    ensures Contains(s, rest)
  {
    assert OccursAt(s, rest, |s| - |rest|);
  }

  /** What occurs in a non-empty suffix past its first character occurs in the string. */
  lemma SuffixTailContains(s: string, rest: string, f: string)
    requires rest != "" && |rest| <= |s| && rest == s[|s| - |rest|..]
    requires Contains(rest[1..], f)
    ensures Contains(s, f)
  {
    var i: nat :| OccursAt(rest[1..], f, i);
    var at := |s| - |rest| + 1 + i;
    assert s[at..at + |f|] == rest[1..][i..i + |f|];
    assert OccursAt(s, f, at);
  }

  lemma ContainsItself(s: string)
    ensures Contains(s, s)
  {
    assert s[0..|s|] == s;
    assert OccursAt(s, s, 0);
  }

  /** A fragment of a fragment is a fragment. */
  lemma ContainsTransitive(a: string, b: string, c: string)
    requires Contains(c, b) && Contains(b, a)
    ensures Contains(c, a)
  {
    var j: nat :| OccursAt(c, b, j);
    var i: nat :| OccursAt(b, a, i);
    forall k | 0 <= k < |a|
      ensures c[j + i + k] == a[k]
    {
      assert c[j..j + |b|][i + k] == b[i + k];
      assert b[i..i + |a|][k] == b[i + k];
    }
    assert c[j + i..j + i + |a|] == a;
    assert OccursAt(c, a, j + i);
  }

  lemma ContainsSlice(s: string, i: nat, j: nat)
    requires i <= j <= |s|
    ensures Contains(s, s[i..j])
  {
    assert OccursAt(s, s[i..j], i);
  }
}
