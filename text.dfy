/** The parts of Python's `str` that the date/time helpers rely on: `c in s`,
    `s.find(c)`, `s.split(c)` and `c.join(parts)`, for a one-character separator. */
module Text {
  import opened Wrappers

  /** Index of the first occurrence of `c` in `s` (Python's `s.find(c)`, with None for -1). */
  function Find(s: string, c: char): (r: Option<nat>)
    ensures r.None? <==> c !in s
    ensures r.Some? ==> r.value < |s| && s[r.value] == c && c !in s[..r.value]
  {
    FindFrom(s, c, 0)
  }

  /** The first occurrence of `c` at or after index `k`. */
  function FindFrom(s: string, c: char, k: nat): (r: Option<nat>)
    requires k <= |s|
    requires c !in s[..k]
    ensures r.None? <==> c !in s
    ensures r.Some? ==> k <= r.value < |s| && s[r.value] == c && c !in s[..r.value]
    decreases |s| - k
  {
    if k == |s| then
      assert s[..k] == s;
      None
    else if s[k] == c then Some(k)
    else
      assert s[..k + 1] == s[..k] + [s[k]];
      FindFrom(s, c, k + 1)
  }

  /** Python's `s.split(c)`: the pieces between consecutive separators, empty
      pieces kept, so that there is always at least one piece. */
  function Split(s: string, c: char): (parts: seq<string>)
    ensures |parts| >= 1
    ensures |parts| == 1 <==> c !in s
    ensures forall i :: 0 <= i < |parts| ==> c !in parts[i]
    ensures |parts[0]| <= |s| && parts[0] == s[..|parts[0]|]
    ensures |parts[0]| == |s| || s[|parts[0]|] == c
    decreases |s|
  {
    match Find(s, c)
    case None => [s]
    case Some(i) => [s[..i]] + Split(s[i + 1..], c)
  }

  /** Python's `c.join(parts)`. */
  function Join(parts: seq<string>, c: char): (s: string)
  {
    if |parts| == 0 then []
    else if |parts| == 1 then parts[0]
    else parts[0] + [c] + Join(parts[1..], c)
  }

  /** Joining the pieces again gives back the split string. */
  lemma SplitAt(s: string, c: char, i: nat)
    requires Find(s, c) == Some(i)
    ensures i < |s| && s == s[..i] + [c] + s[i + 1..]
    ensures Split(s, c) == [s[..i]] + Split(s[i + 1..], c)
  {
  }

  lemma {:induction false} JoinSplit(s: string, c: char)
    ensures Join(Split(s, c), c) == s
    decreases |s|
  {
    match Find(s, c)
    case None =>
      assert Split(s, c) == [s];
    case Some(i) =>
      SplitAt(s, c, i);
      var rest := s[i + 1..];
      var tail := Split(rest, c);
      JoinSplit(rest, c);
      JoinCons(s[..i], tail, c);
  }

  /** Joining one more piece in front adds it and one separator. */
  lemma JoinCons(p: string, parts: seq<string>, c: char)
    requires |parts| >= 1
    ensures Join([p] + parts, c) == p + [c] + Join(parts, c)
  {
    assert ([p] + parts)[1..] == parts;
  }

  /** The first separator in `p + [c] + t`, when `p` holds none, is the one after `p`. */
  lemma {:induction false} FindAfterPrefix(p: string, c: char, t: string)
    requires c !in p
    ensures Find(p + [c] + t, c) == Some(|p|)
    decreases |p|
  {
    if p != [] {
      FindAfterPrefix(p[1..], c, t);
      assert (p + [c] + t)[1..] == p[1..] + [c] + t;
    }
  }

  /** Splitting a join of separator-free pieces gives back the pieces: together with
      JoinSplit, `Split(s, c)` is the only separator-free decomposition of `s`. */
  lemma {:induction false} SplitJoin(parts: seq<string>, c: char)
    requires |parts| >= 1
    requires forall i :: 0 <= i < |parts| ==> c !in parts[i]
    ensures Split(Join(parts, c), c) == parts
    decreases |parts|
  {
    if |parts| > 1 {
      var p := parts[0];
      var t := Join(parts[1..], c);
      var s := p + [c] + t;
      assert Join(parts, c) == s;
      FindAfterPrefix(p, c, t);
      assert s[..|p|] == p;
      assert s[|p| + 1..] == t;
      SplitJoin(parts[1..], c);
      assert Split(s, c) == [p] + Split(t, c);
      assert parts == [p] + parts[1..];
    }
  }

  /** The first two pieces of a string that holds the separator: the text before the
      first `c` and the text between the first and the second `c` (or the end). */
  lemma SplitFirstTwo(s: string, c: char)
    requires c in s
    ensures |Split(s, c)| >= 2
    ensures var p := Split(s, c);
      && |p[0]| + 1 + |p[1]| <= |s|
      && s[..|p[0]| + 1 + |p[1]|] == p[0] + [c] + p[1]
      && (|p[0]| + 1 + |p[1]| == |s| || s[|p[0]| + 1 + |p[1]|] == c)
  {
    var i, j := FirstTwoAt(s, c);
    Slices(s, i, j);
  }

  /** Where the first two pieces lie: the first separator is at `i`, and the second
      piece is the `j` characters after it. */
  lemma FirstTwoAt(s: string, c: char) returns (i: nat, j: nat)
    requires c in s
    ensures i + 1 + j <= |s| && s[i] == c
    ensures |Split(s, c)| >= 2 && Split(s, c)[0] == s[..i] && Split(s, c)[1] == s[i + 1..][..j]
    ensures i + 1 + j == |s| || s[i + 1 + j] == c
  {
    i := Find(s, c).value;
    SplitAt(s, c, i);
    var tail := Split(s[i + 1..], c);
    j := |tail[0]|;
    if i + 1 + j < |s| {
      assert s[i + 1 + j] == s[i + 1..][j];
    }
  }

  /** Cutting `s` around its element at `i` and `j` further elements after it. */
  lemma Slices<T>(s: seq<T>, i: nat, j: nat)
    requires i + 1 + j <= |s|
    ensures s[..i + 1 + j] == s[..i] + [s[i]] + s[i + 1..][..j]
    ensures i + 1 + j < |s| ==> s[i + 1..][j] == s[i + 1 + j]
  {
  }

  /** A prefix of a prefix, extended by a common head. */
  lemma PrefixThrough(s: string, head: string, p: string, q: string)
    requires head + p <= s && q <= p
    ensures head + q <= s
  {
    assert (head + p)[..|head| + |q|] == head + q;
  }
}
