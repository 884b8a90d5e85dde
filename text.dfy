/** The string operations of Rust's `str` that the program relies on:
    `split_once`, `split` and joining pieces with a separator. */
module Text {
  import opened Wrappers

  /** `s.split_once(c)`: the text before the first `c` and the text after it,
      or `None` when `s` holds no `c`. */
  function SplitOnce(s: string, c: char): (r: Option<(string, string)>)
    ensures r.None? <==> c !in s
    ensures r.Some? ==> s == r.value.0 + [c] + r.value.1 && c !in r.value.0
  {
    if s == [] then None
    else if s[0] == c then Some(([], s[1..]))
    else
      match SplitOnce(s[1..], c)
      case None => None
      case Some(p) => Some(([s[0]] + p.0, p.1))
  }

  /** The split at the first `c` is the only split whose left part holds no `c`. */
  lemma {:induction false} SplitOnceAt(a: string, c: char, b: string)
    requires c !in a
    ensures SplitOnce(a + [c] + b, c) == Some((a, b))
  {
    if a != [] {
      assert (a + [c] + b)[1..] == a[1..] + [c] + b;
      SplitOnceAt(a[1..], c, b);
      assert [a[0]] + a[1..] == a;
    }
  }

  /** The pieces joined back together with `sep` between neighbours. */
  function Join(pieces: seq<string>, sep: string): string
  {
    if pieces == [] then []
    else if |pieces| == 1 then pieces[0]
    else pieces[0] + sep + Join(pieces[1..], sep)
  }

  /** `s.split(c)` collected: the maximal runs of `s` between occurrences of `c`.
      There is always at least one piece (`"".split(c)` yields `[""]`). */
  function Split(s: string, c: char): (r: seq<string>)
    ensures |r| >= 1
    ensures forall i :: 0 <= i < |r| ==> c !in r[i]
    ensures Join(r, [c]) == s
    decreases |s|
  {
    if s == [] then [[]]
    else
      var rest := Split(s[1..], c);
      if s[0] == c then
        assert s == [c] + s[1..];
        [[]] + rest
      else
        assert Join([[s[0]] + rest[0]] + rest[1..], [c]) == [s[0]] + Join(rest, [c]);
        [[s[0]] + rest[0]] + rest[1..]
  }

  /** Joining peels off the last piece. */
  lemma {:induction false} JoinLast(pieces: seq<string>, sep: string)
    requires |pieces| >= 2
    ensures Join(pieces, sep) == Join(pieces[..|pieces| - 1], sep) + sep + pieces[|pieces| - 1]
  {
    if |pieces| > 2 {
      JoinLast(pieces[1..], sep);
      assert pieces[1..][..|pieces[1..]| - 1] == pieces[..|pieces| - 1][1..];
    }
  }

  /** `s.split(c).rev().next()`: the last piece is the part of `s` after its last
      `c`, or the whole of `s` when it holds no `c`. */
  lemma LastPiece(s: string, c: char)
    ensures var pieces := Split(s, c);
      var last := pieces[|pieces| - 1];
      && |last| <= |s|
      && last == s[|s| - |last|..]
      && c !in last
      && (c !in s ==> last == s)
      && (c in s ==> |last| < |s| && s[|s| - |last| - 1] == c)
  {
    var pieces := Split(s, c);
    var last := pieces[|pieces| - 1];
    if |pieces| >= 2 {
      JoinLast(pieces, [c]);
      var front := Join(pieces[..|pieces| - 1], [c]);
      assert s == front + [c] + last;
      assert s[|s| - |last| - 1] == c;
      assert s[|s| - |last|..] == last;
    }
  }
}
