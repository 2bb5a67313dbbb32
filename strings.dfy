/** Small string operations shared by the validators, serialisers and parsers. */
module Strings {
  import opened Wrappers

  /** Position of the first `c` in `s`, or `|s|` when there is none. */
  function IndexOf(s: string, c: char): (i: nat)
    ensures i <= |s|
    ensures i < |s| ==> s[i] == c
    ensures forall k :: 0 <= k < i ==> s[k] != c
    ensures i == |s| <==> c !in s
  {
    if |s| == 0 then 0
    else if s[0] == c then 0
    else 1 + IndexOf(s[1..], c)
  }

  /** How many times `c` occurs in `s`. */
  function CountOf(s: string, c: char): (n: nat)
    ensures n == 0 <==> c !in s
    ensures n <= |s|
  {
    if |s| == 0 then 0
    else (if s[0] == c then 1 else 0) + CountOf(s[1..], c)
  }

  /** `c` occurs exactly once iff it occurs and nothing after its first occurrence is `c`. */
  lemma {:induction false} CountOneIff(s: string, c: char)
    ensures CountOf(s, c) == 1 <==> (IndexOf(s, c) < |s| && c !in s[IndexOf(s, c) + 1..])
  {
    if |s| > 0 && s[0] != c {
      CountOneIff(s[1..], c);
      var j := IndexOf(s[1..], c);
      if j < |s| - 1 {
        assert s[1..][j + 1..] == s[j + 2..];
      }
    }
  }

  /** `s` with the prefix `p` removed, when `s` starts with `p`. */
  function DropPrefix(p: string, s: string): (r: Option<string>)
    ensures r.Some? <==> (|p| <= |s| && s[..|p|] == p)
    ensures r.Some? ==> s == p + r.value
  {
    if |p| <= |s| && s[..|p|] == p then Some(s[|p|..]) else None
  }

  /** The text before the first line break and the text after it; None when there is no line break. */
  function TakeLine(s: string): (r: Option<(string, string)>)
    ensures r.Some? <==> '\n' in s
    ensures r.Some? ==> '\n' !in r.value.0 && s == r.value.0 + "\n" + r.value.1
  {
    var i := IndexOf(s, '\n');
    if i == |s| then None
    else
      assert s == s[..i] + "\n" + s[i + 1..];
      Some((s[..i], s[i + 1..]))
  }

  /** The pieces of `s` between occurrences of `c` (JavaScript's `split` with a one-character separator). */
  function Split(s: string, c: char): (parts: seq<string>)
    ensures |parts| >= 1
    ensures forall k :: 0 <= k < |parts| ==> c !in parts[k]
    decreases |s|
  {
    var i := IndexOf(s, c);
    if i == |s| then [s] else [s[..i]] + Split(s[i + 1..], c)
  }

  lemma DropPrefixOf(p: string, t: string)
    ensures DropPrefix(p, p + t) == Some(t)
  {
    assert (p + t)[..|p|] == p;
    assert (p + t)[|p|..] == t;
  }

  lemma TakeLineOf(a: string, b: string)
    requires '\n' !in a
    ensures TakeLine(a + "\n" + b) == Some((a, b))
  {
    var s := a + "\n" + b;
    assert s[|a|] == '\n';
    assert IndexOf(s, '\n') == |a| by {
      forall k | 0 <= k < |a| ensures s[k] != '\n' { assert s[k] == a[k]; }
    }
    assert s[..|a|] == a;
    assert s[|a| + 1..] == b;
  }

  lemma IndexOfAfter(a: string, c: char, b: string)
    requires c !in a
    ensures IndexOf(a + [c] + b, c) == |a|
  {
    var s := a + [c] + b;
    assert s[|a|] == c;
    forall k | 0 <= k < |a| ensures s[k] != c { assert s[k] == a[k]; }
  }

  lemma {:induction false} SplitJoin(a: string, b: string, c: char)
    requires c !in a
    ensures Split(a + [c] + b, c) == [a] + Split(b, c)
  {
    var s := a + [c] + b;
    IndexOfAfter(a, c, b);
    assert s[..|a|] == a;
    assert s[|a| + 1..] == b;
  }

  lemma SplitNone(s: string, c: char)
    requires c !in s
    ensures Split(s, c) == [s]
  {
  }
}
