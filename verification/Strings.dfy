/** Cutting strings at a separator. */
module Strings {

  /** The first position of `c`, or the length of the sequence. */
  function IndexOf<T(==)>(s: seq<T>, c: T): (k: nat)
    ensures k <= |s| && c !in s[..k] && (k < |s| ==> s[k] == c)
  {
    if s == [] || s[0] == c then 0 else 1 + IndexOf(s[1..], c)
  }

  lemma {:induction false} IndexOfFirst<T>(s: seq<T>, c: T, k: nat)
    requires k <= |s| && c !in s[..k] && (k < |s| ==> s[k] == c)
    ensures IndexOf(s, c) == k
  {
    if k > 0 {
      assert s[..k][0] == s[0] && s[1..][..k - 1] == s[..k][1..];
      IndexOfFirst(s[1..], c, k - 1);
    }
  }

  /** The pieces between separators; there is one more of them than separators. */
  function Split(s: string, c: char): (parts: seq<string>)
    ensures parts != []
    decreases |s|
  {
    var k := IndexOf(s, c);
    if k == |s| then [s] else [s[..k]] + Split(s[k + 1..], c)
  }

  function Join(parts: seq<string>, c: char): string
    requires parts != []
  {
    if |parts| == 1 then parts[0] else parts[0] + [c] + Join(parts[1..], c)
  }

  /** Joining the pieces restores the string, and no piece has a separator. */
  lemma {:induction false} JoinSplit(s: string, c: char)
    ensures Join(Split(s, c), c) == s
    ensures forall p :: p in Split(s, c) ==> c !in p
    decreases |s|
  {
    var k := IndexOf(s, c);
    if k < |s| {
      JoinSplit(s[k + 1..], c);
      assert s == s[..k] + [c] + s[k + 1..];
    }
  }

  lemma FirstPiece(p: string, rest: string, c: char)
    requires c !in p
    ensures Split(p + [c] + rest, c) == [p] + Split(rest, c)
  {
    var s := p + [c] + rest;
    assert s[..|p|] == p && s[|p| + 1..] == rest;
    IndexOfFirst(s, c, |p|);
  }

  lemma OnlyPiece(p: string, c: char)
    requires c !in p
    ensures Split(p, c) == [p]
  {
    assert p[..|p|] == p;
    IndexOfFirst(p, c, |p|);
  }

  /** Splitting what was joined restores pieces without separators. */
  lemma {:induction false} SplitJoin(parts: seq<string>, c: char)
    requires parts != [] && forall p :: p in parts ==> c !in p
    ensures Split(Join(parts, c), c) == parts
  {
    hide Split, IndexOf;
    if |parts| == 1 {
      OnlyPiece(parts[0], c);
    } else {
      SplitJoin(parts[1..], c);
      FirstPiece(parts[0], Join(parts[1..], c), c);
    }
  }
}
