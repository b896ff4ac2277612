/** A value that may be missing. */
module Wrappers {
  datatype Option<T> = None | Some(value: T)
}

/** Sequences with one element left out. */
module Sequences {
  function Without<T>(s: seq<T>, i: nat): (rest: seq<T>)
    requires i < |s|
    ensures |rest| == |s| - 1
  {
    s[..i] + s[i + 1..]
  }

  lemma WithoutAt<T>(s: seq<T>, i: nat, k: nat)
    requires i < |s| && k < |s| - 1
    ensures Without(s, i)[k] == s[if k < i then k else k + 1]
  {
  }

  /** Members of a set without repetition are no more than the set has. */
  lemma {:induction false} Pigeonhole<T>(xs: seq<T>, s: set<T>)
    requires forall i :: 0 <= i < |xs| ==> xs[i] in s
    requires forall i, j :: 0 <= i < j < |xs| ==> xs[i] != xs[j]
    ensures |xs| <= |s|
  {
    if xs != [] {
      Pigeonhole(xs[1..], s - {xs[0]});
    }
  }
}

/** A block of text at a place in a longer one. */
module Texts {
  ghost predicate TextAt(text: string, i: nat, block: string) {
    i + |block| <= |text| && text[i..i + |block|] == block
  }

  lemma TextSplit(text: string, i: nat, a: string, b: string)
    requires TextAt(text, i, a + b)
    ensures TextAt(text, i, a) && TextAt(text, i + |a|, b)
  {
    assert text[i..i + |a|] == (a + b)[..|a|] == a;
    assert text[i + |a|..i + |a| + |b|] == (a + b)[|a|..] == b;
  }

  lemma TextJoin(text: string, i: nat, a: string, b: string)
    requires TextAt(text, i, a) && TextAt(text, i + |a|, b)
    ensures TextAt(text, i, a + b)
  {
    assert text[i..i + |a| + |b|] == text[i..i + |a|] + text[i + |a|..i + |a| + |b|];
  }

  lemma TextChar(text: string, i: nat, c: char)
    requires TextAt(text, i, [c])
    ensures i < |text| && text[i] == c
  {
    assert text[i..i + 1][0] == c;
  }
}
