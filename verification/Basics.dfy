/** Facts about sequences and products that several parts rest on. */
module Basics {

  ghost predicate Distinct(s: seq<nat>) {
    forall i, j :: 0 <= i < j < |s| ==> s[i] != s[j]
  }

  /** The front and the back of a slice are slices. */
  lemma Slice<T>(s: seq<T>, a: nat, b: nat, k: nat)
    requires a <= b <= |s| && k <= b - a
    ensures s[a..b][..k] == s[a..a + k] && s[a..b][k..] == s[a + k..b]
  {
  }

  lemma Subslice<T>(s: seq<T>, a: nat, b: nat, from: nat, to: nat)
    requires a <= b <= |s| && from <= to <= b - a
    ensures s[a..b][from..to] == s[a + from..a + to]
  {
    var part, whole := s[a..b][from..to], s[a + from..a + to];
    forall i | 0 <= i < |part| ensures part[i] == whole[i] {
    }
    assert part == whole;
  }

  /** A sequence that holds s from `at` on and is otherwise as it was. */
  lemma Spliced<T>(now: seq<T>, was: seq<T>, at: nat, s: seq<T>)
    requires |now| == |was| && at + |s| <= |was|
    requires forall j :: at <= j < at + |s| ==> now[j] == s[j - at]
    requires forall j :: 0 <= j < |was| && !(at <= j < at + |s|) ==> now[j] == was[j]
    ensures now == was[..at] + s + was[at + |s|..]
  {
  }

  /** A product with a factor that is not 0 is at least as far from 0 as the other factor. */
  lemma Multiple(k: int, n: nat)
    ensures k >= 1 ==> k * n >= n
    ensures k <= -1 ==> k * n <= 0 - n
  {
    if k >= 1 {
      assert (k - 1) * n >= 0;
    } else if k <= -1 {
      assert (-k - 1) * n >= 0;
    }
  }
}
