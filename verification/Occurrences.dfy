/** Dropping repeats from a list. */
module Occurrences {

  /** `out` is what remains of `all` when every repeat of an earlier element is dropped. */
  ghost predicate FirstOccurrences<T>(out: seq<T>, all: seq<T>)
    decreases |all|
  {
    if all == [] then out == []
    else
      var n := |all| - 1;
      if all[n] in all[..n] then FirstOccurrences(out, all[..n])
      else out != [] && out[|out| - 1] == all[n] && FirstOccurrences(out[..|out| - 1], all[..n])
  }

  lemma {:induction false} FirstOccurrencesAreAll<T>(out: seq<T>, all: seq<T>)
    requires FirstOccurrences(out, all)
    ensures forall x :: x in out <==> x in all
    decreases |all|
  {
    if all != [] {
      var n := |all| - 1;
      assert all == all[..n] + [all[n]];
      if all[n] in all[..n] {
        FirstOccurrencesAreAll(out, all[..n]);
      } else {
        FirstOccurrencesAreAll(out[..|out| - 1], all[..n]);
        assert out == out[..|out| - 1] + [out[|out| - 1]];
      }
    }
  }

  /** Each element appears once, and before every element that first occurs after it. */
  lemma {:induction false} FirstOccurrencesAreOrdered<T>(out: seq<T>, all: seq<T>)
    requires FirstOccurrences(out, all)
    ensures forall a, b | 0 <= a < b < |out| :: out[a] != out[b]
    ensures forall a, b | 0 <= a < b < |out| :: exists n | 0 <= n <= |all| :: out[a] in all[..n] && out[b] !in all[..n]
    decreases |all|
  {
    if all != [] {
      var n := |all| - 1;
      var last := |out| - 1;
      if all[n] in all[..n] {
        FirstOccurrencesAreOrdered(out, all[..n]);
        assert forall m | 0 <= m <= n :: all[..n][..m] == all[..m];
      } else {
        FirstOccurrencesAreOrdered(out[..last], all[..n]);
        FirstOccurrencesAreAll(out[..last], all[..n]);
        assert forall m | 0 <= m <= n :: all[..n][..m] == all[..m];
        forall a | 0 <= a < last
          ensures out[a] in all[..n] && out[last] !in all[..n]
        {
          assert out[a] in out[..last];
        }
      }
    }
  }

  ghost predicate SameElements<T>(seen: set<T>, out: seq<T>) {
    (forall x | x in seen :: x in out) && (forall x | x in out :: x in seen)
  }

  /** Keeping an element not yet seen, and passing over one that is. */
  lemma OneMoreOccurrence<T>(out: seq<T>, seen: set<T>, all: seq<T>, x: T)
    requires FirstOccurrences(out, all) && SameElements(seen, out)
    ensures x in seen ==> FirstOccurrences(out, all + [x])
    ensures x !in seen ==> FirstOccurrences(out + [x], all + [x]) && SameElements(seen + {x}, out + [x])
  {
    FirstOccurrencesAreAll(out, all);
    assert (all + [x])[..|all|] == all;
    assert (out + [x])[..|out|] == out;
  }
}
