/** The order the stub server's LFU priority queue keeps its keys in: by
    access frequency, ties broken by `String.compareTo`. */
module LfuOrder {
  import opened Java

  /** `String.compareTo`: at the first position where the strings differ,
      the difference of the two chars; when one string is a prefix of the
      other, the difference of the lengths. */
  function CompareTo(a: string, b: string): (r: int)
    ensures forall k :: 0 <= k < |a| && k < |b| && a[..k] == b[..k] && a[k] != b[k] ==>
      r == a[k] as int - b[k] as int
    ensures |a| <= |b| && a == b[..|a|] ==> r == |a| - |b|
    ensures |b| <= |a| && b == a[..|b|] ==> r == |a| - |b|
    decreases |a|
  {
    if a == [] || b == [] then |a| - |b|
    else if a[0] != b[0] then a[0] as int - b[0] as int
    else
      assert forall k :: 0 < k <= |a| && k <= |b| && a[..k] == b[..k] ==> a[1..][..k - 1] == b[1..][..k - 1];
      CompareTo(a[1..], b[1..])
  }

  /** Lexicographic order on strings, stated without `compareTo`: `a` is a
      proper prefix of `b`, or the two agree up to a position where `a`
      has the smaller char. */
  predicate LexLess(a: string, b: string)
  {
    || (|a| < |b| && a == b[..|a|])
    || exists k :: 0 <= k < |a| && k < |b| && a[..k] == b[..k] && a[k] < b[k]
  }

  /** `compareTo` answers zero exactly for equal strings. */
  lemma {:induction false} CompareToZero(a: string, b: string)
    ensures CompareTo(a, b) == 0 <==> a == b
    decreases |a|
  {
    if a != [] && b != [] && a[0] == b[0] {
      CompareToZero(a[1..], b[1..]);
      assert a == [a[0]] + a[1..] && b == [b[0]] + b[1..];
    }
  }

  /** `compareTo` is negative exactly when the first string comes first
      lexicographically. */
  lemma {:induction false} CompareToLess(a: string, b: string)
    ensures CompareTo(a, b) < 0 <==> LexLess(a, b)
    decreases |a|
  {
    if a == [] || b == [] {
    } else if a[0] != b[0] {
      LexLessHead(a, b);
      assert a[..0] == b[..0];
    } else {
      CompareToLess(a[1..], b[1..]);
      LexLessTail(a, b);
    }
  }

  /** A string that comes first lexicographically starts with a char no
      greater than the other string's first. */
  lemma LexLessHead(a: string, b: string)
    requires a != [] && b != []
    ensures LexLess(a, b) ==> a[0] <= b[0]
  {
    if |a| < |b| && a == b[..|a|] {
      assert a[0] == b[..|a|][0];
    } else if LexLess(a, b) {
      var k :| 0 <= k < |a| && k < |b| && a[..k] == b[..k] && a[k] < b[k];
      if k > 0 {
        assert a[..k][0] == b[..k][0];
      }
    }
  }

  /** Two strings that start with the same char compare as their tails. */
  lemma LexLessTail(a: string, b: string)
    requires a != [] && b != [] && a[0] == b[0]
    ensures LexLess(a, b) <==> LexLess(a[1..], b[1..])
  {
    var a', b' := a[1..], b[1..];
    if LexLess(a', b') {
      if |a'| < |b'| && a' == b'[..|a'|] {
        assert a == [a[0]] + a' && b[..|a|] == [b[0]] + b'[..|a'|];
      } else {
        var k :| 0 <= k < |a'| && k < |b'| && a'[..k] == b'[..k] && a'[k] < b'[k];
        assert a[..k + 1] == [a[0]] + a'[..k] && b[..k + 1] == [b[0]] + b'[..k];
        assert a[k + 1] < b[k + 1];
      }
    }
    if LexLess(a, b) {
      if |a| < |b| && a == b[..|a|] {
        assert a' == b'[..|a'|];
      } else {
        var k :| 0 <= k < |a| && k < |b| && a[..k] == b[..k] && a[k] < b[k];
        assert k > 0;
        assert a'[..k - 1] == a[1..k] && b'[..k - 1] == b[1..k];
        assert a'[k - 1] < b'[k - 1];
      }
    }
  }

  /** `compareTo` with its arguments swapped answers the negation. */
  lemma {:induction false} CompareToAntisymmetric(a: string, b: string)
    ensures CompareTo(b, a) == -CompareTo(a, b)
    decreases |a|
  {
    if a != [] && b != [] && a[0] == b[0] {
      CompareToAntisymmetric(a[1..], b[1..]);
    }
  }

  /** Lexicographic order is transitive. */
  lemma {:induction false} CompareToTransitive(a: string, b: string, c: string)
    requires CompareTo(a, b) < 0 && CompareTo(b, c) < 0
    ensures CompareTo(a, c) < 0
    decreases |a|
  {
    if a != [] && b != [] && c != [] && a[0] == b[0] && b[0] == c[0] {
      CompareToTransitive(a[1..], b[1..], c[1..]);
    }
  }

  /** `Integer.compare`: -1, 0 or 1 as `x` is below, equal to or above `y`. */
  function IntegerCompare(x: int, y: int): (r: int)
    ensures r < 0 <==> x < y
    ensures r == 0 <==> x == y
    ensures -1 <= r <= 1
  {
    if x < y then -1 else if x == y then 0 else 1
  }

  /** The queue's comparator: frequencies first, then the keys themselves.
      Both keys must have a frequency, or unboxing the missing one throws. */
  function Compare(freq: map<string, int>, a: string, b: string): (r: int)
    requires a in freq && b in freq
    ensures freq[a] < freq[b] ==> r < 0
    ensures freq[a] > freq[b] ==> r > 0
    ensures r == 0 <==> a == b
  {
    var byFreq := IntegerCompare(freq[a], freq[b]);
    CompareToZero(a, b);
    if byFreq != 0 then byFreq else CompareTo(a, b)
  }

  /** The comparator's order spelt out: lower frequency first, and among
      equal frequencies the lexicographically smaller key first. */
  predicate Precedes(freq: map<string, int>, a: string, b: string)
    requires a in freq && b in freq
  {
    freq[a] < freq[b] || (freq[a] == freq[b] && LexLess(a, b))
  }

  /** The comparator is negative exactly when the first key precedes the
      second, and zero exactly for the same key. */
  lemma CompareMeaning(freq: map<string, int>, a: string, b: string)
    requires a in freq && b in freq
    ensures Compare(freq, a, b) < 0 <==> Precedes(freq, a, b)
    ensures Compare(freq, a, b) == 0 <==> a == b
  {
    CompareToLess(a, b);
    CompareToZero(a, b);
  }

  /** Swapping the keys flips the comparator's sign. */
  lemma CompareAntisymmetric(freq: map<string, int>, a: string, b: string)
    requires a in freq && b in freq
    ensures Compare(freq, a, b) < 0 <==> Compare(freq, b, a) > 0
  {
    CompareToAntisymmetric(a, b);
  }

  /** The comparator's order is transitive. */
  lemma CompareTransitive(freq: map<string, int>, a: string, b: string, c: string)
    requires a in freq && b in freq && c in freq
    requires Compare(freq, a, b) < 0 && Compare(freq, b, c) < 0
    ensures Compare(freq, a, c) < 0
  {
    if freq[a] == freq[b] == freq[c] {
      CompareToTransitive(a, b, c);
    }
  }

  /** Any two distinct keys are ordered one way or the other: with the
      lemmas above, the comparator is a strict total order on tracked keys. */
  lemma CompareTotal(freq: map<string, int>, a: string, b: string)
    requires a in freq && b in freq && a != b
    ensures Precedes(freq, a, b) != Precedes(freq, b, a)
  {
    CompareMeaning(freq, a, b);
    CompareMeaning(freq, b, a);
    CompareAntisymmetric(freq, a, b);
  }
}
