/** Java-language notions the key-value store's code leans on: references
    that may be null, 32-bit `int` arithmetic, the text a reference turns
    into under string concatenation, ASCII upper-casing and the unspecified
    iteration order of a `java.util.HashMap`. */
module Java {

  /** A reference that may be null. */
  datatype Option<+T> = None | Some(value: T)

  /** A `java.lang.String` reference: null, or a sequence of chars. */
  type JString = Option<string>

  /** The text string concatenation produces for a reference: Java writes a
      null reference as the four letters "null". */
  function AsText(s: JString): (text: string)
    ensures s.None? ==> text == "null"
    ensures s.Some? ==> text == s.value
  {
    match s
    case None => "null"
    case Some(t) => t
  }

  const IntMin: int := -0x8000_0000
  const IntMax: int := 0x7fff_ffff

  predicate IsInt(x: int)
  {
    IntMin <= x <= IntMax
  }

  /** `x + 1` on a Java `int`: two's-complement, so Integer.MAX_VALUE wraps
      to Integer.MIN_VALUE. */
  function IntInc(x: int): (r: int)
    requires IsInt(x)
    ensures IsInt(r)
    ensures (r - x - 1) % 0x1_0000_0000 == 0
    ensures x < IntMax ==> r == x + 1
    ensures x == IntMax ==> r < x
  {
    if x == IntMax then IntMin else x + 1
  }

  predicate IsLowerAscii(c: char)
  {
    'a' <= c <= 'z'
  }

  /** `String.toUpperCase()` restricted to ASCII letters. */
  function ToUpperAscii(s: string): (r: string)
    ensures |r| == |s|
    ensures forall i :: 0 <= i < |r| ==> !IsLowerAscii(r[i])
    ensures forall i :: 0 <= i < |s| && !IsLowerAscii(s[i]) ==> r[i] == s[i]
    ensures forall i :: 0 <= i < |s| && IsLowerAscii(s[i]) ==> r[i] as int == s[i] as int - 32
  {
    if s == [] then []
    else
      var c := if IsLowerAscii(s[0]) then (s[0] as int - 32) as char else s[0];
      [c] + ToUpperAscii(s[1..])
  }

  /** No element occurs twice. */
  predicate Distinct<T(==)>(xs: seq<T>)
  {
    forall i, j :: 0 <= i < j < |xs| ==> xs[i] != xs[j]
  }

  /** The order in which a `HashMap` with key set `keys` hands out its
      entries. Java leaves it unspecified; the model fixes SOME enumeration
      of the keys and nothing else is known about it. */
  ghost function IterationOrder(keys: set<string>): (order: seq<string>)
    ensures |order| == |keys|
    ensures forall x :: x in order <==> x in keys
    ensures Distinct(order)
    decreases keys
  {
    if keys == {} then []
    else
      var x :| x in keys;
      [x] + IterationOrder(keys - {x})
  }

  /** Removing a present key shrinks a map by one. */
  lemma CardRemove<V>(m: map<string, V>, key: string)
    requires key in m
    ensures (m - {key}).Keys == m.Keys - {key}
    ensures |m - {key}| == |m| - 1
  {
    assert (m - {key}).Keys == m.Keys - {key};
    assert m.Keys == (m - {key}).Keys + {key};
  }

  /** Adding an absent key grows a map by one. */
  lemma CardAdd<V>(m: map<string, V>, key: string, value: V)
    requires key !in m
    ensures |m[key := value]| == |m| + 1
  {
    assert m[key := value].Keys == m.Keys + {key};
  }

  /** A set drawn from the elements of a sequence is no larger than it. */
  lemma {:induction false} CardAtMostLength(s: set<string>, xs: seq<string>)
    requires forall x :: x in s ==> x in xs
    ensures |s| <= |xs|
    decreases |xs|
  {
    if xs == [] {
      assert s == {};
    } else {
      var rest := s - {xs[0]};
      forall x | x in rest ensures x in xs[1..] {
        assert x in xs && x != xs[0];
        var i :| 0 <= i < |xs| && xs[i] == x;
        assert xs[1..][i - 1] == x;
      }
      CardAtMostLength(rest, xs[1..]);
    }
  }
}
