/** The `java.lang.String` and `java.io` text operations the store and the
    client codec are built from: `indexOf`, `split` with and without a
    limit, and reading and writing lines. */
module JavaText {

  /** No char of `s` is one of `cs`. */
  predicate Free(s: string, cs: set<char>)
  {
    forall i :: 0 <= i < |s| ==> s[i] !in cs
  }

  /** A concatenation is free of `cs` exactly when both pieces are. */
  lemma FreeConcat(a: string, b: string, cs: set<char>)
    ensures Free(a + b, cs) <==> Free(a, cs) && Free(b, cs)
  {
    var x := a + b;
    assert forall i :: 0 <= i < |a| ==> x[i] == a[i];
    assert forall i :: 0 <= i < |b| ==> x[|a| + i] == b[i];
  }

  /** `indexOf` generalised to a set of chars: the first position of `s`
      holding one of `cs`, or -1 when there is none. */
  function IndexOfAny(s: string, cs: set<char>): (r: int)
    ensures -1 <= r < |s|
    ensures r < 0 <==> Free(s, cs)
    ensures r >= 0 ==> s[r] in cs && forall k :: 0 <= k < r ==> s[k] !in cs
    decreases |s|
  {
    if s == [] then -1
    else if s[0] in cs then 0
    else
      var j := IndexOfAny(s[1..], cs);
      assert forall k :: 0 <= k < |s| - 1 ==> s[1..][k] == s[k + 1];
      if j < 0 then -1 else j + 1
  }

  /** The first stop char after a prefix free of stop chars is the one
      right after that prefix. */
  lemma IndexAfterFreePrefix(a: string, cs: set<char>, c: char, b: string)
    requires Free(a, cs) && c in cs
    ensures IndexOfAny(a + [c] + b, cs) == |a|
  {
    var x := a + [c] + b;
    assert x[|a|] == c;
    assert forall k :: 0 <= k < |a| ==> x[k] == a[k];
  }

  /** `parts` without its trailing empty strings. */
  function DropTrailingEmpty(parts: seq<string>): (r: seq<string>)
    ensures |r| <= |parts| && r == parts[..|r|]
    ensures forall i :: |r| <= i < |parts| ==> parts[i] == []
    ensures |r| > 0 ==> r[|r| - 1] != []
    decreases |parts|
  {
    if |parts| > 0 && parts[|parts| - 1] == [] then DropTrailingEmpty(parts[..|parts| - 1])
    else parts
  }

  /** `s.split(String.valueOf(c))`, limit 0: with no separator the whole
      string is the only part; otherwise the pieces between separators,
      trailing empty strings removed. */
  function Split(s: string, c: char): (parts: seq<string>)
    ensures forall k :: 0 <= k < |parts| ==> c !in parts[k]
    ensures parts == [s] <==> c !in s
    ensures c in s && parts != [] ==> parts[|parts| - 1] != []
  {
    FreeOfChar(s, c);
    SplitAllFree(s, c);
    if Free(s, {c}) then [s] else DropTrailingEmpty(SplitAll(s, c))
  }

  /** `indexOf(c)`: the first position of `c` in `s`, or -1, as both
      `String.indexOf` and `List.indexOf` answer. */
  function IndexOf<T(==)>(s: seq<T>, c: T): (r: int)
    ensures -1 <= r < |s|
    ensures r < 0 <==> c !in s
    ensures r >= 0 ==> s[r] == c && c !in s[..r]
    decreases |s|
  {
    if s == [] then -1
    else if s[0] == c then 0
    else
      var j := IndexOf(s[1..], c);
      assert s == [s[0]] + s[1..];
      if j < 0 then -1
      else
        assert s[..j + 1] == [s[0]] + s[1..][..j];
        j + 1
  }

  /** Being free of one char is not containing it. */
  lemma FreeOfChar(s: string, c: char)
    ensures Free(s, {c}) <==> c !in s
  {
  }

  /** `s` cut at the first `c`: what comes before it, which holds no `c`,
      and what comes after it. */
  function Cut(s: string, c: char): (r: (string, string))
    requires c in s
    ensures s == r.0 + [c] + r.1 && c !in r.0
  {
    var i := IndexOf(s, c);
    assert s == s[..i] + [c] + s[i + 1..];
    (s[..i], s[i + 1..])
  }

  /** The cut is made at the first `c`, so a head without `c` is the one
      cut off. */
  lemma CutAfterHead(head: string, c: char, tail: string)
    requires c !in head
    ensures Cut(head + [c] + tail, c) == (head, tail)
  {
    var s := head + [c] + tail;
    var r := Cut(s, c);
    assert s[|head|] == c && s[|r.0|] == c;
    assert forall i :: 0 <= i < |head| ==> s[i] == head[i];
    assert forall i :: 0 <= i < |r.0| ==> s[i] == r.0[i];
    assert r.0 == s[..|head|] == head;
    assert r.1 == s[|head| + 1..] == tail;
  }

  /** Every piece of `s` between occurrences of `c`, empty ones included:
      what `split` finds before it trims anything. */
  function SplitAll(s: string, c: char): (parts: seq<string>)
    ensures |parts| >= 1
    decreases |s|
  {
    if c !in s then [s]
    else
      var cut := Cut(s, c);
      [cut.0] + SplitAll(cut.1, c)
  }

  /** No piece holds the separator. */
  lemma {:induction false} SplitAllFree(s: string, c: char)
    ensures forall k :: 0 <= k < |SplitAll(s, c)| ==> c !in SplitAll(s, c)[k]
    decreases |s|
  {
    if c in s {
      var cut := Cut(s, c);
      var rest := SplitAll(cut.1, c);
      SplitAllFree(cut.1, c);
      var parts := [cut.0] + rest;
      assert SplitAll(s, c) == parts;
      forall k | 0 <= k < |parts| ensures c !in parts[k] {
        if k > 0 {
          assert parts[k] == rest[k - 1];
        }
      }
    }
  }

  /** Splitting cuts a separator-free head off first. */
  lemma SplitAllCons(head: string, c: char, tail: string)
    requires Free(head, {c})
    ensures SplitAll(head + [c] + tail, c) == [head] + SplitAll(tail, c)
  {
    FreeOfChar(head, c);
    CutAfterHead(head, c, tail);
    assert c in head + [c] + tail by { assert (head + [c] + tail)[|head|] == c; }
  }

  /** `s.split(String.valueOf(c), limit)` for a positive limit: at most
      `limit - 1` cuts, the last part keeps the rest of the string, and
      trailing empty strings are kept. */
  function SplitLimit(s: string, c: char, limit: nat): (parts: seq<string>)
    requires limit >= 1
    ensures 1 <= |parts| <= limit
    decreases limit
  {
    if limit == 1 || c !in s then [s]
    else
      var cut := Cut(s, c);
      [cut.0] + SplitLimit(cut.1, c, limit - 1)
  }

  /** Every part of a split with a limit but the last is free of the
      separator. */
  lemma {:induction false} SplitLimitFree(s: string, c: char, limit: nat)
    requires limit >= 1
    ensures forall k :: 0 <= k < |SplitLimit(s, c, limit)| - 1 ==> c !in SplitLimit(s, c, limit)[k]
    decreases limit
  {
    if limit > 1 && c in s {
      var cut := Cut(s, c);
      var rest := SplitLimit(cut.1, c, limit - 1);
      SplitLimitFree(cut.1, c, limit - 1);
      var parts := [cut.0] + rest;
      assert SplitLimit(s, c, limit) == parts;
      forall k | 0 <= k < |parts| - 1 ensures c !in parts[k] {
        if k > 0 {
          assert parts[k] == rest[k - 1];
        }
      }
    }
  }

  /** The last part of a split that stopped short of its limit is free of
      the separator too. */
  lemma {:induction false} SplitLimitFreeLast(s: string, c: char, limit: nat)
    requires limit >= 1
    ensures |SplitLimit(s, c, limit)| < limit ==> c !in SplitLimit(s, c, limit)[|SplitLimit(s, c, limit)| - 1]
    decreases limit
  {
    if limit > 1 && c in s {
      SplitLimitFreeLast(Cut(s, c).1, c, limit - 1);
    }
  }

  /** A split with a limit cuts a separator-free head off first. */
  lemma SplitLimitCons(head: string, c: char, tail: string, limit: nat)
    requires limit >= 2 && Free(head, {c})
    ensures SplitLimit(head + [c] + tail, c, limit) == [head] + SplitLimit(tail, c, limit - 1)
  {
    FreeOfChar(head, c);
    CutAfterHead(head, c, tail);
    assert c in head + [c] + tail by { assert (head + [c] + tail)[|head|] == c; }
  }

  /** The chars at which `BufferedReader.readLine` ends a line. */
  const LineBreaks: set<char> := {'\n', '\r'}

  /** The lines successive `BufferedReader.readLine` calls return until the
      end of the text: a line ends at "\n", "\r" or "\r\n", and a last line
      without a terminator is returned too. */
  function ReadLines(text: string): (lines: seq<string>)
    ensures forall i :: 0 <= i < |lines| ==> Free(lines[i], LineBreaks)
    ensures text == [] <==> lines == []
    decreases |text|
  {
    if text == [] then []
    else
      var i := IndexOfAny(text, LineBreaks);
      if i < 0 then [text]
      else if text[i] == '\r' && i + 1 < |text| && text[i + 1] == '\n' then
        [text[..i]] + ReadLines(text[i + 2..])
      else
        [text[..i]] + ReadLines(text[i + 1..])
  }

  /** The text a `BufferedWriter` holds after `write(line); newLine();` for
      each line, the line separator being "\n". */
  function WriteLines(lines: seq<string>): (text: string)
    ensures text == [] <==> lines == []
    ensures text != [] ==> text[|text| - 1] == '\n'
    ensures |text| >= |lines|
    decreases |lines|
  {
    if lines == [] then [] else lines[0] + "\n" + WriteLines(lines[1..])
  }

  /** Reading one written line off the front of the text. */
  lemma ReadLinesCons(line: string, rest: string)
    requires Free(line, LineBreaks)
    ensures ReadLines(line + "\n" + rest) == [line] + ReadLines(rest)
  {
    var text := line + ['\n'] + rest;
    assert line + "\n" + rest == text;
    IndexAfterFreePrefix(line, LineBreaks, '\n', rest);
    assert text[..|line|] == line;
    assert text[|line| + 1..] == rest;
  }

  /** Reading back written lines gives the same lines, as long as no line
      holds a line break of its own. */
  lemma {:induction false} ReadWriteLines(lines: seq<string>)
    requires forall i :: 0 <= i < |lines| ==> Free(lines[i], LineBreaks)
    ensures ReadLines(WriteLines(lines)) == lines
    decreases |lines|
  {
    if lines != [] {
      ReadLinesCons(lines[0], WriteLines(lines[1..]));
      ReadWriteLines(lines[1..]);
      assert lines == [lines[0]] + lines[1..];
    }
  }
}
