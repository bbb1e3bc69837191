/** The handful of Python `str` and `list` operations the tokenizer relies on. */
module Text {

  /** `s.startswith(p)` */
  predicate IsPrefix(p: string, s: string)
  {
    |p| <= |s| && s[..|p|] == p
  }

  /** `p` occurs somewhere in `s` (Python's `p in s` for strings). */
  ghost predicate OccursIn(p: string, s: string)
  {
    exists i :: 0 <= i <= |s| && IsPrefix(p, s[i..])
  }

  /** `"".join(parts)` */
  function Concat(parts: seq<string>): string
  {
    if |parts| == 0 then "" else parts[0] + Concat(parts[1..])
  }

  /** Joining is a homomorphism from lists of strings to strings. */
  lemma {:induction false} ConcatAppend(a: seq<string>, b: seq<string>)
    ensures Concat(a + b) == Concat(a) + Concat(b)
  {
    if |a| == 0 {
      assert a + b == b;
    } else {
      assert (a + b)[1..] == a[1..] + b;
      ConcatAppend(a[1..], b);
    }
  }

  /** Regrouping four concatenated sequences. */
  lemma RegroupAppend<T>(w: seq<T>, x: seq<T>, y: seq<T>, z: seq<T>)
    ensures w + (x + (y + z)) == (w + (x + y)) + z
  {
  }

  /** Joining one part gives that part. */
  lemma ConcatSingle(x: string)
    ensures Concat([x]) == x
  {
    assert [x][1..] == [];
  }

  /** Joined parts line up: part `i` starts right after the join of the parts before it. */
  lemma {:induction false} ConcatAt(parts: seq<string>, i: nat)
    requires i < |parts|
    ensures Concat(parts) == Concat(parts[..i]) + parts[i] + Concat(parts[i + 1..])
  {
    assert parts == parts[..i] + ([parts[i]] + parts[i + 1..]);
    ConcatAppend(parts[..i], [parts[i]] + parts[i + 1..]);
    ConcatAppend([parts[i]], parts[i + 1..]);
    assert Concat([parts[i]]) == parts[i];
  }

  /**
   * Joining with a one-character separator, Python's `sep.join(parts)`. Used only to
   * state that the fields `Split` returns rejoin to its input.
   */
  function JoinWith(parts: seq<string>, sep: char): string
  {
    if |parts| == 0 then ""
    else if |parts| == 1 then parts[0]
    else parts[0] + [sep] + JoinWith(parts[1..], sep)
  }

  /** Prepending a character to the first part prepends it to the joined string. */
  lemma JoinWithConsFirst(c: char, first: string, tail: seq<string>, sep: char)
    ensures JoinWith([[c] + first] + tail, sep) == [c] + JoinWith([first] + tail, sep)
  {
    var parts := [[c] + first] + tail;
    if |tail| > 0 {
      assert parts[1..] == tail;
      assert ([first] + tail)[1..] == tail;
    }
  }

  /**
   * `s.split(sep)` with an explicit one-character separator: the pieces between
   * consecutive separators, so there is always at least one piece, and an empty
   * piece wherever two separators touch or one sits at an end.
   */
  function Split(s: string, sep: char): (r: seq<string>)
    ensures |r| >= 1
    ensures forall i :: 0 <= i < |r| ==> sep !in r[i]
    ensures JoinWith(r, sep) == s
    ensures sep in s <==> |r| >= 2
    decreases |s|
  {
    if |s| == 0 then [""]
    else
      var rest := Split(s[1..], sep);
      assert s == [s[0]] + s[1..];
      if s[0] == sep then
        assert ([""] + rest)[1..] == rest;
        [""] + rest
      else
        JoinWithConsFirst(s[0], rest[0], rest[1..], sep);
        assert [rest[0]] + rest[1..] == rest;
        [[s[0]] + rest[0]] + rest[1..]
  }

  /** Text without the separator is a single field. */
  lemma SplitNoSeparator(s: string, sep: char)
    requires sep !in s
    ensures Split(s, sep) == [s]
  {
    var r := Split(s, sep);
    assert |r| == 1;
    assert JoinWith(r, sep) == r[0];
  }

  /** A leading separator-free run followed by a separator is the first field, and splitting goes on after it. */
  lemma {:induction false} SplitAfterField(a: string, b: string, sep: char)
    requires sep !in a
    ensures Split(a + [sep] + b, sep) == [a] + Split(b, sep)
    decreases |a|
  {
    var s := a + [sep] + b;
    if |a| == 0 {
      assert s[0] == sep && s[1..] == b;
    } else {
      assert s[0] == a[0];
      assert s[1..] == a[1..] + [sep] + b;
      SplitAfterField(a[1..], b, sep);
      assert [a[0]] + a[1..] == a;
    }
  }

  /** The first two fields of `a`, separator, `b`, then nothing or another separator. */
  lemma SplitFirstFields(a: string, b: string, tail: string, sep: char)
    requires sep !in a && sep !in b
    requires tail == "" || tail[0] == sep
    ensures |Split(a + [sep] + b + tail, sep)| >= 2
    ensures Split(a + [sep] + b + tail, sep)[0] == a && Split(a + [sep] + b + tail, sep)[1] == b
  {
    assert a + [sep] + b + tail == a + [sep] + (b + tail);
    SplitAfterField(a, b + tail, sep);
    assert |Split(b + tail, sep)| >= 1 && Split(b + tail, sep)[0] == b by {
      if tail == "" {
        assert b + tail == b;
        SplitNoSeparator(b, sep);
      } else {
        assert b + tail == b + [sep] + tail[1..];
        SplitAfterField(b, tail[1..], sep);
      }
    }
  }

  /** The third field of `a`, separator, `b`, separator, `c`, then nothing or another separator. */
  lemma SplitThirdField(a: string, b: string, c: string, tail: string, sep: char)
    requires sep !in a && sep !in b && sep !in c
    requires tail == "" || tail[0] == sep
    ensures |Split(a + [sep] + (b + [sep] + c + tail), sep)| >= 3
    ensures Split(a + [sep] + (b + [sep] + c + tail), sep)[2] == c
  {
    SplitAfterField(a, b + [sep] + c + tail, sep);
    SplitFirstFields(b, c, tail, sep);
  }

  /** `s.replace(from, to)` for single characters. */
  function Replace(s: string, from: char, to: char): (r: string)
    ensures |r| == |s|
    ensures forall i :: 0 <= i < |s| && s[i] != from ==> r[i] == s[i]
    ensures forall i :: 0 <= i < |s| && s[i] == from ==> r[i] == to
  {
    if |s| == 0 then ""
    else [if s[0] == from then to else s[0]] + Replace(s[1..], from, to)
  }

  /** `list(s)`: one single-character string per character, in order. */
  function Chars(s: string): (r: seq<string>)
    ensures |r| == |s|
    ensures forall i :: 0 <= i < |s| ==> r[i] == [s[i]]
    ensures Concat(r) == s
  {
    if |s| == 0 then []
    else
      assert ([[s[0]]] + Chars(s[1..]))[1..] == Chars(s[1..]);
      [[s[0]]] + Chars(s[1..])
  }

  /** `a` is `b` with some elements deleted, the rest kept in order. */
  ghost predicate IsSubsequence<T>(a: seq<T>, b: seq<T>)
    decreases |b|
  {
    if |a| == 0 then true
    else if |b| == 0 then false
    else (a[0] == b[0] && IsSubsequence(a[1..], b[1..])) || IsSubsequence(a, b[1..])
  }

  /** Taking an element out of a sum of multisets takes it out of each. */
  lemma MultisetRemoveAdd<T>(x: multiset<T>, y: multiset<T>, e: T)
    ensures (x + y)[e := 0] == x[e := 0] + y[e := 0]
  {
  }

  /** A subsequence is never longer than what it was taken from. */
  lemma {:induction false} SubsequenceLength<T>(a: seq<T>, b: seq<T>)
    requires IsSubsequence(a, b)
    ensures |a| <= |b|
    decreases |b|
  {
    if |a| > 0 {
      if a[0] == b[0] && IsSubsequence(a[1..], b[1..]) {
        SubsequenceLength(a[1..], b[1..]);
      } else {
        SubsequenceLength(a, b[1..]);
      }
    }
  }

  /** Keeping the same element in front of both keeps a subsequence a subsequence. */
  lemma SubsequenceCons<T>(x: T, a: seq<T>, b: seq<T>)
    requires IsSubsequence(a, b)
    ensures IsSubsequence([x] + a, [x] + b)
  {
    assert ([x] + a)[0] == x && ([x] + a)[1..] == a;
    assert ([x] + b)[0] == x && ([x] + b)[1..] == b;
  }

  /** Deleting a whole block in front keeps a subsequence a subsequence. */
  lemma {:induction false} SubsequenceSkip<T>(a: seq<T>, x: seq<T>, b: seq<T>)
    requires IsSubsequence(a, b)
    ensures IsSubsequence(a, x + b)
    decreases |x|
  {
    if |x| == 0 {
      assert x + b == b;
    } else {
      SubsequenceSkip(a, x[1..], b);
      assert (x + b)[1..] == x[1..] + b;
      assert |a| == 0 || IsSubsequence(a, (x + b)[1..]);
    }
  }
}
