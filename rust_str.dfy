/**
 * The two slice/string operations of Rust's standard library the parser
 * relies on: `str::split(sep)` with a single-character separator, and
 * `chunks_exact(2)` on a sequence of characters.
 */
module RustStr {

  /** Number of occurrences of c in s. */
  function Occurrences<T(==)>(s: seq<T>, c: T): (n: nat)
    ensures n <= |s|
    ensures n == 0 <==> c !in s
  {
    if s == [] then 0 else (if s[0] == c then 1 else 0) + Occurrences(s[1..], c)
  }

  /**
   * `s.split(sep).collect::<Vec<_>>()`: the maximal runs between separators.
   * There is always at least one part: "" gives [""] and "#" gives ["", ""].
   */
  function Split(s: string, sep: char): (parts: seq<string>)
    ensures |parts| >= 1
  {
    if s == [] then [[]]
    else
      var rest := Split(s[1..], sep);
      if s[0] == sep then [[]] + rest else [[s[0]] + rest[0]] + rest[1..]
  }

  /** There is one more part than there are separators, and no part contains a separator. */
  lemma {:induction false} SplitShape(s: string, sep: char)
    ensures |Split(s, sep)| == Occurrences(s, sep) + 1
    ensures forall i :: 0 <= i < |Split(s, sep)| ==> sep !in Split(s, sep)[i]
  {
    if s != [] {
      var rest := Split(s[1..], sep);
      SplitShape(s[1..], sep);
      if s[0] != sep {
        assert sep !in [s[0]] + rest[0];
      }
    }
  }

  /** The parts glued back together with the separator between them. */
  function Join(parts: seq<string>, sep: char): string
    requires |parts| >= 1
  {
    if |parts| == 1 then parts[0] else parts[0] + [sep] + Join(parts[1..], sep)
  }

  /** Joining a part list whose head is prefixed by one character. */
  lemma JoinExtendHead(x: char, parts: seq<string>, sep: char)
    requires |parts| >= 1
    ensures Join([[x] + parts[0]] + parts[1..], sep) == [x] + Join(parts, sep)
  {
    var extended := [[x] + parts[0]] + parts[1..];
    if |parts| > 1 {
      assert extended[1..] == parts[1..];
      var more := Join(parts[1..], sep);
      assert Join(extended, sep) == ([x] + parts[0]) + [sep] + more;
      assert Join(parts, sep) == parts[0] + [sep] + more;
      assert ([x] + parts[0]) + [sep] + more == [x] + (parts[0] + [sep] + more);
    }
  }

  /** Joining a part list whose head is empty puts one separator first. */
  lemma JoinEmptyHead(parts: seq<string>, sep: char)
    requires |parts| >= 1
    ensures Join([[]] + parts, sep) == [sep] + Join(parts, sep)
  {
    assert ([[]] + parts)[1..] == parts;
  }

  /** Splitting loses nothing: joining the parts again gives back the input. */
  lemma {:induction false} JoinSplit(s: string, sep: char)
    ensures Join(Split(s, sep), sep) == s
  {
    if s != [] {
      var rest := Split(s[1..], sep);
      JoinSplit(s[1..], sep);
      if s[0] == sep {
        JoinEmptyHead(rest, sep);
      } else {
        JoinExtendHead(s[0], rest, sep);
      }
      assert s == [s[0]] + s[1..];
    }
  }

  /** A string free of the separator is a single part. */
  lemma {:induction false} SplitWithoutSeparator(s: string, sep: char)
    requires sep !in s
    ensures Split(s, sep) == [s]
  {
    if s != [] {
      assert s[0] != sep;
      assert sep !in s[1..];
      SplitWithoutSeparator(s[1..], sep);
      assert [s[0]] + s[1..] == s;
    }
  }

  /** Two separator-free strings joined by one separator split back into exactly those two. */
  lemma {:induction false} SplitAroundSeparator(a: string, b: string, sep: char)
    requires sep !in a && sep !in b
    ensures Split(a + [sep] + b, sep) == [a, b]
  {
    var s := a + [sep] + b;
    if a == [] {
      assert s[1..] == b;
      SplitWithoutSeparator(b, sep);
    } else {
      assert s[0] == a[0] != sep;
      assert sep !in a[1..];
      assert s[1..] == a[1..] + [sep] + b;
      SplitAroundSeparator(a[1..], b, sep);
      assert [a[0]] + a[1..] == a;
    }
  }

  /**
   * `s.chunks_exact(2)`: consecutive non-overlapping pairs, left to right;
   * a trailing unpaired element is left out.
   */
  function ChunksExact2<T>(s: seq<T>): (chunks: seq<seq<T>>)
    ensures |chunks| == |s| / 2
    ensures forall i :: 0 <= i < |chunks| ==> chunks[i] == s[2 * i..2 * i + 2]
  {
    if |s| < 2 then [] else [s[..2]] + ChunksExact2(s[2..])
  }

  /** After an even-length prefix, one more element does not change the chunks: it has no partner. */
  lemma {:induction false} ChunksExact2DropsUnpaired<T>(s: seq<T>, x: T)
    requires |s| % 2 == 0
    ensures ChunksExact2(s + [x]) == ChunksExact2(s)
  {
    if |s| >= 2 {
      assert (s + [x])[..2] == s[..2];
      assert (s + [x])[2..] == s[2..] + [x];
      ChunksExact2DropsUnpaired(s[2..], x);
    }
  }
}
