/** String helpers with the semantics of the Rust standard library functions
    the modelled code calls: `split` on one character, joining with one
    separator, `ends_with`, single-character `replace`, and the ordering of
    `String`. */
module Strings {

  /** `s.split(sep)`: the separator-free pieces between the occurrences of
      `sep`, in order; an empty string splits into one empty piece. */
  function Split(s: string, sep: char): (parts: seq<string>)
    ensures |parts| >= 1
    ensures forall i :: 0 <= i < |parts| ==> sep !in parts[i]
    ensures Join(parts, sep) == s
  {
    if |s| == 0 then [""]
    else
      var rest := Split(s[1..], sep);
      if s[0] == sep then
        assert s == [sep] + s[1..];
        [""] + rest
      else
        var parts := [[s[0]] + rest[0]] + rest[1..];
        assert parts[1..] == rest[1..];
        assert s == [s[0]] + s[1..];
        parts
  }

  /** The pieces separated by single `sep` characters. */
  function Join(parts: seq<string>, sep: char): string
  {
    if |parts| == 0 then ""
    else if |parts| == 1 then parts[0]
    else parts[0] + [sep] + Join(parts[1..], sep)
  }

  /** A string without a separator is a single piece. */
  lemma {:induction false} SplitWithoutSeparator(s: string, sep: char)
    requires sep !in s
    ensures Split(s, sep) == [s]
  {
    if |s| > 0 {
      SplitWithoutSeparator(s[1..], sep);
      assert s == [s[0]] + s[1..];
    }
  }

  /** Splitting distributes over one separator occurrence. */
  lemma {:induction false} SplitAround(a: string, b: string, sep: char)
    ensures Split(a + [sep] + b, sep) == Split(a, sep) + Split(b, sep)
  {
    var s := a + [sep] + b;
    if |a| == 0 {
      assert s[0] == sep && s[1..] == b;
    } else {
      assert s[0] == a[0];
      assert s[1..] == a[1..] + [sep] + b;
      SplitAround(a[1..], b, sep);
      var rest := Split(s[1..], sep);
      var head := Split(a[1..], sep);
      assert rest == head + Split(b, sep);
      if a[0] == sep {
        assert Split(s, sep) == [""] + rest;
        assert Split(a, sep) == [""] + head;
      } else {
        assert Split(s, sep) == [[a[0]] + rest[0]] + rest[1..];
        assert Split(a, sep) == [[a[0]] + head[0]] + head[1..];
        assert rest[0] == head[0];
        assert rest[1..] == head[1..] + Split(b, sep);
      }
    }
  }

  /** Split undoes Join when no piece contains the separator. */
  lemma {:induction false} SplitJoin(parts: seq<string>, sep: char)
    requires |parts| >= 1
    requires forall i :: 0 <= i < |parts| ==> sep !in parts[i]
    ensures Split(Join(parts, sep), sep) == parts
  {
    if |parts| == 1 {
      SplitWithoutSeparator(parts[0], sep);
    } else {
      SplitAround(parts[0], Join(parts[1..], sep), sep);
      SplitWithoutSeparator(parts[0], sep);
      SplitJoin(parts[1..], sep);
      assert parts == [parts[0]] + parts[1..];
    }
  }

  /** There is a second piece exactly when the separator occurs. */
  lemma SplitHasTwoFieldsIffSeparator(s: string, sep: char)
    ensures |Split(s, sep)| >= 2 <==> sep in s
  {
    var parts := Split(s, sep);
    if sep !in s {
      SplitWithoutSeparator(s, sep);
    }
    assert |parts| == 1 ==> Join(parts, sep) == parts[0];
  }

  /** `f` is the text of `s` that starts right after the first `sep` and
      runs up to the next `sep` or to the end. */
  predicate PieceAfterFirst(s: string, sep: char, f: string)
  {
    exists i :: 0 <= i < |s| && s[i] == sep && sep !in s[..i]
      && i + 1 + |f| <= |s| && s[i + 1..i + 1 + |f|] == f
      && (i + 1 + |f| == |s| || s[i + 1 + |f|] == sep)
  }

  lemma PieceAfterFirstWitness(s: string, sep: char, head: string, f: string, tail: string)
    requires s == head + [sep] + f + tail && sep !in head && (tail == [] || tail[0] == sep)
    ensures PieceAfterFirst(s, sep, f)
  {
    var i := |head|;
    assert s[i] == sep;
    assert s[..i] == head;
    assert s[i + 1..i + 1 + |f|] == f;
  }

  /** The second piece of a split is the text after the first separator. */
  lemma SecondPieceFollowsFirstSeparator(s: string, sep: char)
    requires |Split(s, sep)| >= 2
    ensures PieceAfterFirst(s, sep, Split(s, sep)[1])
  {
    var fields := Split(s, sep);
    var head := fields[0];
    var rest := fields[1..];
    var tail := if |rest| == 1 then "" else [sep] + Join(rest[1..], sep);
    var mid := Join(rest, sep);
    assert mid == rest[0] + tail;
    assert s == head + [sep] + mid;
    assert s == head + [sep] + rest[0] + tail;
    PieceAfterFirstWitness(s, sep, head, fields[1], tail);
  }

  /** The last piece of a join is a suffix of the joined string. */
  lemma {:induction false} JoinEndsWithLast(parts: seq<string>, sep: char)
    requires |parts| >= 1
    ensures EndsWith(Join(parts, sep), parts[|parts| - 1])
  {
    if |parts| > 1 {
      JoinEndsWithLast(parts[1..], sep);
      var tail := Join(parts[1..], sep);
      var last := parts[|parts| - 1];
      var whole := parts[0] + [sep] + tail;
      assert whole[|whole| - |last|..] == tail[|tail| - |last|..];
    }
  }

  /** `s.ends_with(suffix)`. */
  predicate EndsWith(s: string, suffix: string)
  {
    |suffix| <= |s| && s[|s| - |suffix|..] == suffix
  }

  lemma EndsWithAppended(s: string, suffix: string)
    ensures EndsWith(s + suffix, suffix)
  {
    assert (s + suffix)[|s|..] == suffix;
  }

  /** A suffix of a suffix is a suffix. */
  lemma EndsWithTransitive(s: string, mid: string, suffix: string)
    requires EndsWith(s, mid) && EndsWith(mid, suffix)
    ensures EndsWith(s, suffix)
  {
    assert s[|s| - |suffix|..] == mid[|mid| - |suffix|..];
  }

  /** `s.replace(from, to)` for single characters. */
  function Replace(s: string, from: char, to: char): (r: string)
    ensures |r| == |s|
    ensures forall i :: 0 <= i < |s| ==> r[i] == (if s[i] == from then to else s[i])
  {
    seq(|s|, i requires 0 <= i < |s| => if s[i] == from then to else s[i])
  }

  lemma ReplaceAbsent(s: string, from: char, to: char)
    requires from !in s
    ensures Replace(s, from, to) == s
  {
  }

  /** The order of Rust `String`s: lexicographic on UTF-8 bytes, which is the
      lexicographic order on code points that Dafny's `char` comparison gives. */
  predicate Less(a: string, b: string)
  {
    if |a| == 0 then |b| > 0
    else |b| > 0 && (a[0] < b[0] || (a[0] == b[0] && Less(a[1..], b[1..])))
  }

  lemma {:induction false} LessIrreflexive(a: string)
    ensures !Less(a, a)
  {
    if |a| > 0 {
      LessIrreflexive(a[1..]);
    }
  }

  lemma {:induction false} LessTransitive(a: string, b: string, c: string)
    requires Less(a, b) && Less(b, c)
    ensures Less(a, c)
  {
    if |a| > 0 && a[0] == b[0] && b[0] == c[0] {
      LessTransitive(a[1..], b[1..], c[1..]);
    }
  }

  lemma {:induction false} LessTotal(a: string, b: string)
    ensures a == b || Less(a, b) || Less(b, a)
  {
    if |a| > 0 && |b| > 0 && a[0] == b[0] {
      LessTotal(a[1..], b[1..]);
      if a[1..] == b[1..] {
        assert a == [a[0]] + a[1..] && b == [b[0]] + b[1..];
      }
    }
  }

  lemma {:induction false} LessAsymmetric(a: string, b: string)
    requires Less(a, b)
    ensures !Less(b, a)
  {
    if |a| > 0 && a[0] == b[0] {
      LessAsymmetric(a[1..], b[1..]);
    }
  }

  /** Sorted without duplicates. */
  predicate StrictlyIncreasing(s: seq<string>)
  {
    forall i, j :: 0 <= i < j < |s| ==> Less(s[i], s[j])
  }
}
