/** The two JavaScript string operations the stream decoder relies on:
    `split` on a one-character separator and `slice` from a start index. */
module Text {

  /** `s.split(d)`: the pieces of `s` between consecutive occurrences of `d`,
      including empty pieces; never fewer than one piece. */
  function Split(s: string, d: char): (parts: seq<string>)
    ensures |parts| >= 1
    ensures forall p :: p in parts ==> d !in p
    decreases |s|
  {
    if |s| == 0 then [""]
    else
      var rest := Split(s[1..], d);
      if s[0] == d then [""] + rest
      else
        assert rest[0] in rest;
        [[s[0]] + rest[0]] + rest[1..]
  }

  /** `parts.join(d)`: the inverse of `Split` (see `SplitJoin`, `JoinSplit`). */
  function Join(parts: seq<string>, d: char): (s: string)
    requires |parts| >= 1
    decreases |parts|
  {
    if |parts| == 1 then parts[0] else parts[0] + [d] + Join(parts[1..], d)
  }

  /** `s.slice(start)` for a non-negative start: `s` without its first
      `start` characters, or empty when `s` is shorter than that. */
  function SliceFrom(s: string, start: nat): (r: string)
    ensures start <= |s| ==> s == s[..start] + r
    ensures start >= |s| ==> r == ""
  {
    if start <= |s| then s[start..] else ""
  }

  lemma SliceFromPrefix(prefix: string, rest: string)
    ensures SliceFrom(prefix + rest, |prefix|) == rest
  {
    assert (prefix + rest)[|prefix|..] == rest;
  }

  /** One step of `Split`: the first character either starts a new piece or
      extends the first piece of the rest. */
  lemma SplitCons(c: char, t: string, d: char)
    ensures c == d ==> Split([c] + t, d) == [""] + Split(t, d)
    ensures c != d ==> Split([c] + t, d) == [[c] + Split(t, d)[0]] + Split(t, d)[1..]
  {
    assert ([c] + t)[1..] == t;
  }

  /** `s.split(d)` has one more piece than `s` has separators. */
  lemma {:induction false} SplitCount(s: string, d: char)
    ensures |Split(s, d)| == multiset(s)[d] + 1
    decreases |s|
  {
    if |s| > 0 {
      SplitCount(s[1..], d);
      assert s == [s[0]] + s[1..];
      assert multiset(s) == multiset{s[0]} + multiset(s[1..]);
    }
  }

  /** Splitting at a separator splits the two sides independently. */
  lemma {:induction false} SplitAppend(a: string, b: string, d: char)
    ensures Split(a + [d] + b, d) == Split(a, d) + Split(b, d)
    decreases |a|
  {
    if |a| == 0 {
      assert a + [d] + b == [d] + b;
      SplitCons(d, b, d);
    } else {
      assert a + [d] + b == [a[0]] + (a[1..] + [d] + b);
      assert a == [a[0]] + a[1..];
      SplitAppend(a[1..], b, d);
      SplitAppendStep(a[0], a[1..], b, d);
    }
  }

  /** The inductive step of `SplitAppend`: one more leading character. */
  lemma SplitAppendStep(c: char, a: string, b: string, d: char)
    requires Split(a + [d] + b, d) == Split(a, d) + Split(b, d)
    ensures Split([c] + (a + [d] + b), d) == Split([c] + a, d) + Split(b, d)
  {
    SplitCons(c, a + [d] + b, d);
    SplitCons(c, a, d);
    var r := Split(a, d);
    var tail := Split(b, d);
    if c == d {
      assert [""] + (r + tail) == ([""] + r) + tail;
    } else {
      PiecesAppend(c, r, tail);
    }
  }

  /** Extending the first piece commutes with appending further pieces. */
  lemma PiecesAppend(c: char, r: seq<string>, tail: seq<string>)
    requires |r| >= 1
    ensures [[c] + (r + tail)[0]] + (r + tail)[1..] == ([[c] + r[0]] + r[1..]) + tail
  {
    assert (r + tail)[0] == r[0];
    assert (r + tail)[1..] == r[1..] + tail;
  }

  /** A string without the separator is a single piece. */
  lemma {:induction false} SplitWithoutSeparator(s: string, d: char)
    requires d !in s
    ensures Split(s, d) == [s]
    decreases |s|
  {
    if |s| > 0 {
      assert d !in s[1..] by {
        forall k | 0 <= k < |s[1..]| ensures s[1..][k] != d {
          assert s[1..][k] == s[k + 1];
        }
      }
      SplitWithoutSeparator(s[1..], d);
      assert s == [s[0]] + s[1..];
    }
  }

  /** Joining the pieces of a split gives back the string. */
  lemma {:induction false} SplitJoin(s: string, d: char)
    ensures Join(Split(s, d), d) == s
    decreases |s|
  {
    if |s| > 0 {
      var rest := Split(s[1..], d);
      SplitJoin(s[1..], d);
      assert Join(rest, d) == s[1..];
      if s[0] == d {
        assert Split(s, d) == [""] + rest;
        assert ([""] + rest)[1..] == rest;
        assert Join([""] + rest, d) == [d] + Join(rest, d);
      } else if |rest| == 1 {
        assert Split(s, d) == [[s[0]] + rest[0]];
        assert Join(rest, d) == rest[0];
      } else {
        var parts := [[s[0]] + rest[0]] + rest[1..];
        assert Split(s, d) == parts;
        assert parts[1..] == rest[1..];
        assert Join(rest, d) == rest[0] + [d] + Join(rest[1..], d);
        assert Join(parts, d) == [s[0]] + rest[0] + [d] + Join(rest[1..], d);
      }
      assert s == [s[0]] + s[1..];
    }
  }

  /** Splitting a join of separator-free pieces gives back the pieces. */
  lemma {:induction false} JoinSplit(parts: seq<string>, d: char)
    requires |parts| >= 1
    requires forall k :: 0 <= k < |parts| ==> d !in parts[k]
    ensures Split(Join(parts, d), d) == parts
    decreases |parts|
  {
    SplitWithoutSeparator(parts[0], d);
    if |parts| > 1 {
      JoinSplit(parts[1..], d);
      SplitAppend(parts[0], Join(parts[1..], d), d);
      assert parts == [parts[0]] + parts[1..];
    }
  }
}
