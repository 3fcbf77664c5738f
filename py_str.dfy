/** The few Python string and tuple operations the log-id helpers are built
    from: `s.split(sep)`, `sep.join(parts)`, the clamping slice `xs[lo:hi]`,
    and the `<` comparison of strings and of tuples of strings. */
module PyStr {

  /** Python's `s.split(sep)` for a one-character separator: every occurrence
      of `sep` ends a field, empty fields are kept, and `"".split(sep)` is
      `[""]`. The contract pins the result down completely: the fields hold
      no separator and joining them back gives `s`. */
  function Split(s: string, sep: char): (parts: seq<string>)
    ensures |parts| >= 1
    ensures forall i :: 0 <= i < |parts| ==> sep !in parts[i]
    ensures Join(sep, parts) == s
    decreases |s|
  {
    if |s| == 0 then [""]
    else
      var rest := Split(s[1..], sep);
      if s[0] == sep then
        assert s == [sep] + s[1..];
        [""] + rest
      else
        assert s == [s[0]] + s[1..];
        JoinUnfold(sep, rest);
        JoinUnfold(sep, [[s[0]] + rest[0]] + rest[1..]);
        [[s[0]] + rest[0]] + rest[1..]
  }

  /** Python's `sep.join(parts)`: the first part comes first, followed by the
      separator when there is a second part. */
  function Join(sep: char, parts: seq<string>): (s: string)
    ensures |parts| == 1 ==> s == parts[0]
    ensures |parts| >= 2 ==> parts[0] + [sep] <= s
  {
    if |parts| == 0 then ""
    else if |parts| == 1 then parts[0]
    else parts[0] + [sep] + Join(sep, parts[1..])
  }

  /** Python's `xs[lo:hi]` for non-negative bounds: out-of-range bounds are
      clamped to the length instead of failing. */
  function Slice<T>(xs: seq<T>, lo: nat, hi: nat): (r: seq<T>)
    ensures |r| == if hi <= lo || |xs| <= lo then 0 else (if hi <= |xs| then hi else |xs|) - lo
    ensures forall i :: 0 <= i < |r| ==> r[i] == xs[lo + i]
  {
    var h := if hi <= |xs| then hi else |xs|;
    if h <= lo then [] else xs[lo..h]
  }

  /** Field `i` of a split result, or `""` when there is no such field:
      what `'_'.join(parts[i:i+1])` evaluates to. */
  function Field(parts: seq<string>, i: nat): string
  {
    if i < |parts| then parts[i] else ""
  }

  /** One unfolding of Join on a sequence with at least two fields. */
  lemma JoinUnfold(sep: char, parts: seq<string>)
    ensures |parts| >= 2 ==> Join(sep, parts) == parts[0] + [sep] + Join(sep, parts[1..])
    ensures |parts| >= 1 ==> Join(sep, parts) == parts[0] + (if |parts| == 1 then "" else [sep] + Join(sep, parts[1..]))
  {
  }

  /** Joining a one-field slice gives that field, and an empty slice gives "". */
  lemma JoinSingleSlice(sep: char, parts: seq<string>, i: nat)
    ensures Join(sep, Slice(parts, i, i + 1)) == Field(parts, i)
  {
  }

  /** Joining the slice of two fields `lo` and `lo + 1` gives them with the
      separator between, or just the first one when the second is missing. */
  lemma JoinPairSlice(sep: char, parts: seq<string>, lo: nat)
    ensures Join(sep, Slice(parts, lo, lo + 2)) ==
      if lo + 2 <= |parts| then parts[lo] + [sep] + parts[lo + 1] else Field(parts, lo)
  {
    if lo + 2 <= |parts| {
      var r := Slice(parts, lo, lo + 2);
      assert r == [parts[lo], parts[lo + 1]];
      assert r[1..] == [parts[lo + 1]];
    }
  }

  /** A separator-free prefix followed by the separator splits off as one field. */
  lemma {:induction false} SplitCons(w: string, sep: char, t: string)
    requires sep !in w
    ensures Split(w + [sep] + t, sep) == [w] + Split(t, sep)
    decreases |w|
  {
    var s := w + [sep] + t;
    if |w| == 0 {
      assert s == [sep] + t;
      assert s[1..] == t;
    } else {
      assert s[0] == w[0];
      assert s[1..] == w[1..] + [sep] + t;
      SplitCons(w[1..], sep, t);
      assert [w[0]] + w[1..] == w;
    }
  }

  /** A string without the separator is a single field. */
  lemma {:induction false} SplitNoSep(w: string, sep: char)
    requires sep !in w
    ensures Split(w, sep) == [w]
    decreases |w|
  {
    if |w| > 0 {
      SplitNoSep(w[1..], sep);
      assert [w[0]] + w[1..] == w;
    }
  }

  /** The round trip the other way: splitting a join of separator-free
      fields gives the fields back. */
  lemma {:induction false} SplitJoin(sep: char, parts: seq<string>)
    requires |parts| >= 1
    requires forall i :: 0 <= i < |parts| ==> sep !in parts[i]
    ensures Split(Join(sep, parts), sep) == parts
    decreases |parts|
  {
    if |parts| == 1 {
      SplitNoSep(parts[0], sep);
    } else {
      SplitJoin(sep, parts[1..]);
      SplitCons(parts[0], sep, Join(sep, parts[1..]));
      assert [parts[0]] + parts[1..] == parts;
    }
  }

  /** A tag, the separator, then the join of some fields: splitting gives the
      tag and the fields back, or the tag and one empty field when there
      were no fields. */
  lemma SplitTagged(tag: string, sep: char, parts: seq<string>)
    requires sep !in tag
    requires forall i :: 0 <= i < |parts| ==> sep !in parts[i]
    ensures Split(tag + [sep] + Join(sep, parts), sep) == [tag] + (if |parts| == 0 then [""] else parts)
  {
    SplitCons(tag, sep, Join(sep, parts));
    if |parts| > 0 { SplitJoin(sep, parts); }
  }

  /** Python's `a < b` on strings: code points compared left to right, and a
      proper prefix is smaller. */
  predicate Less(a: string, b: string)
    ensures Less(a, b) ==> a != b
    // a proper prefix of b is smaller than b
    ensures |a| < |b| && a == b[..|a|] ==> Less(a, b)
    decreases |a|
  {
    if |b| == 0 then false
    else if |a| == 0 then true
    else if a[0] != b[0] then a[0] < b[0]
    else Less(a[1..], b[1..])
  }

  lemma {:induction false} LessIrreflexive(a: string)
    ensures !Less(a, a)
    decreases |a|
  {
    if |a| > 0 { LessIrreflexive(a[1..]); }
  }

  lemma {:induction false} LessTransitive(a: string, b: string, c: string)
    requires Less(a, b) && Less(b, c)
    ensures Less(a, c)
    decreases |a|
  {
    if |a| > 0 && a[0] == b[0] && b[0] == c[0] {
      LessTransitive(a[1..], b[1..], c[1..]);
    }
  }

  /** Distinct strings are always ordered one way or the other. */
  lemma {:induction false} LessTotal(a: string, b: string)
    requires a != b
    ensures Less(a, b) || Less(b, a)
    decreases |a|
  {
    if |a| > 0 && |b| > 0 && a[0] == b[0] {
      assert a == [a[0]] + a[1..] && b == [b[0]] + b[1..];
      LessTotal(a[1..], b[1..]);
    }
  }

  /** Python's `a < b` on tuples of strings: the first differing component
      decides, and a proper prefix is smaller. */
  predicate TupleLess(a: seq<string>, b: seq<string>)
    ensures TupleLess(a, b) ==> a != b
    // a proper prefix of b is smaller than b
    ensures |a| < |b| && a == b[..|a|] ==> TupleLess(a, b)
    decreases |a|
  {
    if |b| == 0 then false
    else if |a| == 0 then true
    else if a[0] != b[0] then Less(a[0], b[0])
    else TupleLess(a[1..], b[1..])
  }

  /** A common prefix does not change how two tuples compare. */
  lemma {:induction false} TupleLessCommonPrefix(p: seq<string>, a: seq<string>, b: seq<string>)
    ensures TupleLess(p + a, p + b) == TupleLess(a, b)
    decreases |p|
  {
    if |p| > 0 {
      assert (p + a)[1..] == p[1..] + a;
      assert (p + b)[1..] == p[1..] + b;
      TupleLessCommonPrefix(p[1..], a, b);
    } else {
      assert p + a == a && p + b == b;
    }
  }

  lemma {:induction false} TupleLessIrreflexive(a: seq<string>)
    ensures !TupleLess(a, a)
    decreases |a|
  {
    if |a| > 0 { TupleLessIrreflexive(a[1..]); }
  }

  lemma {:induction false} TupleLessTransitive(a: seq<string>, b: seq<string>, c: seq<string>)
    requires TupleLess(a, b) && TupleLess(b, c)
    ensures TupleLess(a, c)
    decreases |a|
  {
    if |a| > 0 && |b| > 0 && |c| > 0 {
      if a[0] == b[0] && b[0] == c[0] {
        TupleLessTransitive(a[1..], b[1..], c[1..]);
      } else if a[0] != b[0] && b[0] != c[0] {
        LessTransitive(a[0], b[0], c[0]);
      }
    }
  }

  lemma {:induction false} TupleLessTotal(a: seq<string>, b: seq<string>)
    requires a != b
    ensures TupleLess(a, b) || TupleLess(b, a)
    decreases |a|
  {
    if |a| > 0 && |b| > 0 {
      if a[0] == b[0] {
        assert a == [a[0]] + a[1..] && b == [b[0]] + b[1..];
        TupleLessTotal(a[1..], b[1..]);
      } else {
        LessTotal(a[0], b[0]);
      }
    }
  }
}
