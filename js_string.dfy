/** The JavaScript string and array operations the route helpers are built from:
    `String.prototype.split` with a one-character separator, `Array.prototype.join`,
    `String.prototype.lastIndexOf`, and a count of the occurrences of a pattern. */
module JsString {

  /** `p` occurs in `s` starting at index `i`. */
  predicate OccursAt(s: string, p: string, i: int) {
    0 <= i && i + |p| <= |s| && s[i..i + |p|] == p
  }

  /** `p` occurs somewhere in `s`. */
  predicate Occurs(s: string, p: string) {
    exists i | 0 <= i <= |s| - |p| :: OccursAt(s, p, i)
  }

  /** `s.split(c)`: the fields of `s` between the separators, always at least one
      (`"".split(",")` is `[""]`). */
  function Split(s: string, c: char): (r: seq<string>)
    ensures |r| >= 1
    ensures forall i :: 0 <= i < |r| ==> c !in r[i]
    ensures r[0] <= s && (|r[0]| < |s| ==> s[|r[0]|] == c)
    ensures |r| == 1 <==> c !in s
    decreases |s|
  {
    if s == [] then [""]
    else if s[0] == c then [""] + Split(s[1..], c)
    else
      var rest := Split(s[1..], c);
      assert s == [s[0]] + s[1..];
      [[s[0]] + rest[0]] + rest[1..]
  }

  /** `xs.join(sep)`: the elements with `sep` between neighbours; `""` when `xs` is
      empty. Every character of the result comes from an element or the separator. */
  function JoinWith(xs: seq<string>, sep: string): (r: string)
    ensures |xs| == 0 ==> r == ""
    ensures |xs| >= 1 ==> xs[0] <= r
    ensures forall ch :: ch in r ==> ch in sep || exists i | 0 <= i < |xs| :: ch in xs[i]
  {
    if |xs| == 0 then ""
    else if |xs| == 1 then xs[0]
    else
      assert forall i :: 1 <= i < |xs| ==> xs[i] == xs[1..][i - 1];
      xs[0] + sep + JoinWith(xs[1..], sep)
  }

  /** `s.lastIndexOf(p)`: the greatest index at which `p` occurs in `s`, or -1. */
  function LastIndexOf(s: string, p: string): (r: int)
    ensures r == -1 || 0 <= r <= |s| - |p|
    ensures r == -1 <==> !Occurs(s, p)
    ensures r >= 0 ==> OccursAt(s, p, r) && forall j :: r < j ==> !OccursAt(s, p, j)
  {
    LastIndexAtOrBefore(s, p, |s| - |p|)
  }

  /** The greatest index `j <= i` at which `p` occurs in `s`, or -1. */
  function LastIndexAtOrBefore(s: string, p: string, i: int): (r: int)
    ensures r == -1 || 0 <= r <= i
    ensures r >= 0 ==> OccursAt(s, p, r)
    ensures forall j :: r < j <= i ==> !OccursAt(s, p, j)
    decreases i + 1
  {
    if i < 0 then -1
    else if OccursAt(s, p, i) then i
    else LastIndexAtOrBefore(s, p, i - 1)
  }

  /** The number of indices at which `p` occurs in `s`. */
  function Occurrences(s: string, p: string): nat
    decreases |s|
  {
    if s == [] then 0
    else (if OccursAt(s, p, 0) then 1 else 0) + Occurrences(s[1..], p)
  }

  /** Every element of `xs` prefixed by `pad`. */
  function Indented(xs: seq<string>, pad: string): seq<string> {
    seq(|xs|, i requires 0 <= i < |xs| => pad + xs[i])
  }

  // ---------------------------------------------------------------------------
  // split and join undo each other

  /** A field followed by the separator splits off as the first field. */
  lemma {:induction false} SplitAfterField(x: string, c: char, rest: string)
    requires c !in x
    ensures Split(x + [c] + rest, c) == [x] + Split(rest, c)
    decreases |x|
  {
    var s := x + [c] + rest;
    if x == [] {
      assert s == [c] + rest && s[1..] == rest;
    } else {
      assert s[0] == x[0] && s[1..] == x[1..] + [c] + rest;
      SplitAfterField(x[1..], c, rest);
      assert [x[0]] + x[1..] == x;
    }
  }

  /** Splitting what was joined with a separator that no element contains gives the elements back. */
  lemma {:induction false} SplitJoin(xs: seq<string>, c: char)
    requires |xs| >= 1
    requires forall i :: 0 <= i < |xs| ==> c !in xs[i]
    ensures Split(JoinWith(xs, [c]), c) == xs
  {
    if |xs| == 1 {
      assert Split(xs[0], c)[0] == xs[0];
    } else {
      SplitJoin(xs[1..], c);
      SplitAfterField(xs[0], c, JoinWith(xs[1..], [c]));
      assert xs == [xs[0]] + xs[1..];
    }
  }

  /** Joining the fields of `s` with the separator they were split on gives `s` back. */
  lemma {:induction false} JoinSplit(s: string, c: char)
    ensures JoinWith(Split(s, c), [c]) == s
    decreases |s|
  {
    if s == [] {
      assert Split(s, c) == [""];
    } else {
      JoinSplit(s[1..], c);
      JoinSplitStep(s, c);
    }
  }

  /** One character more in front of the text: the step of `JoinSplit`. */
  lemma JoinSplitStep(s: string, c: char)
    requires s != [] && JoinWith(Split(s[1..], c), [c]) == s[1..]
    ensures JoinWith(Split(s, c), [c]) == s
  {
    if s[0] == c {
      JoinSplitAtSeparator(s, c);
    } else if |Split(s[1..], c)| == 1 {
      JoinSplitLastField(s, c);
    } else {
      JoinSplitInnerField(s, c);
    }
  }

  /** A leading separator opens an empty first field. */
  lemma JoinSplitAtSeparator(s: string, c: char)
    requires s != [] && s[0] == c && JoinWith(Split(s[1..], c), [c]) == s[1..]
    ensures JoinWith(Split(s, c), [c]) == s
  {
    var r := Split(s, c);
    var rest := Split(s[1..], c);
    assert s == [s[0]] + s[1..];
    assert r == [""] + rest && r[1..] == rest;
  }

  /** A leading character of a text without separator extends its only field. */
  lemma JoinSplitLastField(s: string, c: char)
    requires s != [] && s[0] != c && |Split(s[1..], c)| == 1
    requires JoinWith(Split(s[1..], c), [c]) == s[1..]
    ensures JoinWith(Split(s, c), [c]) == s
  {
    var r := Split(s, c);
    var rest := Split(s[1..], c);
    assert s == [s[0]] + s[1..];
    assert r == [[s[0]] + rest[0]];
  }

  /** A leading character before a separator extends the first of several fields. */
  lemma JoinSplitInnerField(s: string, c: char)
    requires s != [] && s[0] != c && |Split(s[1..], c)| > 1
    requires JoinWith(Split(s[1..], c), [c]) == s[1..]
    ensures JoinWith(Split(s, c), [c]) == s
  {
    var r := Split(s, c);
    var rest := Split(s[1..], c);
    var tail := rest[1..];
    var j := JoinWith(tail, [c]);
    assert r == [[s[0]] + rest[0]] + tail;
    assert r[1..] == tail;
    assert JoinWith(r, [c]) == r[0] + [c] + j;
    assert s[1..] == rest[0] + [c] + j;
    AppendAssoc([s[0]], rest[0], [c], j);
    assert s == [s[0]] + s[1..];
  }

  /** Regrouping a concatenation of four strings. */
  lemma AppendAssoc(x: string, y: string, z: string, w: string)
    ensures (x + y) + z + w == x + (y + z + w)
  {
  }

  /** Joining with a separator made of `c` and a padding is joining the padded
      elements (all but the first) with `c` alone. */
  lemma {:induction false} JoinPadded(xs: seq<string>, c: char, pad: string)
    requires |xs| >= 1
    ensures JoinWith(xs, [c] + pad) == JoinWith([xs[0]] + Indented(xs[1..], pad), [c])
    decreases |xs|
  {
    if |xs| > 1 {
      var tail := xs[1..];
      JoinPadded(tail, c, pad);
      var ys := [xs[0]] + Indented(tail, pad);
      assert ys[1..] == Indented(tail, pad);
      assert ys[1..][1..] == Indented(tail[1..], pad);
      if |tail| > 1 {
        assert JoinWith(Indented(tail, pad), [c])
            == pad + tail[0] + [c] + JoinWith(Indented(tail[1..], pad), [c]);
      }
    }
  }

  /** Three fields without the separator, joined by it, split back into those three. */
  lemma SplitThreeFields(x: string, y: string, z: string, c: char)
    requires c !in x && c !in y && c !in z
    ensures Split(x + [c] + y + [c] + z, c) == [x, y, z]
  {
    var sz := Split(z, c);
    forall i | 0 <= i < |z|
      ensures z[i] != c
    {
      assert z[i] in z;
    }
    assert |sz| == 1 && sz[0] == z;
    assert x + [c] + y + [c] + z == x + [c] + (y + [c] + z);
    SplitAfterField(x, c, y + [c] + z);
    SplitAfterField(y, c, z);
  }

  /** Splitting on `c` what was joined with `c` followed by a padding gives the
      first element, then every further element behind its padding. */
  lemma SplitPaddedJoin(xs: seq<string>, c: char, pad: string)
    requires |xs| >= 1
    requires c !in pad
    requires forall i :: 0 <= i < |xs| ==> c !in xs[i]
    ensures Split(JoinWith(xs, [c] + pad), c) == [xs[0]] + Indented(xs[1..], pad)
  {
    JoinPadded(xs, c, pad);
    var ys := [xs[0]] + Indented(xs[1..], pad);
    forall i | 0 <= i < |ys| ensures c !in ys[i] {
      if i > 0 {
        assert ys[i] == pad + xs[i];
      }
    }
    SplitJoin(ys, c);
  }

  // ---------------------------------------------------------------------------
  // occurrences of a pattern across a concatenation

  /** Occurrences in `s[1..]` are the occurrences in `s` shifted by one. */
  lemma OccursAtShift(s: string, p: string, i: int)
    requires s != [] && i >= 0
    ensures OccursAt(s[1..], p, i) <==> OccursAt(s, p, i + 1)
  {
    if i + |p| <= |s[1..]| {
      assert s[1..][i..i + |p|] == s[i + 1..i + 1 + |p|];
    }
  }

  /** Inside a stretch of `s` that holds `t`, the occurrences of `p` are those of `t`. */
  lemma OccursWithin(s: string, t: string, off: nat, p: string, j: int)
    requires off + |t| <= |s| && s[off..off + |t|] == t
    requires off <= j && j + |p| <= off + |t|
    ensures OccursAt(s, p, j) <==> OccursAt(t, p, j - off)
  {
    var u, v := s[j..j + |p|], t[j - off..j - off + |p|];
    forall q | 0 <= q < |p|
      ensures u[q] == v[q]
    {
      assert t[j - off + q] == s[off..off + |t|][j - off + q] == s[j + q];
    }
    assert u == v;
  }

  /** Between two copies of a character that `p` does not contain, the last
      occurrence of `p` in `f` is the last in the whole text when `b` holds none. */
  lemma LastIndexOfMiddle(a: string, c: char, f: string, b: string, p: string)
    requires c !in p && Occurs(f, p) && !Occurs(b, p)
    ensures LastIndexOf(a + [c] + f + [c] + b, p) == |a| + 1 + LastIndexOf(f, p)
  {
    var s := a + [c] + f + [c] + b;
    var lf := LastIndexOf(f, p);
    var start := |a| + 1;
    var fEnd := start + |f|;
    assert s[start..fEnd] == f;
    assert s[fEnd + 1..] == b;
    OccursWithin(s, f, start, p, start + lf);
    forall j | start + lf < j
      ensures !OccursAt(s, p, j)
    {
      if j + |p| <= fEnd {
        OccursWithin(s, f, start, p, j);
      } else if j <= fEnd {
        assert s[fEnd] == c;
      } else if j + |p| <= |s| {
        OccursWithin(s, b, fEnd + 1, p, j);
      }
    }
  }

  /** Putting `f`, between two copies of a character that `p` lacks, at a seam of
      `a + b` that no occurrence crosses adds the occurrences of `f` and no others. */
  lemma OccurrencesSplice(a: string, c: char, f: string, b: string, p: string)
    requires |p| > 0 && c !in p
    requires forall i :: 0 <= i < |a| < i + |p| ==> !OccursAt(a + b, p, i)
    ensures Occurrences(a + [c] + f + [c] + b, p) == Occurrences(a + b, p) + Occurrences(f, p)
  {
    assert a + [c] + f + [c] + b == a + [c] + (f + [c] + b);
    OccurrencesAroundChar(a, c, f + [c] + b, p);
    OccurrencesAroundChar(f, c, b, p);
    OccurrencesSplit(a, b, p);
  }

  /** A pattern that occurs is counted at least once. */
  lemma {:induction false} OccursCounted(s: string, p: string)
    requires |p| > 0 && Occurs(s, p)
    ensures Occurrences(s, p) > 0
    decreases |s|
  {
    if !OccursAt(s, p, 0) {
      var i :| 0 <= i <= |s| - |p| && OccursAt(s, p, i);
      OccursAtShift(s, p, i - 1);
      OccursCounted(s[1..], p);
    }
  }

  /** When no occurrence straddles the seam, the occurrences of `a + b` are those of `a` and those of `b`. */
  lemma {:induction false} OccurrencesSplit(a: string, b: string, p: string)
    requires forall i :: 0 <= i < |a| < i + |p| ==> !OccursAt(a + b, p, i)
    ensures Occurrences(a + b, p) == Occurrences(a, p) + Occurrences(b, p)
    decreases |a|
  {
    var ab := a + b;
    if a == [] {
      assert ab == b;
    } else {
      assert ab[1..] == a[1..] + b;
      forall i | 0 <= i < |a[1..]| < i + |p|
        ensures !OccursAt(a[1..] + b, p, i)
      {
        OccursAtShift(ab, p, i);
      }
      OccurrencesSplit(a[1..], b, p);
      if |p| <= |a| {
        assert ab[..|p|] == a[..|p|];
      } else {
        assert !OccursAt(ab, p, 0);
      }
    }
  }

  /** A character that is not in `p` is a seam no occurrence of `p` can cross. */
  lemma OccurrencesAroundChar(a: string, c: char, b: string, p: string)
    requires |p| > 0 && c !in p
    ensures Occurrences(a + [c] + b, p) == Occurrences(a, p) + Occurrences(b, p)
  {
    var cb := [c] + b;
    assert a + [c] + b == a + cb;
    forall i | 0 <= i < |a| < i + |p|
      ensures !OccursAt(a + cb, p, i)
    {
      assert (a + cb)[|a|] == c;
    }
    OccurrencesSplit(a, cb, p);
    assert cb[1..] == b;
  }

  /** A text that lacks one of the pattern's characters holds no occurrence of it. */
  lemma {:induction false} NoOccurrencesWithout(s: string, p: string, ch: char)
    requires ch in p && ch !in s
    ensures Occurrences(s, p) == 0
    decreases |s|
  {
    if s != [] {
      var k :| 0 <= k < |p| && p[k] == ch;
      if |p| <= |s| {
        assert s[..|p|][k] == s[k];
      }
      NoOccurrencesWithout(s[1..], p, ch);
    }
  }

  /** A text shorter than the pattern holds no occurrence of it. */
  lemma {:induction false} ShortTextNoOccurrences(s: string, p: string)
    requires |s| < |p|
    ensures Occurrences(s, p) == 0
    decreases |s|
  {
    if s != [] {
      ShortTextNoOccurrences(s[1..], p);
    }
  }

  /** A non-empty pattern occurs exactly once in itself. */
  lemma OccurrencesOfPattern(p: string)
    requires |p| > 0
    ensures Occurrences(p, p) == 1
  {
    assert p[0..|p|] == p;
    ShortTextNoOccurrences(p[1..], p);
  }

  /** Text in front that lacks the pattern's first character adds no occurrence. */
  lemma {:induction false} OccurrencesSkipPrefix(a: string, b: string, p: string)
    requires |p| > 0 && p[0] !in a
    ensures Occurrences(a + b, p) == Occurrences(b, p)
    decreases |a|
  {
    if a != [] {
      if |p| <= |a + b| {
        assert (a + b)[..|p|][0] == a[0];
      }
      assert (a + b)[1..] == a[1..] + b;
      OccurrencesSkipPrefix(a[1..], b, p);
    } else {
      assert a + b == b;
    }
  }

  /** A pattern that ends the text is last found there. */
  lemma LastIndexAtEnd(s: string, p: string)
    requires |p| <= |s| && OccursAt(s, p, |s| - |p|)
    ensures LastIndexOf(s, p) == |s| - |p|
  {
    assert Occurs(s, p);
  }
}
