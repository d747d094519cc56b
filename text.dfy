/** The string operations the joiner relies on: strings.Index,
    strings.Split, strings.Join and Go's byte-wise `<` on strings. */
module Text {
  import opened Common

  predicate OccursAt(s: string, sep: string, i: nat) {
    i + |sep| <= |s| && s[i..i + |sep|] == sep
  }

  /** The first occurrence of `sep` in `s` at or after position `k`. */
  function IndexFrom(s: string, sep: string, k: nat): (r: Option<nat>)
    requires k <= |s|
    decreases |s| - k
    ensures r.Some? ==> k <= r.value && OccursAt(s, sep, r.value)
  {
    if OccursAt(s, sep, k) then Some(k)
    else if k == |s| then None
    else IndexFrom(s, sep, k + 1)
  }

  /** IndexFrom finds the first occurrence, and finds nothing only when
      there is none. */
  lemma {:induction false} IndexFromFirst(s: string, sep: string, k: nat, j: nat)
    requires k <= j <= |s| && OccursAt(s, sep, j)
    ensures IndexFrom(s, sep, k).Some? && IndexFrom(s, sep, k).value <= j
    decreases |s| - k
  {
    if !OccursAt(s, sep, k) {
      IndexFromFirst(s, sep, k + 1, j);
    }
  }

  /** strings.Index: the position of the first occurrence of `sep`. */
  function IndexOf(s: string, sep: string): (r: Option<nat>)
    ensures r.Some? ==> OccursAt(s, sep, r.value)
  {
    IndexFrom(s, sep, 0)
  }

  /** strings.Index finds the first occurrence, and reports none only
      when `sep` occurs nowhere in `s`. */
  lemma IndexOfFirst(s: string, sep: string)
    ensures IndexOf(s, sep).Some? ==> forall j :: 0 <= j < IndexOf(s, sep).value ==> !OccursAt(s, sep, j)
    ensures IndexOf(s, sep).None? <==> forall j :: 0 <= j <= |s| ==> !OccursAt(s, sep, j)
  {
    forall j | 0 <= j <= |s| && OccursAt(s, sep, j)
      ensures IndexOf(s, sep).Some? && IndexOf(s, sep).value <= j
    {
      IndexFromFirst(s, sep, 0, j);
    }
  }

  /** strings.Split with a non-empty separator: the pieces between
      successive left-to-right, non-overlapping occurrences of `sep`. */
  function Split(s: string, sep: string): (r: seq<string>)
    requires |sep| > 0
    ensures |r| >= 1
    ensures (|r| == 1) <==> IndexOf(s, sep).None?
    decreases |s|
  {
    match IndexOf(s, sep)
    case None => [s]
    case Some(i) => [s[..i]] + Split(s[i + |sep|..], sep)
  }

  /** The last piece of a split holds no separator. */
  lemma {:induction false} SplitLast(s: string, sep: string)
    requires |sep| > 0
    ensures var r := Split(s, sep); IndexOf(r[|r| - 1], sep).None?
    decreases |s|
  {
    match IndexOf(s, sep)
    case None =>
    case Some(i) =>
      var rest := s[i + |sep|..];
      SplitLast(rest, sep);
      SplitStep(s, sep, i);
      LastOfCons(s[..i], Split(rest, sep));
  }

  /** strings.Join: the pieces with `sep` between neighbours. */
  function JoinWith(pieces: seq<string>, sep: string): string
    requires |pieces| >= 1
  {
    if |pieces| == 1 then pieces[0] else pieces[0] + sep + JoinWith(pieces[1..], sep)
  }

  lemma JoinWithCons(a: string, rest: seq<string>, sep: string)
    requires |rest| >= 1
    ensures JoinWith([a] + rest, sep) == a + sep + JoinWith(rest, sep)
  {
    assert ([a] + rest)[1..] == rest;
  }

  lemma SliceAround(s: string, i: nat, n: nat)
    requires i + n <= |s|
    ensures s == s[..i] + s[i..i + n] + s[i + n..]
  {
  }

  /** Splitting loses nothing: joining the pieces again restores the string. */
  lemma {:induction false} SplitJoinRoundTrip(s: string, sep: string)
    requires |sep| > 0
    ensures JoinWith(Split(s, sep), sep) == s
    decreases |s|
  {
    match IndexOf(s, sep)
    case None =>
    case Some(i) =>
      var rest := s[i + |sep|..];
      SplitJoinRoundTrip(rest, sep);
      JoinWithCons(s[..i], Split(rest, sep), sep);
      SliceAround(s, i, |sep|);
  }

  /** A string in which the first character of `sep` never appears holds
      no occurrence of `sep`. */
  lemma NoOccurrenceWithoutLead(d: string, sep: string)
    requires |sep| > 0 && sep[0] !in d
    ensures IndexOf(d, sep).None?
  {
    assert forall j :: 0 <= j < |d| ==> d[j] != sep[0];
  }

  lemma SplitStep(s: string, sep: string, i: nat)
    requires |sep| > 0 && IndexOf(s, sep) == Some(i)
    ensures Split(s, sep) == [s[..i]] + Split(s[i + |sep|..], sep)
  {
  }

  lemma LastOfCons(x: string, tail: seq<string>)
    requires |tail| >= 1
    ensures |[x] + tail| >= 2 && ([x] + tail)[|[x] + tail| - 1] == tail[|tail| - 1]
  {
  }

  /** Two occurrences of `sep` cannot overlap when its first character
      occurs nowhere else in it. */
  lemma NoOverlap(s: string, sep: string, i: nat, p: nat)
    requires |sep| > 0 && sep[0] !in sep[1..]
    requires OccursAt(s, sep, i) && OccursAt(s, sep, p) && i < p
    ensures i + |sep| <= p
  {
    assert s[p] == s[p..p + |sep|][0] == sep[0];
    forall m | 0 < m < |sep| ensures sep[m] != sep[0] {
      assert sep[m] == sep[1..][m - 1];
    }
    forall t | 0 <= t < |sep| ensures sep[t] == s[i + t] {
      assert s[i..i + |sep|][t] == s[i + t];
    }
  }

  /** What follows the occurrence at `i` keeps the occurrence at `p` and
      the text after it. */
  lemma ShiftPastOccurrence(s: string, sep: string, i: nat, p: nat)
    requires OccursAt(s, sep, p) && i + |sep| <= p
    ensures OccursAt(s[i + |sep|..], sep, p - i - |sep|)
    ensures s[i + |sep|..][p - i - |sep| + |sep|..] == s[p + |sep|..]
  {
    var rest := s[i + |sep|..];
    var p' := p - i - |sep|;
    assert rest[p'..p' + |sep|] == s[p..p + |sep|];
  }

  /** When the first character of `sep` occurs nowhere else in `sep`, an
      occurrence at `p` followed by text free of that character makes the
      last piece of the split the text after `p`: no earlier occurrence can
      reach past `p`. */
  lemma {:induction false} SplitLastPieceAt(s: string, sep: string, p: nat)
    requires |sep| > 0 && sep[0] !in sep[1..]
    requires OccursAt(s, sep, p) && sep[0] !in s[p + |sep|..]
    ensures |Split(s, sep)| >= 2 && Split(s, sep)[|Split(s, sep)| - 1] == s[p + |sep|..]
    decreases |s|, 1
  {
    IndexFromFirst(s, sep, 0, p);
    var i := IndexOf(s, sep).value;
    if i == p {
      LastPieceAtFirst(s, sep, p);
    } else {
      LastPieceAfterFirst(s, sep, p, i);
    }
  }

  lemma LastPieceAtFirst(s: string, sep: string, p: nat)
    requires |sep| > 0 && IndexOf(s, sep) == Some(p) && sep[0] !in s[p + |sep|..]
    ensures |Split(s, sep)| >= 2 && Split(s, sep)[|Split(s, sep)| - 1] == s[p + |sep|..]
  {
    var rest := s[p + |sep|..];
    NoOccurrenceWithoutLead(rest, sep);
    SplitStep(s, sep, p);
    LastOfCons(s[..p], Split(rest, sep));
  }

  lemma {:induction false} LastPieceAfterFirst(s: string, sep: string, p: nat, i: nat)
    requires |sep| > 0 && sep[0] !in sep[1..]
    requires OccursAt(s, sep, p) && sep[0] !in s[p + |sep|..]
    requires IndexOf(s, sep) == Some(i) && i < p
    ensures |Split(s, sep)| >= 2 && Split(s, sep)[|Split(s, sep)| - 1] == s[p + |sep|..]
    decreases |s|, 0
  {
    var rest := s[i + |sep|..];
    NoOverlap(s, sep, i, p);
    ShiftPastOccurrence(s, sep, i, p);
    SplitLastPieceAt(rest, sep, p - i - |sep|);
    SplitStep(s, sep, i);
    LastOfCons(s[..i], Split(rest, sep));
  }

  /** The same for a string built as `a + sep + d`, whatever `a` holds. */
  lemma SplitLastPiece(a: string, sep: string, d: string)
    requires |sep| > 0 && sep[0] !in sep[1..] && sep[0] !in d
    ensures |Split(a + sep + d, sep)| >= 2
    ensures Split(a + sep + d, sep)[|Split(a + sep + d, sep)| - 1] == d
  {
    var s := a + sep + d;
    assert s[|a|..|a| + |sep|] == sep;
    assert s[|a| + |sep|..] == d;
    SplitLastPieceAt(s, sep, |a|);
  }

  /** Go's `<` on strings: byte-wise lexicographic order, a proper prefix
      first. Characters stand for bytes; UTF-8 keeps code-point order. */
  predicate LexLess(a: string, b: string): (r: bool)
    ensures r ==> a != b
    ensures |a| < |b| && a == b[..|a|] ==> r
    decreases |a|
  {
    if |a| == 0 then |b| > 0
    else if |b| == 0 then false
    else if a[0] != b[0] then a[0] < b[0]
    else LexLess(a[1..], b[1..])
  }

  lemma {:induction false} LexLessIrreflexive(a: string)
    ensures !LexLess(a, a)
    decreases |a|
  {
    if |a| > 0 {
      LexLessIrreflexive(a[1..]);
    }
  }

  lemma {:induction false} LexLessAsymmetric(a: string, b: string)
    requires LexLess(a, b)
    ensures !LexLess(b, a)
    decreases |a|
  {
    if |a| > 0 && |b| > 0 && a[0] == b[0] {
      LexLessAsymmetric(a[1..], b[1..]);
    }
  }

  lemma {:induction false} LexLessTransitive(a: string, b: string, c: string)
    requires LexLess(a, b) && LexLess(b, c)
    ensures LexLess(a, c)
    decreases |a|
  {
    if |a| > 0 && a[0] == b[0] && b[0] == c[0] {
      LexLessTransitive(a[1..], b[1..], c[1..]);
    }
  }

  lemma {:induction false} LexLessTotal(a: string, b: string)
    requires a != b
    ensures LexLess(a, b) || LexLess(b, a)
    decreases |a|
  {
    if |a| > 0 && |b| > 0 && a[0] == b[0] {
      assert a == [a[0]] + a[1..] && b == [b[0]] + b[1..];
      LexLessTotal(a[1..], b[1..]);
    }
  }

  /** A common prefix does not change the order. */
  lemma {:induction false} LexLessCommonPrefix(p: string, a: string, b: string)
    ensures LexLess(p + a, p + b) <==> LexLess(a, b)
    decreases |p|
  {
    if p != [] {
      assert (p + a)[0] == p[0] == (p + b)[0];
      assert (p + a)[1..] == p[1..] + a && (p + b)[1..] == p[1..] + b;
      LexLessCommonPrefix(p[1..], a, b);
    } else {
      assert p + a == a && p + b == b;
    }
  }
}
