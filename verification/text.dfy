/**
 * The JavaScript string and array operations the recipient pipelines are
 * built from: `trim`, `split`, `join`, `[...new Set(xs)]`, `filter`, and
 * number-to-string conversion, stated over `seq<char>`.
 */
module Text {

  /** A character that JavaScript's `\s` matches and `String.prototype.trim`
      strips: the WhiteSpace and LineTerminator code points. */
  predicate IsSpace(c: char) {
    c == ' ' || c == '\t' || c == '\n' || c == '\r' || c == '\U{B}' || c == '\U{C}'
    || c == '\U{A0}' || c == '\U{1680}' || ('\U{2000}' <= c <= '\U{200A}')
    || c == '\U{2028}' || c == '\U{2029}' || c == '\U{202F}' || c == '\U{205F}'
    || c == '\U{3000}' || c == '\U{FEFF}'
  }

  predicate AllSpace(s: string) {
    forall i | 0 <= i < |s| :: IsSpace(s[i])
  }

  /** No character of `s` is a separator. */
  predicate Free(s: string, sep: char -> bool) {
    forall i | 0 <= i < |s| :: !sep(s[i])
  }

  /** The separator of `split(',')`. */
  predicate IsComma(c: char) {
    c == ','
  }

  /** `s` has no whitespace at either end (what `trim` leaves). */
  predicate Trimmed(s: string) {
    s == [] || (!IsSpace(s[0]) && !IsSpace(s[|s| - 1]))
  }

  /** The number of whitespace characters `s` starts with. */
  function LeadingSpaces(s: string): (n: nat)
    ensures n <= |s|
    ensures forall i | 0 <= i < n :: IsSpace(s[i])
    ensures n == |s| || !IsSpace(s[n])
  {
    if |s| > 0 && IsSpace(s[0]) then 1 + LeadingSpaces(s[1..]) else 0
  }

  /** The number of whitespace characters `s` ends with. */
  function TrailingSpaces(s: string): (n: nat)
    ensures n <= |s|
    ensures forall i | |s| - n <= i < |s| :: IsSpace(s[i])
    ensures n == |s| || !IsSpace(s[|s| - n - 1])
  {
    if |s| > 0 && IsSpace(s[|s| - 1]) then 1 + TrailingSpaces(s[..|s| - 1]) else 0
  }

  /** `String.prototype.trim`: `s` without its leading and trailing whitespace. */
  function Trim(s: string): (r: string)
    ensures Trimmed(r)
  {
    var a := LeadingSpaces(s);
    var b := |s| - TrailingSpaces(s[a..]);
    s[a..b]
  }

  /** `Trim(s)` is the stretch of `s` between its leading and trailing
      whitespace; `i` is where it starts. */
  lemma TrimInfix(s: string) returns (i: nat)
    ensures i + |Trim(s)| <= |s|
    ensures forall j | 0 <= j < |Trim(s)| :: Trim(s)[j] == s[i + j]
    ensures forall j | 0 <= j < i :: IsSpace(s[j])
    ensures forall j | i + |Trim(s)| <= j < |s| :: IsSpace(s[j])
  {
    i := LeadingSpaces(s);
    var t := s[i..];
    var m := TrailingSpaces(t);
    forall j | i + |Trim(s)| <= j < |s| ensures IsSpace(s[j]) {
      assert s[j] == t[j - i];
    }
  }
  /** Trimming is determined by the trimmed text alone: any whitespace padding
      around a trimmed string is removed, and nothing else is. */
  lemma TrimPadded(p: string, x: string, q: string)
    requires AllSpace(p) && AllSpace(q) && Trimmed(x)
    ensures Trim(p + x + q) == x
  {
    var s := p + x + q;
    if x == [] {
      assert s == (p + q) + [];
      assert AllSpace(p + q);
      LeadingSpacesPadded(p + q, []);
    } else {
      assert s == p + (x + q);
      LeadingSpacesPadded(p, x + q);
      assert s[|p|..] == x + q;
      TrailingSpacesPadded(x, q);
      assert s[|p|..|s| - |q|] == x;
    }
  }

  lemma {:induction false} LeadingSpacesPadded(p: string, y: string)
    requires AllSpace(p) && (y == [] || !IsSpace(y[0]))
    ensures LeadingSpaces(p + y) == |p|
    decreases |p|
  {
    if p != [] {
      assert (p + y)[1..] == p[1..] + y;
      LeadingSpacesPadded(p[1..], y);
    }
  }

  lemma {:induction false} TrailingSpacesPadded(y: string, q: string)
    requires AllSpace(q) && (y == [] || !IsSpace(y[|y| - 1]))
    ensures TrailingSpaces(y + q) == |q|
    decreases |q|
  {
    if q != [] {
      assert (y + q)[..|y + q| - 1] == y + q[..|q| - 1];
      TrailingSpacesPadded(y, q[..|q| - 1]);
    }
  }

  lemma TrimmedIsFixed(x: string)
    requires Trimmed(x)
    ensures Trim(x) == x
  {
    TrimPadded([], x, []);
    assert [] + x + [] == x;
  }

  lemma TrimIdempotent(s: string)
    ensures Trim(Trim(s)) == Trim(s)
  {
    TrimmedIsFixed(Trim(s));
  }

  /** A leading whitespace character makes no difference to `trim`. */
  lemma TrimLeadingSpace(w: char, s: string)
    requires IsSpace(w)
    ensures Trim([w] + s) == Trim(s)
  {
    var p, q := TrimSplit(s);
    ConsRegroup(w, p, Trim(s), q);
    ConsSpace(w, p);
    TrimPadded([w] + p, Trim(s), q);
  }

  lemma ConsRegroup(w: char, p: string, x: string, q: string)
    ensures [w] + (p + x + q) == ([w] + p) + x + q
  {
  }

  lemma ConsSpace(w: char, p: string)
    requires IsSpace(w) && AllSpace(p)
    ensures AllSpace([w] + p)
  {
    forall j | 0 <= j < |[w] + p| ensures IsSpace(([w] + p)[j]) {
      if j > 0 {
        assert ([w] + p)[j] == p[j - 1];
      }
    }
  }

  /** Every string is its trimmed text padded with whitespace on both sides. */
  lemma TrimSplit(s: string) returns (p: string, q: string)
    ensures s == p + Trim(s) + q && AllSpace(p) && AllSpace(q)
  {
    var i := TrimInfix(s);
    var j := i + |Trim(s)|;
    p, q := s[..i], s[j..];
    InfixIsTrim(s, i);
    SplitThree(s, i, j);
    SpacesBefore(s, i);
    SpacesFrom(s, j);
  }

  lemma InfixIsTrim(s: string, i: nat)
    requires i + |Trim(s)| <= |s|
    requires forall j | 0 <= j < |Trim(s)| :: Trim(s)[j] == s[i + j]
    ensures s[i..i + |Trim(s)|] == Trim(s)
  {
  }

  lemma SplitThree(s: string, i: nat, j: nat)
    requires i <= j <= |s|
    ensures s == s[..i] + s[i..j] + s[j..]
  {
  }

  lemma SpacesBefore(s: string, i: nat)
    requires i <= |s| && forall j | 0 <= j < i :: IsSpace(s[j])
    ensures AllSpace(s[..i])
  {
  }

  lemma SpacesFrom(s: string, i: nat)
    requires i <= |s| && forall j | i <= j < |s| :: IsSpace(s[j])
    ensures AllSpace(s[i..])
  {
    forall j | 0 <= j < |s| - i ensures IsSpace(s[i..][j]) {
      assert s[i..][j] == s[i + j];
    }
  }

  /** The characters of `Trim(s)` are characters of `s`, so trimming keeps
      a string free of separators. */
  lemma TrimKeepsFree(s: string, sep: char -> bool)
    requires Free(s, sep)
    ensures Free(Trim(s), sep)
  {
    var i := TrimInfix(s);
  }

  /** `s.split(c)` for a one-character separator, and `s.split(/[...]+/)` up to
      empty pieces: the maximal stretches between separator characters. */
  function Split(s: string, sep: char -> bool): (r: seq<string>)
    ensures |r| > 0
    ensures forall k | 0 <= k < |r| :: Free(r[k], sep)
  {
    if |s| == 0 then [""]
    else
      var rest := Split(s[1..], sep);
      if sep(s[0]) then [""] + rest
      else [[s[0]] + rest[0]] + rest[1..]
  }

  /** `parts.join(glue)`. */
  function Join(parts: seq<string>, glue: string): string {
    if |parts| == 0 then ""
    else if |parts| == 1 then parts[0]
    else parts[0] + glue + Join(parts[1..], glue)
  }

  /** A string with no separator is one piece. */
  lemma {:induction false} SplitFree(s: string, sep: char -> bool)
    requires Free(s, sep)
    ensures Split(s, sep) == [s]
  {
    if s != [] {
      assert Free(s[1..], sep) by {
        forall i | 0 <= i < |s| - 1 ensures !sep(s[1..][i]) {
          assert s[1..][i] == s[i + 1];
        }
      }
      SplitFree(s[1..], sep);
      assert s == [s[0]] + s[1..];
    }
  }

  /** Splitting distributes over a separator character. */
  lemma {:induction false} SplitAt(a: string, c: char, b: string, sep: char -> bool)
    requires sep(c)
    ensures Split(a + [c] + b, sep) == Split(a, sep) + Split(b, sep)
    decreases |a|
  {
    var s := a + [c] + b;
    if a == [] {
      assert s[1..] == b;
    } else {
      assert s[1..] == a[1..] + [c] + b;
      SplitAt(a[1..], c, b, sep);
    }
  }

  lemma {:induction false} JoinCons(x: string, rest: seq<string>, glue: string)
    requires |rest| > 0
    ensures Join([x] + rest, glue) == x + glue + Join(rest, glue)
  {
    assert ([x] + rest)[1..] == rest;
  }

  /** Joining two non-empty lists is joining each and gluing the results. */
  lemma {:induction false} JoinAppend(xs: seq<string>, ys: seq<string>, glue: string)
    requires |xs| > 0 && |ys| > 0
    ensures Join(xs + ys, glue) == Join(xs, glue) + glue + Join(ys, glue)
  {
    if |xs| == 1 {
      assert xs + ys == [xs[0]] + ys;
      JoinCons(xs[0], ys, glue);
    } else {
      var rest := xs[1..];
      assert xs + ys == [xs[0]] + (rest + ys);
      JoinCons(xs[0], rest + ys, glue);
      JoinAppend(rest, ys, glue);
      JoinCons(xs[0], rest, glue);
      assert xs == [xs[0]] + rest;
    }
  }

  /** Joining with a one-character separator and splitting on it again gives
      the parts back, when no part holds the separator. */
  lemma {:induction false} SplitJoin(parts: seq<string>, d: char, sep: char -> bool)
    requires |parts| > 0 && sep(d)
    requires forall k | 0 <= k < |parts| :: Free(parts[k], sep)
    ensures Split(Join(parts, [d]), sep) == parts
  {
    if |parts| == 1 {
      SplitFree(parts[0], sep);
    } else {
      var rest := parts[1..];
      JoinCons(parts[0], rest, [d]);
      SplitAt(parts[0], d, Join(rest, [d]), sep);
      SplitFree(parts[0], sep);
      SplitJoin(rest, d, sep);
      assert parts == [parts[0]] + rest;
    }
  }

  /** Splitting is inverted by joining with the separator character, when that
      character is the only separator. */
  lemma {:induction false} JoinSplit(s: string, d: char, sep: char -> bool)
    requires forall c :: sep(c) <==> c == d
    ensures Join(Split(s, sep), [d]) == s
  {
    if s != [] {
      var rest := Split(s[1..], sep);
      JoinSplit(s[1..], d, sep);
      if sep(s[0]) {
        JoinCons("", rest, [d]);
        assert s == [d] + s[1..];
      } else if |rest| == 1 {
        assert s == [s[0]] + s[1..];
      } else {
        var head := [s[0]] + rest[0];
        assert Split(s, sep) == [head] + rest[1..];
        JoinCons(head, rest[1..], [d]);
        JoinCons(rest[0], rest[1..], [d]);
        assert rest == [rest[0]] + rest[1..];
        calc {
          Join(Split(s, sep), [d]);
          head + [d] + Join(rest[1..], [d]);
          [s[0]] + (rest[0] + [d] + Join(rest[1..], [d]));
          [s[0]] + Join(rest, [d]);
          [s[0]] + s[1..];
          s;
        }
      }
    }
  }

  /** `.map(e => e.trim())`. */
  function TrimAll(xs: seq<string>): (r: seq<string>)
    ensures |r| == |xs|
  {
    if |xs| == 0 then [] else [Trim(xs[0])] + TrimAll(xs[1..])
  }

  lemma {:induction false} TrimAllAt(xs: seq<string>, k: nat)
    requires k < |xs|
    ensures TrimAll(xs)[k] == Trim(xs[k])
  {
    if k > 0 {
      TrimAllAt(xs[1..], k - 1);
    }
  }

  /** `.filter(e => e !== '')`. */
  function DropEmpty(xs: seq<string>): (r: seq<string>)
    ensures forall k | 0 <= k < |r| :: r[k] != "" && r[k] in xs
  {
    if |xs| == 0 then []
    else if xs[0] == "" then DropEmpty(xs[1..])
    else [xs[0]] + DropEmpty(xs[1..])
  }

  lemma {:induction false} TrimAllAppend(a: seq<string>, b: seq<string>)
    ensures TrimAll(a + b) == TrimAll(a) + TrimAll(b)
    decreases |a|
  {
    if a == [] {
      assert a + b == b;
    } else {
      ConsOfAppend(a, b);
      TrimAllAppend(a[1..], b);
      TrimAllCons(a + b);
      TrimAllCons(a);
    }
  }

  lemma TrimAllCons(xs: seq<string>)
    requires |xs| > 0
    ensures TrimAll(xs) == [Trim(xs[0])] + TrimAll(xs[1..])
  {
  }

  lemma ConsOfAppend<T>(a: seq<T>, b: seq<T>)
    requires |a| > 0
    ensures |a + b| > 0 && (a + b)[0] == a[0] && (a + b)[1..] == a[1..] + b
  {
  }

  lemma {:induction false} DropEmptyAppend(a: seq<string>, b: seq<string>)
    ensures DropEmpty(a + b) == DropEmpty(a) + DropEmpty(b)
    decreases |a|
  {
    if a == [] {
      assert a + b == b;
    } else {
      assert (a + b)[0] == a[0] && (a + b)[1..] == a[1..] + b;
      DropEmptyAppend(a[1..], b);
      if a[0] != "" {
        assert DropEmpty(a + b) == [a[0]] + (DropEmpty(a[1..]) + DropEmpty(b));
      }
    }
  }

  /** `s.split(sep).map(e => e.trim()).filter(e => e !== '')`: the non-blank
      stretches between separators, trimmed. */
  function Pieces(s: string, sep: char -> bool): (r: seq<string>)
    ensures forall k | 0 <= k < |r| :: r[k] != "" && Trimmed(r[k]) && Free(r[k], sep)
  {
    var parts := Split(s, sep);
    var r := DropEmpty(TrimAll(parts));
    assert forall k | 0 <= k < |r| :: Trimmed(r[k]) && Free(r[k], sep) by {
      forall k | 0 <= k < |r| ensures Trimmed(r[k]) && Free(r[k], sep) {
        var t := TrimAll(parts);
        var j :| 0 <= j < |t| && r[k] == t[j];
        TrimAllAt(parts, j);
        TrimKeepsFree(parts[j], sep);
      }
    }
    r
  }

  /** Pieces distribute over a separator character: the pieces of `a + [c] + b`
      are the pieces of `a` followed by the pieces of `b`. */
  lemma PiecesAt(a: string, c: char, b: string, sep: char -> bool)
    requires sep(c)
    ensures Pieces(a + [c] + b, sep) == Pieces(a, sep) + Pieces(b, sep)
  {
    SplitAt(a, c, b, sep);
    TrimAllAppend(Split(a, sep), Split(b, sep));
    DropEmptyAppend(TrimAll(Split(a, sep)), TrimAll(Split(b, sep)));
  }

  /** A string without separators yields itself trimmed, or nothing if blank. */
  lemma PiecesFree(s: string, sep: char -> bool)
    requires Free(s, sep)
    ensures Pieces(s, sep) == if Trim(s) == "" then [] else [Trim(s)]
  {
    SplitFree(s, sep);
    assert TrimAll([s]) == [Trim(s)] by {
      assert [s][1..] == [];
    }
    assert DropEmpty([Trim(s)])[..] == if Trim(s) == "" then [] else [Trim(s)] by {
      assert [Trim(s)][1..] == [];
    }
  }

  /** Leading whitespace never changes the pieces. */
  lemma {:induction false} PiecesLeadingSpace(pad: string, t: string, sep: char -> bool)
    requires AllSpace(pad)
    ensures Pieces(pad + t, sep) == Pieces(t, sep)
    decreases |pad|
  {
    if pad == [] {
      assert pad + t == t;
    } else {
      var w := pad[0];
      var u := pad[1..] + t;
      assert pad + t == [w] + u;
      PiecesLeadingSpace(pad[1..], t, sep);
      if sep(w) {
        PiecesAt([], w, u, sep);
        assert [] + [w] + u == [w] + u;
        PiecesFree([], sep);
        assert Trim([]) == [];
        assert Pieces([w] + u, sep) == Pieces(u, sep);
      } else {
        var rest := Split(u, sep);
        assert Split([w] + u, sep) == [[w] + rest[0]] + rest[1..] by {
          assert ([w] + u)[1..] == u;
        }
        TrimLeadingSpace(w, rest[0]);
        var x := [[w] + rest[0]] + rest[1..];
        assert x[0] == [w] + rest[0] && x[1..] == rest[1..];
        assert TrimAll(x) == [Trim(rest[0])] + TrimAll(rest[1..]);
        assert TrimAll(rest) == [Trim(rest[0])] + TrimAll(rest[1..]);
        assert Pieces([w] + u, sep) == Pieces(u, sep);
      }
    }
  }

  /** Joining trimmed, non-empty, separator-free parts with a glue that is a
      separator character followed by whitespace padding (`","`, `", "`),
      then taking the pieces again, gives the parts back. */
  lemma {:induction false} PiecesOfJoin(parts: seq<string>, glue: string, sep: char -> bool)
    requires |glue| > 0 && sep(glue[0]) && AllSpace(glue[1..])
    requires forall k | 0 <= k < |parts| :: parts[k] != "" && Trimmed(parts[k]) && Free(parts[k], sep)
    ensures Pieces(Join(parts, glue), sep) == parts
  {
    if |parts| == 0 {
      PiecesFree("", sep);
      assert Trim("") == "";
    } else {
      var x, rest := parts[0], parts[1..];
      assert parts == [x] + rest;
      PiecesOfClean(x, sep);
      if |rest| > 0 {
        PiecesOfJoin(rest, glue, sep);
        PiecesOfGlued(x, rest, glue, sep);
      }
    }
  }

  /** A clean entry is its own single piece. */
  lemma PiecesOfClean(x: string, sep: char -> bool)
    requires x != "" && Trimmed(x) && Free(x, sep)
    ensures Pieces(x, sep) == [x]
  {
    PiecesFree(x, sep);
    TrimmedIsFixed(x);
  }

  /** The pieces of `x`, the glue and the rest are those of `x`, then those
      of the rest. */
  lemma PiecesOfGlued(x: string, rest: seq<string>, glue: string, sep: char -> bool)
    requires |glue| > 0 && sep(glue[0]) && AllSpace(glue[1..])
    requires |rest| > 0
    ensures Pieces(Join([x] + rest, glue), sep) == Pieces(x, sep) + Pieces(Join(rest, glue), sep)
  {
    JoinGlued(x, rest, glue);
    PiecesAt(x, glue[0], glue[1..] + Join(rest, glue), sep);
    PiecesLeadingSpace(glue[1..], Join(rest, glue), sep);
  }

  lemma JoinGlued(x: string, rest: seq<string>, glue: string)
    requires |glue| > 0 && |rest| > 0
    ensures Join([x] + rest, glue) == x + [glue[0]] + (glue[1..] + Join(rest, glue))
  {
    JoinCons(x, rest, glue);
    assert glue == [glue[0]] + glue[1..];
  }

  /** `xs` holds no value twice. */
  predicate Distinct<T(==,!new)>(xs: seq<T>) {
    forall i, j | 0 <= i < j < |xs| :: xs[i] != xs[j]
  }

  /** `[...new Set(xs)]`: the values of `xs`, each once, in order of first
      appearance. */
  function Dedup<T(==,!new)>(xs: seq<T>): (r: seq<T>)
    ensures forall x {:trigger x in r} :: x in r <==> x in xs
    ensures |r| <= |xs|
  {
    if |xs| == 0 then []
    else
      var init := xs[..|xs| - 1];
      var last := xs[|xs| - 1];
      assert xs == init + [last];
      var d := Dedup(init);
      if last in d then d else d + [last]
  }

  /** The result of `Dedup` holds no value twice. */
  lemma {:induction false} DedupIsDistinct<T(!new)>(xs: seq<T>)
    ensures Distinct(Dedup(xs))
  {
    if |xs| > 0 {
      var init := xs[..|xs| - 1];
      DedupIsDistinct(init);
    }
  }

  /** The values of `b` that are not in `a`, in order: `b.filter(x => !a.includes(x))`. */
  function Without<T(==,!new)>(b: seq<T>, a: seq<T>): (r: seq<T>)
    ensures forall x {:trigger x in r} :: x in r <==> x in b && x !in a
  {
    if |b| == 0 then []
    else
      var init := b[..|b| - 1];
      var last := b[|b| - 1];
      assert b == init + [last];
      Without(init, a) + (if last in a then [] else [last])
  }

  /** Nothing is left when every value of `b` is already in `a`. */
  lemma {:induction false} WithoutCovered<T(!new)>(b: seq<T>, a: seq<T>)
    requires forall x | x in b :: x in a
    ensures Without(b, a) == []
  {
    if |b| > 0 {
      var init := b[..|b| - 1];
      assert b == init + [b[|b| - 1]];
      WithoutCovered(init, a);
    }
  }

  /** De-duplicating a list that has no duplicates changes nothing. */
  lemma {:induction false} DedupOfDistinct<T(!new)>(xs: seq<T>)
    requires Distinct(xs)
    ensures Dedup(xs) == xs
  {
    if |xs| > 0 {
      var init := xs[..|xs| - 1];
      DedupOfDistinct(init);
      assert xs == init + [xs[|xs| - 1]];
    }
  }

  /** De-duplicating a concatenation keeps the de-duplicated first part and
      appends, in first-appearance order, the values of the second part that
      the first part lacks. */
  lemma {:induction false} DedupAppend<T(!new)>(a: seq<T>, b: seq<T>)
    ensures Dedup(a + b) == Dedup(a) + Dedup(Without(b, a))
    decreases |b|
  {
    if |b| == 0 {
      assert a + b == a;
    } else {
      var init, y := b[..|b| - 1], b[|b| - 1];
      assert b == init + [y];
      DedupAppend(a, init);
      DedupAppendStep(a, init, y);
    }
  }

  /** One step of `DedupAppend`: appending `y` to the second part. */
  lemma DedupAppendStep<T(!new)>(a: seq<T>, init: seq<T>, y: T)
    requires Dedup(a + init) == Dedup(a) + Dedup(Without(init, a))
    ensures Dedup(a + (init + [y])) == Dedup(a) + Dedup(Without(init + [y], a))
  {
    AppendSnoc(a, init, y);
    DedupSnoc(a + init, y);
    WithoutSnoc(init, y, a);
    if y in a {
      SeenStep(Dedup(a), Dedup(Without(init, a)), y);
    } else {
      DedupSnoc(Without(init, a), y);
      NewStep(Dedup(a), Dedup(Without(init, a)), y);
    }
  }

  lemma AppendSnoc<T>(a: seq<T>, init: seq<T>, y: T)
    ensures a + (init + [y]) == (a + init) + [y]
  {
  }

  /** A value already in the first part is dropped from the end. */
  lemma SeenStep<T>(da: seq<T>, dw: seq<T>, y: T)
    requires y in da
    ensures y in da + dw
  {
  }

  /** A value missing from the first part goes where it goes in the second. */
  lemma NewStep<T>(da: seq<T>, dw: seq<T>, y: T)
    requires y !in da
    ensures y in dw ==> y in da + dw
    ensures y !in dw ==> y !in da + dw && da + dw + [y] == da + (dw + [y])
  {
  }

  lemma DedupSnoc<T(!new)>(xs: seq<T>, y: T)
    ensures y in Dedup(xs) ==> Dedup(xs + [y]) == Dedup(xs)
    ensures y !in Dedup(xs) ==> Dedup(xs + [y]) == Dedup(xs) + [y]
  {
    var s := xs + [y];
    assert s[..|s| - 1] == xs && s[|s| - 1] == y;
  }

  lemma WithoutSnoc<T(!new)>(init: seq<T>, y: T, a: seq<T>)
    ensures y in a ==> Without(init + [y], a) == Without(init, a)
    ensures y !in a ==> Without(init + [y], a) == Without(init, a) + [y]
  {
    var s := init + [y];
    assert s[..|s| - 1] == init && s[|s| - 1] == y;
  }

  /** Merging new values into a duplicate-free list: the old values keep their
      places and the new ones follow in first-appearance order. */
  lemma MergeKeepsPrefix<T(!new)>(a: seq<T>, b: seq<T>)
    requires Distinct(a)
    ensures Dedup(a + b) == a + Dedup(Without(b, a))
  {
    DedupAppend(a, b);
    DedupOfDistinct(a);
  }

  /** `xs.filter(e => e !== v)`. */
  function RemoveValue<T(==,!new)>(xs: seq<T>, v: T): (r: seq<T>)
    ensures forall x {:trigger x in r} :: x in r <==> x in xs && x != v
    ensures |r| <= |xs|
  {
    if |xs| == 0 then []
    else (if xs[0] == v then [] else [xs[0]]) + RemoveValue(xs[1..], v)
  }

  /** On a duplicate-free list, removing a value that sits at index `i` leaves
      exactly the other entries, in their order. */
  lemma {:induction false} RemoveValueAt<T(!new)>(xs: seq<T>, i: nat)
    requires Distinct(xs) && i < |xs|
    ensures RemoveValue(xs, xs[i]) == xs[..i] + xs[i + 1..]
  {
    DistinctTail(xs);
    if i == 0 {
      RemoveAbsent(xs[1..], xs[0]);
    } else {
      RemoveValueAt(xs[1..], i - 1);
      RemoveKeepsHead(xs, xs[i]);
      ConsSlices(xs, i);
    }
  }

  lemma DistinctTail<T(!new)>(xs: seq<T>)
    requires Distinct(xs) && |xs| > 0
    ensures Distinct(xs[1..]) && xs[0] !in xs[1..]
  {
  }

  lemma RemoveKeepsHead<T(!new)>(xs: seq<T>, v: T)
    requires |xs| > 0 && xs[0] != v
    ensures RemoveValue(xs, v) == [xs[0]] + RemoveValue(xs[1..], v)
  {
  }

  lemma ConsSlices<T>(xs: seq<T>, i: nat)
    requires 0 < i < |xs|
    ensures [xs[0]] + (xs[1..][..i - 1] + xs[1..][i..]) == xs[..i] + xs[i + 1..]
    ensures xs[1..][i - 1] == xs[i]
  {
    assert xs[1..][..i - 1] == xs[1..i];
    assert xs[..i] == [xs[0]] + xs[1..i];
  }

  /** Removing a value that is not there changes nothing. */
  lemma {:induction false} RemoveAbsent<T(!new)>(xs: seq<T>, v: T)
    requires v !in xs
    ensures RemoveValue(xs, v) == xs
  {
    if |xs| > 0 {
      RemoveAbsent(xs[1..], v);
      assert xs == [xs[0]] + xs[1..];
    }
  }

  predicate IsDigit(c: char) {
    '0' <= c <= '9'
  }

  /** A decimal numeral as `String(n)` writes a non-negative integer:
      digits only, and no leading zero unless the numeral is `0` itself. */
  predicate IsNumeral(s: string) {
    && |s| > 0
    && (forall i | 0 <= i < |s| :: IsDigit(s[i]))
    && (|s| == 1 || s[0] != '0')
  }

  /** The decimal form of a natural number, as `String(n)` writes it. */
  function NatToString(n: nat): (r: string)
    ensures |r| > 0
    ensures forall i | 0 <= i < |r| :: IsDigit(r[i])
    ensures |r| == 1 || r[0] != '0'
    ensures DigitsValue(r) == n
  {
    var d := ['0' + (n % 10) as char];
    if n < 10 then d
    else
      var front := NatToString(n / 10);
      assert (front + d)[..|front + d| - 1] == front;
      front + d
  }

  /** The number a string of decimal digits denotes, most significant first. */
  function DigitsValue(s: string): int {
    if |s| == 0 then 0
    else DigitsValue(s[..|s| - 1]) * 10 + (s[|s| - 1] as int - '0' as int)
  }

  /** Every numeral is the one `NatToString` writes for its value, so a
      numeral and its value determine each other. */
  lemma {:induction false} NumeralIsNatToString(s: string)
    requires IsNumeral(s)
    ensures DigitsValue(s) >= 0
    ensures s == NatToString(DigitsValue(s))
  {
    if |s| == 1 {
      NumeralOneDigit(s);
    } else {
      NumeralPrefix(s);
      NumeralIsNatToString(s[..|s| - 1]);
      NatToStringStep(DigitsValue(s[..|s| - 1]), s[|s| - 1] as int - '0' as int);
    }
  }

  lemma NumeralOneDigit(s: string)
    requires |s| == 1 && IsDigit(s[0])
    ensures DigitsValue(s) == s[0] as int - '0' as int
    ensures s == NatToString(DigitsValue(s))
  {
    assert s[..0] == "";
  }

  /** A numeral of two or more digits is a numeral followed by one digit. */
  lemma NumeralPrefix(s: string)
    requires IsNumeral(s) && |s| > 1
    ensures IsNumeral(s[..|s| - 1]) && s[..|s| - 1] != "0"
    ensures s == s[..|s| - 1] + [s[|s| - 1]]
    ensures 0 <= s[|s| - 1] as int - '0' as int < 10
    ensures s[|s| - 1] == '0' + (s[|s| - 1] as int - '0' as int) as char
    ensures DigitsValue(s) == DigitsValue(s[..|s| - 1]) * 10 + (s[|s| - 1] as int - '0' as int)
  {
    var p := s[..|s| - 1];
    assert p[0] == s[0];
    forall i | 0 <= i < |p| ensures IsDigit(p[i]) {
      assert p[i] == s[i];
    }
  }

  lemma NatToStringStep(v: int, digit: int)
    requires 0 <= v && 0 <= digit < 10
    requires NatToString(v) != "0"
    ensures NatToString(v * 10 + digit) == NatToString(v) + ['0' + digit as char]
  {
    var n := v * 10 + digit;
    assert n / 10 == v && n % 10 == digit;
  }

  /** The decimal form of an integer, with a leading `-` when negative. */
  function IntToString(n: int): (r: string)
    ensures forall i | 0 <= i < |r| :: IsDigit(r[i]) || r[i] == '-'
    ensures n >= 0 ==> IsNumeral(r) && DigitsValue(r) == n
    ensures n < 0 ==> |r| > 1 && r[0] == '-' && IsNumeral(r[1..]) && DigitsValue(r[1..]) == -n
  {
    if n < 0 then
      var digits := NatToString(-n);
      assert ("-" + digits)[1..] == digits;
      "-" + digits
    else NatToString(n)
  }

  /** ASCII upper-case letters to lower case; every other character unchanged. */
  function LowerAscii(s: string): (r: string)
    ensures |r| == |s|
    ensures forall i {:trigger r[i]} | 0 <= i < |s| :: r[i] == if 'A' <= s[i] <= 'Z' then s[i] - 'A' + 'a' else s[i]
  {
    if |s| == 0 then []
    else [if 'A' <= s[0] <= 'Z' then s[0] - 'A' + 'a' else s[0]] + LowerAscii(s[1..])
  }
}
