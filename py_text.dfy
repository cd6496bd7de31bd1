/** The handful of Python `str` builtins the dashboard relies on, stated
    exactly enough that the parsers built on them can be reasoned about:
    `split()`, `split(sep)`, `strip()`, `lower()`, `rjust`, `in`,
    `startswith`, `*` (repetition), and the exception outcomes of calls that
    raise in Python. */
module PyText {

  /** The Python exceptions the modelled code can raise. */
  datatype Exc =
    | ValueError
    | IndexError
    | KeyError
    | ZeroDivisionError
    | FileNotFoundError
    | Raised(message: string)   // `raise Exception(message)`

  /** A call that either returns a value or raises. */
  datatype Result<+T> = Ok(value: T) | Err(exc: Exc) {
    predicate IsFailure() { Err? }
    function PropagateFailure<U>(): Result<U> requires Err? { Err(exc) }
    function Extract(): T requires Ok? { value }
  }

  datatype Option<+T> = None | Some(value: T)

  /** `c.isspace()`: the characters Python's `str.split()` splits on. */
  predicate IsSpace(c: char) {
    var n := c as int;
    (9 <= n <= 13) || (28 <= n <= 32) || n == 0x85 || n == 0xA0 || n == 0x1680
    || (0x2000 <= n <= 0x200A) || n == 0x2028 || n == 0x2029 || n == 0x202F
    || n == 0x205F || n == 0x3000
  }

  predicate NotSpace(c: char) { !IsSpace(c) }

  /** ASCII decimal digit (what `\d` matches in the modelled inputs). */
  predicate IsDigit(c: char) { '0' <= c <= '9' }

  /** Length of the longest prefix of `s` whose characters satisfy `p`. */
  function RunLength(s: string, p: char -> bool): (n: nat)
    ensures n <= |s|
    ensures forall i :: 0 <= i < n ==> p(s[i])
    ensures n < |s| ==> !p(s[n])
  {
    if s == [] || !p(s[0]) then 0 else 1 + RunLength(s[1..], p)
  }

  /** Drop the leading characters of `s` that do not satisfy `p`. */
  function SkipUntil(s: string, p: char -> bool): (r: string)
    ensures |r| <= |s| && r == s[|s| - |r|..]
    ensures r == [] || p(r[0])
    ensures forall i :: 0 <= i < |s| - |r| ==> !p(s[i])
  {
    if s == [] || p(s[0]) then s else SkipUntil(s[1..], p)
  }

  /** Every character of `w` satisfies `p`. */
  predicate AllSat(w: string, p: char -> bool) {
    forall j :: 0 <= j < |w| ==> p(w[j])
  }

  /** The maximal runs of characters of `s` satisfying `p`, left to right.
      With `p == NotSpace` this is Python's `s.split()`; with `p == IsDigit`
      it is `re.findall(r'\d+', s)`. */
  function Runs(s: string, p: char -> bool): seq<string>
    decreases |s|
  {
    var t := SkipUntil(s, p);
    if t == [] then []
    else
      var n := RunLength(t, p);
      [t[..n]] + Runs(t[n..], p)
  }

  /** Each run is non-empty and made only of characters of the class. */
  lemma {:induction false} RunsAreRuns(s: string, p: char -> bool)
    ensures forall i :: 0 <= i < |Runs(s, p)| ==> Runs(s, p)[i] != [] && AllSat(Runs(s, p)[i], p)
    decreases |s|
  {
    var t := SkipUntil(s, p);
    if t != [] {
      var n := RunLength(t, p);
      var w := t[..n];
      var rest := Runs(t[n..], p);
      assert Runs(s, p) == [w] + rest;
      RunsAreRuns(t[n..], p);
      assert w != [] && AllSat(w, p);
      forall i | 0 <= i < |[w] + rest| ensures ([w] + rest)[i] != [] && AllSat(([w] + rest)[i], p) {
        if i > 0 { assert ([w] + rest)[i] == rest[i - 1]; }
      }
    }
  }

  /** `s.split()`. */
  function Words(s: string): seq<string> { Runs(s, NotSpace) }

  /** `re.findall(r'\d+', s)`. */
  function DigitRuns(s: string): seq<string> { Runs(s, IsDigit) }

  predicate NoSpace(w: string) { forall j :: 0 <= j < |w| ==> !IsSpace(w[j]) }

  /** No word of `s` is empty. */
  lemma WordsNonEmpty(s: string)
    ensures forall i :: 0 <= i < |Words(s)| ==> Words(s)[i] != []
  {
    RunsAreRuns(s, NotSpace);
  }

  /** The words of `s` are non-empty and contain no whitespace. */
  lemma WordsAreWords(s: string)
    ensures forall i :: 0 <= i < |Words(s)| ==> Words(s)[i] != [] && NoSpace(Words(s)[i])
  {
    var r := Words(s);
    RunsAreRuns(s, NotSpace);
    forall i | 0 <= i < |r| ensures r[i] != [] && NoSpace(r[i]) {
      assert AllSat(r[i], NotSpace);
    }
  }

  /** Runs of a text that starts with characters outside the class. */
  lemma {:induction false} RunsSkip(w: string, s: string, p: char -> bool)
    requires forall j :: 0 <= j < |w| ==> !p(w[j])
    ensures Runs(w + s, p) == Runs(s, p)
  {
    if w != [] {
      assert (w + s)[1..] == w[1..] + s;
      RunsSkip(w[1..], s, p);
    } else {
      assert w + s == s;
    }
  }

  /** A run followed by a separator, then more text. */
  lemma RunsCons(w: string, c: char, s: string, p: char -> bool)
    requires w != [] && forall j :: 0 <= j < |w| ==> p(w[j])
    requires !p(c)
    ensures Runs(w + [c] + s, p) == [w] + Runs(s, p)
  {
    RunsSplit(w, c, s, p);
    RunsSingle(w, p);
  }

  /** A maximal run at the start of the text is the first run. */
  lemma RunsFirst(w: string, u: string, p: char -> bool)
    requires w != [] && forall j :: 0 <= j < |w| ==> p(w[j])
    requires u == [] || !p(u[0])
    ensures Runs(w + u, p) == [w] + Runs(u, p)
  {
    var t := w + u;
    assert t[0] == w[0];
    assert SkipUntil(t, p) == t;
    RunLengthOf(w, u, p);
    assert t[..|w|] == w && t[|w|..] == u;
  }

  /** A character outside the class separates the runs of what comes
      before it from the runs of what comes after: `(s + " " + t).split()`
      is `s.split() + t.split()`. */
  lemma {:induction false} RunsSplit(s: string, c: char, t: string, p: char -> bool)
    requires !p(c)
    ensures Runs(s + [c] + t, p) == Runs(s, p) + Runs(t, p)
    decreases |s|
  {
    if s == [] {
      RunsSplitEmpty(c, t, p);
    } else if !p(s[0]) {
      RunsSplit(s[1..], c, t, p);
      RunsSplitDrop(s, c, t, p);
    } else {
      RunsSplit(s[RunLength(s, p)..], c, t, p);
      RunsSplitRun(s, c, t, p);
    }
  }

  /** `RunsSplit` when `s` is empty. */
  lemma RunsSplitEmpty(c: char, t: string, p: char -> bool)
    requires !p(c)
    ensures Runs([] + [c] + t, p) == Runs([], p) + Runs(t, p)
  {
    assert [] + [c] + t == [c] + t;
    RunsSkip([c], t, p);
  }

  /** `RunsSplit` when `s` starts outside the class. */
  lemma RunsSplitDrop(s: string, c: char, t: string, p: char -> bool)
    requires !p(c) && s != [] && !p(s[0])
    requires Runs(s[1..] + [c] + t, p) == Runs(s[1..], p) + Runs(t, p)
    ensures Runs(s + [c] + t, p) == Runs(s, p) + Runs(t, p)
  {
    DropAround(s, c, t);
    RunsDrop(s + [c] + t, p);
    RunsDrop(s, p);
  }

  /** `RunsSplit` when `s` starts with a run. */
  lemma RunsSplitRun(s: string, c: char, t: string, p: char -> bool)
    requires !p(c) && s != [] && p(s[0])
    requires Runs(s[RunLength(s, p)..] + [c] + t, p) == Runs(s[RunLength(s, p)..], p) + Runs(t, p)
    ensures Runs(s + [c] + t, p) == Runs(s, p) + Runs(t, p)
  {
    var n := RunLength(s, p);
    var w := s[..n];
    var rest := s[n..];
    SplitAround(s, n, c, t);
    RunsFirst(w, rest + [c] + t, p);
    RunsFirst(w, rest, p);
    SeqAssoc([w], Runs(rest, p), Runs(t, p));
  }

  lemma SeqAssoc<T>(a: seq<T>, b: seq<T>, c: seq<T>)
    ensures a + (b + c) == (a + b) + c
  {
  }

  lemma DropAround(s: string, c: char, t: string)
    requires s != []
    ensures (s + [c] + t)[0] == s[0] && (s + [c] + t)[1..] == s[1..] + [c] + t
  {
  }

  /** Cutting `s` at `n` commutes with appending `[c] + t`. */
  lemma SplitAround(s: string, n: nat, c: char, t: string)
    requires n <= |s|
    ensures s == s[..n] + s[n..]
    ensures s + [c] + t == s[..n] + (s[n..] + [c] + t)
  {
  }

  /** A leading character outside the class is skipped. */
  lemma RunsDrop(s: string, p: char -> bool)
    requires s != [] && !p(s[0])
    ensures Runs(s, p) == Runs(s[1..], p)
  {
  }

  /** A text made of one run. */
  lemma RunsSingle(w: string, p: char -> bool)
    requires w != [] && forall j :: 0 <= j < |w| ==> p(w[j])
    ensures Runs(w, p) == [w]
  {
    RunLengthOf(w, [], p);
    assert w + [] == w;
    assert w[..|w|] == w;
  }

  lemma {:induction false} RunLengthOf(w: string, s: string, p: char -> bool)
    requires forall j :: 0 <= j < |w| ==> p(w[j])
    requires s == [] || !p(s[0])
    ensures RunLength(w + s, p) == |w|
  {
    if w != [] {
      assert (w + s)[1..] == w[1..] + s;
      RunLengthOf(w[1..], s, p);
    } else {
      assert w + s == s;
    }
  }

  /** Whitespace between two texts separates their words:
      `(a + gap + b).split() == a.split() + b.split()`. */
  lemma WordsGap(a: string, gap: string, b: string)
    requires gap != [] && forall j :: 0 <= j < |gap| ==> IsSpace(gap[j])
    ensures Words(a + gap + b) == Words(a) + Words(b)
  {
    var rest := gap[1..] + b;
    assert a + gap + b == a + [gap[0]] + rest;
    RunsSplit(a, gap[0], rest, NotSpace);
    RunsSkip(gap[1..], b, NotSpace);
  }

  /** A word between two spaces: `(a + " " + w + " " + b).split()` is
      `a.split() + [w] + b.split()`. */
  lemma WordsAround(a: string, w: string, b: string)
    requires Words(w) == [w]
    ensures Words(a + [' '] + (w + [' '] + b)) == Words(a) + [w] + Words(b)
  {
    RunsSplit(a, ' ', w + [' '] + b, NotSpace);
    RunsSplit(w, ' ', b, NotSpace);
    SeqAssoc(Words(a), [w], Words(b));
  }

  /** Two words joined by one space. */
  lemma WordsPair(a: string, b: string)
    requires a != [] && NoSpace(a) && b != [] && NoSpace(b)
    ensures Words(a + " " + b) == [a, b]
  {
    WordsOne(a);
    WordsOne(b);
    WordsGap(a, " ", b);
    Pair(a, b);
  }

  lemma Pair<T>(a: T, b: T)
    ensures [a] + [b] == [a, b]
  {
  }

  /** Trailing whitespace adds no word. */
  lemma WordsTrail(a: string, c: char)
    requires IsSpace(c)
    ensures Words(a + [c]) == Words(a)
  {
    assert a + [c] == a + [c] + "";
    RunsSplit(a, c, "", NotSpace);
    assert Runs("", NotSpace) == [];
  }

  /** A non-empty text without whitespace is one word. */
  lemma WordsOne(w: string)
    requires w != [] && NoSpace(w)
    ensures Words(w) == [w]
  {
    RunsSingle(w, NotSpace);
  }

  /** Right-justifying adds spaces only, so no word. */
  lemma WordsRJust(w: string, width: int)
    ensures Words(RJust(w, width)) == Words(w)
  {
    var r := RJust(w, width);
    var k := |r| - |w|;
    assert r == r[..k] + w;
    RunsSkip(r[..k], w, NotSpace);
  }

  /** `s.split(sep)` for a non-empty literal separator: cut at every
      occurrence of `sep`, scanning left to right without overlap. */
  function SplitOn(s: string, sep: string): (r: seq<string>)
    requires sep != []
    ensures |r| >= 1
    decreases |s|
  {
    if |s| < |sep| then [s]
    else if s[..|sep|] == sep then [""] + SplitOn(s[|sep|..], sep)
    else
      var rest := SplitOn(s[1..], sep);
      [[s[0]] + rest[0]] + rest[1..]
  }

  /** Cutting at a character leaves it in no piece, and a character the
      text lacks is in no piece either. */
  lemma {:induction false} SplitOnPieces(s: string, c: char, d: char)
    requires d !in s
    ensures forall i, j :: 0 <= i < |SplitOn(s, [c])| && 0 <= j < |SplitOn(s, [c])[i]| ==>
      SplitOn(s, [c])[i][j] != c && SplitOn(s, [c])[i][j] != d
    decreases |s|
  {
    var r := SplitOn(s, [c]);
    if |s| >= 1 {
      var rest := SplitOn(s[1..], [c]);
      assert d !in s[1..] && s[0] in s && s[..1] == [s[0]];
      SplitOnPieces(s[1..], c, d);
      forall i, j | 0 <= i < |r| && 0 <= j < |r[i]| ensures r[i][j] != c && r[i][j] != d {
        if s[..1] == [c] {
          assert r == [""] + rest;
          assert r[i] == rest[i - 1];
        } else if i == 0 {
          assert r[0] == [s[0]] + rest[0];
          if j > 0 { assert r[0][j] == rest[0][j - 1]; } else { assert r[0][0] == s[0]; }
        } else {
          assert r[i] == rest[i];
        }
      }
    }
  }

  /** `sep.join(parts)`. */
  function Join(parts: seq<string>, sep: string): (r: string)
  {
    if parts == [] then ""
    else if |parts| == 1 then parts[0]
    else parts[0] + sep + Join(parts[1..], sep)
  }

  /** Splitting and joining again gives back the text: `SplitOn` loses
      nothing and invents nothing. */
  lemma {:induction false} SplitJoin(s: string, sep: string)
    requires sep != []
    ensures Join(SplitOn(s, sep), sep) == s
    decreases |s|
  {
    if |s| < |sep| {
    } else if s[..|sep|] == sep {
      SplitJoin(s[|sep|..], sep);
      var rest := SplitOn(s[|sep|..], sep);
      assert SplitOn(s, sep) == [""] + rest;
      assert ([""] + rest)[1..] == rest;
      assert s == s[..|sep|] + s[|sep|..];
    } else {
      SplitJoin(s[1..], sep);
      var rest := SplitOn(s[1..], sep);
      var r := [[s[0]] + rest[0]] + rest[1..];
      assert SplitOn(s, sep) == r;
      if |rest| == 1 {
        assert Join(r, sep) == [s[0]] + rest[0];
      } else {
        assert r[1..] == rest[1..];
        assert Join(r, sep) == [s[0]] + rest[0] + sep + Join(rest[1..], sep);
        assert Join(rest, sep) == rest[0] + sep + Join(rest[1..], sep);
      }
      assert s == [s[0]] + s[1..];
    }
  }

  /** Words joined by single spaces split back into the same words. */
  lemma {:induction false} WordsOfJoin(ws: seq<string>)
    requires forall i :: 0 <= i < |ws| ==> ws[i] != [] && NoSpace(ws[i])
    ensures Words(Join(ws, " ")) == ws
  {
    if ws == [] {
      assert Join(ws, " ") == "";
    } else {
      var w := ws[0];
      assert NoSpace(w);
      forall j | 0 <= j < |w| ensures NotSpace(w[j]) { }
      if |ws| == 1 {
        RunsSingle(w, NotSpace);
      } else {
        var rest := ws[1..];
        forall i | 0 <= i < |rest| ensures rest[i] != [] && NoSpace(rest[i]) { assert rest[i] == ws[i + 1]; }
        WordsOfJoin(rest);
        RunsCons(w, ' ', Join(rest, " "), NotSpace);
        assert Join(ws, " ") == w + [' '] + Join(rest, " ");
        assert ws == [w] + rest;
      }
    }
  }

  /** A one-character separator followed by more text. */
  lemma SplitOnCons(w: string, c: char, s: string)
    requires forall i :: 0 <= i < |w| ==> w[i] != c
    ensures SplitOn(w + [c] + s, [c]) == [w] + SplitOn(s, [c])
    decreases |w|
  {
    if w == [] {
      assert [c] + s == w + [c] + s;
      assert ([c] + s)[..1] == [c];
      assert ([c] + s)[1..] == s;
    } else {
      var t := w + [c] + s;
      assert t[..1] == [w[0]];
      assert t[1..] == w[1..] + [c] + s;
      SplitOnCons(w[1..], c, s);
      assert [w[0]] + w[1..] == w;
    }
  }

  /** A one-character separator that does not occur. */
  lemma {:induction false} SplitOnNone(w: string, c: char)
    requires forall i :: 0 <= i < |w| ==> w[i] != c
    ensures SplitOn(w, [c]) == [w]
  {
    if w != [] {
      assert w[..1] == [w[0]];
      SplitOnNone(w[1..], c);
      assert [w[0]] + w[1..] == w;
    }
  }

  /** Joining parts that hold no separator and splitting again gives the
      parts back. */
  lemma {:induction false} SplitOfJoin(parts: seq<string>, c: char)
    requires parts != []
    requires forall i, j :: 0 <= i < |parts| && 0 <= j < |parts[i]| ==> parts[i][j] != c
    ensures SplitOn(Join(parts, [c]), [c]) == parts
  {
    var w := parts[0];
    assert forall j :: 0 <= j < |w| ==> w[j] != c;
    if |parts| == 1 {
      SplitOnNone(w, c);
    } else {
      var rest := parts[1..];
      assert forall i, j :: 0 <= i < |rest| && 0 <= j < |rest[i]| ==> rest[i][j] != c by {
        forall i, j | 0 <= i < |rest| && 0 <= j < |rest[i]| ensures rest[i][j] != c { assert rest[i] == parts[i + 1]; }
      }
      SplitOfJoin(rest, c);
      SplitOnCons(w, c, Join(rest, [c]));
      assert parts == [w] + rest;
    }
  }

  /** A separator at the end leaves an empty last part:
      `(s + c).split(c)` is `s.split(c) + [""]`. */
  lemma {:induction false} SplitOnSnoc(s: string, c: char)
    ensures SplitOn(s + [c], [c]) == SplitOn(s, [c]) + [""]
    decreases |s|
  {
    var u := s + [c];
    if s == [] {
      assert u[..1] == [c] && u[1..] == [];
    } else {
      assert u[0] == s[0] && u[1..] == s[1..] + [c];
      var q := SplitOn(s[1..], [c]);
      assert SplitOn(s[1..] + [c], [c]) == q + [""] by { SplitOnSnoc(s[1..], c); }
      if s[0] == c {
        assert u[..1] == [c] && s[..1] == [c];
        assert SplitOn(u, [c]) == [""] + (q + [""]);
        assert SplitOn(s, [c]) == [""] + q;
      } else {
        assert u[..1] != [c] && s[..1] != [c];
        assert SplitOn(u, [c]) == [[s[0]] + (q + [""])[0]] + (q + [""])[1..];
        assert (q + [""])[0] == q[0] && (q + [""])[1..] == q[1..] + [""];
        assert SplitOn(s, [c]) == [[s[0]] + q[0]] + q[1..];
      }
    }
  }

  /** A separator that does not occur leaves the text whole. */
  lemma {:induction false} SplitOnAbsent(s: string, sep: string)
    requires sep != [] && !Contains(s, sep)
    ensures SplitOn(s, sep) == [s]
    decreases |s|
  {
    if |s| >= |sep| {
      assert OccursAt(s, sep, 0) == (s[..|sep|] == sep);
      ContainsTail(s, sep);
      SplitOnAbsent(s[1..], sep);
      assert [s[0]] + s[1..] == s;
    }
  }

  /** What the tail of a text contains, the text contains. */
  lemma ContainsTail(s: string, sub: string)
    requires s != []
    ensures Contains(s[1..], sub) ==> Contains(s, sub)
  {
    if Contains(s[1..], sub) {
      var i :| 0 <= i <= |s[1..]| - |sub| && OccursAt(s[1..], sub, i);
      assert s[i + 1..i + 1 + |sub|] == s[1..][i..i + |sub|];
      assert OccursAt(s, sub, i + 1);
    }
  }

  /** `s.strip()`: drop leading and trailing whitespace. */
  function Strip(s: string): (r: string)
    ensures |r| <= |s|
    ensures r == [] || (!IsSpace(r[0]) && !IsSpace(r[|r| - 1]))
    decreases |s|
  {
    if s == [] then s
    else if IsSpace(s[0]) then Strip(s[1..])
    else if IsSpace(s[|s| - 1]) then Strip(s[..|s| - 1])
    else s
  }

  /** A text that neither starts nor ends with whitespace is its own
      `strip()`. */
  lemma StripKeeps(s: string)
    requires s != [] && !IsSpace(s[0]) && !IsSpace(s[|s| - 1])
    ensures Strip(s) == s
  {
  }

  /** A text with a character of the class has a run. */
  lemma RunsSome(s: string, j: nat, p: char -> bool)
    requires j < |s| && p(s[j])
    ensures Runs(s, p) != []
  {
    assert SkipUntil(s, p) != [];
  }

  /** A text with a character that is not whitespace has a word. */
  lemma WordsSome(s: string, j: nat)
    requires j < |s| && !IsSpace(s[j])
    ensures Words(s) != []
  {
    RunsSome(s, j, NotSpace);
  }

  /** Whitespace strictly inside a text that starts and ends with words
      splits it into at least two. */
  lemma SpaceInside(s: string, j: nat)
    requires 0 < j < |s| - 1 && !IsSpace(s[0]) && !IsSpace(s[|s| - 1])
    ensures IsSpace(s[j]) ==> |Words(s)| >= 2
  {
    if IsSpace(s[j]) {
      assert s == s[..j] + [s[j]] + s[j + 1..];
      WordsGap(s[..j], [s[j]], s[j + 1..]);
      WordsSome(s[..j], 0);
      WordsSome(s[j + 1..], |s| - j - 2);
    }
  }

  /** The one word of a one-word text is the text stripped:
      `s.split() == [s.strip()]`. */
  lemma {:induction false} StripOneWord(s: string)
    requires |Words(s)| == 1
    ensures Words(s) == [Strip(s)]
    decreases |s|
  {
    assert Words([]) == [];
    assert s != [];
    if IsSpace(s[0]) {
      StripLead(s);
      StripOneWord(s[1..]);
    } else if IsSpace(s[|s| - 1]) {
      StripTrail(s);
      StripOneWord(s[..|s| - 1]);
    } else {
      StripInner(s);
    }
  }

  lemma StripLead(s: string)
    requires s != [] && IsSpace(s[0])
    ensures Words(s) == Words(s[1..]) && Strip(s) == Strip(s[1..])
  {
    RunsDrop(s, NotSpace);
  }

  lemma StripTrail(s: string)
    requires s != [] && !IsSpace(s[0]) && IsSpace(s[|s| - 1])
    ensures Words(s) == Words(s[..|s| - 1]) && Strip(s) == Strip(s[..|s| - 1])
  {
    WordsLast(s);
  }

  /** A blank at the end of a text is no part of a word. */
  lemma WordsLast(s: string)
    requires s != [] && IsSpace(s[|s| - 1])
    ensures Words(s) == Words(s[..|s| - 1])
  {
    var n := |s| - 1;
    assert s == s[..n] + [s[n]];
    WordsTrail(s[..n], s[n]);
  }

  lemma StripInner(s: string)
    requires s != [] && !IsSpace(s[0]) && !IsSpace(s[|s| - 1]) && |Words(s)| == 1
    ensures Words(s) == [s] && Strip(s) == s
  {
    forall j | 0 < j < |s| - 1 ensures !IsSpace(s[j]) {
      SpaceInside(s, j);
    }
    WordsOne(s);
  }

  /** A text of one line: it holds no newline. */
  predicate NoNewline(s: string) {
    forall i :: 0 <= i < |s| ==> s[i] != '\n'
  }

  /** What reading a file in text mode gives: universal newlines turn
      each `\r\n`, and each `\r` on its own, into `\n`. */
  function UniversalNewlines(s: string): string
    decreases |s|
  {
    if s == [] then []
    else if s[0] == '\r' then
      "\n" + UniversalNewlines(if |s| > 1 && s[1] == '\n' then s[2..] else s[1..])
    else [s[0]] + UniversalNewlines(s[1..])
  }

  /** One step of the translation: the first character, or a `\r\n` pair,
      and then the rest. */
  lemma UniversalStep(s: string)
    requires s != []
    ensures var k := if s[0] == '\r' && |s| > 1 && s[1] == '\n' then 2 else 1;
      UniversalNewlines(s) == (if s[0] == '\r' then "\n" else [s[0]]) + UniversalNewlines(s[k..])
  {
  }

  /** No `\r` survives the translation. */
  lemma {:induction false} UniversalNoReturn(s: string)
    ensures '\r' !in UniversalNewlines(s)
    decreases |s|
  {
    if s != [] {
      var k := if s[0] == '\r' && |s| > 1 && s[1] == '\n' then 2 else 1;
      UniversalStep(s);
      UniversalNoReturn(s[k..]);
    }
  }

  /** A text without `\r` reads back unchanged. */
  lemma {:induction false} UniversalPlain(s: string)
    requires '\r' !in s
    ensures UniversalNewlines(s) == s
  {
    if s != [] {
      assert s == [s[0]] + s[1..];
      UniversalPlain(s[1..]);
    }
  }

  /** A `\r` ends a line just as `\n` does: the text read back from
      `a + "\r" + b`, where `b` does not start with `\n`, is the text of
      `a`, a newline, and the text of `b`. */
  lemma {:induction false} UniversalReturn(a: string, b: string)
    requires b == [] || b[0] != '\n'
    ensures UniversalNewlines(a + "\r" + b) == UniversalNewlines(a) + "\n" + UniversalNewlines(b)
    decreases |a|, 1
  {
    if a == [] {
      var s := a + "\r" + b;
      assert s == "\r" + b && s[1..] == b;
    } else {
      var k := ReturnShift(a, b);
      ReturnAfter(a, b, k);
    }
  }

  /** Past the first character (or `\r\n` pair) of a non-empty `a`, both
      texts go on alike. */
  lemma ReturnShift(a: string, b: string) returns (k: nat)
    requires a != []
    ensures 0 < k <= |a|
    ensures var head := if a[0] == '\r' then "\n" else [a[0]];
      UniversalNewlines(a + "\r" + b) == head + UniversalNewlines(a[k..] + "\r" + b) &&
      UniversalNewlines(a) == head + UniversalNewlines(a[k..])
  {
    var s := a + "\r" + b;
    k := if a[0] == '\r' && |a| > 1 && a[1] == '\n' then 2 else 1;
    UniversalStep(s);
    UniversalStep(a);
    assert s[0] == a[0];
    assert |a| > 1 ==> s[1] == a[1];
    assert |a| == 1 ==> s[1] == '\r';
    assert s[k..] == a[k..] + "\r" + b;
  }

  lemma {:induction false} ReturnAfter(a: string, b: string, k: nat)
    requires b == [] || b[0] != '\n'
    requires 0 < k <= |a|
    requires var head := if a[0] == '\r' then "\n" else [a[0]];
      UniversalNewlines(a + "\r" + b) == head + UniversalNewlines(a[k..] + "\r" + b) &&
      UniversalNewlines(a) == head + UniversalNewlines(a[k..])
    ensures UniversalNewlines(a + "\r" + b) == UniversalNewlines(a) + "\n" + UniversalNewlines(b)
    decreases |a|, 0
  {
    UniversalReturn(a[k..], b);
    var head := if a[0] == '\r' then "\n" else [a[0]];
    Regroup(head, UniversalNewlines(a[k..]), UniversalNewlines(b));
  }

  lemma Regroup(h: string, x: string, y: string)
    ensures h + (x + "\n" + y) == h + x + "\n" + y
  {
  }

  /** `c.lower()` on the ASCII letters; every other character is kept. */
  function LowerChar(c: char): char {
    if 'A' <= c <= 'Z' then (c as int + 32) as char else c
  }

  /** `s.lower()`, ASCII letters only. */
  function Lower(s: string): (r: string)
    ensures |r| == |s|
    ensures forall i :: 0 <= i < |s| ==> r[i] == LowerChar(s[i])
  {
    seq(|s|, i requires 0 <= i < |s| => LowerChar(s[i]))
  }

  /** `n * s`: the string `s` repeated `n` times. */
  function Repeat(s: string, n: nat): (r: string)
    ensures |r| == n * |s|
  {
    if n == 0 then "" else s + Repeat(s, n - 1)
  }

  /** Every position of a repeated one-character string holds that character. */
  lemma {:induction false} RepeatChar(c: char, n: nat)
    ensures |Repeat([c], n)| == n
    ensures forall i :: 0 <= i < n ==> Repeat([c], n)[i] == c
  {
    if n > 0 {
      RepeatChar(c, n - 1);
      assert Repeat([c], n) == [c] + Repeat([c], n - 1);
    }
  }

  /** `s.rjust(width)`: pad on the left with spaces up to `width`. */
  function RJust(s: string, width: int): (r: string)
    ensures |r| == if |s| >= width then |s| else width
    ensures r[|r| - |s|..] == s
    ensures forall i :: 0 <= i < |r| - |s| ==> r[i] == ' '
  {
    if |s| >= width then s
    else
      var pad := Repeat(" ", width - |s|);
      RepeatChar(' ', width - |s|);
      pad + s
  }

  /** `sub` occurs in `s` starting at index `i`. */
  predicate OccursAt(s: string, sub: string, i: int) {
    0 <= i <= |s| - |sub| && s[i..i + |sub|] == sub
  }

  /** `sub in s`: `sub` occurs somewhere in `s`. */
  predicate Contains(s: string, sub: string) {
    exists i | 0 <= i <= |s| - |sub| :: OccursAt(s, sub, i)
  }

  /** Which strings occur in a one-character string: only the empty string
      and the character itself. */
  lemma ContainedInOneChar(c: char, t: string)
    ensures Contains([c], t) <==> (t == "" || t == [c])
  {
    if t == "" { assert OccursAt([c], t, 0); }
    if t == [c] { assert [c][0..1] == t; assert OccursAt([c], t, 0); }
  }

  /** `s.startswith(prefix)`. */
  predicate StartsWith(s: string, prefix: string) {
    |prefix| <= |s| && s[..|prefix|] == prefix
  }

  /** Python's negative slice end `s[:-1]` on a non-empty string. */
  function DropLast(s: string): (r: string)
    requires s != []
    ensures s == r + [s[|s| - 1]]
  {
    s[..|s| - 1]
  }

  /** Python's `s[:n]` for `n >= 0`: the first `n` characters, or all of
      them when there are fewer. */
  function Take(s: string, n: nat): (r: string)
    ensures |r| == if |s| < n then |s| else n
    ensures r == s[..|r|]
  {
    if |s| < n then s else s[..n]
  }
}
