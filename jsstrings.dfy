/**
 * The JavaScript string built-ins the core relies on: `split` on one character,
 * `trim`, ASCII `toLowerCase`, and the global `replace` forms used with a single
 * character class (`/[…]/g` with a replacement string or callback, `/[…]+/g`).
 * Strings are sequences of Unicode scalar values.
 */
module JsStrings {

  /** The characters matched by `\s` in a JavaScript regular expression and removed by `trim`. */
  predicate IsJsWhitespace(c: char) {
    var n := c as int;
    || (0x0009 <= n <= 0x000D) || n == 0x0020 || n == 0x00A0 || n == 0x1680
    || (0x2000 <= n <= 0x200A) || n == 0x2028 || n == 0x2029 || n == 0x202F
    || n == 0x205F || n == 0x3000 || n == 0xFEFF
  }

  predicate IsAsciiDigit(c: char) { '0' <= c <= '9' }

  predicate IsAsciiLower(c: char) { 'a' <= c <= 'z' }

  predicate IsAsciiUpper(c: char) { 'A' <= c <= 'Z' }

  /** A bracket expression: one character, a range, `\s`, the union of two classes, or a negation `[^…]`. */
  datatype CharClass =
    | Single(c: char)
    | Range(lo: char, hi: char)
    | Whitespace
    | Union(left: CharClass, right: CharClass)
    | Complement(of: CharClass)

  predicate InClass(c: char, cls: CharClass)
    decreases cls
  {
    match cls
    case Single(d) => c == d
    case Range(lo, hi) => lo <= c <= hi
    case Whitespace => IsJsWhitespace(c)
    case Union(left, right) => InClass(c, left) || InClass(c, right)
    case Complement(of) => !InClass(c, of)
  }

  /** `s.indexOf(c)`: the first position of `c`, or -1. */
  function IndexOf(s: string, c: char): (k: int)
    ensures -1 <= k < |s|
    ensures k >= 0 ==> s[k] == c && c !in s[..k]
    ensures k < 0 ==> c !in s
  {
    if s == [] then -1
    else if s[0] == c then 0
    else
      var k := IndexOf(s[1..], c);
      assert s[1..][..if k < 0 then 0 else k] == s[1..1 + if k < 0 then 0 else k];
      if k < 0 then -1 else k + 1
  }

  /** `s.split(sep)` for a one-character separator: never empty, and no part holds `sep`. */
  function Split(s: string, sep: char): (parts: seq<string>)
    ensures |parts| >= 1
    ensures forall i | 0 <= i < |parts| :: sep !in parts[i]
    decreases |s|
  {
    var k := IndexOf(s, sep);
    if k < 0 then [s]
    else
      var head, tail := s[..k], Split(s[k + 1..], sep);
      var parts := [head] + tail;
      assert forall i | 0 <= i < |parts| :: sep !in parts[i] by {
        forall i | 0 <= i < |parts| ensures sep !in parts[i] {
          if i > 0 { assert parts[i] == tail[i - 1]; }
        }
      }
      parts
  }

  /** `parts.join(sep)`. */
  function Join(parts: seq<string>, sep: char): string
  {
    if |parts| == 0 then []
    else if |parts| == 1 then parts[0]
    else parts[0] + [sep] + Join(parts[1..], sep)
  }

  /** Splitting and joining on the same character gives the string back. */
  lemma {:induction false} JoinSplit(s: string, sep: char)
    ensures Join(Split(s, sep), sep) == s
    decreases |s|
  {
    var k := IndexOf(s, sep);
    if k >= 0 {
      var rest := s[k + 1..];
      assert Join(Split(rest, sep), sep) == rest by { JoinSplit(rest, sep); }
      JoinSplitStep(s, sep);
    } else {
      JoinSplitNone(s, sep);
    }
  }

  lemma JoinSplitNone(s: string, sep: char)
    requires IndexOf(s, sep) < 0
    ensures Join(Split(s, sep), sep) == s
  {
    assert Split(s, sep) == [s];
  }

  /** Past the first separator, split-then-join gives the string back if it does so for the rest. */
  lemma JoinSplitStep(s: string, sep: char)
    requires IndexOf(s, sep) >= 0
    requires var k := IndexOf(s, sep); Join(Split(s[k + 1..], sep), sep) == s[k + 1..]
    ensures Join(Split(s, sep), sep) == s
  {
    var k := IndexOf(s, sep);
    var head, rest := s[..k], s[k + 1..];
    var tail := Split(rest, sep);
    calc {
      Join(Split(s, sep), sep);
      { assert Split(s, sep) == [head] + tail; }
      Join([head] + tail, sep);
      { JoinCons(head, tail, sep); }
      head + [sep] + Join(tail, sep);
      head + [sep] + rest;
      { Reassemble(s, k); }
      s;
    }
  }

  lemma Reassemble(s: string, k: int)
    requires 0 <= k < |s|
    ensures s == s[..k] + [s[k]] + s[k + 1..]
  {
  }

  lemma JoinCons(head: string, tail: seq<string>, sep: char)
    requires |tail| >= 1
    ensures Join([head] + tail, sep) == head + [sep] + Join(tail, sep)
  {
    assert ([head] + tail)[1..] == tail;
  }

  /** Joining parts free of `sep` and splitting again gives the parts back. */
  lemma {:induction false} SplitJoin(parts: seq<string>, sep: char)
    requires |parts| >= 1
    requires forall i | 0 <= i < |parts| :: sep !in parts[i]
    ensures Split(Join(parts, sep), sep) == parts
    decreases |parts|
  {
    if |parts| == 1 {
      assert IndexOf(parts[0], sep) < 0;
    } else {
      var s := Join(parts, sep);
      var rest := Join(parts[1..], sep);
      assert s == parts[0] + [sep] + rest;
      assert sep !in parts[0];
      assert s[..|parts[0]|] == parts[0];
      IndexOfAt(s, sep, |parts[0]|);
      var k := IndexOf(s, sep);
      assert s[k + 1..] == rest;
      SplitJoin(parts[1..], sep);
    }
  }

  /** The first occurrence is found wherever `c` appears with no earlier `c`. */
  lemma IndexOfAt(s: string, c: char, j: int)
    requires 0 <= j < |s| && s[j] == c && c !in s[..j]
    ensures IndexOf(s, c) == j
  {
  }

  /** The first part of a split is everything before the first separator. */
  lemma SplitHead(s: string, sep: char)
    ensures Split(s, sep)[0] == (if IndexOf(s, sep) < 0 then s else s[..IndexOf(s, sep)])
  {
  }

  /** Applies `f` to every character (a global `replace` whose callback maps each match). */
  function MapChars(s: string, f: char -> char): (r: string)
    ensures |r| == |s|
    ensures forall i | 0 <= i < |s| :: r[i] == f(s[i])
  {
    if s == [] then [] else [f(s[0])] + MapChars(s[1..], f)
  }

  function LowerAsciiChar(c: char): char {
    if IsAsciiUpper(c) then (c as int + 32) as char else c
  }

  /** `toLowerCase` restricted to ASCII letters. */
  function ToLowerAscii(s: string): (r: string)
    ensures |r| == |s|
    ensures forall i | 0 <= i < |s| ::
      !IsAsciiUpper(r[i]) && (IsAsciiUpper(s[i]) ==> r[i] as int == s[i] as int + 32)
      && (!IsAsciiUpper(s[i]) ==> r[i] == s[i])
  {
    MapChars(s, LowerAsciiChar)
  }

  /** `s.replace(/[cls]/g, '')`: every character of the class removed, the rest kept in order. */
  function RemoveAll(s: string, cls: CharClass): string
    decreases |s|
  {
    if s == [] then []
    else if InClass(s[0], cls) then RemoveAll(s[1..], cls)
    else [s[0]] + RemoveAll(s[1..], cls)
  }

  /**
   * What the removal leaves: never longer; no class character and nothing new; text
   * without class characters unchanged; text of class characters only gone.
   */
  lemma {:induction false} RemoveAllFacts(s: string, cls: CharClass)
    ensures |RemoveAll(s, cls)| <= |s|
    ensures Drawn(RemoveAll(s, cls), cls, s)
    ensures (forall i | 0 <= i < |s| :: !InClass(s[i], cls)) ==> RemoveAll(s, cls) == s
    ensures (forall i | 0 <= i < |s| :: InClass(s[i], cls)) ==> RemoveAll(s, cls) == []
  {
    RemoveAllChars(s, cls);
    RemoveAllNone(s, cls);
    RemoveAllOnly(s, cls);
  }

  /** Every character of `r` is outside the class and comes from `src`. */
  predicate Drawn(r: string, cls: CharClass, src: string) {
    forall i | 0 <= i < |r| :: !InClass(r[i], cls) && r[i] in src
  }

  lemma DrawnCons(x: char, t: string, cls: CharClass, src: string)
    requires !InClass(x, cls) && x in src
    requires Drawn(t, cls, src)
    ensures Drawn([x] + t, cls, src)
  {
    var r := [x] + t;
    forall i | 1 <= i < |r| ensures r[i] == t[i - 1] {}
  }

  lemma DrawnSuffix(r: string, cls: CharClass, src: string, k: int)
    requires 0 <= k <= |src| && Drawn(r, cls, src[k..])
    ensures Drawn(r, cls, src)
  {
    forall x | x in src[k..] ensures x in src {
      var j :| 0 <= j < |src[k..]| && src[k..][j] == x;
      assert src[k + j] == x;
    }
  }

  lemma {:induction false} RemoveAllChars(s: string, cls: CharClass)
    ensures |RemoveAll(s, cls)| <= |s|
    ensures Drawn(RemoveAll(s, cls), cls, s)
    decreases |s|
  {
    if s != [] {
      RemoveAllChars(s[1..], cls);
      DrawnSuffix(RemoveAll(s[1..], cls), cls, s, 1);
      if !InClass(s[0], cls) {
        DrawnCons(s[0], RemoveAll(s[1..], cls), cls, s);
      }
    }
  }

  lemma {:induction false} RemoveAllNone(s: string, cls: CharClass)
    ensures (forall i | 0 <= i < |s| :: !InClass(s[i], cls)) ==> RemoveAll(s, cls) == s
    decreases |s|
  {
    if s != [] {
      RemoveAllNone(s[1..], cls);
      assert s == [s[0]] + s[1..];
      if forall i | 0 <= i < |s| :: !InClass(s[i], cls) {
        assert forall i | 0 <= i < |s[1..]| :: !InClass(s[1..][i], cls) by {
          forall i | 0 <= i < |s[1..]| ensures s[1..][i] == s[i + 1] {}
        }
      }
    }
  }

  lemma {:induction false} RemoveAllOnly(s: string, cls: CharClass)
    ensures (forall i | 0 <= i < |s| :: InClass(s[i], cls)) ==> RemoveAll(s, cls) == []
    decreases |s|
  {
    if s != [] {
      RemoveAllOnly(s[1..], cls);
      if forall i | 0 <= i < |s| :: InClass(s[i], cls) {
        assert forall i | 0 <= i < |s[1..]| :: InClass(s[1..][i], cls) by {
          forall i | 0 <= i < |s[1..]| ensures s[1..][i] == s[i + 1] {}
        }
      }
    }
  }

  /**
   * Removal works piece by piece. With the two cases above for a one-character string,
   * this pins `RemoveAll` down: the characters outside the class, in their order.
   */
  lemma {:induction false} RemoveAllAppend(a: string, b: string, cls: CharClass)
    ensures RemoveAll(a + b, cls) == RemoveAll(a, cls) + RemoveAll(b, cls)
    decreases |a|
  {
    if a == [] {
      assert a + b == b;
    } else {
      assert (a + b)[0] == a[0] && (a + b)[1..] == a[1..] + b;
      RemoveAllAppend(a[1..], b, cls);
    }
  }

  /** A character outside the class at either end of the input stays at that end. */
  lemma RemoveAllEnds(s: string, cls: CharClass)
    ensures s != [] && !InClass(s[0], cls) ==> RemoveAll(s, cls) != [] && RemoveAll(s, cls)[0] == s[0]
    ensures s != [] && !InClass(s[|s| - 1], cls) ==>
      var r := RemoveAll(s, cls); r != [] && r[|r| - 1] == s[|s| - 1]
  {
    if s != [] && !InClass(s[|s| - 1], cls) {
      var init, last := s[..|s| - 1], s[|s| - 1..];
      assert s == init + last;
      RemoveAllAppend(init, last, cls);
      assert RemoveAll(last, cls) == last by {
        RemoveAllFacts(last, cls);
      }
    }
  }

  /** Removing part of a class first leaves nothing for a removal of the whole class to tell apart. */
  lemma {:induction false} RemoveAllWithin(s: string, cls: CharClass, wider: CharClass)
    requires forall c :: InClass(c, cls) ==> InClass(c, wider)
    ensures RemoveAll(RemoveAll(s, cls), wider) == RemoveAll(s, wider)
    decreases |s|
  {
    if s != [] {
      RemoveAllWithin(s[1..], cls, wider);
      if !InClass(s[0], cls) {
        var t := RemoveAll(s[1..], cls);
        assert ([s[0]] + t)[0] == s[0] && ([s[0]] + t)[1..] == t;
      }
    }
  }

  /** The string with its leading run of `cls` characters removed. */
  function DropRun(s: string, cls: CharClass): (r: string)
    ensures |r| <= |s|
    decreases |s|
  {
    if s != [] && InClass(s[0], cls) then DropRun(s[1..], cls) else s
  }

  /** What `DropRun` leaves: a suffix that does not start with a class character, after class characters only. */
  lemma {:induction false} DropRunFacts(s: string, cls: CharClass)
    ensures var r := DropRun(s, cls); |r| <= |s| && r == s[|s| - |r|..]
    ensures var r := DropRun(s, cls); r == [] || !InClass(r[0], cls)
    ensures var r := DropRun(s, cls); forall i | 0 <= i < |s| - |r| :: InClass(s[i], cls)
    decreases |s|
  {
    if s != [] && InClass(s[0], cls) {
      DropRunFacts(s[1..], cls);
      var r := DropRun(s, cls);
      forall i | 1 <= i < |s| - |r| ensures InClass(s[i], cls) {
        assert s[1..][i - 1] == s[i];
      }
    }
  }

  lemma {:induction false} DropRunAppend(a: string, b: string, cls: CharClass)
    ensures DropRun(a + b, cls) == if DropRun(a, cls) == [] then DropRun(b, cls) else DropRun(a, cls) + b
    decreases |a|
  {
    if a == [] {
      assert a + b == b;
    } else if InClass(a[0], cls) {
      assert (a + b)[0] == a[0] && (a + b)[1..] == a[1..] + b;
      DropRunAppend(a[1..], b, cls);
    }
  }

  /** Every class character is `c`, and no two class characters are adjacent. */
  predicate RunsCollapsed(s: string, cls: CharClass, c: char) {
    && (forall i | 0 <= i < |s| :: InClass(s[i], cls) ==> s[i] == c)
    && (forall i | 0 <= i < |s| - 1 :: !(InClass(s[i], cls) && InClass(s[i + 1], cls)))
  }

  lemma CollapsedTail(s: string, cls: CharClass, c: char)
    requires s != []
    ensures RunsCollapsed(s, cls, c) ==> RunsCollapsed(s[1..], cls, c)
    ensures RunsCollapsed(s, cls, c) && InClass(s[0], cls) ==> s[0] == c && DropRun(s, cls) == s[1..]
  {
    if RunsCollapsed(s, cls, c) {
      var t := s[1..];
      assert forall i | 0 <= i < |t| :: t[i] == s[i + 1];
      if InClass(s[0], cls) && |s| > 1 {
        assert !InClass(s[1], cls);
      }
    }
  }

  /** `s.replace(/[cls]+/g, c)`: every maximal run of class characters becomes the single character `c`. */
  function ReplaceRuns(s: string, cls: CharClass, c: char): string
    decreases |s|
  {
    if s == [] then []
    else if InClass(s[0], cls) then [c] + ReplaceRuns(DropRun(s, cls), cls, c)
    else [s[0]] + ReplaceRuns(s[1..], cls, c)
  }

  /**
   * What the rewriting leaves: never longer; only `c` and characters of the input
   * outside the class; the first character decided by the first of the input; a run
   * of class characters alone gives `c`; with `c` in the class, no two class characters
   * adjacent; and text already in that form unchanged.
   */
  lemma ReplaceRunsFacts(s: string, cls: CharClass, c: char)
    ensures |ReplaceRuns(s, cls, c)| <= |s|
    ensures Sourced(ReplaceRuns(s, cls, c), cls, c, s)
    ensures var r := ReplaceRuns(s, cls, c);
      r != [] && s != [] ==> r[0] == if InClass(s[0], cls) then c else s[0]
    ensures InClass(c, cls) ==> Apart(ReplaceRuns(s, cls, c), cls)
    ensures RunsCollapsed(s, cls, c) ==> ReplaceRuns(s, cls, c) == s
    ensures s != [] && (forall i | 0 <= i < |s| :: InClass(s[i], cls)) ==> ReplaceRuns(s, cls, c) == [c]
  {
    RunsChars(s, cls, c);
    RunsFirst(s, cls, c);
    if InClass(c, cls) {
      RunsApart(s, cls, c);
    }
    RunsUnchanged(s, cls, c);
    if s != [] && (forall i | 0 <= i < |s| :: InClass(s[i], cls)) {
      RunHead(s, cls, c);
      DropRunFacts(s, cls);
      assert DropRun(s, cls) == [];
    }
  }

  /** Every character of `r` is `c` or a character of `src` outside the class. */
  predicate Sourced(r: string, cls: CharClass, c: char, src: string) {
    forall i | 0 <= i < |r| :: r[i] == c || (!InClass(r[i], cls) && r[i] in src)
  }

  lemma SourcedCons(x: char, t: string, cls: CharClass, c: char, src: string)
    requires x == c || (!InClass(x, cls) && x in src)
    requires Sourced(t, cls, c, src)
    ensures Sourced([x] + t, cls, c, src)
  {
    var r := [x] + t;
    forall i | 1 <= i < |r| ensures r[i] == t[i - 1] {}
  }

  lemma SourcedSuffix(r: string, cls: CharClass, c: char, src: string, k: int)
    requires 0 <= k <= |src| && Sourced(r, cls, c, src[k..])
    ensures Sourced(r, cls, c, src)
  {
    forall x | x in src[k..] ensures x in src {
      var j :| 0 <= j < |src[k..]| && src[k..][j] == x;
      assert src[k + j] == x;
    }
  }

  lemma {:induction false} RunsChars(s: string, cls: CharClass, c: char)
    ensures |ReplaceRuns(s, cls, c)| <= |s|
    ensures Sourced(ReplaceRuns(s, cls, c), cls, c, s)
    decreases |s|
  {
    if s != [] {
      if InClass(s[0], cls) {
        var d := DropRun(s, cls);
        DropRunFacts(s, cls);
        RunsChars(d, cls, c);
        RunHead(s, cls, c);
        SourcedSuffix(ReplaceRuns(d, cls, c), cls, c, s, |s| - |d|);
        SourcedCons(c, ReplaceRuns(d, cls, c), cls, c, s);
      } else {
        RunsChars(s[1..], cls, c);
        assert s == [s[0]] + s[1..];
        KeptCons(s[0], s[1..], cls, c);
        SourcedSuffix(ReplaceRuns(s[1..], cls, c), cls, c, s, 1);
        SourcedCons(s[0], ReplaceRuns(s[1..], cls, c), cls, c, s);
      }
    }
  }

  lemma RunsFirst(s: string, cls: CharClass, c: char)
    ensures var r := ReplaceRuns(s, cls, c);
      r != [] && s != [] ==> r[0] == if InClass(s[0], cls) then c else s[0]
  {
    if s != [] {
      if InClass(s[0], cls) {
        RunHead(s, cls, c);
      } else {
        assert s == [s[0]] + s[1..];
        KeptCons(s[0], s[1..], cls, c);
      }
    }
  }

  lemma {:induction false} RunsUnchanged(s: string, cls: CharClass, c: char)
    ensures RunsCollapsed(s, cls, c) ==> ReplaceRuns(s, cls, c) == s
    decreases |s|
  {
    if s != [] && RunsCollapsed(s, cls, c) {
      CollapsedTail(s, cls, c);
      RunsUnchanged(s[1..], cls, c);
      assert s == [s[0]] + s[1..];
      if InClass(s[0], cls) {
        RunHead(s, cls, c);
      } else {
        KeptCons(s[0], s[1..], cls, c);
      }
    }
  }

  /** No two class characters are adjacent. */
  predicate Apart(r: string, cls: CharClass) {
    forall i | 0 <= i < |r| - 1 :: !(InClass(r[i], cls) && InClass(r[i + 1], cls))
  }

  lemma ApartCons(x: char, t: string, cls: CharClass)
    requires Apart(t, cls)
    requires !InClass(x, cls) || t == [] || !InClass(t[0], cls)
    ensures Apart([x] + t, cls)
  {
    var r := [x] + t;
    forall i | 0 <= i < |r| - 1 ensures !(InClass(r[i], cls) && InClass(r[i + 1], cls)) {
      if i > 0 {
        assert r[i] == t[i - 1] && r[i + 1] == t[i];
      }
    }
  }

  /** With `c` in the class, a run is always followed by a character outside it. */
  lemma {:induction false} RunsApart(s: string, cls: CharClass, c: char)
    requires InClass(c, cls)
    ensures Apart(ReplaceRuns(s, cls, c), cls)
    decreases |s|
  {
    if s != [] {
      if InClass(s[0], cls) {
        var d := DropRun(s, cls);
        DropRunFacts(s, cls);
        RunsApart(d, cls, c);
        RunHead(s, cls, c);
        var t := ReplaceRuns(d, cls, c);
        if t != [] {
          assert d != [] && !InClass(d[0], cls);
          assert d == [d[0]] + d[1..];
          KeptCons(d[0], d[1..], cls, c);
        }
        ApartCons(c, t, cls);
      } else {
        RunsApart(s[1..], cls, c);
        assert s == [s[0]] + s[1..];
        KeptCons(s[0], s[1..], cls, c);
        ApartCons(s[0], ReplaceRuns(s[1..], cls, c), cls);
      }
    }
  }

  /**
   * Text cut next to a character outside the class is rewritten piece by piece. With
   * the run and run-free cases of `ReplaceRuns`, this pins the rewriting down: each
   * maximal run becomes one `c`, and everything between runs is kept in order.
   */
  lemma {:induction false} ReplaceRunsJoin(a: string, b: string, cls: CharClass, c: char)
    requires a == [] || b == [] || !InClass(a[|a| - 1], cls) || !InClass(b[0], cls)
    ensures ReplaceRuns(a + b, cls, c) == ReplaceRuns(a, cls, c) + ReplaceRuns(b, cls, c)
    decreases |a|
  {
    if a == [] {
      assert a + b == b;
    } else if !InClass(a[0], cls) {
      assert ReplaceRuns(a[1..] + b, cls, c) == ReplaceRuns(a[1..], cls, c) + ReplaceRuns(b, cls, c) by {
        ReplaceRunsJoin(a[1..], b, cls, c);
      }
      JoinAfterKept(a, b, cls, c);
    } else if DropRun(a, cls) != [] {
      var d := DropRun(a, cls);
      assert ReplaceRuns(d + b, cls, c) == ReplaceRuns(d, cls, c) + ReplaceRuns(b, cls, c) by {
        DropRunFacts(a, cls);
        assert d[|d| - 1] == a[|a| - 1];
        ReplaceRunsJoin(d, b, cls, c);
      }
      JoinAfterRun(a, b, cls, c);
    } else {
      DropRunFacts(a, cls);
      JoinWholeRun(a, b, cls, c);
    }
  }

  lemma JoinAfterKept(a: string, b: string, cls: CharClass, c: char)
    requires a != [] && !InClass(a[0], cls)
    requires ReplaceRuns(a[1..] + b, cls, c) == ReplaceRuns(a[1..], cls, c) + ReplaceRuns(b, cls, c)
    ensures ReplaceRuns(a + b, cls, c) == ReplaceRuns(a, cls, c) + ReplaceRuns(b, cls, c)
  {
    var x, t := a[0], a[1..];
    assert a == [x] + t;
    assert a + b == [x] + (t + b);
    KeptCons(x, t + b, cls, c);
    KeptCons(x, t, cls, c);
  }

  lemma JoinAfterRun(a: string, b: string, cls: CharClass, c: char)
    requires a != [] && InClass(a[0], cls) && DropRun(a, cls) != []
    requires var d := DropRun(a, cls);
      ReplaceRuns(d + b, cls, c) == ReplaceRuns(d, cls, c) + ReplaceRuns(b, cls, c)
    ensures ReplaceRuns(a + b, cls, c) == ReplaceRuns(a, cls, c) + ReplaceRuns(b, cls, c)
  {
    DropRunAppend(a, b, cls);
    RunHead(a + b, cls, c);
    RunHead(a, cls, c);
  }

  lemma JoinWholeRun(a: string, b: string, cls: CharClass, c: char)
    requires a != [] && InClass(a[0], cls) && DropRun(a, cls) == []
    requires b == [] || !InClass(b[0], cls)
    ensures ReplaceRuns(a + b, cls, c) == ReplaceRuns(a, cls, c) + ReplaceRuns(b, cls, c)
  {
    DropRunAppend(a, b, cls);
    assert DropRun(b, cls) == b;
    RunHead(a + b, cls, c);
    RunHead(a, cls, c);
    assert ReplaceRuns([], cls, c) == [];
  }

  /** A character outside the class is kept. */
  lemma KeptCons(x: char, t: string, cls: CharClass, c: char)
    requires !InClass(x, cls)
    ensures ReplaceRuns([x] + t, cls, c) == [x] + ReplaceRuns(t, cls, c)
  {
    assert ([x] + t)[0] == x && ([x] + t)[1..] == t;
  }

  /** A leading run becomes `c`. */
  lemma RunHead(s: string, cls: CharClass, c: char)
    requires s != [] && InClass(s[0], cls)
    ensures ReplaceRuns(s, cls, c) == [c] + ReplaceRuns(DropRun(s, cls), cls, c)
  {
  }

  /** What is left after removing a class that covers the runs and `c` is not changed by the rewriting. */
  lemma {:induction false} ReplaceRunsKeeps(s: string, cls: CharClass, c: char, wider: CharClass)
    requires forall x :: InClass(x, cls) ==> InClass(x, wider)
    requires InClass(c, wider)
    ensures RemoveAll(ReplaceRuns(s, cls, c), wider) == RemoveAll(s, wider)
    decreases |s|
  {
    if s != [] {
      if InClass(s[0], cls) {
        var d := DropRun(s, cls);
        assert RemoveAll(ReplaceRuns(d, cls, c), wider) == RemoveAll(d, wider) by {
          ReplaceRunsKeeps(d, cls, c, wider);
        }
        KeepsAfterRun(s, cls, c, wider);
      } else {
        assert RemoveAll(ReplaceRuns(s[1..], cls, c), wider) == RemoveAll(s[1..], wider) by {
          ReplaceRunsKeeps(s[1..], cls, c, wider);
        }
        KeepsAfterKept(s, cls, c, wider);
      }
    }
  }

  lemma KeepsAfterRun(s: string, cls: CharClass, c: char, wider: CharClass)
    requires forall x :: InClass(x, cls) ==> InClass(x, wider)
    requires InClass(c, wider)
    requires s != [] && InClass(s[0], cls)
    requires var d := DropRun(s, cls); RemoveAll(ReplaceRuns(d, cls, c), wider) == RemoveAll(d, wider)
    ensures RemoveAll(ReplaceRuns(s, cls, c), wider) == RemoveAll(s, wider)
  {
    var d := DropRun(s, cls);
    RemoveAllRun(s, cls, wider);
    RunHead(s, cls, c);
    RemoveAllCons(c, ReplaceRuns(d, cls, c), wider);
  }

  /** Removing a class that covers the leading run removes the run with it. */
  lemma RemoveAllRun(s: string, cls: CharClass, wider: CharClass)
    requires forall x :: InClass(x, cls) ==> InClass(x, wider)
    ensures RemoveAll(s, wider) == RemoveAll(DropRun(s, cls), wider)
  {
    var d := DropRun(s, cls);
    DropRunFacts(s, cls);
    var run := s[..|s| - |d|];
    assert RemoveAll(run, wider) == [] by {
      RemoveAllFacts(run, wider);
    }
    assert s == run + d;
    RemoveAllAppend(run, d, wider);
  }

  lemma RemoveAllCons(x: char, t: string, cls: CharClass)
    ensures RemoveAll([x] + t, cls) == (if InClass(x, cls) then [] else [x]) + RemoveAll(t, cls)
  {
    assert ([x] + t)[0] == x && ([x] + t)[1..] == t;
  }

  lemma KeepsAfterKept(s: string, cls: CharClass, c: char, wider: CharClass)
    requires s != [] && !InClass(s[0], cls)
    requires RemoveAll(ReplaceRuns(s[1..], cls, c), wider) == RemoveAll(s[1..], wider)
    ensures RemoveAll(ReplaceRuns(s, cls, c), wider) == RemoveAll(s, wider)
  {
    assert s == [s[0]] + s[1..];
    KeptCons(s[0], s[1..], cls, c);
    RemoveAllAppend([s[0]], s[1..], wider);
    RemoveAllAppend([s[0]], ReplaceRuns(s[1..], cls, c), wider);
  }

  /** `s.trimStart()`: the leading run of whitespace dropped. */
  function TrimStart(s: string): (r: string)
    ensures |r| <= |s|
  {
    DropRun(s, Whitespace)
  }

  /** What `trimStart` leaves: a suffix not starting with whitespace, after whitespace only. */
  lemma TrimStartFacts(s: string)
    ensures var r := TrimStart(s); r == s[|s| - |r|..]
    ensures var r := TrimStart(s); forall i | 0 <= i < |s| - |r| :: IsJsWhitespace(s[i])
    ensures var r := TrimStart(s); r == [] || !IsJsWhitespace(r[0])
    ensures s == [] || !IsJsWhitespace(s[0]) ==> TrimStart(s) == s
  {
    DropRunFacts(s, Whitespace);
  }

  /** `s.trimEnd()`. */
  function TrimEnd(s: string): (r: string)
    ensures |r| <= |s|
  {
    if s != [] && IsJsWhitespace(s[|s| - 1]) then TrimEnd(s[..|s| - 1]) else s
  }

  /** What `trimEnd` leaves: a prefix not ending in whitespace, before whitespace only. */
  lemma {:induction false} TrimEndFacts(s: string)
    ensures var r := TrimEnd(s); r == s[..|r|]
    ensures var r := TrimEnd(s); forall i | |r| <= i < |s| :: IsJsWhitespace(s[i])
    ensures var r := TrimEnd(s); r == [] || !IsJsWhitespace(r[|r| - 1])
    ensures s == [] || !IsJsWhitespace(s[|s| - 1]) ==> TrimEnd(s) == s
    decreases |s|
  {
    if s != [] && IsJsWhitespace(s[|s| - 1]) {
      var init := s[..|s| - 1];
      TrimEndFacts(init);
      var r := TrimEnd(s);
      assert r == init[..|r|];
      forall i | |r| <= i < |s| ensures IsJsWhitespace(s[i]) {
        if i < |s| - 1 {
          assert init[i] == s[i];
        }
      }
    }
  }

  /**
   * `s.trim()`: the slice of `s` between its leading whitespace (what `trimStart`
   * removes) and its trailing whitespace, with no whitespace at either end.
   */
  function Trim(s: string): (r: string)
    ensures var lo := |s| - |TrimStart(s)|; lo + |r| <= |s| && r == s[lo..lo + |r|]
    ensures forall i | 0 <= i < |s| - |TrimStart(s)| :: IsJsWhitespace(s[i])
    ensures forall i | |s| - |TrimStart(s)| + |r| <= i < |s| :: IsJsWhitespace(s[i])
    ensures r == [] || (!IsJsWhitespace(r[0]) && !IsJsWhitespace(r[|r| - 1]))
    ensures (s == [] || (!IsJsWhitespace(s[0]) && !IsJsWhitespace(s[|s| - 1]))) ==> r == s
  {
    var t := TrimStart(s);
    var r := TrimEnd(t);
    TrimStartFacts(s);
    TrimEndFacts(t);
    TrimSlice(s, t, r);
    TrimEdges(s, t, r);
    r
  }

  lemma TrimSlice(s: string, t: string, r: string)
    requires |t| <= |s| && t == s[|s| - |t|..]
    requires |r| <= |t| && r == t[..|r|]
    requires forall i | |r| <= i < |t| :: IsJsWhitespace(t[i])
    ensures var lo := |s| - |t|; lo + |r| <= |s| && r == s[lo..lo + |r|]
    ensures forall i | |s| - |t| + |r| <= i < |s| :: IsJsWhitespace(s[i])
  {
    var lo := |s| - |t|;
    forall i | lo + |r| <= i < |s| ensures IsJsWhitespace(s[i]) {
      assert s[i] == t[i - lo];
    }
  }

  lemma TrimEdges(s: string, t: string, r: string)
    requires |t| <= |s| && t == s[|s| - |t|..] && (t == [] || !IsJsWhitespace(t[0]))
    requires s == [] || !IsJsWhitespace(s[0]) ==> t == s
    requires |r| <= |t| && r == t[..|r|] && (r == [] || !IsJsWhitespace(r[|r| - 1]))
    requires t == [] || !IsJsWhitespace(t[|t| - 1]) ==> r == t
    ensures r == [] || (!IsJsWhitespace(r[0]) && !IsJsWhitespace(r[|r| - 1]))
    ensures (s == [] || (!IsJsWhitespace(s[0]) && !IsJsWhitespace(s[|s| - 1]))) ==> r == s
  {
    if r != [] {
      assert r[0] == t[0];
    }
    if s != [] && !IsJsWhitespace(s[0]) && !IsJsWhitespace(s[|s| - 1]) {
      assert t == s;
    }
  }

  /** Trimming only removes whitespace, so a removal that covers whitespace sees no change. */
  lemma RemoveAllTrim(s: string, wider: CharClass)
    requires forall x :: IsJsWhitespace(x) ==> InClass(x, wider)
    ensures RemoveAll(Trim(s), wider) == RemoveAll(s, wider)
  {
    var r := Trim(s);
    var lo := |s| - |TrimStart(s)|;
    var head, tail := s[..lo], s[lo + |r|..];
    assert s == head + r + tail;
    assert forall i | 0 <= i < |head| :: InClass(head[i], wider) by {
      forall i | 0 <= i < |head| ensures IsJsWhitespace(head[i]) {
        assert head[i] == s[i];
      }
    }
    assert forall i | 0 <= i < |tail| :: InClass(tail[i], wider) by {
      forall i | 0 <= i < |tail| ensures IsJsWhitespace(tail[i]) {
        assert tail[i] == s[lo + |r| + i];
      }
    }
    RemoveAllAround(head, r, tail, wider);
  }

  /** Class characters on both sides of `r` leave nothing after removal. */
  lemma RemoveAllAround(head: string, r: string, tail: string, cls: CharClass)
    requires forall i | 0 <= i < |head| :: InClass(head[i], cls)
    requires forall i | 0 <= i < |tail| :: InClass(tail[i], cls)
    ensures RemoveAll(head + r + tail, cls) == RemoveAll(r, cls)
  {
    RemoveAllFacts(head, cls);
    RemoveAllFacts(tail, cls);
    RemoveAllAppend(head + r, tail, cls);
    RemoveAllAppend(head, r, cls);
  }

  /** Every character of the trimmed text comes from the input. */
  lemma TrimKeepsChars(s: string)
    ensures forall i | 0 <= i < |Trim(s)| :: Trim(s)[i] in s
  {
    var r := Trim(s);
    var lo := |s| - |TrimStart(s)|;
    forall i | 0 <= i < |r| ensures r[i] in s {
      assert r[i] == s[lo + i];
    }
  }
}
