/**
 * The regular expressions of the core are all anchored (`^…$`) sequences of
 * quantified character classes. A `Term` is one `[cls]{min,max}`; a pattern is a
 * sequence of terms, and `Matches` is the meaning of `pattern.test(s)`.
 */
module Regex {
  import opened Wrappers
  import opened JsStrings

  /** `[cls]{min,max}`; an absent `max` is an unbounded repetition (`+`, `*`). */
  datatype Term = Term(cls: CharClass, min: nat, max: Option<nat>)

  function One(cls: CharClass): Term { Term(cls, 1, Some(1)) }
  function Opt(cls: CharClass): Term { Term(cls, 0, Some(1)) }
  function Plus(cls: CharClass): Term { Term(cls, 1, None) }
  function Rep(cls: CharClass, lo: nat, hi: nat): Term { Term(cls, lo, Some(hi)) }

  /** `n` repetitions are allowed by the quantifier of `t`. */
  predicate Fits(t: Term, n: nat) {
    t.min <= n && (t.max.None? || n <= t.max.value)
  }

  predicate AllIn(s: string, cls: CharClass) {
    forall i | 0 <= i < |s| :: InClass(s[i], cls)
  }

  /** `^re$` accepts all of `s`: some split of `s` gives each term a run it accepts. */
  predicate Matches(re: seq<Term>, s: string)
    decreases |re|
  {
    if re == [] then s == []
    else exists n | 0 <= n <= |s| :: Fits(re[0], n) && AllIn(s[..n], re[0].cls) && Matches(re[1..], s[n..])
  }

  /** The fewest characters a match can have. */
  function MinLen(re: seq<Term>): nat {
    if re == [] then 0 else re[0].min + MinLen(re[1..])
  }

  predicate Bounded(re: seq<Term>) {
    forall i | 0 <= i < |re| :: re[i].max.Some?
  }

  /** The most characters a match of a bounded pattern can have. */
  function MaxLen(re: seq<Term>): nat
    requires Bounded(re)
  {
    if re == [] then 0 else re[0].max.value + MaxLen(re[1..])
  }

  /** Every match has at least `MinLen` characters and, for a bounded pattern, at most `MaxLen`. */
  lemma {:induction false} MatchLength(re: seq<Term>, s: string)
    requires Matches(re, s)
    ensures MinLen(re) <= |s|
    ensures Bounded(re) ==> |s| <= MaxLen(re)
    decreases |re|
  {
    if re != [] {
      var n :| 0 <= n <= |s| && Fits(re[0], n) && AllIn(s[..n], re[0].cls) && Matches(re[1..], s[n..]);
      MatchLength(re[1..], s[n..]);
      assert Bounded(re) ==> Bounded(re[1..]) by {
        if Bounded(re) {
          forall i | 0 <= i < |re[1..]| ensures re[1..][i].max.Some? {
            assert re[1..][i] == re[i + 1];
          }
        }
      }
    }
  }

  /** Builds a match from a run for the first term and a match of the rest. */
  lemma MatchStep(re: seq<Term>, s: string, n: nat)
    requires re != [] && n <= |s|
    requires Fits(re[0], n) && AllIn(s[..n], re[0].cls) && Matches(re[1..], s[n..])
    ensures Matches(re, s)
  {
  }

  /** The length of the run a match gives to its first term. */
  lemma Unpack(re: seq<Term>, s: string) returns (n: nat)
    requires re != [] && Matches(re, s)
    ensures n <= |s| && Fits(re[0], n) && AllIn(s[..n], re[0].cls) && Matches(re[1..], s[n..])
  {
    n :| 0 <= n <= |s| && Fits(re[0], n) && AllIn(s[..n], re[0].cls) && Matches(re[1..], s[n..]);
  }

  /** A run inside a string is made of a class when each of its positions is. */
  lemma AllInSlice(s: string, lo: int, hi: int, cls: CharClass)
    requires 0 <= lo <= hi <= |s|
    ensures AllIn(s[lo..hi], cls) <==> forall k | lo <= k < hi :: InClass(s[k], cls)
  {
    if forall k | lo <= k < hi :: InClass(s[k], cls) {
      forall i | 0 <= i < hi - lo ensures InClass(s[lo..hi][i], cls) {
        assert s[lo..hi][i] == s[lo + i];
      }
    }
    if AllIn(s[lo..hi], cls) {
      forall k | lo <= k < hi ensures InClass(s[k], cls) {
        assert s[lo..hi][k - lo] == s[k];
      }
    }
  }

  /** `MatchStep` on the suffix of `s` from `lo`, with the run given by positions. */
  lemma MatchAt(re: seq<Term>, s: string, lo: int, mid: int)
    requires re != [] && 0 <= lo <= mid <= |s|
    requires Fits(re[0], mid - lo) && (forall k | lo <= k < mid :: InClass(s[k], re[0].cls))
    requires Matches(re[1..], s[mid..])
    ensures Matches(re, s[lo..])
  {
    assert s[lo..][..mid - lo] == s[lo..mid];
    assert s[lo..][mid - lo..] == s[mid..];
    AllInSlice(s, lo, mid, re[0].cls);
    MatchStep(re, s[lo..], mid - lo);
  }

  /** `Unpack` on the suffix of `s` from `lo`, with the run given by positions. */
  lemma UnpackAt(re: seq<Term>, s: string, lo: int) returns (mid: int)
    requires re != [] && 0 <= lo <= |s| && Matches(re, s[lo..])
    ensures lo <= mid <= |s| && Fits(re[0], mid - lo)
    ensures forall k | lo <= k < mid :: InClass(s[k], re[0].cls)
    ensures Matches(re[1..], s[mid..])
  {
    var n := Unpack(re, s[lo..]);
    mid := lo + n;
    assert s[lo..][..n] == s[lo..mid];
    assert s[lo..][n..] == s[mid..];
    AllInSlice(s, lo, mid, re[0].cls);
  }

  /** A single term accepts exactly the strings of an allowed length made of its class. */
  lemma MatchOne(t: Term, s: string)
    ensures Matches([t], s) <==> Fits(t, |s|) && AllIn(s, t.cls)
  {
    if Matches([t], s) {
      var n :| 0 <= n <= |s| && Fits(t, n) && AllIn(s[..n], t.cls) && Matches([t][1..], s[n..]);
      assert s[n..] == [];
      assert s[..n] == s;
    }
    if Fits(t, |s|) && AllIn(s, t.cls) {
      assert s[..|s|] == s;
      MatchStep([t], s, |s|);
    }
  }

  /**
   * Cutting `s` at increasing positions into one accepted run per term gives a
   * match of the suffix from the first cut.
   */
  lemma {:induction false} MatchCuts(re: seq<Term>, s: string, cuts: seq<int>)
    requires |cuts| == |re| + 1 && cuts[|re|] == |s|
    requires forall i | 0 <= i < |cuts| :: 0 <= cuts[i] <= |s|
    requires forall i | 0 <= i < |re| :: cuts[i] <= cuts[i + 1]
    requires forall i | 0 <= i < |re| :: Fits(re[i], cuts[i + 1] - cuts[i])
    requires forall i, k | 0 <= i < |re| && cuts[i] <= k < cuts[i + 1] :: InClass(s[k], re[i].cls)
    ensures cuts[0] <= |s| && Matches(re, s[cuts[0]..])
    decreases |re|
  {
    if re == [] {
      assert s[cuts[0]..] == [];
    } else {
      var re', cuts' := re[1..], cuts[1..];
      assert forall i | 0 <= i < |re'| :: re'[i] == re[i + 1];
      assert forall i | 0 <= i < |cuts'| :: cuts'[i] == cuts[i + 1];
      MatchCuts(re', s, cuts');
      MatchAt(re, s, cuts[0], cuts[1]);
    }
  }

  /** Dropping `k` terms and then one more drops `k + 1`. */
  lemma SuffixStep(re: seq<Term>, k: int)
    requires 0 <= k < |re|
    ensures re[k..][0] == re[k] && re[k..][1..] == re[k + 1..]
    ensures MinLen(re[k..]) == re[k].min + MinLen(re[k + 1..])
    ensures Bounded(re[k..]) ==> re[k].max.Some? && Bounded(re[k + 1..])
    ensures Bounded(re[k..]) ==> MaxLen(re[k..]) == re[k].max.value + MaxLen(re[k + 1..])
  {
    assert re[k..][1..] == re[k + 1..];
    if Bounded(re[k..]) {
      assert re[k..][0] == re[k];
      var tail := re[k + 1..];
      forall i | 0 <= i < |tail| ensures tail[i].max.Some? {
        assert tail[i] == re[k..][i + 1];
      }
    }
  }
}
