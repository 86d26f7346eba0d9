/** The part of `java.lang.String` the substitution engine relies on.
    A Java string is a sequence of UTF-16 code units; `contains` and the
    `replace(CharSequence, CharSequence)` overload are modelled here. */
module JavaString {

  /** One UTF-16 code unit, the value of a Java `char`. */
  type CodeUnit = x: int | 0 <= x < 0x1_0000

  /** A Java `String`. */
  type JString = seq<CodeUnit>

  /** `t` occurs in `s` starting at index `i`. */
  predicate OccursAt(s: JString, t: JString, i: nat)
  {
    i + |t| <= |s| && s[i..i + |t|] == t
  }

  /** `s.contains(t)`. */
  predicate Contains(s: JString, t: JString)
  {
    exists i: nat | i <= |s| :: OccursAt(s, t, i)
  }

  /** `s.replace(t, r)` for a non-empty target: scanning left to right,
      every occurrence of `t` that does not overlap an earlier replaced one
      is replaced by `r`; the replacement text is never scanned again. */
  function ReplaceAll(s: JString, t: JString, r: JString): JString
    requires |t| > 0
    decreases |s|
  {
    if |s| < |t| then s
    else if s[..|t|] == t then r + ReplaceAll(s[|t|..], t, r)
    else [s[0]] + ReplaceAll(s[1..], t, r)
  }

  /** The number of occurrences `ReplaceAll` replaces. */
  function Occurrences(s: JString, t: JString): nat
    requires |t| > 0
    decreases |s|
  {
    if |s| < |t| then 0
    else if s[..|t|] == t then 1 + Occurrences(s[|t|..], t)
    else Occurrences(s[1..], t)
  }

  lemma {:induction false} OccursAtShift(s: JString, t: JString, i: nat, d: nat)
    requires d <= i && d <= |s|
    ensures OccursAt(s, t, i) <==> OccursAt(s[d..], t, i - d)
  {
    if i + |t| <= |s| {
      assert s[d..][i - d..i - d + |t|] == s[i..i + |t|];
    }
  }

  /** Replacing performs at least one replacement exactly when `s.contains(t)`. */
  lemma {:induction false} OccurrencesPositiveIffContains(s: JString, t: JString)
    requires |t| > 0
    ensures Occurrences(s, t) > 0 <==> Contains(s, t)
    decreases |s|
  {
    if |s| < |t| {
    } else if s[..|t|] == t {
      assert OccursAt(s, t, 0);
    } else {
      OccurrencesPositiveIffContains(s[1..], t);
      if Contains(s, t) {
        var i: nat :| i <= |s| && OccursAt(s, t, i);
        assert i != 0;
        OccursAtShift(s, t, i, 1);
        assert Contains(s[1..], t);
      }
      if Contains(s[1..], t) {
        var i: nat :| i <= |s[1..]| && OccursAt(s[1..], t, i);
        OccursAtShift(s, t, i + 1, 1);
        assert OccursAt(s, t, i + 1);
      }
    }
  }

  /** A string that does not contain the target is returned unchanged. */
  lemma {:induction false} ReplaceAllWithoutOccurrence(s: JString, t: JString, r: JString)
    requires |t| > 0
    requires !Contains(s, t)
    ensures ReplaceAll(s, t, r) == s
  {
    OccurrencesPositiveIffContains(s, t);
    ReplaceAllNoOccurrences(s, t, r);
  }

  lemma {:induction false} ReplaceAllNoOccurrences(s: JString, t: JString, r: JString)
    requires |t| > 0
    requires Occurrences(s, t) == 0
    ensures ReplaceAll(s, t, r) == s
    decreases |s|
  {
    if |s| >= |t| {
      ReplaceAllNoOccurrences(s[1..], t, r);
      assert [s[0]] + s[1..] == s;
    }
  }

  lemma {:induction false} MulSucc(n: int, k: int)
    ensures (1 + n) * k == k + n * k
  {
  }

  /** Each replacement changes the length by `|r| - |t|`. */
  lemma {:induction false} ReplaceAllLength(s: JString, t: JString, r: JString)
    requires |t| > 0
    ensures |ReplaceAll(s, t, r)| == |s| + Occurrences(s, t) * (|r| - |t|)
    decreases |s|
  {
    if |s| < |t| {
    } else if s[..|t|] == t {
      var n, k := Occurrences(s[|t|..], t), |r| - |t|;
      ReplaceAllLength(s[|t|..], t, r);
      assert |ReplaceAll(s, t, r)| == |r| + |ReplaceAll(s[|t|..], t, r)|;
      assert Occurrences(s, t) == 1 + n;
      MulSucc(n, k);
    } else {
      ReplaceAllLength(s[1..], t, r);
      assert |ReplaceAll(s, t, r)| == 1 + |ReplaceAll(s[1..], t, r)|;
      assert Occurrences(s, t) == Occurrences(s[1..], t);
    }
  }

  /** Replacing a target by itself gives back the original string. */
  lemma {:induction false} ReplaceAllBySelf(s: JString, t: JString)
    requires |t| > 0
    ensures ReplaceAll(s, t, t) == s
    decreases |s|
  {
    if |s| < |t| {
    } else if s[..|t|] == t {
      ReplaceAllBySelf(s[|t|..], t);
      assert s[..|t|] + s[|t|..] == s;
    } else {
      ReplaceAllBySelf(s[1..], t);
      assert [s[0]] + s[1..] == s;
    }
  }
}
