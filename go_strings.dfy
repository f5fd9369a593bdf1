/**
 * Go's `strings.Replace(s, old, new, -1)` and `strings.Count(s, sep)`, on
 * strings whose characters stand for Go runes.
 *
 * A non-empty target is replaced at every non-overlapping occurrence, found
 * from left to right. An empty target matches at the start of the string and
 * after every rune, so the replacement is inserted at all `|s| + 1` rune
 * boundaries.
 */
module GoStrings {
  import opened Arith

  /** `t` occurs in `s` at position `i`. */
  predicate OccursAt(s: string, t: string, i: int)
  {
    0 <= i && i + |t| <= |s| && s[i..i + |t|] == t
  }

  /** `t` occurs somewhere in `s` (strings.Contains). */
  predicate Occurs(s: string, t: string)
  {
    exists i :: 0 <= i <= |s| && OccursAt(s, t, i)
  }

  /** `rep` inserted before every rune of `s` and once more at the end. */
  function Interleave(s: string, rep: string): string
  {
    if |s| == 0 then rep else rep + [s[0]] + Interleave(s[1..], rep)
  }

  /** strings.Replace(s, target, rep, -1). */
  function Replace(s: string, target: string, rep: string): string
    decreases |s|
  {
    if |target| == 0 then Interleave(s, rep)
    else if |s| < |target| then s
    else if s[..|target|] == target then rep + Replace(s[|target|..], target, rep)
    else [s[0]] + Replace(s[1..], target, rep)
  }

  /**
   * strings.Count(s, sep): the number of non-overlapping occurrences of a
   * non-empty `sep`, scanning left to right; `|s| + 1` for an empty `sep`.
   */
  function Count(s: string, sep: string): nat
    decreases |s|
  {
    if |sep| == 0 then |s| + 1
    else if |s| < |sep| then 0
    else if s[..|sep|] == sep then 1 + Count(s[|sep|..], sep)
    else Count(s[1..], sep)
  }

  /** An occurrence of `t` in `s[1..]` is one in `s`, one position later. */
  lemma OccursInTail(s: string, t: string, i: int)
    requires |s| > 0 && OccursAt(s[1..], t, i)
    ensures OccursAt(s, t, i + 1)
  {
    assert s[1..][i..i + |t|] == s[i + 1..i + 1 + |t|];
  }

  /**
   * Go returns `s` itself when the target does not occur (Count is 0):
   * the recursive definition agrees.
   */
  lemma {:induction false} ReplaceAbsent(s: string, target: string, rep: string)
    requires |target| > 0 && !Occurs(s, target)
    ensures Replace(s, target, rep) == s
    ensures Count(s, target) == 0
    decreases |s|
  {
    if |s| >= |target| {
      assert !OccursAt(s, target, 0);
      forall i | OccursAt(s[1..], target, i) ensures false {
        OccursInTail(s, target, i);
      }
      ReplaceAbsent(s[1..], target, rep);
      assert [s[0]] + s[1..] == s;
    }
  }

  /** `target` occurs in `s` exactly when Count finds it at least once. */
  lemma {:induction false} CountPositive(s: string, target: string)
    requires |target| > 0
    ensures Count(s, target) > 0 <==> Occurs(s, target)
    decreases |s|
  {
    if Count(s, target) == 0 {
      if Occurs(s, target) {
        var i :| OccursAt(s, target, i);
        CountZeroAbsent(s, target, i);
      }
    } else {
      if s[..|target|] == target {
        assert OccursAt(s, target, 0);
      } else {
        CountPositive(s[1..], target);
        var i :| OccursAt(s[1..], target, i);
        OccursInTail(s, target, i);
      }
    }
  }

  /** No occurrence anywhere when Count is zero. */
  lemma {:induction false} CountZeroAbsent(s: string, target: string, i: int)
    requires |target| > 0 && Count(s, target) == 0
    ensures !OccursAt(s, target, i)
    decreases |s|
  {
    if |s| >= |target| && OccursAt(s, target, i) {
      assert s[..|target|] != target;
      assert i != 0;
      assert s[1..][i - 1..i - 1 + |target|] == s[i..i + |target|];
      CountZeroAbsent(s[1..], target, i - 1);
    }
  }

  /** Go's early return for `old == new` changes nothing: replacing a string by itself is the identity. */
  lemma {:induction false} ReplaceSelf(s: string, t: string)
    ensures Replace(s, t, t) == s
    decreases |s|
  {
    if |t| == 0 {
      InterleaveEmpty(s);
    } else if |s| >= |t| {
      if s[..|t|] == t {
        ReplaceSelf(s[|t|..], t);
        assert s[..|t|] + s[|t|..] == s;
      } else {
        ReplaceSelf(s[1..], t);
        assert [s[0]] + s[1..] == s;
      }
    }
  }

  lemma {:induction false} InterleaveEmpty(s: string)
    ensures Interleave(s, "") == s
  {
    if |s| > 0 {
      InterleaveEmpty(s[1..]);
      assert [s[0]] + s[1..] == s;
    }
  }

  /** Each of the Count(s, target) replacements changes the length by `|rep| - |target|`. */
  lemma {:induction false} ReplaceLength(s: string, target: string, rep: string)
    ensures |Replace(s, target, rep)| == |s| + Count(s, target) * (|rep| - |target|)
    decreases |s|
  {
    if |target| == 0 {
      InterleaveLength(s, rep);
    } else if |s| >= |target| {
      if s[..|target|] == target {
        ReplaceLength(s[|target|..], target, rep);
        MulSucc(Count(s[|target|..], target), |rep| - |target|);
      } else {
        ReplaceLength(s[1..], target, rep);
      }
    }
  }

  lemma {:induction false} InterleaveLength(s: string, rep: string)
    ensures |Interleave(s, rep)| == |s| + (|s| + 1) * |rep|
  {
    if |s| > 0 {
      InterleaveLength(s[1..], rep);
      MulSucc(|s|, |rep|);
    }
  }

  /** A string that is exactly the (non-empty) target becomes exactly the replacement. */
  lemma ReplaceWhole(t: string, rep: string)
    requires |t| > 0
    ensures Replace(t, t, rep) == rep
  {
    assert t[..|t|] == t;
    assert t[|t|..] == "";
    assert rep + "" == rep;
  }

  /** Replacing an occurring target by something longer lengthens the string. */
  lemma ReplaceGrows(s: string, target: string, rep: string)
    requires Occurs(s, target) && |target| < |rep|
    ensures |Replace(s, target, rep)| > |s|
  {
    if |target| > 0 {
      CountPositive(s, target);
    }
    ReplaceLength(s, target, rep);
    MulPositive(Count(s, target), |rep| - |target|);
  }

  /** Replacing a non-empty target that occurs puts the replacement into the result. */
  lemma {:induction false} ReplaceInserts(s: string, target: string, rep: string)
    requires |target| > 0 && Occurs(s, target)
    ensures Occurs(Replace(s, target, rep), rep)
    decreases |s|
  {
    var i :| 0 <= i <= |s| && OccursAt(s, target, i);
    if s[..|target|] == target {
      assert OccursAt(Replace(s, target, rep), rep, 0);
    } else {
      assert i > 0;
      assert s[1..][i - 1..i - 1 + |target|] == s[i..i + |target|];
      assert OccursAt(s[1..], target, i - 1);
      ReplaceInserts(s[1..], target, rep);
      var r := Replace(s, target, rep);
      var j :| 0 <= j <= |Replace(s[1..], target, rep)| && OccursAt(Replace(s[1..], target, rep), rep, j);
      assert r[1..] == Replace(s[1..], target, rep);
      OccursInTail(r, rep, j);
    }
  }
}
