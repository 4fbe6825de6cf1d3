/**
 * The three functions of Go's `strings` package that the translator calls
 * (HasPrefix, TrimPrefix, ReplaceAll), on strings as sequences of characters,
 * and the facts about them that the normalisation of an event body relies on.
 *
 * ReplaceAll scans left to right and replaces non-overlapping occurrences,
 * as Go's `strings.Replace(s, old, new, -1)` does; with an empty pattern Go
 * inserts the replacement before every rune and once at the end.
 */
module GoStrings {

  /** `strings.HasPrefix`: s is prefix followed by the rest of s. */
  predicate HasPrefix(s: string, prefix: string)
    ensures HasPrefix(s, prefix) <==> |prefix| <= |s| && prefix + s[|prefix|..] == s
  {
    assert |prefix| <= |s| ==> s[..|prefix|] + s[|prefix|..] == s;
    |prefix| <= |s| && s[..|prefix|] == prefix
  }

  /** `strings.TrimPrefix`: s without its leading prefix, or s itself when it does not begin with it. */
  function TrimPrefix(s: string, prefix: string): (r: string)
    ensures HasPrefix(s, prefix) ==> prefix + r == s
    ensures !HasPrefix(s, prefix) ==> r == s
  {
    if HasPrefix(s, prefix) then s[|prefix|..] else s
  }

  /** Specification predicate: s ends with suffix. */
  predicate EndsWith(s: string, suffix: string) {
    |suffix| <= |s| && s[|s| - |suffix|..] == suffix
  }

  /** sub occurs in s starting at position i. */
  predicate OccursAt(s: string, sub: string, i: nat) {
    i + |sub| <= |s| && s[i..i + |sub|] == sub
  }

  /** Specification predicate: sub occurs somewhere in s. */
  predicate Contains(s: string, sub: string) {
    exists i: nat | i <= |s| :: OccursAt(s, sub, i)
  }

  /** What `strings.Replace` does with an empty pattern: rep before every rune and at the end. */
  function InsertAroundRunes(s: string, rep: string): (r: string)
    ensures |r| == |s| + (|s| + 1) * |rep|
    ensures forall c :: c in r ==> c in s || c in rep
    decreases |s|
  {
    if |s| == 0 then rep else rep + [s[0]] + InsertAroundRunes(s[1..], rep)
  }

  /**
   * `strings.ReplaceAll(s, pattern, rep)`: every occurrence of pattern, found
   * left to right and not overlapping an earlier one, replaced by rep.
   * Every character of the result comes from s or from rep.
   */
  function ReplaceAll(s: string, pattern: string, rep: string): (r: string)
    ensures forall c :: c in r ==> c in s || c in rep
    decreases |s|
  {
    if |pattern| == 0 then InsertAroundRunes(s, rep)
    else if |s| == 0 then ""
    else if HasPrefix(s, pattern) then rep + ReplaceAll(s[|pattern|..], pattern, rep)
    else [s[0]] + ReplaceAll(s[1..], pattern, rep)
  }

  /** A single character occurs as a substring exactly when it is an element. */
  lemma ContainsChar(s: string, c: char)
    ensures Contains(s, [c]) <==> c in s
  {
    if c in s {
      var i :| 0 <= i < |s| && s[i] == c;
      assert OccursAt(s, [c], i);
    }
    if Contains(s, [c]) {
      var i: nat :| i <= |s| && OccursAt(s, [c], i);
      assert s[i] == c;
    }
  }

  /** A string cannot contain a sub-string whose first character it lacks. */
  lemma AbsentWhenFirstCharAbsent(s: string, sub: string)
    requires |sub| > 0 && sub[0] !in s
    ensures !Contains(s, sub)
  {
    forall i: nat | i <= |s| ensures !OccursAt(s, sub, i) {
      if i + |sub| <= |s| {
        assert s[i..i + |sub|][0] == s[i];
      }
    }
  }

  /** An occurrence in a suffix is an occurrence in the whole string. */
  lemma OccursInSuffix(s: string, sub: string, k: nat, i: nat)
    requires k <= |s| && OccursAt(s[k..], sub, i)
    ensures OccursAt(s, sub, k + i)
  {
    assert s[k..][i..i + |sub|] == s[k + i..k + i + |sub|];
  }

  /** A sub-string absent from s is absent from every suffix of s. */
  lemma AbsentFromSuffix(s: string, sub: string, k: nat)
    requires k <= |s| && !Contains(s, sub)
    ensures !Contains(s[k..], sub)
  {
    if Contains(s[k..], sub) {
      var i: nat :| i <= |s[k..]| && OccursAt(s[k..], sub, i);
      OccursInSuffix(s, sub, k, i);
    }
  }

  /** Replacing a pattern that does not occur changes nothing. */
  lemma {:induction false} ReplaceAllAbsent(s: string, pattern: string, rep: string)
    requires |pattern| > 0 && !Contains(s, pattern)
    ensures ReplaceAll(s, pattern, rep) == s
    decreases |s|
  {
    if |s| > 0 {
      assert !HasPrefix(s, pattern) by {
        if HasPrefix(s, pattern) {
          assert OccursAt(s, pattern, 0);
        }
      }
      AbsentFromSuffix(s, pattern, 1);
      ReplaceAllAbsent(s[1..], pattern, rep);
      assert [s[0]] + s[1..] == s;
    }
  }

  /**
   * Replacing a pattern by itself changes nothing; Go's `strings.Replace`
   * returns s at once in that case, and this lemma shows the shortcut agrees
   * with the general definition.
   */
  lemma {:induction false} ReplaceAllSelf(s: string, pattern: string)
    ensures ReplaceAll(s, pattern, pattern) == s
    decreases |s|
  {
    if |pattern| == 0 {
      InsertNothing(s);
    } else if |s| > 0 {
      if HasPrefix(s, pattern) {
        ReplaceAllSelf(s[|pattern|..], pattern);
        assert s[..|pattern|] + s[|pattern|..] == s;
      } else {
        ReplaceAllSelf(s[1..], pattern);
        assert [s[0]] + s[1..] == s;
      }
    }
  }

  lemma {:induction false} InsertNothing(s: string)
    ensures InsertAroundRunes(s, "") == s
    decreases |s|
  {
    if |s| > 0 {
      InsertNothing(s[1..]);
      assert [s[0]] + s[1..] == s;
    }
  }

  /**
   * Swapping one character for another keeps the length and changes exactly
   * the positions that held the replaced character.
   */
  lemma {:induction false} ReplaceAllSingleChar(s: string, a: char, b: char)
    ensures |ReplaceAll(s, [a], [b])| == |s|
    ensures forall i :: 0 <= i < |s| ==> ReplaceAll(s, [a], [b])[i] == (if s[i] == a then b else s[i])
    decreases |s|
  {
    if |s| > 0 {
      ReplaceAllSingleChar(s[1..], a, b);
      var tail := ReplaceAll(s[1..], [a], [b]);
      var r := ReplaceAll(s, [a], [b]);
      assert r == [if s[0] == a then b else s[0]] + tail by {
        if s[0] == a {
          assert HasPrefix(s, [a]);
        } else {
          assert !HasPrefix(s, [a]);
        }
      }
      forall i | 0 <= i < |s|
        ensures r[i] == (if s[i] == a then b else s[i])
      {
        if i > 0 {
          assert r[i] == tail[i - 1] && s[i] == s[1..][i - 1];
        }
      }
    }
  }

  /**
   * The first k characters of ReplaceAll(t, ...) either are the first k
   * characters of t, untouched, or include the first character of a
   * replacement.
   */
  lemma {:induction false} ReplaceAllPrefix(t: string, pattern: string, rep: string, k: nat)
    requires |pattern| > 0 && |rep| > 0
    requires k <= |ReplaceAll(t, pattern, rep)|
    ensures || (k <= |t| && ReplaceAll(t, pattern, rep)[..k] == t[..k])
            || (exists j :: 0 <= j < k && ReplaceAll(t, pattern, rep)[j] == rep[0])
    decreases |t|
  {
    var r := ReplaceAll(t, pattern, rep);
    if k == 0 {
    } else if HasPrefix(t, pattern) {
      assert r[0] == rep[0];
    } else {
      assert |t| > 0;
      var rt := ReplaceAll(t[1..], pattern, rep);
      assert r == [t[0]] + rt;
      ReplaceAllPrefix(t[1..], pattern, rep, k - 1);
      if k - 1 <= |t[1..]| && rt[..k - 1] == t[1..][..k - 1] {
        assert r[..k] == [t[0]] + rt[..k - 1];
        assert t[..k] == [t[0]] + t[1..][..k - 1];
      } else {
        var j :| 0 <= j < k - 1 && rt[j] == rep[0];
        assert r[j + 1] == rep[0];
      }
    }
  }

  /**
   * x does not occur in u + v when it occurs in neither part and the last
   * character of u or the first character of v is foreign to x.
   */
  lemma NoOccurrenceAcross(u: string, v: string, x: string)
    requires |x| > 0 && !Contains(u, x) && !Contains(v, x)
    requires (|u| > 0 && u[|u| - 1] !in x) || (|v| > 0 && v[0] !in x)
    ensures !Contains(u + v, x)
  {
    var r := u + v;
    forall i: nat | i <= |r| ensures !OccursAt(r, x, i) {
      if i + |x| > |r| {
      } else if i >= |u| {
        assert r[i..i + |x|] == v[i - |u|..i - |u| + |x|];
        assert !OccursAt(v, x, i - |u|);
      } else if i + |x| <= |u| {
        assert r[i..i + |x|] == u[i..i + |x|];
        assert !OccursAt(u, x, i);
      } else if |u| > 0 && u[|u| - 1] !in x {
        assert r[i..i + |x|][|u| - 1 - i] == u[|u| - 1];
      } else {
        assert r[i..i + |x|][|u| - i] == v[0];
      }
    }
  }

  /**
   * No occurrence of x in u + v starts inside u when x is absent from u and
   * the last character of u is foreign to x.
   */
  lemma NoOccurrenceStartingIn(u: string, v: string, x: string)
    requires |u| > 0 && |x| > 0 && !Contains(u, x) && u[|u| - 1] !in x
    ensures forall j :: 0 <= j < |u| ==> !OccursAt(u + v, x, j)
  {
    var r := u + v;
    forall j | 0 <= j < |u| ensures !OccursAt(r, x, j) {
      if j + |x| > |r| {
      } else if j + |x| <= |u| {
        assert r[j..j + |x|] == u[j..j + |x|];
        assert !OccursAt(u, x, j);
      } else {
        assert r[j..j + |x|][|u| - 1 - j] == u[|u| - 1];
      }
    }
  }

  /** An occurrence that ends within u is the same in u + v as in u. */
  lemma OccursAtWithin(u: string, v: string, x: string, j: nat)
    requires j + |x| <= |u|
    ensures OccursAt(u + v, x, j) <==> OccursAt(u, x, j)
  {
    assert (u + v)[j..j + |x|] == u[j..j + |x|];
  }

  /** No occurrence of x in u + v starts inside u when u lacks the first character of x. */
  lemma NoOccurrenceStartingInForeign(u: string, v: string, x: string)
    requires |x| > 0 && x[0] !in u
    ensures forall j :: 0 <= j < |u| ==> !OccursAt(u + v, x, j)
  {
    forall j | 0 <= j < |u| ensures !OccursAt(u + v, x, j) {
      if j + |x| <= |u + v| {
        assert (u + v)[j..j + |x|][0] == u[j];
      }
    }
  }

  /** Where the pattern does not start, ReplaceAll copies the first character and goes on. */
  lemma ReplaceAllStep(s: string, pattern: string, rep: string)
    requires |pattern| > 0 && |s| > 0 && !OccursAt(s, pattern, 0)
    ensures ReplaceAll(s, pattern, rep) == [s[0]] + ReplaceAll(s[1..], pattern, rep)
  {
    assert !HasPrefix(s, pattern);
  }

  /** An occurrence that starts in the tail of a + b starts one place later in a + b. */
  lemma NoOccurrenceInTail(a: string, b: string, pattern: string)
    requires |a| > 0
    requires forall j :: 0 <= j < |a| ==> !OccursAt(a + b, pattern, j)
    ensures forall j :: 0 <= j < |a| - 1 ==> !OccursAt(a[1..] + b, pattern, j)
  {
    var s := a + b;
    assert s[1..] == a[1..] + b;
    forall j | 0 <= j < |a| - 1 ensures !OccursAt(a[1..] + b, pattern, j) {
      assert !OccursAt(s, pattern, 1 + j);
      if OccursAt(s[1..], pattern, j) {
        OccursInSuffix(s, pattern, 1, j);
      }
    }
  }

  /**
   * When no occurrence of the pattern starts inside a, ReplaceAll copies a
   * and goes on with what follows it.
   */
  lemma {:induction false} ReplaceAllKeep(a: string, b: string, pattern: string, rep: string)
    requires |pattern| > 0
    requires forall j :: 0 <= j < |a| ==> !OccursAt(a + b, pattern, j)
    ensures ReplaceAll(a + b, pattern, rep) == a + ReplaceAll(b, pattern, rep)
    decreases |a|
  {
    if |a| == 0 {
      assert a + b == b;
    } else {
      var s, t, rb := a + b, a[1..], ReplaceAll(b, pattern, rep);
      assert s[1..] == t + b;
      assert s[0] == a[0];
      ReplaceAllStep(s, pattern, rep);
      NoOccurrenceInTail(a, b, pattern);
      ReplaceAllKeep(t, b, pattern, rep);
      calc {
        ReplaceAll(s, pattern, rep);
        [a[0]] + ReplaceAll(t + b, pattern, rep);
        [a[0]] + (t + rb);
        { assert [a[0]] + t == a; }
        a + rb;
      }
    }
  }

  /**
   * ReplaceAll finds the leftmost occurrence: when p follows a and no
   * occurrence starts inside a, the result is a, then rep, then the
   * replacement of what follows p.
   */
  lemma ReplaceAllSplit(a: string, pattern: string, b: string, rep: string)
    requires |pattern| > 0
    requires forall j :: 0 <= j < |a| ==> !OccursAt(a + pattern + b, pattern, j)
    ensures ReplaceAll(a + pattern + b, pattern, rep) == a + rep + ReplaceAll(b, pattern, rep)
  {
    assert a + pattern + b == a + (pattern + b);
    ReplaceAllKeep(a, pattern + b, pattern, rep);
    assert HasPrefix(pattern + b, pattern);
    assert (pattern + b)[|pattern|..] == b;
  }

  /**
   * Nothing forms x across a character c kept in front of the rest of the
   * result rt, when the start of rt either copies the start of the input t
   * that followed c or holds the first character rep0 of a replacement.
   */
  lemma NoOccurrenceAfterKept(c: char, t: string, rt: string, rep0: char, x: string)
    requires |x| > 0 && rep0 !in x
    requires !OccursAt([c] + t, x, 0) && !Contains(rt, x)
    requires |x| - 1 <= |rt| ==>
               || (|x| - 1 <= |t| && rt[..|x| - 1] == t[..|x| - 1])
               || (exists j :: 0 <= j < |x| - 1 && rt[j] == rep0)
    ensures !Contains([c] + rt, x)
  {
    var r := [c] + rt;
    forall i: nat | i <= |r| ensures !OccursAt(r, x, i) {
      if i + |x| > |r| {
      } else if i >= 1 {
        assert r[i..i + |x|] == rt[i - 1..i - 1 + |x|];
        assert !OccursAt(rt, x, i - 1);
      } else if |x| - 1 <= |t| && rt[..|x| - 1] == t[..|x| - 1] {
        assert ([c] + t)[..|x|] == [c] + t[..|x| - 1];
        assert r[..|x|] == [c] + rt[..|x| - 1];
      } else {
        var j :| 0 <= j < |x| - 1 && rt[j] == rep0;
        assert r[..|x|][j + 1] == rep0;
      }
    }
  }

  /**
   * After ReplaceAll, a string x does not occur, provided it did not occur
   * before or is the pattern itself, and the replacement can neither hold x
   * nor form x together with its neighbours: x does not occur in rep, and
   * neither the first nor the last character of rep belongs to x.
   */
  lemma {:induction false} ReplaceAllLeavesNoOccurrence(s: string, pattern: string, rep: string, x: string)
    requires |pattern| > 0 && |rep| > 0 && |x| > 0
    requires rep[0] !in x && rep[|rep| - 1] !in x && !Contains(rep, x)
    requires x == pattern || !Contains(s, x)
    ensures !Contains(ReplaceAll(s, pattern, rep), x)
    decreases |s|
  {
    if |s| == 0 {
      assert ReplaceAll(s, pattern, rep) == "";
    } else if HasPrefix(s, pattern) {
      if x != pattern {
        AbsentFromSuffix(s, x, |pattern|);
      }
      ReplaceAllLeavesNoOccurrence(s[|pattern|..], pattern, rep, x);
      NoOccurrenceAcross(rep, ReplaceAll(s[|pattern|..], pattern, rep), x);
    } else {
      if x != pattern {
        AbsentFromSuffix(s, x, 1);
      }
      assert !OccursAt(s, x, 0);
      var rt := ReplaceAll(s[1..], pattern, rep);
      ReplaceAllLeavesNoOccurrence(s[1..], pattern, rep, x);
      if |x| - 1 <= |rt| {
        ReplaceAllPrefix(s[1..], pattern, rep, |x| - 1);
      }
      assert [s[0]] + s[1..] == s;
      NoOccurrenceAfterKept(s[0], s[1..], rt, rep[0], x);
    }
  }
}
