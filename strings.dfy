/**
 * The Foundation string operations that `convert` relies on, written out on
 * `seq<char>`: removing every NUL character (`replacingOccurrences(of: "\0",
 * with: "")`), substring search (`contains`) and splitting at a separator
 * (`components(separatedBy:)`).
 */
module StringOps {
  import opened Wrappers

  const Nul: char := '\0'

  /** `t` occurs in `s` starting at position `j`. */
  predicate OccursAt(s: string, t: string, j: int) {
    0 <= j && j + |t| <= |s| && s[j..j + |t|] == t
  }

  /** `s` with every NUL character deleted, the other characters kept in order. */
  function RemoveNulls(s: string): (r: string)
    ensures Nul !in r
    ensures Nul !in s ==> r == s
    ensures |r| <= |s|
    decreases |s|
  {
    if s == [] then []
    else
      assert s == [s[0]] + s[1..];
      (if s[0] == Nul then [] else [s[0]]) + RemoveNulls(s[1..])
  }

  /** Removing NULs distributes over concatenation. */
  lemma {:induction false} RemoveNullsAppend(a: string, b: string)
    ensures RemoveNulls(a + b) == RemoveNulls(a) + RemoveNulls(b)
    decreases |a|
  {
    if a == [] {
      assert a + b == b;
    } else {
      var x, t := a[0], a[1..];
      var h := if x == Nul then [] else [x];
      assert a == [x] + t;
      calc {
        RemoveNulls(a + b);
        { assert a + b == [x] + (t + b); }
        RemoveNulls([x] + (t + b));
        { RemoveNullsCons(x, t + b); }
        h + RemoveNulls(t + b);
        { RemoveNullsAppend(t, b); }
        h + (RemoveNulls(t) + RemoveNulls(b));
        (h + RemoveNulls(t)) + RemoveNulls(b);
        { RemoveNullsCons(x, t); }
        RemoveNulls(a) + RemoveNulls(b);
      }
    }
  }

  /** Removing NULs from a character followed by `t`. */
  lemma RemoveNullsCons(x: char, t: string)
    ensures RemoveNulls([x] + t) == (if x == Nul then [] else [x]) + RemoveNulls(t)
  {
    assert ([x] + t)[0] == x;
    assert ([x] + t)[1..] == t;
  }

  /** Removing NULs a second time changes nothing. */
  lemma RemoveNullsIdempotent(s: string)
    ensures RemoveNulls(RemoveNulls(s)) == RemoveNulls(s)
  {
  }

  /**
   * The position of the first occurrence of the non-empty `t` in `s`, or
   * `None` when `t` does not occur in `s` at all.
   */
  function IndexOf(s: string, t: string): (r: Option<nat>)
    requires |t| > 0
    ensures r.Some? ==> OccursAt(s, t, r.value)
    ensures r.Some? ==> forall j :: 0 <= j < r.value ==> !OccursAt(s, t, j)
    ensures r.None? ==> forall j :: !OccursAt(s, t, j)
    decreases |s|
  {
    if |s| < |t| then None
    else if s[..|t|] == t then Some(0)
    else
      var rest := IndexOf(s[1..], t);
      assert forall j :: 0 < j ==> (OccursAt(s, t, j) <==> OccursAt(s[1..], t, j - 1)) by {
        forall j | 0 < j { OccursShift(s, t, j); }
      }
      match rest
      case None => None
      case Some(i) => Some(i + 1)
  }

  /** An occurrence at `j > 0` in `s` is one at `j - 1` in `s[1..]`. */
  lemma OccursShift(s: string, t: string, j: int)
    requires 0 < j && |s| > 0
    ensures OccursAt(s, t, j) <==> OccursAt(s[1..], t, j - 1)
  {
    if j + |t| <= |s| {
      assert s[j..j + |t|] == s[1..][j - 1..j - 1 + |t|];
    }
  }

  /** `IndexOf` finds exactly the first occurrence. */
  lemma FirstOccurrenceIs(s: string, t: string, i: int)
    requires |t| > 0
    requires OccursAt(s, t, i)
    requires forall j :: 0 <= j < i ==> !OccursAt(s, t, j)
    ensures IndexOf(s, t) == Some(i)
  {
  }

  /** `s.contains(t)` for a non-empty `t`. */
  predicate Contains(s: string, t: string)
    requires |t| > 0
  {
    IndexOf(s, t).Some?
  }

  /** Gluing `parts` back together with `sep` between consecutive ones. */
  function Join(parts: seq<string>, sep: string): (r: string)
    requires |parts| > 0
    decreases |parts|
  {
    if |parts| == 1 then parts[0] else parts[0] + sep + Join(parts[1..], sep)
  }

  /**
   * `s.components(separatedBy: sep)`: `s` cut at every occurrence of `sep`
   * found scanning left to right, each match starting after the previous
   * one ends. There is always at least one component.
   */
  function Components(s: string, sep: string): (parts: seq<string>)
    requires |sep| > 0
    ensures |parts| >= 1
    ensures |parts| == 1 <==> !Contains(s, sep)
    ensures Contains(s, sep) ==> parts[0] == s[..IndexOf(s, sep).value]
    decreases |s|
  {
    match IndexOf(s, sep)
    case None => [s]
    case Some(i) => [s[..i]] + Components(s[i + |sep|..], sep)
  }

  /** `components(separatedBy:).last`, which always exists. */
  function LastComponent(s: string, sep: string): (last: string)
    requires |sep| > 0
  {
    var parts := Components(s, sep);
    parts[|parts| - 1]
  }

  /** No component contains the separator. */
  lemma {:induction false} ComponentAvoidsSeparator(s: string, sep: string, k: nat)
    requires |sep| > 0
    requires k < |Components(s, sep)|
    ensures !Contains(Components(s, sep)[k], sep)
    decreases |s|
  {
    match IndexOf(s, sep)
    case None =>
    case Some(i) =>
      var tail := s[i + |sep|..];
      assert Components(s, sep) == [s[..i]] + Components(tail, sep);
      if k == 0 {
        NoOccurrenceBefore(s, sep, i);
      } else {
        ComponentAvoidsSeparator(tail, sep, k - 1);
      }
  }

  /** Cutting `s` around an occurrence of `sep` at `i`. */
  lemma SplitAt(s: string, sep: string, i: int)
    requires OccursAt(s, sep, i)
    ensures s == s[..i] + sep + s[i + |sep|..]
  {
    assert s[i..i + |sep|] == sep;
  }

  /** Joining the components with the separator gives back the original text. */
  lemma {:induction false} JoinComponents(s: string, sep: string)
    requires |sep| > 0
    ensures Join(Components(s, sep), sep) == s
    decreases |s|
  {
    match IndexOf(s, sep)
    case None =>
    case Some(i) =>
      var parts := Components(s, sep);
      var tail := s[i + |sep|..];
      JoinComponents(tail, sep);
      assert parts == [s[..i]] + Components(tail, sep);
      assert parts[1..] == Components(tail, sep);
      assert Join(parts, sep) == s[..i] + sep + tail;
      SplitAt(s, sep, i);
  }

  /**
   * When `sep` occurs in `s`, there are at least two components, `s` ends
   * with `sep` followed by the last one, and the first one, the first
   * separator and the last one do not overlap.
   */
  lemma {:induction false} ComponentsLast(s: string, sep: string)
    requires |sep| > 0
    requires Contains(s, sep)
    ensures |Components(s, sep)| >= 2
    ensures |Components(s, sep)[0]| + |sep| + |LastComponent(s, sep)| <= |s|
    ensures s[|s| - |LastComponent(s, sep)| - |sep|..] == sep + LastComponent(s, sep)
  {
    var parts := Components(s, sep);
    assert |parts| >= 2;
    assert LastComponent(s, sep) == parts[|parts| - 1];
    JoinComponents(s, sep);
    JoinEnds(parts, sep);
  }

  /**
   * Joining two or more parts: the first part, a separator and the last part
   * do not overlap, and the result ends with a separator and the last part.
   */
  lemma {:induction false} JoinEnds(parts: seq<string>, sep: string)
    requires |parts| >= 2
    ensures |parts[0]| + |sep| + |parts[|parts| - 1]| <= |Join(parts, sep)|
    ensures var r := Join(parts, sep);
      r[|r| - |parts[|parts| - 1]| - |sep|..] == sep + parts[|parts| - 1]
    decreases |parts|
  {
    var rest := parts[1..];
    var last := parts[|parts| - 1];
    assert rest[|rest| - 1] == last;
    if |rest| == 1 {
      assert Join(parts, sep) == parts[0] + sep + last;
      SuffixOfSuffix(parts[0], sep + last, |last| + |sep|);
      assert Join(parts, sep) == parts[0] + (sep + last);
    } else {
      JoinEnds(rest, sep);
      assert Join(parts, sep) == parts[0] + sep + Join(rest, sep);
      SuffixOfSuffix(parts[0] + sep, Join(rest, sep), |last| + |sep|);
    }
  }

  /** A suffix of `tail` is the suffix of the same length of `a + tail`. */
  lemma SuffixOfSuffix(a: string, tail: string, m: nat)
    requires m <= |tail|
    ensures (a + tail)[|a + tail| - m..] == tail[|tail| - m..]
  {
  }

  /** The part of `s` before the first occurrence of `t` does not contain `t`. */
  lemma NoOccurrenceBefore(s: string, t: string, i: nat)
    requires |t| > 0
    requires IndexOf(s, t) == Some(i)
    ensures !Contains(s[..i], t)
  {
    if Contains(s[..i], t) {
      var j := IndexOf(s[..i], t).value;
      assert s[..i][j..j + |t|] == s[j..j + |t|];
      assert OccursAt(s, t, j);
      assert false;
    }
  }

  /** `sep` has no proper prefix that is also a suffix of it. */
  predicate Unbordered(sep: string) {
    forall k :: 0 < k < |sep| ==> sep[..k] != sep[|sep| - k..]
  }

  /**
   * If `s` does not contain the unbordered `sep`, then in `s + sep + rest`
   * the first occurrence of `sep` is the one right after `s`.
   */
  lemma FirstOccurrenceAfter(s: string, sep: string, rest: string)
    requires |sep| > 0
    requires Unbordered(sep)
    requires !Contains(s, sep)
    ensures IndexOf(s + sep + rest, sep) == Some(|s|)
  {
    var u := s + sep + rest;
    assert OccursAt(u, sep, |s|) by { assert u[|s|..|s| + |sep|] == sep; }
    forall j | 0 <= j < |s| ensures !OccursAt(u, sep, j) {
      NoStraddle(s, sep, rest, j);
    }
  }

  /** No occurrence of the unbordered `sep` starts inside `s` in `s + sep + rest`. */
  lemma NoStraddle(s: string, sep: string, rest: string, j: int)
    requires |sep| > 0
    requires Unbordered(sep)
    requires !Contains(s, sep)
    requires 0 <= j < |s|
    ensures !OccursAt(s + sep + rest, sep, j)
  {
    var u := s + sep + rest;
    if OccursAt(u, sep, j) {
      if j + |sep| <= |s| {
        assert u[j..j + |sep|] == s[j..j + |sep|];
        assert OccursAt(s, sep, j);
      } else {
        StraddleIsBorder(s, sep, rest, j);
      }
    }
  }

  /**
   * An occurrence of `sep` in `s + sep + rest` that starts inside `s` and
   * ends inside the `sep` after it makes a prefix of `sep` equal to a suffix.
   */
  lemma StraddleIsBorder(s: string, sep: string, rest: string, j: int)
    requires 0 <= j < |s| < j + |sep|
    requires OccursAt(s + sep + rest, sep, j)
    ensures sep[..j + |sep| - |s|] == sep[|sep| - (j + |sep| - |s|)..]
  {
    var u := s + sep + rest;
    var k := j + |sep| - |s|;
    assert sep[..k] == u[|s|..j + |sep|];
    assert sep[|sep| - k..] == u[j..j + |sep|][|s| - j..];
  }

  /**
   * Splitting `s + sep + c` when `sep` first occurs right after `s` and `c`
   * does not contain `sep`: exactly the two parts `s` and `c`.
   */
  lemma SplitTwo(s: string, sep: string, c: string)
    requires |sep| > 0
    requires IndexOf(s + sep, sep) == Some(|s|)
    requires !Contains(c, sep)
    ensures Components(s + sep + c, sep) == [s, c]
  {
    var u := s + sep + c;
    assert OccursAt(u, sep, |s|) by { assert u[|s|..|s| + |sep|] == sep; }
    forall j | 0 <= j < |s| ensures !OccursAt(u, sep, j) {
      if OccursAt(u, sep, j) {
        assert u[j..j + |sep|] == (s + sep)[j..j + |sep|];
        assert OccursAt(s + sep, sep, j);
      }
    }
    assert IndexOf(u, sep) == Some(|s|);
    assert u[..|s|] == s;
    assert u[|s| + |sep|..] == c;
  }
}
