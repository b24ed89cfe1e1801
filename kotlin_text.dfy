/**
 * The parts of Kotlin's String library that MarkdownParser.kt relies on:
 * startsWith, endsWith, indexOf, contains, substringBefore, substringAfter,
 * split(" "), replace of a one-character string by "" and replaceFirstChar.
 * Strings are sequences of characters; nothing here depends on a locale.
 */
module KotlinText {
  import opened Wrappers

  predicate StartsWith(s: string, prefix: string) {
    |prefix| <= |s| && s[..|prefix|] == prefix
  }

  predicate EndsWith(s: string, suffix: string) {
    |suffix| <= |s| && s[|s| - |suffix|..] == suffix
  }

  /** `d` occurs in `s` starting at index `i`. */
  predicate OccursAt(s: string, d: string, i: nat) {
    i + |d| <= |s| && s[i..i + |d|] == d
  }

  /** The first index at or after `k` at which `d` occurs in `s`. */
  function IndexFrom(s: string, d: string, k: nat): (r: Option<nat>)
    requires k <= |s|
    ensures r.Some? ==> k <= r.value && r.value + |d| <= |s|
    decreases |s| - k
  {
    if |s| - k < |d| then None
    else if s[k..k + |d|] == d then Some(k)
    else IndexFrom(s, d, k + 1)
  }

  /** Kotlin `s.indexOf(d)`: the first index at which `d` occurs, `None` for -1. */
  function IndexOf(s: string, d: string): (r: Option<nat>)
    ensures r.Some? ==> r.value + |d| <= |s|
  {
    IndexFrom(s, d, 0)
  }

  /** `IndexFrom` finds an occurrence, none earlier from `k`, and reports none only when there is none. */
  lemma {:induction false} IndexFromSpec(s: string, d: string, k: nat)
    requires k <= |s|
    ensures IndexFrom(s, d, k).Some? ==> OccursAt(s, d, IndexFrom(s, d, k).value)
    ensures IndexFrom(s, d, k).Some? ==> forall j: nat :: k <= j < IndexFrom(s, d, k).value ==> !OccursAt(s, d, j)
    ensures IndexFrom(s, d, k).None? ==> forall j: nat :: k <= j ==> !OccursAt(s, d, j)
    decreases |s| - k
  {
    if |s| - k >= |d| && s[k..k + |d|] != d {
      IndexFromSpec(s, d, k + 1);
    }
  }

  /** `IndexOf` finds an occurrence, none earlier, and reports none only when there is none. */
  lemma IndexOfSpec(s: string, d: string)
    ensures IndexOf(s, d).Some? ==> OccursAt(s, d, IndexOf(s, d).value)
    ensures IndexOf(s, d).Some? ==> forall j: nat :: j < IndexOf(s, d).value ==> !OccursAt(s, d, j)
    ensures IndexOf(s, d).None? ==> forall j: nat :: !OccursAt(s, d, j)
  {
    IndexFromSpec(s, d, 0);
  }

  /** The first occurrence is the one `IndexOf` reports. */
  lemma IndexOfFirst(s: string, d: string, i: nat)
    requires OccursAt(s, d, i)
    requires forall j: nat :: j < i ==> !OccursAt(s, d, j)
    ensures IndexOf(s, d) == Some(i)
  {
    IndexOfSpec(s, d);
  }

  /** Searching from index `k` on finds the first occurrence at or after `k`. */
  lemma IndexOfFrom(s: string, d: string, k: nat, j: nat)
    requires k <= j && OccursAt(s, d, j)
    requires forall i: nat :: k <= i < j ==> !OccursAt(s, d, i)
    ensures IndexOf(s[k..], d) == Some(j - k)
  {
    forall i: nat ensures OccursAt(s[k..], d, i) <==> OccursAt(s, d, i + k) {
      if i + |d| <= |s[k..]| {
        assert s[k..][i..i + |d|] == s[i + k..i + k + |d|];
      }
    }
    IndexOfFirst(s[k..], d, j - k);
  }

  /** An occurrence preceded only by characters other than `d`'s first is the first one. */
  lemma FirstOccurrence(s: string, d: string, i: nat)
    requires |d| > 0 && OccursAt(s, d, i)
    requires forall k :: 0 <= k < i ==> s[k] != d[0]
    ensures IndexOf(s, d) == Some(i)
  {
    forall k: nat | k < i ensures !OccursAt(s, d, k) {
      if k + |d| <= |s| {
        assert s[k..k + |d|][0] == s[k];
      }
    }
    IndexOfFirst(s, d, i);
  }

  /** A string that lacks the first character of `d` does not contain `d`. */
  lemma MissingFirst(s: string, d: string)
    requires |d| > 0 && d[0] !in s
    ensures !Contains(s, d)
  {
    forall i: nat ensures !OccursAt(s, d, i) {
      if i + |d| <= |s| {
        assert s[i..i + |d|][0] == s[i];
      }
    }
    IndexOfSpec(s, d);
  }

  /** Kotlin `s.contains(d)`. */
  predicate Contains(s: string, d: string) {
    IndexOf(s, d).Some?
  }

  /** Kotlin `s.substringBefore(d)`: the text before the first `d`, or all of `s`. */
  function SubstringBefore(s: string, d: string): string {
    match IndexOf(s, d)
    case None => s
    case Some(i) => s[..i]
  }

  /** Kotlin `s.substringAfter(d)`: the text after the first `d`, or all of `s`. */
  function SubstringAfter(s: string, d: string): string {
    match IndexOf(s, d)
    case None => s
    case Some(i) => s[i + |d|..]
  }

  /** Around the first occurrence of `d`, `s` falls apart into before, `d` and after. */
  lemma SubstringAround(s: string, d: string)
    requires |d| > 0 && Contains(s, d)
    ensures s == SubstringBefore(s, d) + d + SubstringAfter(s, d)
    ensures !Contains(SubstringBefore(s, d), d)
  {
    IndexOfSpec(s, d);
    var i := IndexOf(s, d).value;
    assert s == s[..i] + s[i..i + |d|] + s[i + |d|..];
    forall j: nat ensures !OccursAt(s[..i], d, j) {
      if OccursAt(s[..i], d, j) {
        assert s[..i][j..j + |d|] == s[j..j + |d|];
        assert OccursAt(s, d, j) && j < i;
      }
    }
    IndexOfSpec(s[..i], d);
  }

  /**
   * Kotlin `s.split(" ")`: the pieces between single spaces, empty pieces
   * included, so there is always at least one.
   */
  function Split(s: string): (r: seq<string>)
    ensures |r| >= 1
    decreases |s|
  {
    if |s| == 0 then [""]
    else if s[0] == ' ' then [""] + Split(s[1..])
    else
      var rest := Split(s[1..]);
      [[s[0]] + rest[0]] + rest[1..]
  }

  /** The pieces joined back with single spaces (`joinToString(" ")`). */
  function Join(ts: seq<string>): string
    decreases |ts|
  {
    if |ts| == 0 then ""
    else if |ts| == 1 then ts[0]
    else ts[0] + " " + Join(ts[1..])
  }

  /** Number of occurrences of `c` in `s`. */
  function Count(s: string, c: char): nat
    decreases |s|
  {
    if |s| == 0 then 0 else (if s[0] == c then 1 else 0) + Count(s[1..], c)
  }

  lemma {:induction false} CountZero(s: string, c: char)
    ensures Count(s, c) == 0 <==> c !in s
    decreases |s|
  {
    if |s| > 0 {
      CountZero(s[1..], c);
      assert s == [s[0]] + s[1..];
    }
  }

  /** No piece contains a space. */
  lemma {:induction false} SplitPieces(s: string)
    ensures forall t :: t in Split(s) ==> ' ' !in t
    decreases |s|
  {
    if |s| > 0 {
      SplitPieces(s[1..]);
      var rest := Split(s[1..]);
      if s[0] != ' ' {
        assert forall t :: t in rest[1..] ==> t in rest;
        assert ' ' !in [s[0]] + rest[0];
      }
    }
  }

  /** Joining the pieces of a split gives back the string that was split. */
  lemma {:induction false} JoinSplit(s: string)
    ensures Join(Split(s)) == s
    decreases |s|
  {
    if |s| > 0 {
      JoinSplit(s[1..]);
      var rest := Split(s[1..]);
      if s[0] == ' ' {
        assert ([""] + rest)[1..] == rest;
      } else {
        var r := [[s[0]] + rest[0]] + rest[1..];
        if |rest| > 1 {
          assert r[1..] == rest[1..];
        }
      }
      assert s == [s[0]] + s[1..];
    }
  }

  /** A string without spaces splits into itself. */
  lemma {:induction false} SplitNoSpace(t: string)
    requires ' ' !in t
    ensures Split(t) == [t]
    decreases |t|
  {
    if |t| > 0 {
      SplitNoSpace(t[1..]);
      assert t == [t[0]] + t[1..];
    }
  }

  /** A leading piece without spaces, followed by a space, splits off as one piece. */
  lemma {:induction false} SplitAfterPiece(t: string, s: string)
    requires ' ' !in t
    ensures Split(t + " " + s) == [t] + Split(s)
    decreases |t|
  {
    if |t| == 0 {
      assert (t + " " + s)[1..] == s;
    } else {
      var u := t + " " + s;
      assert u[0] == t[0];
      assert u[1..] == t[1..] + " " + s;
      SplitAfterPiece(t[1..], s);
      assert [t[0]] + t[1..] == t;
    }
  }

  /** Splitting pieces joined with single spaces gives back the pieces. */
  lemma {:induction false} SplitJoin(ts: seq<string>)
    requires |ts| >= 1
    requires forall t :: t in ts ==> ' ' !in t
    ensures Split(Join(ts)) == ts
    decreases |ts|
  {
    if |ts| == 1 {
      SplitNoSpace(ts[0]);
    } else {
      SplitJoin(ts[1..]);
      SplitAfterPiece(ts[0], Join(ts[1..]));
      assert ts == [ts[0]] + ts[1..];
    }
  }

  /** There is one more piece than there are spaces. */
  lemma {:induction false} SplitLength(s: string)
    ensures |Split(s)| == Count(s, ' ') + 1
    decreases |s|
  {
    if |s| > 0 {
      SplitLength(s[1..]);
    }
  }

  /** A split yields a single piece exactly when the string has no space. */
  lemma SplitSingle(s: string)
    ensures |Split(s)| == 1 <==> ' ' !in s
  {
    SplitLength(s);
    CountZero(s, ' ');
  }

  /** Kotlin `s.replace(c.toString(), "")`: every occurrence of `c` deleted. */
  function Remove(s: string, c: char): string
    decreases |s|
  {
    if |s| == 0 then ""
    else (if s[0] == c then "" else [s[0]]) + Remove(s[1..], c)
  }

  /** Every `c` is gone, and exactly the occurrences of `c` are missing. */
  lemma {:induction false} RemoveDeletes(s: string, c: char)
    ensures c !in Remove(s, c)
    ensures |Remove(s, c)| == |s| - Count(s, c)
    decreases |s|
  {
    if |s| > 0 {
      RemoveDeletes(s[1..], c);
    }
  }

  /** Deleting distributes over concatenation, so characters keep their order. */
  lemma {:induction false} RemoveAppend(a: string, b: string, c: char)
    ensures Remove(a + b, c) == Remove(a, c) + Remove(b, c)
    decreases |a|
  {
    if |a| > 0 {
      assert (a + b)[1..] == a[1..] + b;
      RemoveAppend(a[1..], b, c);
    } else {
      assert a + b == b;
    }
  }

  /** Deleting a character that does not occur changes nothing. */
  lemma {:induction false} RemoveAbsent(s: string, c: char)
    requires c !in s
    ensures Remove(s, c) == s
    decreases |s|
  {
    if |s| > 0 {
      RemoveAbsent(s[1..], c);
      assert s == [s[0]] + s[1..];
    }
  }

  /**
   * The `isLowerCase`/`titlecase` pair of `replaceFirstChar`, restricted to
   * ASCII: 'a'..'z' become 'A'..'Z', every other character is kept.
   */
  function TitlecaseAscii(c: char): (r: char)
    ensures 'a' <= c <= 'z' ==> 'A' <= r <= 'Z' && r as int == c as int - 32
    ensures !('a' <= c <= 'z') ==> r == c
  {
    if 'a' <= c <= 'z' then (c as int - 32) as char else c
  }

  /** Kotlin `replaceFirstChar` as `removeSymbols` uses it: a lower-case first character titlecased, the rest kept. */
  function CapitalizeFirst(s: string): (r: string)
    ensures |r| == |s|
    ensures |s| > 0 ==> r[0] == TitlecaseAscii(s[0]) && r[1..] == s[1..]
  {
    if |s| == 0 then s else [TitlecaseAscii(s[0])] + s[1..]
  }
}
