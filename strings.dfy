/**
 * String helpers with the semantics of the JavaScript string methods the
 * source uses: `startsWith`, `endsWith`, `includes`, `indexOf`, `replace`
 * with a string pattern, `split` on one character and ASCII `toLowerCase`.
 */
module Strings {
  import opened Results

  predicate StartsWith(s: string, prefix: string) {
    |prefix| <= |s| && s[..|prefix|] == prefix
  }

  predicate EndsWith(s: string, suffix: string) {
    |suffix| <= |s| && s[|s| - |suffix|..] == suffix
  }

  /** `pat` occurs in `s` starting at index `i`. */
  predicate OccursAt(s: string, pat: string, i: int) {
    0 <= i && i + |pat| <= |s| && s[i..i + |pat|] == pat
  }

  /** First occurrence of `pat` in `s` at or after `from` (`String.prototype.indexOf`). */
  function IndexOfFrom(s: string, pat: string, from: nat): (r: Option<nat>)
    decreases |s| - from
    ensures r.Some? ==> from <= r.value && OccursAt(s, pat, r.value)
    ensures r.Some? ==> forall j :: from <= j < r.value ==> !OccursAt(s, pat, j)
    ensures r.None? ==> forall j :: from <= j ==> !OccursAt(s, pat, j)
  {
    if from + |pat| > |s| then None
    else if s[from..from + |pat|] == pat then Some(from)
    else IndexOfFrom(s, pat, from + 1)
  }

  function IndexOf(s: string, pat: string): (r: Option<nat>)
    ensures r.Some? ==> OccursAt(s, pat, r.value)
    ensures r.Some? ==> forall j :: 0 <= j < r.value ==> !OccursAt(s, pat, j)
    ensures r.None? ==> forall j :: !OccursAt(s, pat, j)
  {
    IndexOfFrom(s, pat, 0)
  }

  /** `s.includes(pat)`. */
  predicate Contains(s: string, pat: string) {
    IndexOf(s, pat).Some?
  }

  lemma ContainsIff(s: string, pat: string)
    ensures Contains(s, pat) <==> exists i :: OccursAt(s, pat, i)
  {
  }

  predicate IsDigit(c: char) {
    '0' <= c <= '9'
  }

  function DigitValue(c: char): int {
    c as int - '0' as int
  }

  /**
   * The replacement string of `String.prototype.replace`, with its substitution
   * patterns expanded: "$$" is '$', "$&" the match, "$`" what precedes it, "$'"
   * what follows it, and "$n" or "$nn" a capture group when that group exists
   * (the two-digit reading first). Any other '$' stands for itself. An unmatched
   * group is passed as "".
   */
  function ExpandReplacement(rep: string, matched: string, before: string, after: string, groups: seq<string>): (r: string)
    decreases |rep|
  {
    if rep == [] then []
    else if rep[0] != '$' || |rep| == 1 then [rep[0]] + ExpandReplacement(rep[1..], matched, before, after, groups)
    else
      var c := rep[1];
      if c == '$' then "$" + ExpandReplacement(rep[2..], matched, before, after, groups)
      else if c == '&' then matched + ExpandReplacement(rep[2..], matched, before, after, groups)
      else if c == '`' then before + ExpandReplacement(rep[2..], matched, before, after, groups)
      else if c == '\'' then after + ExpandReplacement(rep[2..], matched, before, after, groups)
      else if IsDigit(c) && |rep| >= 3 && IsDigit(rep[2]) && 1 <= DigitValue(c) * 10 + DigitValue(rep[2]) <= |groups| then
        groups[DigitValue(c) * 10 + DigitValue(rep[2]) - 1] + ExpandReplacement(rep[3..], matched, before, after, groups)
      else if IsDigit(c) && 1 <= DigitValue(c) <= |groups| then
        groups[DigitValue(c) - 1] + ExpandReplacement(rep[2..], matched, before, after, groups)
      else "$" + ExpandReplacement(rep[1..], matched, before, after, groups)
  }

  /** A replacement without '$' is inserted as it is. */
  lemma {:induction false} ExpandPlain(rep: string, matched: string, before: string, after: string, groups: seq<string>)
    requires '$' !in rep
    ensures ExpandReplacement(rep, matched, before, after, groups) == rep
    decreases |rep|
  {
    if rep != [] {
      assert rep[0] in rep;
      assert forall c :: c in rep[1..] ==> c in rep;
      ExpandPlain(rep[1..], matched, before, after, groups);
    }
  }

  /** A '$'-free head of the replacement is copied, and the expansion goes on after it. */
  lemma {:induction false} ExpandPlainPrefix(x: string, y: string, matched: string, before: string, after: string, groups: seq<string>)
    requires '$' !in x
    ensures ExpandReplacement(x + y, matched, before, after, groups) == x + ExpandReplacement(y, matched, before, after, groups)
    decreases |x|
  {
    if x != [] {
      assert x[0] in x;
      assert forall c :: c in x[1..] ==> c in x;
      assert (x + y)[0] == x[0];
      assert (x + y)[1..] == x[1..] + y;
      ExpandPlainPrefix(x[1..], y, matched, before, after, groups);
      assert [x[0]] + x[1..] == x;
    } else {
      assert x + y == y;
    }
  }

  /** `s.replace(pat, rep)` with a string pattern: only the first occurrence is replaced. */
  function ReplaceFirst(s: string, pat: string, rep: string): (r: string)
    ensures IndexOf(s, pat).None? ==> r == s
    ensures IndexOf(s, pat).Some? ==>
      var i := IndexOf(s, pat).value;
      r == s[..i] + ExpandReplacement(rep, pat, s[..i], s[i + |pat|..], []) + s[i + |pat|..]
  {
    match IndexOf(s, pat)
    case None => s
    case Some(i) => s[..i] + ExpandReplacement(rep, pat, s[..i], s[i + |pat|..], []) + s[i + |pat|..]
  }

  function LowerChar(c: char): (r: char)
    ensures 'A' <= c <= 'Z' ==> 'a' <= r <= 'z'
    ensures !('A' <= c <= 'Z') ==> r == c
  {
    if 'A' <= c <= 'Z' then (c as int + 32) as char else c
  }

  /** `toLowerCase` restricted to ASCII letters. */
  function ToLower(s: string): (r: string)
    ensures |r| == |s|
    ensures forall i :: 0 <= i < |s| ==> r[i] == LowerChar(s[i])
  {
    if s == [] then [] else [LowerChar(s[0])] + ToLower(s[1..])
  }

  /** Number of occurrences of the character `c` in `s`. */
  function Count(s: string, c: char): nat {
    if s == [] then 0 else (if s[0] == c then 1 else 0) + Count(s[1..], c)
  }

  lemma {:induction false} CountAppend(a: string, b: string, c: char)
    ensures Count(a + b, c) == Count(a, c) + Count(b, c)
  {
    if a == [] {
      assert a + b == b;
    } else {
      assert (a + b)[1..] == a[1..] + b;
      CountAppend(a[1..], b, c);
    }
  }

  lemma {:induction false} CountZero(s: string, c: char)
    ensures Count(s, c) == 0 <==> c !in s
  {
    if s != [] {
      CountZero(s[1..], c);
      assert s == [s[0]] + s[1..];
    }
  }

  /** `s.split(sep)` for a one-character separator: there is always at least one part. */
  function Split(s: string, sep: char): (parts: seq<string>)
    ensures |parts| >= 1
    ensures forall k :: 0 <= k < |parts| ==> sep !in parts[k]
  {
    if s == [] then [""]
    else
      var rest := Split(s[1..], sep);
      if s[0] == sep then [""] + rest
      else [[s[0]] + rest[0]] + rest[1..]
  }

  /** `parts.join(sep)`. */
  function Join(parts: seq<string>, sep: char): string
    decreases |parts|
  {
    if parts == [] then ""
    else if |parts| == 1 then parts[0]
    else parts[0] + [sep] + Join(parts[1..], sep)
  }

  lemma {:induction false} JoinSplit(s: string, sep: char)
    ensures Join(Split(s, sep), sep) == s
  {
    if s != [] {
      var rest := Split(s[1..], sep);
      JoinSplit(s[1..], sep);
      if s[0] == sep {
        assert ([""] + rest)[1..] == rest;
      } else {
        var parts := [[s[0]] + rest[0]] + rest[1..];
        if |rest| == 1 {
          assert parts == [[s[0]] + rest[0]];
        } else {
          assert parts[1..] == rest[1..];
          assert Join(rest, sep) == rest[0] + [sep] + Join(rest[1..], sep);
        }
      }
    }
  }

  lemma {:induction false} SplitNoSep(s: string, sep: char)
    requires sep !in s
    ensures Split(s, sep) == [s]
  {
    if s != [] {
      SplitNoSep(s[1..], sep);
      assert s == [s[0]] + s[1..];
    }
  }

  /** Splitting at a separator splits the parts list. */
  lemma {:induction false} SplitAt(a: string, b: string, sep: char)
    requires sep !in a
    ensures Split(a + [sep] + b, sep) == [a] + Split(b, sep)
  {
    if a == [] {
      assert a + [sep] + b == [sep] + b;
      assert ([sep] + b)[1..] == b;
    } else {
      assert (a + [sep] + b)[1..] == a[1..] + [sep] + b;
      SplitAt(a[1..], b, sep);
      assert a == [a[0]] + a[1..];
    }
  }

  /** Splitting the join of separator-free parts gives the parts back. */
  lemma {:induction false} SplitJoin(parts: seq<string>, sep: char)
    requires |parts| >= 1
    requires forall k :: 0 <= k < |parts| ==> sep !in parts[k]
    ensures Split(Join(parts, sep), sep) == parts
  {
    if |parts| == 1 {
      SplitNoSep(parts[0], sep);
    } else {
      SplitJoin(parts[1..], sep);
      SplitAt(parts[0], Join(parts[1..], sep), sep);
      assert parts == [parts[0]] + parts[1..];
    }
  }

  lemma {:induction false} CountJoin(parts: seq<string>, sep: char)
    requires |parts| >= 1
    requires forall k :: 0 <= k < |parts| ==> sep !in parts[k]
    ensures Count(Join(parts, sep), sep) == |parts| - 1
  {
    if |parts| == 1 {
      CountZero(parts[0], sep);
    } else {
      CountJoin(parts[1..], sep);
      CountZero(parts[0], sep);
      CountAppend(parts[0] + [sep], Join(parts[1..], sep), sep);
      CountAppend(parts[0], [sep], sep);
    }
  }

  /** The number of parts is one more than the number of separators. */
  lemma SplitCount(s: string, sep: char)
    ensures |Split(s, sep)| == Count(s, sep) + 1
  {
    JoinSplit(s, sep);
    CountJoin(Split(s, sep), sep);
  }
}
