/** The string operations the bot relies on: `toLowerCase`, substring search, `split` and `+`. */
module Strings {
  import opened Wrappers

  /** ASCII lower-casing of one character (what `toLowerCase` does on ASCII text). */
  function LowerChar(c: char): char
  {
    if 'A' <= c <= 'Z' then (c as int + 32) as char else c
  }

  /** `s.toLowerCase()`, restricted to ASCII letters. */
  function Lower(s: string): (r: string)
    ensures |r| == |s|
    ensures forall i :: 0 <= i < |s| ==> r[i] == LowerChar(s[i])
  {
    seq(|s|, i requires 0 <= i < |s| => LowerChar(s[i]))
  }

  /** `pat` occurs in `s` starting at position `i`. */
  predicate OccursAt(s: string, pat: string, i: int)
  {
    0 <= i && i + |pat| <= |s| && s[i..i + |pat|] == pat
  }

  /** `pat` occurs somewhere in `s`. */
  ghost predicate Contains(s: string, pat: string)
  {
    exists i :: OccursAt(s, pat, i)
  }

  /** `i` is the first position at or after `from` where `pat` occurs in `s`. */
  ghost predicate FirstFrom(s: string, pat: string, from: int, i: int)
  {
    from <= i && OccursAt(s, pat, i) && forall j :: from <= j < i ==> !OccursAt(s, pat, j)
  }

  /** `pat` does not occur in `s` at or after `from`. */
  ghost predicate NoneFrom(s: string, pat: string, from: int)
  {
    forall j :: from <= j ==> !OccursAt(s, pat, j)
  }

  /** `s.indexOf(pat, from)`: an occurrence of `pat` at or after `from`, if any; `IndexFromSpec`
      shows it is the first one, and that `None` means there is none. */
  function IndexFrom(s: string, pat: string, from: nat): (r: Option<nat>)
    requires from <= |s|
    ensures r.Some? ==> from <= r.value && OccursAt(s, pat, r.value)
    decreases |s| - from
  {
    if OccursAt(s, pat, from) then Some(from)
    else if from == |s| then None
    else IndexFrom(s, pat, from + 1)
  }

  /** `indexOf` gives the first occurrence at or after `from`, or `None` when there is none. */
  lemma {:induction false} IndexFromSpec(s: string, pat: string, from: nat)
    requires from <= |s|
    ensures IndexFrom(s, pat, from).Some? ==> FirstFrom(s, pat, from, IndexFrom(s, pat, from).value)
    ensures IndexFrom(s, pat, from).None? ==> NoneFrom(s, pat, from)
    decreases |s| - from
  {
    if !OccursAt(s, pat, from) && from < |s| {
      IndexFromSpec(s, pat, from + 1);
    }
  }

  /** A literal pattern search (`regex.test(text)` for a pattern without metacharacters). */
  function Test(pat: string, text: string): (r: bool)
    ensures r <==> Contains(text, pat)
  {
    IndexFromSpec(text, pat, 0);
    IndexFrom(text, pat, 0).Some?
  }

  /** An occurrence inside a suffix is an occurrence in the whole string, shifted. */
  lemma OccursInSuffix(s: string, pat: string, k: nat, j: int)
    requires k <= |s|
    ensures OccursAt(s[k..], pat, j) <==> (0 <= j && OccursAt(s, pat, k + j))
  {
    if 0 <= j && k + j + |pat| <= |s| {
      assert s[k..][j..j + |pat|] == s[k + j..k + j + |pat|];
    }
  }

  /** An occurrence inside a prefix is an occurrence in the whole string. */
  lemma OccursInPrefix(s: string, pat: string, k: nat, j: int)
    requires k <= |s|
    requires OccursAt(s[..k], pat, j)
    ensures OccursAt(s, pat, j)
  {
    assert s[..k][j..j + |pat|] == s[j..j + |pat|];
  }

  /** `indexOf` finds the first occurrence, whichever way it is described. */
  lemma IndexFromFirst(s: string, pat: string, from: nat, i: int)
    requires from <= |s| && FirstFrom(s, pat, from, i)
    ensures IndexFrom(s, pat, from) == Some(i)
  {
    IndexFromSpec(s, pat, from);
  }

  /** The first occurrence at or after `k` is, shifted, the first occurrence in the suffix from `k`. */
  lemma IndexInSuffix(s: string, pat: string, k: nat, i: int)
    requires k <= |s| && FirstFrom(s, pat, k, i)
    ensures IndexFrom(s[k..], pat, 0) == Some(i - k)
  {
    OccursInSuffix(s, pat, k, i - k);
    forall j | 0 <= j < i - k
      ensures !OccursAt(s[k..], pat, j)
    {
      OccursInSuffix(s, pat, k, j);
    }
    IndexFromFirst(s[k..], pat, 0, i - k);
  }

  /** No occurrence at or after `k` means none in the suffix from `k`. */
  lemma NoneInSuffix(s: string, pat: string, k: nat)
    requires k <= |s| && NoneFrom(s, pat, k)
    ensures IndexFrom(s[k..], pat, 0).None?
  {
    var r := IndexFrom(s[k..], pat, 0);
    if r.Some? {
      OccursInSuffix(s, pat, k, r.value);
    }
  }

  /** `parts.join(sep)`. */
  function Join(parts: seq<string>, sep: string): string
  {
    if parts == [] then ""
    else if |parts| == 1 then parts[0]
    else parts[0] + sep + Join(parts[1..], sep)
  }

  /** `s.split(sep)` for a non-empty separator: the pieces between the occurrences of `sep`,
      found from left to right. */
  function Split(s: string, sep: string): (r: seq<string>)
    requires |sep| > 0
    ensures |r| >= 1
    decreases |s|
  {
    match IndexFrom(s, sep, 0)
    case None => [s]
    case Some(i) => [s[..i]] + Split(s[i + |sep|..], sep)
  }

  /** Joining the pieces of a split with the separator gives back the string. */
  lemma {:induction false} SplitJoin(s: string, sep: string)
    requires |sep| > 0
    ensures Join(Split(s, sep), sep) == s
    decreases |s|
  {
    match IndexFrom(s, sep, 0)
    case None =>
    case Some(i) =>
      var rest := s[i + |sep|..];
      var pieces := Split(rest, sep);
      SplitJoin(rest, sep);
      assert Split(s, sep) == [s[..i]] + pieces;
      assert ([s[..i]] + pieces)[1..] == pieces;
      assert s == s[..i] + sep + rest;
  }

  /** No piece of a split contains the separator. */
  lemma {:induction false} SplitPiecesFree(s: string, sep: string)
    requires |sep| > 0
    ensures forall k :: 0 <= k < |Split(s, sep)| ==> !Contains(Split(s, sep)[k], sep)
    decreases |s|
  {
    IndexFromSpec(s, sep, 0);
    match IndexFrom(s, sep, 0)
    case None =>
    case Some(i) =>
      SplitPiecesFree(s[i + |sep|..], sep);
      assert !Contains(s[..i], sep) by {
        forall j | OccursAt(s[..i], sep, j) ensures false {
          OccursInPrefix(s, sep, i, j);
        }
      }
  }

  /** Without a separator, a split gives the whole string as its only piece. */
  lemma SplitWhole(s: string, sep: string)
    requires |sep| > 0 && IndexFrom(s, sep, 0).None?
    ensures Split(s, sep) == [s]
  {
  }

  /** With the first separator at `i`, the second piece of a split is the first piece of the
      split of the text after that separator. */
  lemma SplitSecond(s: string, sep: string, i: nat)
    requires |sep| > 0 && i + |sep| <= |s| && IndexFrom(s, sep, 0) == Some(i)
    ensures |Split(s, sep)| >= 2 && Split(s, sep)[1] == Split(s[i + |sep|..], sep)[0]
  {
    var tail := Split(s[i + |sep|..], sep);
    assert Split(s, sep) == [s[..i]] + tail;
  }

  /** With the first separator at `i` and the next one `d` characters after it ends, the second
      piece of a split is the text between them. */
  lemma SplitPieceBetween(s: string, sep: string, i: nat, d: nat)
    requires |sep| > 0 && i + |sep| <= |s|
    requires IndexFrom(s, sep, 0) == Some(i) && IndexFrom(s[i + |sep|..], sep, 0) == Some(d)
    ensures |Split(s, sep)| >= 2 && Split(s, sep)[1] == s[i + |sep|..][..d]
  {
    SplitSecond(s, sep, i);
    SplitFirst(s[i + |sep|..], sep, d);
  }

  /** The first piece of a split ends where the first separator starts. */
  lemma SplitFirst(s: string, sep: string, d: nat)
    requires |sep| > 0 && IndexFrom(s, sep, 0) == Some(d)
    ensures Split(s, sep)[0] == s[..d]
  {
  }

  /** With the first separator at `i` and none after it, the second piece of a split is
      everything after it. */
  lemma SplitPieceAfter(s: string, sep: string, i: nat)
    requires |sep| > 0 && i + |sep| <= |s|
    requires IndexFrom(s, sep, 0) == Some(i) && IndexFrom(s[i + |sep|..], sep, 0).None?
    ensures |Split(s, sep)| >= 2 && Split(s, sep)[1] == s[i + |sep|..]
  {
    SplitSecond(s, sep, i);
    SplitWhole(s[i + |sep|..], sep);
  }

  /** A string ending with a comma splits on commas into pieces of which the last is empty. */
  lemma {:induction false} SplitTrailingComma(s: string)
    requires |s| > 0 && s[|s| - 1] == ','
    ensures var r := Split(s, ","); r[|r| - 1] == ""
    decreases |s|
  {
    assert OccursAt(s, ",", |s| - 1);
    IndexFromSpec(s, ",", 0);
    var i := IndexFrom(s, ",", 0).value;
    var rest := s[i + 1..];
    var tail := Split(rest, ",");
    assert Split(s, ",") == [s[..i]] + tail;
    if rest == [] {
      assert IndexFrom(rest, ",", 0).None?;
      assert tail == [rest];
    } else {
      assert rest[|rest| - 1] == ',';
      SplitTrailingComma(rest);
    }
    assert ([s[..i]] + tail)[|tail|] == tail[|tail| - 1];
  }
}
