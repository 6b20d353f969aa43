/** String operations of the .NET base library that the window and the updater
    rely on, written out on seq<char>. */
module Text {

  /** String.Split(sep): every maximal run between separators, empty runs included. */
  function Split(s: string, sep: char): (parts: seq<string>)
    ensures |parts| >= 1
    ensures forall i :: 0 <= i < |parts| ==> sep !in parts[i]
  {
    if s == [] then [""]
    else
      var rest := Split(s[1..], sep);
      if s[0] == sep then [""] + rest else [[s[0]] + rest[0]] + rest[1..]
  }

  /** String.Join(sep, parts): the separator between consecutive parts. */
  function Join(parts: seq<string>, sep: char): string
    requires |parts| >= 1
  {
    if |parts| == 1 then parts[0] else parts[0] + [sep] + Join(parts[1..], sep)
  }

  /** A text without the separator splits into itself alone. */
  lemma {:induction false} SplitWithoutSeparator(s: string, sep: char)
    requires sep !in s
    ensures Split(s, sep) == [s]
  {
    if s != [] {
      SplitWithoutSeparator(s[1..], sep);
      assert [s[0]] + s[1..] == s;
    }
  }

  /** Splitting distributes over a separator: the parts of a + sep + b are those of a, then those of b. */
  lemma {:induction false} SplitAtSeparator(a: string, b: string, sep: char)
    ensures Split(a + [sep] + b, sep) == Split(a, sep) + Split(b, sep)
  {
    if a == [] {
      assert a + [sep] + b == [sep] + b;
      assert ([sep] + b)[1..] == b;
    } else {
      assert (a + [sep] + b)[1..] == a[1..] + [sep] + b;
      SplitAtSeparator(a[1..], b, sep);
    }
  }

  /** Joining the parts of a split gives back the text. */
  lemma {:induction false} JoinSplit(s: string, sep: char)
    ensures Join(Split(s, sep), sep) == s
  {
    if s != [] {
      JoinSplit(s[1..], sep);
      var rest := Split(s[1..], sep);
      if s[0] != sep && |rest| > 1 {
        assert ([[s[0]] + rest[0]] + rest[1..])[1..] == rest[1..];
      }
    }
  }

  /** Splitting the join of separator-free parts gives back the parts. */
  lemma {:induction false} SplitJoin(parts: seq<string>, sep: char)
    requires |parts| >= 1
    requires forall i :: 0 <= i < |parts| ==> sep !in parts[i]
    ensures Split(Join(parts, sep), sep) == parts
  {
    SplitWithoutSeparator(parts[0], sep);
    if |parts| > 1 {
      SplitJoin(parts[1..], sep);
      SplitAtSeparator(parts[0], Join(parts[1..], sep), sep);
      assert [parts[0]] + parts[1..] == parts;
    }
  }

  /** pat occurs in s at index i. */
  predicate OccursAt(s: string, pat: string, i: nat) {
    i + |pat| <= |s| && s[i..i + |pat|] == pat
  }

  ghost predicate Occurs(s: string, pat: string) {
    exists i: nat :: OccursAt(s, pat, i)
  }

  /** String.Replace(pat, rep): every non-overlapping occurrence, scanned from the left, is replaced. */
  function ReplaceAll(s: string, pat: string, rep: string): string
    requires |pat| > 0
  {
    if |s| < |pat| then s
    else if s[..|pat|] == pat then rep + ReplaceAll(s[|pat|..], pat, rep)
    else [s[0]] + ReplaceAll(s[1..], pat, rep)
  }

  /** A text where pat does not occur is returned unchanged. */
  lemma {:induction false} ReplaceAllWithoutOccurrence(s: string, pat: string, rep: string)
    requires |pat| > 0 && !Occurs(s, pat)
    ensures ReplaceAll(s, pat, rep) == s
  {
    if |s| >= |pat| {
      assert !OccursAt(s, pat, 0);
      assert !Occurs(s[1..], pat) by {
        forall i: nat | OccursAt(s[1..], pat, i) ensures false {
          assert s[1..][i..i + |pat|] == s[i + 1..i + 1 + |pat|];
          assert OccursAt(s, pat, i + 1);
        }
      }
      ReplaceAllWithoutOccurrence(s[1..], pat, rep);
      assert [s[0]] + s[1..] == s;
    }
  }

  /** No character of t appears in pat. */
  predicate SharesNoChar(t: string, pat: string) {
    forall i :: 0 <= i < |t| ==> t[i] !in pat
  }

  /** When the replacement shares no character with pat, a leading run of
      pattern characters in the result was copied from the input. */
  lemma {:induction false} ReplacedPrefixOfPatternChars(s: string, pat: string, rep: string, j: nat)
    requires |pat| > 0 && |rep| > 0 && SharesNoChar(rep, pat)
    requires j <= |ReplaceAll(s, pat, rep)|
    requires forall k :: 0 <= k < j ==> ReplaceAll(s, pat, rep)[k] in pat
    ensures j <= |s| && ReplaceAll(s, pat, rep)[..j] == s[..j]
  {
    var r := ReplaceAll(s, pat, rep);
    if |s| < |pat| {
    } else if s[..|pat|] == pat {
      // the result starts with rep, whose first character is not in pat, so j == 0
      assert r[0] == rep[0] && r[0] !in pat;
    } else if j > 0 {
      var r' := ReplaceAll(s[1..], pat, rep);
      assert r == [s[0]] + r';
      forall k | 0 <= k < j - 1 ensures r'[k] in pat {
        assert r'[k] == r[k + 1];
      }
      ReplacedPrefixOfPatternChars(s[1..], pat, rep, j - 1);
      assert j <= |s|;
      forall k | 0 <= k < j ensures r[k] == s[k] {
        if k > 0 {
          assert r[k] == r'[k - 1] == s[1..][k - 1];
        }
      }
    }
  }

  /** An occurrence at index 0 of ReplaceAll's result, when the input does not start with pat, is impossible. */
  lemma NoOccurrenceAtFront(s: string, pat: string, rep: string)
    requires |pat| > 0 && |rep| > 0 && SharesNoChar(rep, pat)
    requires |s| >= |pat| && s[..|pat|] != pat
    ensures !OccursAt(ReplaceAll(s, pat, rep), pat, 0)
  {
    var r := ReplaceAll(s, pat, rep);
    var r' := ReplaceAll(s[1..], pat, rep);
    assert r == [s[0]] + r';
    if OccursAt(r, pat, 0) {
      var j := |pat| - 1;
      forall k | 0 <= k < j ensures r'[k] in pat {
        assert r'[k] == r[k + 1] == pat[k + 1];
      }
      ReplacedPrefixOfPatternChars(s[1..], pat, rep, j);
      forall k | 0 <= k < |pat| ensures s[k] == pat[k] {
        if k > 0 {
          assert s[k] == s[1..][..j][k - 1] == r'[..j][k - 1] == r[k];
        } else {
          assert r[0] == s[0];
        }
      }
    }
  }

  /** An occurrence past a prefix is an occurrence in the rest. */
  lemma OccursAtShift(prefix: string, rest: string, pat: string, i: nat)
    requires |prefix| <= i
    ensures OccursAt(prefix + rest, pat, i) <==> OccursAt(rest, pat, i - |prefix|)
  {
    var t := prefix + rest;
    if i + |pat| <= |t| {
      assert t[i..i + |pat|] == rest[i - |prefix|..i - |prefix| + |pat|];
    }
  }

  /** When the replacement is non-empty and shares no character with pat, no
      occurrence of pat survives the replacement. */
  lemma {:induction false} ReplaceAllRemovesEveryOccurrence(s: string, pat: string, rep: string)
    requires |pat| > 0 && |rep| > 0 && SharesNoChar(rep, pat)
    ensures !Occurs(ReplaceAll(s, pat, rep), pat)
  {
    var r := ReplaceAll(s, pat, rep);
    if |s| < |pat| {
      assert r == s;
    } else if s[..|pat|] == pat {
      var r' := ReplaceAll(s[|pat|..], pat, rep);
      assert r == rep + r';
      ReplaceAllRemovesEveryOccurrence(s[|pat|..], pat, rep);
      forall i: nat ensures !OccursAt(r, pat, i) {
        if i >= |rep| {
          OccursAtShift(rep, r', pat, i);
        }
      }
    } else {
      var r' := ReplaceAll(s[1..], pat, rep);
      assert r == [s[0]] + r';
      ReplaceAllRemovesEveryOccurrence(s[1..], pat, rep);
      NoOccurrenceAtFront(s, pat, rep);
      forall i: nat ensures !OccursAt(r, pat, i) {
        if i > 0 {
          OccursAtShift([s[0]], r', pat, i);
        }
      }
    }
  }

  function LowerChar(c: char): char {
    if 'A' <= c <= 'Z' then (c as int + 32) as char else c
  }

  /** String.ToLowerInvariant restricted to ASCII letters. */
  function Lower(s: string): (r: string)
    ensures |r| == |s|
    ensures forall i :: 0 <= i < |s| ==> r[i] == LowerChar(s[i])
  {
    seq(|s|, i requires 0 <= i < |s| => LowerChar(s[i]))
  }

  /** String.EndsWith, compared character by character. */
  predicate EndsWith(s: string, suffix: string) {
    |suffix| <= |s| && s[|s| - |suffix|..] == suffix
  }

  /** Char.IsWhiteSpace: the Unicode white-space characters. */
  predicate IsWhiteSpace(c: char) {
    ('\U{0009}' <= c <= '\U{000D}') || c == ' ' || c == '\U{0085}' || c == '\U{00A0}'
    || c == '\U{1680}' || ('\U{2000}' <= c <= '\U{200A}') || c == '\U{2028}' || c == '\U{2029}'
    || c == '\U{202F}' || c == '\U{205F}' || c == '\U{3000}'
  }

  /** String.IsNullOrWhiteSpace on a non-null string. */
  predicate IsBlank(s: string) {
    forall i :: 0 <= i < |s| ==> IsWhiteSpace(s[i])
  }
}
