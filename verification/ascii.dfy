/**
 * The JavaScript string methods the components use (`toLowerCase`, `toUpperCase`,
 * `trim`, `includes`, `split` with a one-character separator, `join`), restricted
 * to ASCII: Unicode case mapping and Unicode white space are not modelled.
 */
module Ascii {
  import Seqs

  predicate IsUpper(c: char) { 'A' <= c <= 'Z' }

  predicate IsLower(c: char) { 'a' <= c <= 'z' }

  /** The white space `trim` removes, restricted to ASCII. */
  predicate IsSpace(c: char) {
    c == ' ' || c == '\t' || c == '\n' || c == '\r' || c == '\U{000B}' || c == '\U{000C}'
  }

  function LowerChar(c: char): (r: char)
    ensures !IsUpper(r)
    ensures IsUpper(c) ==> IsLower(r) && r as int - c as int == 32
    ensures !IsUpper(c) ==> r == c
  {
    if IsUpper(c) then (c as int + 32) as char else c
  }

  function UpperChar(c: char): (r: char)
    ensures !IsLower(r)
    ensures IsLower(c) ==> IsUpper(r) && c as int - r as int == 32
    ensures !IsLower(c) ==> r == c
  {
    if IsLower(c) then (c as int - 32) as char else c
  }

  /** `s.toLowerCase()`. */
  function Lower(s: string): (r: string)
    ensures |r| == |s|
    ensures forall i :: 0 <= i < |r| ==> !IsUpper(r[i])
    ensures forall i :: 0 <= i < |s| && !IsUpper(s[i]) ==> r[i] == s[i]
    ensures forall i :: 0 <= i < |s| && IsUpper(s[i]) ==> r[i] as int == s[i] as int + 32
  {
    seq(|s|, i requires 0 <= i < |s| => LowerChar(s[i]))
  }

  /** `s.toUpperCase()`. */
  function Upper(s: string): (r: string)
    ensures |r| == |s|
    ensures forall i :: 0 <= i < |r| ==> !IsLower(r[i])
    ensures forall i :: 0 <= i < |s| && !IsLower(s[i]) ==> r[i] == s[i]
    ensures forall i :: 0 <= i < |s| && IsLower(s[i]) ==> r[i] as int == s[i] as int - 32
  {
    seq(|s|, i requires 0 <= i < |s| => UpperChar(s[i]))
  }

  /** `needle` occurs in `hay` starting at index `i`. */
  predicate OccursAt(hay: string, needle: string, i: int) {
    0 <= i <= |hay| - |needle| && hay[i..i + |needle|] == needle
  }

  /** `hay.includes(needle)`. */
  predicate Contains(hay: string, needle: string) {
    exists i | 0 <= i <= |hay| - |needle| :: OccursAt(hay, needle, i)
  }

  /** Every string includes the empty string. */
  lemma ContainsEmpty(hay: string)
    ensures Contains(hay, "")
  {
    assert OccursAt(hay, "", 0);
  }

  /** The number of white-space characters at the start of `s`. */
  function LeadingSpaces(s: string): (n: nat)
    ensures n <= |s|
    ensures forall k :: 0 <= k < n ==> IsSpace(s[k])
    ensures n < |s| ==> !IsSpace(s[n])
  {
    if s != [] && IsSpace(s[0]) then 1 + LeadingSpaces(s[1..]) else 0
  }

  /** The number of white-space characters at the end of `s`. */
  function TrailingSpaces(s: string): (n: nat)
    ensures n <= |s|
    ensures forall k :: |s| - n <= k < |s| ==> IsSpace(s[k])
    ensures n < |s| ==> !IsSpace(s[|s| - n - 1])
  {
    if s != [] && IsSpace(s[|s| - 1]) then 1 + TrailingSpaces(s[..|s| - 1]) else 0
  }

  /** `s.trimStart()`: drops the leading white space and nothing else. */
  function TrimStart(s: string): (r: string)
  {
    s[LeadingSpaces(s)..]
  }

  /** `s.trimEnd()`: drops the trailing white space and nothing else. */
  function TrimEnd(s: string): (r: string)
  {
    s[..|s| - TrailingSpaces(s)]
  }

  /** A string with no white space at either end. */
  predicate IsTrimmed(s: string) {
    s == [] || (!IsSpace(s[0]) && !IsSpace(s[|s| - 1]))
  }

  /** `r` is `s` from index `i` on, with only white space cut off either end. */
  predicate CutFrom(s: string, r: string, i: int) {
    && 0 <= i <= |s| - |r|
    && r == s[i..i + |r|]
    && (forall k :: 0 <= k < i ==> IsSpace(s[k]))
    && (forall k :: i + |r| <= k < |s| ==> IsSpace(s[k]))
  }

  /** `s.trim()`: a contiguous piece of `s` with only white space cut off either end. */
  function Trim(s: string): (r: string)
    ensures IsTrimmed(r)
    ensures exists i :: CutFrom(s, r, i)
    ensures forall c :: c in r ==> c in s
  {
    var i := LeadingSpaces(s);
    var t := TrimStart(s);
    var j := TrailingSpaces(t);
    assert forall k :: |s| - j <= k < |s| ==> IsSpace(s[k]) by {
      forall k | |s| - j <= k < |s| ensures IsSpace(s[k]) {
        assert s[k] == t[k - i];
      }
    }
    assert i + j < |s| ==> s[|s| - j - 1] == t[|t| - j - 1];
    TrimCuts(s, i, j);
    assert TrimEnd(t) == s[i..|s| - j];
    TrimEnd(t)
  }

  /**
   * Cutting `i` leading and then `j` trailing white-space characters, none of
   * them past the first and last other character, keeps a contiguous, trimmed piece.
   */
  lemma TrimCuts(s: string, i: nat, j: nat)
    requires i <= |s| && j <= |s| - i
    requires forall k :: 0 <= k < i ==> IsSpace(s[k])
    requires i < |s| ==> !IsSpace(s[i])
    requires forall k :: |s| - j <= k < |s| ==> IsSpace(s[k])
    requires i + j < |s| ==> !IsSpace(s[|s| - j - 1])
    ensures IsTrimmed(s[i..|s| - j])
    ensures CutFrom(s, s[i..|s| - j], i)
    ensures forall c :: c in s[i..|s| - j] ==> c in s
  {
    SliceMembers(s, i, |s| - j);
  }

  /** Every character of a slice occurs in the whole string. */
  lemma SliceMembers(s: string, i: int, j: int)
    requires 0 <= i <= j <= |s|
    ensures forall c :: c in s[i..j] ==> c in s
  {
    forall c | c in s[i..j] ensures c in s {
      var k :| 0 <= k < j - i && s[i..j][k] == c;
      assert s[i + k] == c;
    }
  }

  /** Trimming a string that is already trimmed changes nothing. */
  lemma TrimTrimmed(s: string)
    requires IsTrimmed(s)
    ensures Trim(s) == s
  {
  }

  /** Trimming ignores white space added in front. */
  lemma {:induction false} TrimLeadingSpace(c: char, s: string)
    requires IsSpace(c)
    ensures Trim([c] + s) == Trim(s)
  {
    var cs := [c] + s;
    assert cs[1..] == s;
    var i := LeadingSpaces(s);
    assert LeadingSpaces(cs) == 1 + i;
    assert TrimStart(cs) == TrimStart(s) by {
      assert forall k :: 0 <= k < |s| - i ==> cs[1 + i..][k] == s[i..][k];
    }
  }


  /**
   * `s.split(d)` for a one-character separator `d`: the pieces between the
   * occurrences of `d`; an empty string gives one empty piece.
   */
  function Split(s: string, d: char): (r: seq<string>)
    ensures |r| >= 1
    ensures forall k :: 0 <= k < |r| ==> d !in r[k]
    ensures |r| == 1 <==> d !in s
  {
    if s == [] then [[]]
    else
      var rest := Split(s[1..], d);
      if s[0] == d then [[]] + rest
      else [[s[0]] + rest[0]] + rest[1..]
  }

  /** `ps.join(sep)`. */
  function Join(ps: seq<string>, sep: string): (r: string)
    ensures |ps| == 1 ==> r == ps[0]
  {
    if ps == [] then []
    else if |ps| == 1 then ps[0]
    else ps[0] + sep + Join(ps[1..], sep)
  }

  /** Joining the pieces of a split with the separator gives back the string. */
  lemma {:induction false} JoinSplit(s: string, d: char)
    ensures Join(Split(s, d), [d]) == s
  {
    if s != [] {
      var rest := Split(s[1..], d);
      JoinSplit(s[1..], d);
      if s[0] == d {
        assert Split(s, d) == [[]] + rest;
        assert Split(s, d)[1..] == rest;
      } else {
        var r := [[s[0]] + rest[0]] + rest[1..];
        assert Split(s, d) == r;
        if |rest| == 1 {
        } else {
          assert r[1..] == rest[1..];
          assert Join(rest, [d]) == rest[0] + [d] + Join(rest[1..], [d]);
        }
      }
    }
  }

  /** A piece without the separator, followed by the separator, splits off as one piece. */
  lemma {:induction false} SplitPrefix(a: string, d: char, b: string)
    requires d !in a
    ensures Split(a + [d] + b, d) == [a] + Split(b, d)
    decreases |a|
  {
    if a == [] {
      assert [] + [d] + b == [d] + b;
      assert ([d] + b)[1..] == b;
    } else {
      var t := a[1..] + [d] + b;
      assert a + [d] + b == [a[0]] + t by {
        assert a == [a[0]] + a[1..];
        Seqs.AppendAssoc([a[0]], a[1..], [d]);
        Seqs.AppendAssoc([a[0]], a[1..] + [d], b);
      }
      SplitPrefix(a[1..], d, b);
      SplitCons(a[0], t, d);
      assert [a[0]] + a[1..] == a;
    }
  }

  /** A leading character other than the separator joins the first piece. */
  lemma SplitCons(c: char, t: string, d: char)
    requires c != d
    ensures Split([c] + t, d) == [[c] + Split(t, d)[0]] + Split(t, d)[1..]
  {
    assert ([c] + t)[1..] == t;
  }

  /** A string without the separator is one piece. */
  lemma {:induction false} SplitNoSeparator(s: string, d: char)
    requires d !in s
    ensures Split(s, d) == [s]
  {
    if s != [] {
      SplitNoSeparator(s[1..], d);
      assert [s[0]] + s[1..] == s;
    }
  }

  /** Splitting a join of separator-free pieces gives back the pieces. */
  lemma {:induction false} SplitJoin(ps: seq<string>, d: char)
    requires |ps| >= 1
    requires forall k :: 0 <= k < |ps| ==> d !in ps[k]
    ensures Split(Join(ps, [d]), d) == ps
  {
    if |ps| == 1 {
      SplitNoSeparator(ps[0], d);
    } else {
      SplitJoin(ps[1..], d);
      SplitPrefix(ps[0], d, Join(ps[1..], [d]));
      assert [ps[0]] + ps[1..] == ps;
    }
  }
}
