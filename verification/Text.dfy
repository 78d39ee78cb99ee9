/**
 Searching in byte strings, as std::string::find does: the first match at or after a position.
 */
module Text {
  import opened Prelude

  /** The first occurrence of a character at or after a position. */
  function FindChar(s: Bytes, c: Byte, from: nat): (r: Option<nat>)
    requires from <= |s|
    ensures r.None? ==> c !in s[from..]
    ensures r.Some? ==> from <= r.value < |s| && s[r.value] == c && c !in s[from..r.value]
    decreases |s| - from
  {
    if from == |s| then None
    else if s[from] == c then Some(from)
    else
      assert s[from..] == [s[from]] + s[from + 1..];
      var r := FindChar(s, c, from + 1);
      assert r.Some? ==> s[from..r.value] == [s[from]] + s[from + 1..r.value];
      r
  }

  lemma {:induction false} FirstCharIs(s: Bytes, c: Byte, from: nat, p: nat)
    requires from <= p < |s| && s[p] == c && c !in s[from..p]
    ensures FindChar(s, c, from) == Some(p)
    decreases p - from
  {
    if from < p {
      assert s[from] == s[from..p][0] && s[from + 1..p] == s[from..p][1..];
      FirstCharIs(s, c, from + 1, p);
    }
  }

  /** The text before, and after, what two texts are joined by. */
  lemma Cut(a: Bytes, c: Byte, b: Bytes)
    ensures var t := a + [c] + b; t[..|a|] == a && t[|a|] == c && t[|a| + 1..] == b
  {
  }

  /** Joining a text without a character, the character and any other text: the character is first
      found between them. */
  lemma FindBetween(a: Bytes, c: Byte, b: Bytes)
    requires c !in a
    ensures FindChar(a + [c] + b, c, 0) == Some(|a|)
  {
    var t := a + [c] + b;
    Cut(a, c, b);
    assert t[0..|a|] == a;
    FirstCharIs(t, c, 0, |a|);
  }

  /** Three parts joined by a character. */
  function Joined(c: Byte, a: Bytes, b: Bytes, d: Bytes): Bytes { a + [c] + b + [c] + d }

  ghost predicate Lacks(s: Bytes, c: Byte) { c !in s }

  lemma TwoCuts(c: Byte, a: Bytes, b: Bytes, d: Bytes)
    ensures var t, p2 := Joined(c, a, b, d), |a| + 1 + |b|;
            && |t| == p2 + 1 + |d| && t[..|a|] == a && t[|a| + 1..p2] == b && t[p2 + 1..] == d
            && t[|a|] == c && t[p2] == c
  {
    var front := a + [c] + b;
    Cut(a, c, b);
    Cut(front, c, d);
    var t := front + [c] + d;
    assert t[..|a|] == front[..|a|];
    assert t[|a| + 1..|front|] == front[|a| + 1..];
  }

  /** Cutting at the first two occurrences recovers the three parts. */
  lemma SplitAtTwo(c: Byte, a: Bytes, b: Bytes, d: Bytes)
    requires Lacks(a, c) && Lacks(b, c)
    ensures var t, p2 := Joined(c, a, b, d), |a| + 1 + |b|;
            && FindChar(t, c, 0) == Some(|a|)
            && FindChar(t, c, |a| + 1) == Some(p2)
            && t[..|a|] == a && t[|a| + 1..p2] == b && t[p2 + 1..] == d
  {
    hide Joined, FindChar, Lacks;
    TwoCuts(c, a, b, d);
    FirstTwo(Joined(c, a, b, d), c, |a|, |a| + 1 + |b|);
  }

  lemma FirstTwo(t: Bytes, c: Byte, p1: nat, p2: nat)
    requires p1 < p2 < |t| && t[p1] == c && t[p2] == c && Lacks(t[..p1], c) && Lacks(t[p1 + 1..p2], c)
    ensures FindChar(t, c, 0) == Some(p1) && FindChar(t, c, p1 + 1) == Some(p2)
  {
    assert t[0..p1] == t[..p1];
    FirstCharIs(t, c, 0, p1);
    FirstCharIs(t, c, p1 + 1, p2);
  }

  // ----- patterns -----

  predicate MatchAt(s: Bytes, pattern: Bytes, p: nat) {
    p + |pattern| <= |s| && s[p..p + |pattern|] == pattern
  }

  /** The first occurrence of a pattern at or after a position. */
  function Find(s: Bytes, pattern: Bytes, from: nat): (r: Option<nat>)
    ensures r.Some? ==> from <= r.value && r.value + |pattern| <= |s|
    decreases |s| - from
  {
    if from + |pattern| > |s| then None
    else if MatchAt(s, pattern, from) then Some(from)
    else if from == |s| then None
    else Find(s, pattern, from + 1)
  }

  /** Find returns a match, no earlier one exists, and it returns none only if there is none. */
  lemma {:induction false} FindMeans(s: Bytes, pattern: Bytes, from: nat)
    ensures match Find(s, pattern, from)
            case None => forall p: nat :: from <= p ==> !MatchAt(s, pattern, p)
            case Some(r) => from <= r && MatchAt(s, pattern, r)
                            && forall p: nat :: from <= p < r ==> !MatchAt(s, pattern, p)
    decreases |s| - from
  {
    if from + |pattern| <= |s| && !MatchAt(s, pattern, from) && from != |s| { FindMeans(s, pattern, from + 1); }
  }

  lemma FirstMatchIs(s: Bytes, pattern: Bytes, from: nat, p: nat)
    requires from <= p && MatchAt(s, pattern, p)
    requires forall q: nat :: from <= q < p ==> !MatchAt(s, pattern, q)
    ensures Find(s, pattern, from) == Some(p)
  {
    hide MatchAt, Find;
    FindMeans(s, pattern, from);
  }

  lemma NoMatchIs(s: Bytes, pattern: Bytes, from: nat)
    requires forall q: nat :: from <= q ==> !MatchAt(s, pattern, q)
    ensures Find(s, pattern, from) == None
  {
    hide MatchAt, Find;
    FindMeans(s, pattern, from);
  }

  /** A match in a beginning of a text is one in the text, and conversely if it fits. */
  lemma MatchInPrefix(s: Bytes, pattern: Bytes, k: nat, p: nat)
    requires k <= |s|
    ensures MatchAt(s[..k], pattern, p) <==> MatchAt(s, pattern, p) && p + |pattern| <= k
  {
    if p + |pattern| <= k { assert s[..k][p..p + |pattern|] == s[p..p + |pattern|]; }
  }

  /** A search finds in a beginning of a text what it finds in the text, if that fits. */
  lemma FindInPrefix(s: Bytes, pattern: Bytes, k: nat, from: nat)
    requires k <= |s|
    ensures Find(s[..k], pattern, from)
            == (match Find(s, pattern, from)
                case Some(p) => if p + |pattern| <= k then Some(p) else None
                case None => None)
  {
    hide MatchAt, Find;
    FindMeans(s, pattern, from);
    forall p: nat
      ensures MatchAt(s[..k], pattern, p) <==> MatchAt(s, pattern, p) && p + |pattern| <= k
    {
      MatchInPrefix(s, pattern, k, p);
    }
    match Find(s, pattern, from)
    case Some(p) =>
      if p + |pattern| <= k { FirstMatchIs(s[..k], pattern, from, p); }
      else { NoMatchIs(s[..k], pattern, from); }
    case None => NoMatchIs(s[..k], pattern, from);
  }

  // ----- letters -----

  function LowerChar(c: Byte): Byte {
    if 'A' <= c <= 'Z' then (c as int + 32) as char else c
  }

  function Lower(s: Bytes): Bytes {
    seq(|s|, i requires 0 <= i < |s| => LowerChar(s[i]))
  }

  /** The same character, or the two cases of one ASCII letter. */
  predicate SameLetter(a: Byte, b: Byte) {
    || a == b
    || ('A' <= a <= 'Z' && b as int - 'a' as int == a as int - 'A' as int)
    || ('A' <= b <= 'Z' && a as int - 'a' as int == b as int - 'A' as int)
  }

  /** The same text up to the case of ASCII letters. */
  ghost predicate SameButCase(a: Bytes, b: Bytes) {
    |a| == |b| && forall i :: 0 <= i < |a| ==> SameLetter(a[i], b[i])
  }

  lemma LowerCharMeans(c: Byte)
    ensures SameLetter(c, LowerChar(c)) && !('A' <= LowerChar(c) <= 'Z')
    ensures !('A' <= c <= 'Z') ==> LowerChar(c) == c
  {
  }

  lemma LowerCharIff(a: Byte, b: Byte)
    ensures LowerChar(a) == LowerChar(b) <==> SameLetter(a, b)
  {
  }

  /** Lower-casing keeps the text up to case, leaves no capital letter and changes nothing else. */
  lemma LowerMeans(s: Bytes)
    ensures SameButCase(s, Lower(s))
    ensures forall i :: 0 <= i < |s| ==> !('A' <= Lower(s)[i] <= 'Z')
    ensures forall i :: 0 <= i < |s| && !('A' <= s[i] <= 'Z') ==> Lower(s)[i] == s[i]
  {
    hide LowerChar, SameLetter;
    forall i | 0 <= i < |s|
      ensures SameLetter(s[i], Lower(s)[i]) && !('A' <= Lower(s)[i] <= 'Z')
      ensures !('A' <= s[i] <= 'Z') ==> Lower(s)[i] == s[i]
    {
      LowerCharMeans(s[i]);
    }
  }

  /** Two texts are lower-cased alike exactly if they are the same up to case. */
  lemma LowerIff(a: Bytes, b: Bytes)
    ensures Lower(a) == Lower(b) <==> SameButCase(a, b)
  {
    hide LowerChar, SameLetter;
    forall i | 0 <= i < |a| && i < |b| ensures LowerChar(a[i]) == LowerChar(b[i]) <==> SameLetter(a[i], b[i]) {
      LowerCharIff(a[i], b[i]);
    }
    if Lower(a) == Lower(b) {
      assert |a| == |Lower(a)| == |Lower(b)| == |b|;
      forall i | 0 <= i < |a| ensures SameLetter(a[i], b[i]) { assert Lower(a)[i] == Lower(b)[i]; }
    }
  }
}
