/**
 * The string operations of Python's standard library that the chatbot relies on:
 * `str.split()` with no argument, `str.lower()`, the `in` substring test and
 * `str.join`, each stated on `string` (a `seq<char>`).
 */
module Text {

  /** The characters for which Python's `str.isspace()` holds; `str.split()` separates on runs of them. */
  predicate IsSpace(c: char) {
    || ('\t' <= c <= '\r')
    || ('\U{1C}' <= c <= ' ')
    || c == '\U{85}' || c == '\U{A0}' || c == '\U{1680}'
    || ('\U{2000}' <= c <= '\U{200A}')
    || c == '\U{2028}' || c == '\U{2029}' || c == '\U{202F}' || c == '\U{205F}' || c == '\U{3000}'
  }

  ghost predicate AllSpace(s: string) {
    forall k :: 0 <= k < |s| ==> IsSpace(s[k])
  }

  ghost predicate NoSpace(s: string) {
    forall k :: 0 <= k < |s| ==> !IsSpace(s[k])
  }

  /** The length of the run of non-space characters that starts `s`. */
  function WordLength(s: string): (n: nat)
    ensures n <= |s|
    ensures forall k :: 0 <= k < n ==> !IsSpace(s[k])
    ensures n == |s| || IsSpace(s[n])
  {
    if s == [] || IsSpace(s[0]) then 0 else 1 + WordLength(s[1..])
  }

  /** Python's `s.split()`: the maximal runs of non-space characters, in order; runs of spaces
      (leading and trailing ones too) separate them and produce no empty pieces. */
  function Split(s: string): (words: seq<string>)
    ensures forall j :: 0 <= j < |words| ==> words[j] != [] && NoSpace(words[j])
    ensures words == [] <==> AllSpace(s)
    decreases |s|
  {
    if s == [] then []
    else if IsSpace(s[0]) then Split(s[1..])
    else
      var n := WordLength(s);
      [s[..n]] + Split(s[n..])
  }

  predicate IsPrefix(p: string, s: string) {
    |p| <= |s| && s[..|p|] == p
  }

  predicate IsSuffix(p: string, s: string) {
    |p| <= |s| && s[|s| - |p|..] == p
  }

  lemma PrefixOfConcat(p: string, rest: string)
    ensures IsPrefix(p, p + rest)
  {
    assert (p + rest)[..|p|] == p;
  }

  lemma Regroup(a: string, b: string, c: string, d: string, e: string)
    ensures a + ((b + c + d) + e) == (a + b + c) + (d + e)
  {
  }

  /** Two strings that differ at a position below both lengths are not both prefixes of one string. */
  lemma PrefixesDisagree(p: string, q: string, s: string, i: nat)
    requires i < |p| && i < |q| && p[i] != q[i]
    requires IsPrefix(p, s)
    ensures !IsPrefix(q, s)
  {
    assert s[i] == p[i];
  }

  /** A string whose last character differs from the last character of `s` does not end `s`. */
  lemma LastCharsDisagree(p: string, s: string)
    requires p != [] && s != [] && p[|p| - 1] != s[|s| - 1]
    ensures !IsSuffix(p, s)
  {
    if |p| <= |s| {
      assert s[|s| - |p|..][|p| - 1] == s[|s| - 1];
    }
  }

  /** Python's `sep.join(parts)`. */
  function Join(sep: string, parts: seq<string>): string {
    if |parts| == 0 then ""
    else if |parts| == 1 then parts[0]
    else parts[0] + sep + Join(sep, parts[1..])
  }

  /** A join starts with its first part. */
  lemma JoinStartsWithFirst(sep: string, parts: seq<string>)
    requires parts != []
    ensures IsPrefix(parts[0], Join(sep, parts))
  {
    if |parts| > 1 {
      PrefixOfConcat(parts[0], sep + Join(sep, parts[1..]));
      assert parts[0] + sep + Join(sep, parts[1..]) == parts[0] + (sep + Join(sep, parts[1..]));
    }
  }

  /** Joining two non-empty lists puts exactly one separator between their joins. */
  lemma {:induction false} JoinConcat(sep: string, a: seq<string>, b: seq<string>)
    requires a != [] && b != []
    ensures Join(sep, a + b) == Join(sep, a) + sep + Join(sep, b)
  {
    if |a| == 1 {
      assert (a + b)[1..] == b;
    } else {
      assert (a + b)[1..] == a[1..] + b;
      JoinConcat(sep, a[1..], b);
    }
  }

  /** Every part of a join occurs whole in it. */
  lemma JoinContainsPart(sep: string, parts: seq<string>, j: nat)
    requires j < |parts|
    ensures Contains(parts[j], Join(sep, parts))
  {
    var before := if j == 0 then "" else Join(sep, parts[..j]) + sep;
    var after := if j == |parts| - 1 then "" else sep + Join(sep, parts[j + 1..]);
    if j > 0 {
      JoinConcat(sep, parts[..j], parts[j..]);
      assert parts[..j] + parts[j..] == parts;
    }
    if j < |parts| - 1 {
      JoinConcat(sep, [parts[j]], parts[j + 1..]);
      assert [parts[j]] + parts[j + 1..] == parts[j..];
    }
    assert Join(sep, parts[j..]) == parts[j] + after;
    assert Join(sep, parts) == before + parts[j] + after;
    assert OccursAt(parts[j], Join(sep, parts), |before|);
    ContainsSpec(parts[j], Join(sep, parts));
  }

  /** Splitting the single-space join of space-free, non-empty words gives the words back. */
  lemma {:induction false} SplitJoinRoundTrip(words: seq<string>)
    requires forall j :: 0 <= j < |words| ==> words[j] != [] && NoSpace(words[j])
    ensures Split(Join(" ", words)) == words
  {
    if |words| == 0 {
    } else {
      var w := words[0];
      var s := Join(" ", words);
      var rest := if |words| == 1 then "" else " " + Join(" ", words[1..]);
      assert s == w + rest;
      WordOfPrefix(w, rest);
      assert s[..|w|] == w && s[|w|..] == rest;
      if |words| == 1 {
        assert Split(rest) == [];
      } else {
        assert rest[1..] == Join(" ", words[1..]);
        SplitJoinRoundTrip(words[1..]);
        assert Split(rest) == Split(rest[1..]);
      }
      assert words == [w] + words[1..];
    }
  }

  /** A whitespace character ends the leading run of non-space characters. */
  lemma {:induction false} WordLengthStopsAtSpace(a: string, c: char, b: string)
    requires IsSpace(c)
    ensures WordLength(a + [c] + b) == WordLength(a)
  {
    if a == [] {
      assert (a + [c] + b)[0] == c;
    } else if IsSpace(a[0]) {
      assert (a + [c] + b)[0] == a[0];
    } else {
      assert (a + [c] + b)[0] == a[0];
      assert (a + [c] + b)[1..] == a[1..] + [c] + b;
      WordLengthStopsAtSpace(a[1..], c, b);
    }
  }

  /** Splitting at any whitespace character: the words of `a + [c] + b` are the words of `a`
      followed by the words of `b`. With `SplitOneWord` and the empty case of `Split`'s contract,
      this fixes `Split` on every input, leading, trailing and repeated whitespace included. */
  lemma {:induction false} SplitAtSpace(a: string, c: char, b: string)
    requires IsSpace(c)
    ensures Split(a + [c] + b) == Split(a) + Split(b)
    decreases |a|
  {
    var s := a + [c] + b;
    if a == [] {
      assert s[0] == c && s[1..] == b;
    } else if IsSpace(a[0]) {
      assert s[0] == a[0] && s[1..] == a[1..] + [c] + b;
      SplitAtSpace(a[1..], c, b);
    } else {
      assert s[0] == a[0];
      WordLengthStopsAtSpace(a, c, b);
      var m := WordLength(a);
      assert s[..m] == a[..m];
      assert s[m..] == a[m..] + [c] + b;
      SplitAtSpace(a[m..], c, b);
    }
  }

  /** A non-empty string without whitespace is a single word. */
  lemma SplitOneWord(w: string)
    requires w != [] && NoSpace(w)
    ensures Split(w) == [w]
  {
    WordOfPrefix(w, "");
    assert w + "" == w;
    assert w[..|w|] == w;
  }

  /** The words of `s` are made of characters of `s`: a bound on every character of `s` bounds every
      character of every word. */
  lemma {:induction false} SplitWordsBelow(s: string, c: char)
    requires forall k :: 0 <= k < |s| ==> s[k] < c
    ensures forall j, k :: 0 <= j < |Split(s)| && 0 <= k < |Split(s)[j]| ==> Split(s)[j][k] < c
    decreases |s|
  {
    if s == [] {
    } else if IsSpace(s[0]) {
      SplitWordsBelow(s[1..], c);
    } else {
      var n := WordLength(s);
      SplitWordsBelow(s[n..], c);
      assert Split(s) == [s[..n]] + Split(s[n..]);
    }
  }

  /** A non-empty space-free word followed by a space or by nothing is read as one run. */
  lemma {:induction false} WordOfPrefix(w: string, rest: string)
    requires w != [] && NoSpace(w)
    requires rest == [] || IsSpace(rest[0])
    ensures WordLength(w + rest) == |w|
  {
    if |w| == 1 {
      assert (w + rest)[1..] == rest;
    } else {
      assert (w + rest)[1..] == w[1..] + rest;
      WordOfPrefix(w[1..], rest);
    }
  }

  function LowerChar(c: char): char {
    if 'A' <= c <= 'Z' then (c as int + 32) as char else c
  }

  /** `str.lower()`, folding the ASCII capitals only. */
  function Lower(s: string): (r: string)
    ensures |r| == |s|
    ensures forall k :: 0 <= k < |s| ==> r[k] == LowerChar(s[k])
  {
    if s == [] then [] else [LowerChar(s[0])] + Lower(s[1..])
  }

  /** Lower-casing keeps a prefix a prefix. */
  lemma LowerKeepsPrefix(p: string, s: string)
    requires IsPrefix(p, s)
    ensures IsPrefix(Lower(p), Lower(s))
  {
    assert forall k :: 0 <= k < |p| ==> Lower(s)[k] == LowerChar(p[k]);
  }

  ghost predicate OccursAt(needle: string, hay: string, i: int) {
    0 <= i && i + |needle| <= |hay| && hay[i..i + |needle|] == needle
  }

  /** Python's `needle in hay`, searched position by position. */
  function Contains(needle: string, hay: string): bool
    decreases |hay|
  {
    if |hay| < |needle| then false
    else if hay[..|needle|] == needle then true
    else Contains(needle, hay[1..])
  }

  /** The search finds `needle` exactly when it occurs as a contiguous piece of `hay`; the empty
      string occurs in every string. */
  lemma {:induction false} ContainsSpec(needle: string, hay: string)
    ensures Contains(needle, hay) <==> exists i :: OccursAt(needle, hay, i)
    decreases |hay|
  {
    if |hay| < |needle| {
    } else if hay[..|needle|] == needle {
      assert OccursAt(needle, hay, 0);
    } else {
      ShiftOccurrence(needle, hay);
      ContainsSpec(needle, hay[1..]);
    }
  }

  lemma ShiftOccurrence(needle: string, hay: string)
    requires |needle| <= |hay| && hay != [] && hay[..|needle|] != needle
    ensures (exists i :: OccursAt(needle, hay, i)) <==> (exists i :: OccursAt(needle, hay[1..], i))
  {
    forall i | OccursAt(needle, hay, i)
      ensures OccursAt(needle, hay[1..], i - 1)
    {
      assert i != 0;
      assert hay[1..][i - 1..i - 1 + |needle|] == hay[i..i + |needle|];
    }
    forall i | OccursAt(needle, hay[1..], i)
      ensures OccursAt(needle, hay, i + 1)
    {
      assert hay[1..][i..i + |needle|] == hay[i + 1..i + 1 + |needle|];
    }
  }
}
