/** The title normalization of the recommender: `re.sub(r'[^a-zA-Z0-9]', '', text)`
    followed by `.lower()`.  Strip models the substitution, Lower the case
    mapping and Normalize their composition. */
module Normalization {

  /** ASCII letters and digits: the characters the class `[^a-zA-Z0-9]` does not match. */
  predicate IsAsciiAlnum(c: char) {
    ('a' <= c <= 'z') || ('A' <= c <= 'Z') || ('0' <= c <= '9')
  }

  /** The characters a normalized string is made of. */
  predicate IsLowerAlnum(c: char) {
    ('a' <= c <= 'z') || ('0' <= c <= '9')
  }

  /** Lower-casing of one character.  Only ASCII capitals change; `.lower()` is applied
      after the substitution, so it never sees any other letter. */
  function ToLower(c: char): (d: char) {
    if 'A' <= c <= 'Z' then (c as int - 'A' as int + 'a' as int) as char else c
  }

  /** The regular-expression substitution: every character outside `[A-Za-z0-9]` is deleted. */
  function Strip(s: string): (r: string)
    ensures |r| <= |s|
    ensures forall i :: 0 <= i < |r| ==> IsAsciiAlnum(r[i])
    ensures forall c :: c in r <==> c in s && IsAsciiAlnum(c)
  {
    if s == [] then [] else (if IsAsciiAlnum(s[0]) then [s[0]] else []) + Strip(s[1..])
  }

  /** ASCII lower-casing, which equals `.lower()` on the output of Strip. */
  function Lower(s: string): (r: string)
    ensures |r| == |s|
    ensures forall i :: 0 <= i < |s| && IsAsciiAlnum(s[i]) ==> IsLowerAlnum(r[i])
  {
    seq(|s|, i requires 0 <= i < |s| => ToLower(s[i]))
  }

  /** `normalize(text)` of app.py. */
  function Normalize(s: string): (r: string)
    ensures |r| <= |s|
    ensures forall i :: 0 <= i < |r| ==> IsLowerAlnum(r[i])
  {
    Lower(Strip(s))
  }

  /** Two strings that differ at most in the case of ASCII letters. */
  predicate SameUpToCase(a: string, b: string) {
    |a| == |b| && forall i :: 0 <= i < |a| ==> ToLower(a[i]) == ToLower(b[i])
  }

  /** The positions of `s` that hold an ASCII letter or digit, in increasing order:
      an independent description of which characters survive the substitution. */
  function AlnumPositions(s: string): (p: seq<nat>)
    ensures forall k :: 0 <= k < |p| ==> p[k] < |s| && IsAsciiAlnum(s[p[k]])
    ensures forall k, l :: 0 <= k < l < |p| ==> p[k] < p[l]
    ensures forall j :: 0 <= j < |s| && IsAsciiAlnum(s[j]) ==> j in p
  {
    if s == [] then []
    else
      var n := |s| - 1;
      AlnumPositions(s[..n]) + (if IsAsciiAlnum(s[n]) then [n] else [])
  }

  lemma {:induction false} StripAppend(a: string, b: string)
    ensures Strip(a + b) == Strip(a) + Strip(b)
  {
    if a != [] {
      assert (a + b)[0] == a[0];
      assert (a + b)[1..] == a[1..] + b;
      StripAppend(a[1..], b);
    } else {
      assert a + b == b;
    }
  }

  lemma {:induction false} StripDropsAll(s: string)
    requires forall i :: 0 <= i < |s| ==> !IsAsciiAlnum(s[i])
    ensures Strip(s) == []
  {
    if s != [] {
      StripDropsAll(s[1..]);
    }
  }

  lemma {:induction false} StripKeepsAlnum(s: string)
    requires forall i :: 0 <= i < |s| ==> IsAsciiAlnum(s[i])
    ensures Strip(s) == s
  {
    if s != [] {
      StripKeepsAlnum(s[1..]);
    }
  }

  /** Normalization distributes over concatenation. */
  lemma NormalizeAppend(a: string, b: string)
    ensures Normalize(a + b) == Normalize(a) + Normalize(b)
  {
    StripAppend(a, b);
  }

  /** Normalizing twice is the same as normalizing once. */
  lemma NormalizeIdempotent(s: string)
    ensures Normalize(Normalize(s)) == Normalize(s)
  {
    var n := Normalize(s);
    StripKeepsAlnum(n);
  }

  /** Normalize(s) is exactly the ASCII letters and digits of s, in their original order,
      with capitals mapped to lower case. */
  lemma {:induction false} NormalizeIsAlnumSubsequence(s: string)
    ensures |Normalize(s)| == |AlnumPositions(s)|
    ensures forall k :: 0 <= k < |Normalize(s)| ==>
              Normalize(s)[k] == ToLower(s[AlnumPositions(s)[k]])
  {
    if s != [] {
      var n := |s| - 1;
      assert s == s[..n] + [s[n]];
      NormalizeIsAlnumSubsequence(s[..n]);
      NormalizeAppend(s[..n], [s[n]]);
      assert Strip([s[n]]) == if IsAsciiAlnum(s[n]) then [s[n]] else [] by {
        assert [s[n]][1..] == [];
      }
    }
  }

  lemma SameCaseKeepsClass(c: char, d: char)
    requires ToLower(c) == ToLower(d)
    ensures IsAsciiAlnum(c) == IsAsciiAlnum(d)
  {
  }

  lemma SameUpToCaseAppend(a: string, b: string, a': string, b': string)
    requires SameUpToCase(a, a') && SameUpToCase(b, b')
    ensures SameUpToCase(a + b, a' + b')
  {
    forall i | 0 <= i < |a + b| ensures ToLower((a + b)[i]) == ToLower((a' + b')[i]) {
      if i < |a| {
        assert (a + b)[i] == a[i] && (a' + b')[i] == a'[i];
      } else {
        assert (a + b)[i] == b[i - |a|] && (a' + b')[i] == b'[i - |a|];
      }
    }
  }

  lemma {:induction false} StripSameUpToCase(a: string, b: string)
    requires SameUpToCase(a, b)
    ensures SameUpToCase(Strip(a), Strip(b))
  {
    if a != [] {
      assert SameUpToCase(a[1..], b[1..]) by {
        forall i | 0 <= i < |a[1..]| ensures ToLower(a[1..][i]) == ToLower(b[1..][i]) {
          assert ToLower(a[i + 1]) == ToLower(b[i + 1]);
        }
      }
      StripSameUpToCase(a[1..], b[1..]);
      assert ToLower(a[0]) == ToLower(b[0]);
      SameCaseKeepsClass(a[0], b[0]);
      var ha := if IsAsciiAlnum(a[0]) then [a[0]] else [];
      var hb := if IsAsciiAlnum(b[0]) then [b[0]] else [];
      assert SameUpToCase(ha, hb);
      SameUpToCaseAppend(ha, Strip(a[1..]), hb, Strip(b[1..]));
    }
  }

  /** Strings that differ only in the case of ASCII letters normalize alike. */
  lemma NormalizeIgnoresCase(a: string, b: string)
    requires SameUpToCase(a, b)
    ensures Normalize(a) == Normalize(b)
  {
    StripSameUpToCase(a, b);
  }

  /** Inserting or removing characters outside `[A-Za-z0-9]` does not change the normal form. */
  lemma NormalizeIgnoresNonAlnum(a: string, junk: string, b: string)
    requires forall i :: 0 <= i < |junk| ==> !IsAsciiAlnum(junk[i])
    ensures Normalize(a + junk + b) == Normalize(a + b)
  {
    StripAppend(a + junk, b);
    StripAppend(a, junk);
    StripAppend(a, b);
    StripDropsAll(junk);
    assert Strip(a + junk) == Strip(a);
  }

  // InceptionCases and InceptionPieces are helpers for the examples below: they keep
  // the facts about string literals out of the example lemmas' own proofs.
  lemma InceptionCases()
    ensures SameUpToCase("INCEPTION", "Inception")
    ensures SameUpToCase("inception", "Inception")
  {
  }

  lemma InceptionPieces()
    ensures "INCEPTION!" == "INCEPTION" + "!" + ""
    ensures "INCEPTION" + "" == "INCEPTION"
    ensures "in-ception" == "in" + "-" + "ception"
    ensures "in" + "ception" == "inception"
  {
  }

  lemma HyphenDropped()
    ensures Normalize("in-ception") == Normalize("inception")
  {
    InceptionPieces();
    NormalizeIgnoresNonAlnum("in", "-", "ception");
  }

  /** "INCEPTION!" normalizes as "Inception" does. */
  lemma ShoutedTitleVariant()
    ensures Normalize("INCEPTION!") == Normalize("Inception")
  {
    InceptionPieces();
    NormalizeIgnoresNonAlnum("INCEPTION", "!", "");
    InceptionCases();
    NormalizeIgnoresCase("INCEPTION", "Inception");
  }

  /** "in-ception" normalizes as "Inception" does. */
  lemma HyphenatedTitleVariant()
    ensures Normalize("in-ception") == Normalize("Inception")
  {
    HyphenDropped();
    InceptionCases();
    NormalizeIgnoresCase("inception", "Inception");
  }
}
