/**
 * The palindrome utility (PalindromeService) and the request check of the
 * detect endpoint (AlgorithmController::detectPalindromes).
 */
module Palindrome {
  import opened Options
  import opened Strings

  /**
   * `preg_replace('/[^a-zA-Z0-9]/', '', w)`: every character outside the
   * ASCII letters and digits is removed, the rest keep their order.
   */
  function StripNonAlnum(w: string): (r: string)
    ensures |r| <= |w|
    ensures forall i :: 0 <= i < |r| ==> IsAsciiAlnum(r[i])
  {
    if w == [] then []
    else (if IsAsciiAlnum(w[0]) then [w[0]] else []) + StripNonAlnum(w[1..])
  }

  /** The normalised word: stripped, then lower-cased. */
  function Cleaned(w: string): (c: string)
    ensures forall i :: 0 <= i < |c| ==> IsAsciiAlnum(c[i]) && !IsAsciiUpper(c[i])
  {
    LowerAll(StripNonAlnum(w))
  }

  function Reverse(s: string): (r: string)
    ensures |r| == |s|
    ensures forall i :: 0 <= i < |s| ==> r[i] == s[|s| - 1 - i]
  {
    if s == [] then [] else Reverse(s[1..]) + [s[0]]
  }

  /** `isPalindrome`: the normalised word equals its reverse. */
  function IsPalindrome(w: string): (p: bool)
    ensures |Cleaned(w)| <= 1 ==> p
  {
    Cleaned(w) == Reverse(Cleaned(w))
  }

  /** The verdict holds exactly when the normalised word mirrors itself position by position. */
  lemma PalindromeIffMirrored(w: string)
    ensures IsPalindrome(w) <==>
      forall i :: 0 <= i < |Cleaned(w)| ==> Cleaned(w)[i] == Cleaned(w)[|Cleaned(w)| - 1 - i]
  {
  }

  lemma {:induction false} StripConcat(a: string, b: string)
    ensures StripNonAlnum(a + b) == StripNonAlnum(a) + StripNonAlnum(b)
  {
    if a == [] {
      assert a + b == b;
    } else {
      var head := if IsAsciiAlnum(a[0]) then [a[0]] else [];
      assert (a + b)[0] == a[0];
      assert (a + b)[1..] == a[1..] + b;
      assert StripNonAlnum(a + b) == head + StripNonAlnum(a[1..] + b);
      StripConcat(a[1..], b);
      assert StripNonAlnum(a) == head + StripNonAlnum(a[1..]);
    }
  }

  lemma {:induction false} StripNoAlnum(x: string)
    requires forall i :: 0 <= i < |x| ==> !IsAsciiAlnum(x[i])
    ensures StripNonAlnum(x) == []
  {
    if x != [] {
      StripNoAlnum(x[1..]);
    }
  }

  /** A word without letters or digits (the empty word among them) is a palindrome. */
  lemma NoAlnumIsPalindrome(w: string)
    requires forall i :: 0 <= i < |w| ==> !IsAsciiAlnum(w[i])
    ensures IsPalindrome(w)
  {
    StripNoAlnum(w);
  }

  /** Inserting spaces, dashes or any other non-alphanumeric text anywhere leaves the verdict unchanged. */
  lemma NonAlnumInsertion(a: string, x: string, b: string)
    requires forall i :: 0 <= i < |x| ==> !IsAsciiAlnum(x[i])
    ensures IsPalindrome(a + x + b) == IsPalindrome(a + b)
  {
    StripConcat(a + x, b);
    StripConcat(a, x);
    StripConcat(a, b);
    StripNoAlnum(x);
    assert StripNonAlnum(a + x) == StripNonAlnum(a);
  }

  /** Two words that differ only in the case of ASCII letters. */
  predicate SameUpToCase(a: string, b: string) {
    |a| == |b| && forall i :: 0 <= i < |a| ==> AsciiLower(a[i]) == AsciiLower(b[i])
  }

  lemma {:induction false} CleanedIgnoresCase(a: string, b: string)
    requires SameUpToCase(a, b)
    ensures Cleaned(a) == Cleaned(b)
  {
    if a != [] {
      assert SameUpToCase(a[1..], b[1..]) by {
        forall i | 0 <= i < |a| - 1 ensures AsciiLower(a[1..][i]) == AsciiLower(b[1..][i]) {
          assert a[1..][i] == a[i + 1] && b[1..][i] == b[i + 1];
        }
      }
      CleanedIgnoresCase(a[1..], b[1..]);
      assert AsciiLower(a[0]) == AsciiLower(b[0]);
      assert IsAsciiAlnum(a[0]) == IsAsciiAlnum(b[0]);
      assert LowerAll(StripNonAlnum(a[1..])) == LowerAll(StripNonAlnum(b[1..]));
      var ha := if IsAsciiAlnum(a[0]) then [a[0]] else [];
      var hb := if IsAsciiAlnum(b[0]) then [b[0]] else [];
      assert LowerAll(ha) == LowerAll(hb);
      LowerAllConcat(ha, StripNonAlnum(a[1..]));
      LowerAllConcat(hb, StripNonAlnum(b[1..]));
    }
  }

  lemma LowerAllConcat(a: string, b: string)
    ensures LowerAll(a + b) == LowerAll(a) + LowerAll(b)
  {
  }

  /** The verdict ignores letter case: "Radar", "RECONOCER" and "AnIlInA" agree with their lower-case forms. */
  lemma CaseInsensitive(a: string, b: string)
    requires SameUpToCase(a, b)
    ensures IsPalindrome(a) == IsPalindrome(b)
  {
    CleanedIgnoresCase(a, b);
  }

  lemma {:induction false} StripKeepsAlnum(w: string)
    requires forall i :: 0 <= i < |w| ==> IsAsciiAlnum(w[i])
    ensures StripNonAlnum(w) == w
  {
    if w != [] {
      StripKeepsAlnum(w[1..]);
    }
  }

  /** A lower-case alphanumeric word that mirrors itself is a palindrome. */
  lemma MirroredLowerWord(w: string)
    requires forall i :: 0 <= i < |w| ==> IsAsciiLower(w[i]) || IsDigit(w[i])
    requires forall i :: 0 <= i < |w| ==> w[i] == w[|w| - 1 - i]
    ensures Cleaned(w) == w
    ensures IsPalindrome(w)
  {
    StripKeepsAlnum(w);
    assert LowerAll(w) == w;
  }

  /** A lower-case alphanumeric word with two mirrored positions that differ is not a palindrome. */
  lemma UnmirroredLowerWord(w: string, k: nat)
    requires forall i :: 0 <= i < |w| ==> IsAsciiLower(w[i]) || IsDigit(w[i])
    requires k < |w| && w[k] != w[|w| - 1 - k]
    ensures !IsPalindrome(w)
  {
    StripKeepsAlnum(w);
    assert LowerAll(w) == w;
    assert Reverse(w)[k] != w[k];
  }

  /** A word and its lower-case form get the same verdict. */
  lemma LowerCaseForm(w: string)
    ensures IsPalindrome(w) == IsPalindrome(LowerAll(w))
  {
    CaseInsensitive(w, LowerAll(w));
  }

  /** The lower-case palindromes of the unit tests. */
  lemma KnownPalindromes(w: string)
    requires w in ["oso", "radar", "reconocer", "anilina", "oro", "php", "solos", "kayak", "salas"]
    ensures IsPalindrome(w)
  {
    MirroredLowerWord(w);
  }

  /** An alphanumeric word whose mirrored letters agree up to case is a palindrome. */
  lemma MirroredUpToCase(w: string)
    requires forall i :: 0 <= i < |w| ==> IsAsciiAlnum(w[i])
    requires forall i :: 0 <= i < |w| ==> AsciiLower(w[i]) == AsciiLower(w[|w| - 1 - i])
    ensures IsPalindrome(w)
  {
    StripKeepsAlnum(w);
    var c := Cleaned(w);
    assert c == LowerAll(w);
    assert Reverse(c) == c;
  }

  /** The mixed-case palindromes of the unit tests: "Radar", "RECONOCER", "AnIlInA". */
  lemma KnownMixedCasePalindromes(w: string)
    requires w in ["Radar", "RECONOCER", "AnIlInA"]
    ensures IsPalindrome(w)
  {
    MirroredUpToCase(w);
  }

  /** A three-letter palindrome written with a separator between its letters, such as "a b a". */
  lemma SeparatedPalindrome(x: char, y: char, sep: char)
    requires IsAsciiAlnum(x) && IsAsciiAlnum(y) && !IsAsciiAlnum(sep)
    ensures IsPalindrome([x, sep, y, sep, x])
  {
    var w := [x, sep, y, sep, x];
    assert w == [x] + [sep] + [y] + [sep] + [x];
    StripConcat([x] + [sep] + [y] + [sep], [x]);
    StripConcat([x] + [sep] + [y], [sep]);
    StripConcat([x] + [sep], [y]);
    StripConcat([x], [sep]);
    assert StripNonAlnum([sep]) == [];
    assert StripNonAlnum(w) == [x, y, x];
    var c := Cleaned(w);
    assert c == [AsciiLower(x), AsciiLower(y), AsciiLower(x)];
    assert Reverse(c) == c;
  }

  /** The words with separators of the unit tests. */
  lemma KnownSeparatedPalindromes()
    ensures IsPalindrome("a b a") && IsPalindrome("a-b-a")
  {
    SeparatedPalindrome('a', 'b', ' ');
    SeparatedPalindrome('a', 'b', '-');
  }

  /** The words the unit tests reject. */
  lemma KnownNonPalindromes(w: string)
    requires w in ["hello", "world", "laravel", "nivel"]
    ensures !IsPalindrome(w)
  {
    UnmirroredLowerWord(w, 1);
  }
  /**
   * `detectPalindromes`: one entry per distinct word, keyed by the word as
   * given, holding that word's verdict. A repeated word writes the same
   * verdict again, so the map has one key per distinct word.
   */
  method DetectPalindromes(words: seq<string>) returns (results: map<string, bool>)
    ensures results.Keys == set w | w in words
    ensures forall w :: w in results ==> results[w] == IsPalindrome(w)
    ensures |results| <= |words|
  {
    results := map[];
    for i := 0 to |words|
      invariant results.Keys == set w | w in words[..i]
      invariant forall w :: w in results ==> results[w] == IsPalindrome(w)
      invariant |results| <= i
    {
      assert words[..i + 1] == words[..i] + [words[i]];
      AddKey(results, words[..i], words[i], words[..i + 1], IsPalindrome(words[i]));
      results := results[words[i] := IsPalindrome(words[i])];
    }
    assert words[..|words|] == words;
  }

  /** Adding the entry of one more word keeps the map keyed by exactly the words seen. */
  lemma AddKey(m: map<string, bool>, seen: seq<string>, w: string, next: seq<string>, v: bool)
    requires next == seen + [w]
    requires m.Keys == set x | x in seen
    requires |m| <= |seen|
    ensures m[w := v].Keys == set x | x in next
    ensures |m[w := v]| <= |next|
  {
    assert (set x | x in next) == m.Keys + {w};
    assert m[w := v].Keys == m.Keys + {w};
  }

  /** One element of the `words` array of a detect request. */
  datatype RequestValue = Text(text: string) | NonText

  /**
   * The rules of the detect endpoint: `words` is present, is an array of at
   * least two elements, and every element is a string that is not blank
   * (Laravel's `required` treats a string that PHP's `trim` empties as missing).
   */
  function DetectRequestValid(words: Option<seq<RequestValue>>): (ok: bool)
    ensures words.None? ==> !ok
    ensures ok ==> forall i :: 0 <= i < |words.value| ==> words.value[i].Text? && words.value[i].text != ""
  {
    && words.Some?
    && |words.value| >= 2
    && forall i :: 0 <= i < |words.value| ==> words.value[i].Text? && !PhpBlank(words.value[i].text)
  }

  function Texts(values: seq<RequestValue>): (ws: seq<string>)
    requires forall i :: 0 <= i < |values| ==> values[i].Text?
    ensures |ws| == |values| && forall i :: 0 <= i < |values| ==> ws[i] == values[i].text
  {
    seq(|values|, i requires 0 <= i < |values| => values[i].text)
  }

  /**
   * The detect endpoint: a request failing the rules is rejected before the
   * service runs; otherwise the verdict map of the submitted words is returned.
   */
  method Detect(words: Option<seq<RequestValue>>) returns (results: Option<map<string, bool>>)
    ensures results.Some? <==> DetectRequestValid(words)
    ensures results.Some? ==>
      (forall w :: w in results.value <==> Text(w) in words.value) &&
      (forall w :: w in results.value ==> results.value[w] == IsPalindrome(w))
  {
    if !DetectRequestValid(words) {
      return None;
    }
    var ws := Texts(words.value);
    var r := DetectPalindromes(ws);
    results := Some(r);
    forall w ensures w in r <==> Text(w) in words.value {
      if w in r {
        var i :| 0 <= i < |ws| && ws[i] == w;
        assert words.value[i] == Text(w);
      }
      if Text(w) in words.value {
        var i :| 0 <= i < |words.value| && words.value[i] == Text(w);
        assert ws[i] == w;
      }
    }
  }
}
