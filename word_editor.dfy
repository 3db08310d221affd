/**
 * The word-list editor of the palindrome page: the list of word inputs and
 * its count, the handlers that resize and edit it, the submission filter,
 * and the count of palindromes shown with the results.
 */
module WordEditor {
  import opened Options
  import opened Strings
  import opened Palindrome

  const MinWords: nat := 2
  const MaxWords: nat := 20

  /** The list resized to `count` entries: entries below `count` are kept, new ones are empty. */
  function Resized(inputs: seq<string>, count: nat): (r: seq<string>)
    ensures |r| == count
    ensures forall i :: 0 <= i < count && i < |inputs| ==> r[i] == inputs[i]
    ensures forall i :: |inputs| <= i < count ==> r[i] == ""
  {
    seq(count, i requires 0 <= i < count => if i < |inputs| then inputs[i] else "")
  }

  /** Growing and then shrinking back restores the list; shrinking and growing back empties the dropped slots. */
  lemma ResizeBack(inputs: seq<string>, count: nat)
    ensures count >= |inputs| ==> Resized(Resized(inputs, count), |inputs|) == inputs
    ensures count <= |inputs| ==>
      Resized(Resized(inputs, count), |inputs|) == inputs[..count] + seq(|inputs| - count, _ => "")
  {
    if count <= |inputs| {
      var r := Resized(Resized(inputs, count), |inputs|);
      var e := inputs[..count] + seq(|inputs| - count, _ => "");
      assert |r| == |e|;
      forall i | 0 <= i < |r|
        ensures r[i] == e[i]
      {
      }
    }
  }

  /** The entries that are not blank after JavaScript's `trim`, untrimmed and in order. */
  function NonBlank(words: seq<string>): (r: seq<string>)
    ensures |r| <= |words|
    ensures forall w :: w in r <==> w in words && !JsBlank(w)
  {
    if words == [] then []
    else (if JsBlank(words[0]) then [] else [words[0]]) + NonBlank(words[1..])
  }

  /** The filter keeps order: filtering a concatenation concatenates the filtered parts. */
  lemma {:induction false} NonBlankConcat(a: seq<string>, b: seq<string>)
    ensures NonBlank(a + b) == NonBlank(a) + NonBlank(b)
  {
    if a == [] {
      assert a + b == b;
    } else {
      assert (a + b)[0] == a[0] && (a + b)[1..] == a[1..] + b;
      NonBlankConcat(a[1..], b);
    }
  }

  /** The filter is idempotent. */
  lemma {:induction false} NonBlankIdempotent(words: seq<string>)
    ensures NonBlank(NonBlank(words)) == NonBlank(words)
  {
    if words != [] {
      NonBlankIdempotent(words[1..]);
      var head := if JsBlank(words[0]) then [] else [words[0]];
      NonBlankConcat(head, NonBlank(words[1..]));
      if !JsBlank(words[0]) {
        assert NonBlank(head) == head by {
          assert head[1..] == [];
        }
      }
    }
  }

  /** The request body the submit handler sends: the non-blank words, as typed. */
  function Words(sent: seq<string>): seq<RequestValue> {
    seq(|sent|, i requires 0 <= i < |sent| => Text(sent[i]))
  }

  /**
   * Submitted words pass the server's rules as long as none holds a NUL
   * character: every character PHP's `trim` removes, other than NUL, is one
   * JavaScript's `trim` removes too.
   */
  lemma SubmittedWordsPassServer(inputs: seq<string>)
    requires |NonBlank(inputs)| >= 2
    requires forall w, i :: w in inputs && 0 <= i < |w| ==> w[i] != '\0'
    ensures DetectRequestValid(Some(Words(NonBlank(inputs))))
  {
    var sent := NonBlank(inputs);
    forall k | 0 <= k < |sent|
      ensures !PhpBlank(sent[k])
    {
      assert sent[k] in sent;
      var w := sent[k];
      var i :| 0 <= i < |w| && !IsJsWhitespace(w[i]);
      assert !IsPhpTrimmed(w[i]);
    }
  }

  /** A word holding only NUL passes the client's filter but not the server's `required`. */
  lemma NulWordPassesClientOnly()
    ensures NonBlank(["\0", "oso"]) == ["\0", "oso"]
    ensures !DetectRequestValid(Some(Words(NonBlank(["\0", "oso"]))))
  {
    var inputs := ["\0", "oso"];
    assert !JsBlank("\0") by {
      assert !IsJsWhitespace("\0"[0]);
    }
    assert !JsBlank("oso") by {
      assert !IsJsWhitespace("oso"[0]);
    }
    assert inputs[1..][1..] == [];
    assert Words(NonBlank(inputs))[0] == Text("\0");
    assert PhpBlank("\0");
  }

  /** The word count typed in the number input: `parseInt(value) || 2`, so no number and 0 both give 2. */
  function CountFromInput(parsed: Option<int>): (count: int)
    ensures parsed.None? || parsed.value == 0 ==> count == 2
    ensures parsed.Some? && parsed.value != 0 ==> count == parsed.value
  {
    if parsed.Some? && parsed.value != 0 then parsed.value else 2
  }

  /** The number of words the results mark as palindromes. */
  function PalindromeCount(results: map<string, bool>): (n: nat)
    ensures n <= |results|
  {
    var marked := set w | w in results && results[w];
    assert marked <= results.Keys;
    SubsetCard(marked, results.Keys);
    |marked|
  }

  lemma SubsetCard<T>(a: set<T>, b: set<T>)
    requires a <= b
    ensures |a| <= |b|
  {
    if a != {} {
      var x :| x in a;
      SubsetCard(a - {x}, b - {x});
    }
  }

  /** On the results of a detection, the count is the number of distinct palindromes among the words. */
  lemma PalindromeCountOfDetection(words: seq<string>, results: map<string, bool>)
    requires results.Keys == set w | w in words
    requires forall w :: w in results ==> results[w] == IsPalindrome(w)
    ensures PalindromeCount(results) == |set w | w in words && IsPalindrome(w)|
  {
    assert (set w | w in results && results[w]) == (set w | w in words && IsPalindrome(w));
  }

  /** The page's state: the word inputs and how many there are. */
  class WordListEditor {
    var wordInputs: seq<string>
    var wordCount: int

    ghost predicate Valid()
      reads this
    {
      |wordInputs| == wordCount && MinWords <= wordCount <= MaxWords
    }

    /** Two empty inputs. */
    constructor()
      ensures Valid() && wordInputs == ["", ""] && wordCount == 2
    {
      wordInputs := ["", ""];
      wordCount := 2;
    }

    /** handleWordCountChange: a count outside 2..20 is ignored; otherwise the list is resized to it. */
    method HandleWordCountChange(count: int)
      requires Valid()
      modifies this
      ensures Valid()
      ensures count < MinWords || count > MaxWords ==>
        wordInputs == old(wordInputs) && wordCount == old(wordCount)
      ensures MinWords <= count <= MaxWords ==>
        wordCount == count && wordInputs == Resized(old(wordInputs), count)
    {
      if count < MinWords {
        return;
      }
      if count > MaxWords {
        return;
      }
      wordCount := count;
      wordInputs := Resized(wordInputs, count);
    }

    /**
     * The number input's change handler: the typed value goes through
     * `parseInt(value) || 2`, so clearing the field (or typing 0) brings the
     * list back to its first two entries.
     */
    method HandleCountInput(parsed: Option<int>)
      requires Valid()
      modifies this
      ensures Valid()
      ensures parsed.None? || parsed.value == 0 ==>
        wordCount == 2 && wordInputs == old(wordInputs)[..2]
      ensures parsed.Some? && MinWords <= parsed.value <= MaxWords ==>
        wordCount == parsed.value && wordInputs == Resized(old(wordInputs), parsed.value)
      ensures parsed.Some? && parsed.value != 0 && (parsed.value < MinWords || parsed.value > MaxWords) ==>
        wordInputs == old(wordInputs) && wordCount == old(wordCount)
    {
      HandleWordCountChange(CountFromInput(parsed));
    }

    /** handleWordChange: entry `i` becomes `value`; the others and the count stay. */
    method HandleWordChange(i: nat, value: string)
      requires Valid() && i < |wordInputs|
      modifies this
      ensures Valid()
      ensures wordInputs == old(wordInputs)[i := value] && wordCount == old(wordCount)
    {
      wordInputs := wordInputs[i := value];
    }

    /** handleAddWord: below 20 words, one empty entry is appended; at 20, nothing changes. */
    method HandleAddWord()
      requires Valid()
      modifies this
      ensures Valid()
      ensures old(wordCount) < MaxWords ==>
        wordCount == old(wordCount) + 1 && wordInputs == old(wordInputs) + [""]
      ensures old(wordCount) >= MaxWords ==>
        wordInputs == old(wordInputs) && wordCount == old(wordCount)
    {
      if wordCount < MaxWords {
        HandleWordCountChange(wordCount + 1);
        assert wordInputs == old(wordInputs) + [""];
      }
    }

    /** handleRemoveWord: above 2 words, entry `i` is removed and the rest keep their order; at 2, nothing changes. */
    method HandleRemoveWord(i: nat)
      requires Valid() && i < |wordInputs|
      modifies this
      ensures Valid()
      ensures old(wordCount) > MinWords ==>
        wordInputs == old(wordInputs)[..i] + old(wordInputs)[i + 1..] && wordCount == old(wordCount) - 1
      ensures old(wordCount) <= MinWords ==>
        wordInputs == old(wordInputs) && wordCount == old(wordCount)
    {
      if wordCount > MinWords {
        wordInputs := wordInputs[..i] + wordInputs[i + 1..];
        wordCount := wordCount - 1;
      }
    }

    /**
     * handleSubmit: the non-blank words are sent, untrimmed and in order,
     * when there are at least two of them; otherwise nothing is sent.
     */
    method Submit() returns (sent: Option<seq<string>>)
      requires Valid()
      ensures sent.Some? <==> |NonBlank(wordInputs)| >= 2
      ensures sent.Some? ==> sent.value == NonBlank(wordInputs)
      ensures sent.Some? ==> forall w :: w in sent.value ==> w in wordInputs && !JsBlank(w)
    {
      var valid := NonBlank(wordInputs);
      if |valid| < 2 {
        return None;
      }
      sent := Some(valid);
    }
  }
}
