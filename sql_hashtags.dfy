/** The hashtags of a composed tweet: every match of `[#]\w+`, scanned left
    to right, with its `#` removed. */
module Hashtags {
  import opened Text

  /** A hashtag term: one or more word characters. */
  predicate IsTerm(w: string) {
    |w| > 0 && forall i :: 0 <= i < |w| ==> IsWordChar(w[i])
  }

  /** The longest prefix of `s` made of word characters (what `\w+` takes). */
  function WordRun(s: string): (w: string)
    ensures |w| <= |s| && w == s[..|w|]
    ensures forall i :: 0 <= i < |w| ==> IsWordChar(w[i])
    ensures |w| < |s| ==> !IsWordChar(s[|w|])
  {
    if s == [] || !IsWordChar(s[0]) then []
    else
      var rest := WordRun(s[1..]);
      assert s[1..][..|rest|] == s[1..|rest| + 1];
      [s[0]] + rest
  }

  /** re.findall("[#]\w+", text), each match without its `#`: a match that is
      found resumes the scan after its last character. */
  function Extract(text: string): (terms: seq<string>)
    ensures forall k :: 0 <= k < |terms| ==> IsTerm(terms[k])
    decreases |text|
  {
    if |text| < 2 then []
    else if text[0] == '#' && IsWordChar(text[1]) then
      var w := WordRun(text[1..]);
      [w] + Extract(text[1 + |w|..])
    else Extract(text[1..])
  }

  /** The term that starts right after position 0, if `text` opens with a
      `#` followed by a word character. */
  function TermHere(text: string): seq<string> {
    if |text| >= 2 && text[0] == '#' && IsWordChar(text[1]) then [WordRun(text[1..])] else []
  }

  /** An independent reading: one term for every `#` that a word character
      follows, in text order. */
  function TermsPerHash(text: string): seq<string>
    decreases |text|
  {
    if text == [] then [] else TermHere(text) + TermsPerHash(text[1..])
  }

  /** Skipping a run of word characters skips no term: none of them is `#`. */
  lemma {:induction false} SkipWordChars(s: string, n: nat)
    requires n <= |s|
    requires forall i :: 0 <= i < n ==> IsWordChar(s[i])
    ensures TermsPerHash(s) == TermsPerHash(s[n..])
    decreases n
  {
    if n > 0 {
      assert s[0] != '#';
      assert TermHere(s) == [];
      assert forall i :: 0 <= i < n - 1 ==> IsWordChar(s[1..][i]);
      SkipWordChars(s[1..], n - 1);
      assert s[1..][n - 1..] == s[n..];
    }
  }

  /** The scan finds exactly one term per `#` that a word character follows:
      a `#` is never inside an earlier match, so no such `#` is missed, and
      repeated hashtags are all kept. */
  lemma {:induction false} ExtractIsPerHash(text: string)
    ensures Extract(text) == TermsPerHash(text)
    decreases |text|
  {
    if |text| < 2 {
      if |text| == 1 {
        assert TermsPerHash(text) == TermHere(text) + TermsPerHash(text[1..]);
        assert text[1..] == [];
      }
    } else if text[0] == '#' && IsWordChar(text[1]) {
      HashStep(text);
      ExtractIsPerHash(text[1 + |WordRun(text[1..])|..]);
    } else {
      OtherStep(text);
      ExtractIsPerHash(text[1..]);
    }
  }

  /** At a `#` with a word character after it, both readings take the
      term and continue after it. */
  lemma HashStep(text: string)
    requires |text| >= 2 && text[0] == '#' && IsWordChar(text[1])
    ensures Extract(text) == [WordRun(text[1..])] + Extract(text[1 + |WordRun(text[1..])|..])
    ensures TermsPerHash(text) == [WordRun(text[1..])] + TermsPerHash(text[1 + |WordRun(text[1..])|..])
  {
    HashTerms(text, WordRun(text[1..]));
  }

  lemma HashTerms(text: string, w: string)
    requires |text| >= 2 && text[0] == '#' && IsWordChar(text[1])
    requires w == WordRun(text[1..])
    ensures TermsPerHash(text) == [w] + TermsPerHash(text[1 + |w|..])
  {
    var rest := text[1..];
    assert TermHere(text) == [w];
    SkipWordChars(rest, |w|);
    assert rest[|w|..] == text[1 + |w|..];
  }

  /** Anywhere else both readings move on by one character. */
  lemma OtherStep(text: string)
    requires |text| >= 2 && !(text[0] == '#' && IsWordChar(text[1]))
    ensures Extract(text) == Extract(text[1..])
    ensures TermsPerHash(text) == TermsPerHash(text[1..])
  {
    assert TermHere(text) == [];
  }

  /** A repeated hashtag yields one term per occurrence. */
  lemma RepeatsAreKept()
    ensures Extract("#a #a") == ["a", "a"]
  {
    var t := "#a #a";
    assert WordRun("a #a") == "a" by {
      assert "a #a"[1..] == " #a";
      assert WordRun(" #a") == [];
    }
    assert t[1 + 1..] == " #a";
    assert Extract(" #a") == Extract("#a") by {
      assert " #a"[1..] == "#a";
    }
    assert Extract("#a") == ["a"] by {
      assert "#a"[1..] == "a";
      assert WordRun("a") == "a" by {
        assert "a"[1..] == [];
      }
      assert "#a"[2..] == [];
    }
  }
}
