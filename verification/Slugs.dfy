/** Tenant slugs: normalisation, the accepting pattern, and the grammar it recognises. */
module Slugs {

  import opened Rows
  import opened Text

  predicate IsAlnum(c: char) {
    'a' <= c <= 'z' || '0' <= c <= '9'
  }

  predicate AllAlnum(s: string) {
    forall i | 0 <= i < |s| :: IsAlnum(s[i])
  }

  /** `s.replace(" ", "-")`. */
  function Hyphenated(s: string): (r: string)
    ensures |r| == |s|
    ensures forall i | 0 <= i < |s| :: r[i] == if s[i] == ' ' then '-' else s[i]
  {
    seq(|s|, i requires 0 <= i < |s| => if s[i] == ' ' then '-' else s[i])
  }

  function Normal(s: string): string {
    Hyphenated(Lower(Strip(s)))
  }

  function NormalizeSlug(s: string): Result<string> {
    if Normal(s) == "" then Err(Validation) else Ok(Normal(s))
  }

  /** The pattern `^[a-z0-9]+(?:-[a-z0-9]+)*$` as an automaton; `inWord` says that the last
      character read was a letter or a digit. `$` also matches before a final line break. */
  predicate Matches(s: string, inWord: bool) {
    if s == "" then inWord
    else if s == "\n" && inWord then true
    else if IsAlnum(s[0]) then Matches(s[1..], true)
    else s[0] == '-' && inWord && Matches(s[1..], false)
  }

  function ValidateSlug(s: string): Result<string> {
    match NormalizeSlug(s)
    case Err(e) => Err(e)
    case Ok(n) => if Matches(n, false) then Ok(n) else Err(Validation)
  }

  // ---- The grammar -----------------------------------------------------------------------

  /** `s.split("-")`. */
  function Split(s: string): (r: seq<string>)
    ensures r != []
    ensures forall w | w in r :: '-' !in w
  {
    if s == "" then [""]
    else if s[0] == '-' then [""] + Split(s[1..])
    else
      var r := Split(s[1..]);
      [[s[0]] + r[0]] + r[1..]
  }

  /** `"-".join(words)`. */
  function Join(words: seq<string>): string
    requires words != []
  {
    if |words| == 1 then words[0] else words[0] + "-" + Join(words[1..])
  }

  predicate IsWord(w: string) {
    w != "" && AllAlnum(w)
  }

  /** Non-empty words of lower-case letters and digits, joined by single hyphens. */
  predicate IsSlug(s: string) {
    forall w | w in Split(s) :: IsWord(w)
  }

  lemma {:induction false} JoinSplit(s: string)
    ensures Join(Split(s)) == s
  {
    if s != "" {
      JoinSplit(s[1..]);
      var r := Split(s[1..]);
      if s[0] == '-' {
        assert Split(s)[1..] == r;
      } else {
        assert Split(s)[1..] == r[1..];
        assert s == [s[0]] + s[1..];
      }
    }
  }

  lemma {:induction false} SplitHyphenFree(w: string, rest: string)
    requires '-' !in w
    ensures Split(w) == [w]
    ensures Split(w + "-" + rest) == [w] + Split(rest)
  {
    if w == "" {
      assert ("" + "-" + rest)[1..] == rest;
    } else {
      SplitHyphenFree(w[1..], rest);
      assert (w + "-" + rest)[1..] == w[1..] + "-" + rest;
      assert w == [w[0]] + w[1..];
    }
  }

  lemma WordIsSlug(w: string)
    requires IsWord(w)
    ensures IsSlug(w)
  {
    SplitHyphenFree(w, "");
  }

  lemma {:induction false} SplitJoin(words: seq<string>)
    requires words != [] && forall w | w in words :: '-' !in w
    ensures Split(Join(words)) == words
  {
    if |words| == 1 {
      SplitHyphenFree(words[0], "");
    } else {
      SplitHyphenFree(words[0], Join(words[1..]));
      SplitJoin(words[1..]);
    }
  }

  /** The automaton accepts the grammar, on inputs that do not end in a line break. */
  lemma {:induction false} MatchesGrammar(s: string, inWord: bool)
    requires s == "" || s[|s| - 1] != '\n'
    ensures Matches(s, inWord) <==>
      AllAlnum(Split(s)[0]) && (inWord || Split(s)[0] != "") && forall w | w in Split(s)[1..] :: IsWord(w)
  {
    if s != "" {
      var r := Split(s[1..]);
      MatchesGrammar(s[1..], IsAlnum(s[0]));
      assert r == [r[0]] + r[1..];
      if s[0] == '-' {
        assert Split(s)[1..] == r;
        assert forall w | w in r :: w == r[0] || w in r[1..];
        assert r[0] in r;
      } else {
        assert Split(s)[1..] == r[1..];
        assert Split(s)[0][1..] == r[0];
        assert Split(s)[0][0] == s[0];
        assert forall i | 0 <= i < |r[0]| :: r[0][i] == Split(s)[0][i + 1];
      }
    }
  }

  lemma {:induction false} SlugCharacters(s: string)
    requires IsSlug(s)
    ensures s != "" && IsAlnum(s[0]) && IsAlnum(s[|s| - 1])
    ensures forall i | 0 <= i < |s| :: IsAlnum(s[i]) || s[i] == '-'
  {
    assert Split(s)[0] in Split(s);
    SlugSuffix(s, false);
  }

  lemma {:induction false} SlugSuffix(s: string, inWord: bool)
    requires AllAlnum(Split(s)[0]) && (inWord || Split(s)[0] != "")
    requires forall w | w in Split(s)[1..] :: IsWord(w)
    ensures forall i | 0 <= i < |s| :: IsAlnum(s[i]) || s[i] == '-'
    ensures s != "" ==> IsAlnum(s[|s| - 1])
    ensures inWord || (s != "" && IsAlnum(s[0]))
  {
    if s != "" {
      var r := Split(s[1..]);
      if s[0] == '-' {
        assert Split(s)[1..] == r;
        assert r[0] in r;
        SlugSuffix(s[1..], false);
      } else {
        assert Split(s)[1..] == r[1..];
        assert Split(s)[0][0] == s[0];
        assert forall i | 0 <= i < |r[0]| :: r[0][i] == Split(s)[0][i + 1];
        SlugSuffix(s[1..], true);
      }
    }
  }

  /** `validate_slug` accepts exactly the inputs whose normal form is in the grammar. */
  lemma ValidateSlugExact(s: string)
    ensures ValidateSlug(s) == if IsSlug(Normal(s)) then Ok(Normal(s)) else Err(Validation)
  {
    var n := Normal(s);
    var stripped := Strip(s);
    if n != "" {
      assert n[|n| - 1] != '\n' by {
        assert !IsSpace(stripped[|n| - 1]);
        assert Lower(stripped)[|n| - 1] == LowerChar(stripped[|n| - 1]);
      }
      MatchesGrammar(n, false);
      assert Split(n) == [Split(n)[0]] + Split(n)[1..];
      assert Split(n)[0] in Split(n);
    } else {
      assert Split(n)[0] == "" && Split(n)[0] in Split(n);
    }
  }

  /** An accepted slug is its own normal form, and is accepted again unchanged. */
  lemma ValidateSlugFixed(s: string)
    requires IsSlug(s)
    ensures Normal(s) == s
    ensures ValidateSlug(s) == Ok(s)
  {
    SlugCharacters(s);
    assert Strip(s) == s;
    assert Lower(s) == s;
    assert Hyphenated(s) == s;
    ValidateSlugExact(s);
  }

  /** The normal form, character by character: the spaces around the name go, letters become lower-case, and
      each inner space becomes a hyphen. */
  lemma NormalByCharacter(pre: string, w: string, post: string)
    requires Blank(pre) && (Trimmed(w) || w == "") && Blank(post)
    ensures var n := Normal(pre + w + post);
      && |n| == |w|
      && (forall i | 0 <= i < |w| ::
          n[i] == (
            if w[i] == ' ' then '-'
            else if 'A' <= w[i] <= 'Z' then (w[i] as int + 32) as char
            else if w[i] == '\U{212a}' then 'k'
            else w[i]))
  {
    if w == "" {
      assert pre + w + post == pre + post;
      StripBlank(pre + post);
    } else {
      StripPadded(pre, w, post);
    }
  }

  /** The grammar, character by character: letters a to z and digits, with single hyphens between them. */
  lemma SlugByCharacter(s: string)
    ensures IsSlug(s) <==>
      && s != ""
      && (forall i | 0 <= i < |s| :: 'a' <= s[i] <= 'z' || '0' <= s[i] <= '9' || s[i] == '-')
      && s[0] != '-' && s[|s| - 1] != '-'
      && (forall i | 0 <= i < |s| - 1 :: s[i] != '-' || s[i + 1] != '-')
  {
    if s == "" {
      assert Split(s)[0] == "" && Split(s)[0] in Split(s);
    } else {
      assert Split(s)[0] in Split(s);
      assert Split(s) == [Split(s)[0]] + Split(s)[1..];
      WordsByCharacter(s);
    }
  }

  /** The words of a text that has begun inside a word. */
  lemma {:induction false} WordsByCharacter(s: string)
    ensures AllAlnum(Split(s)[0]) && (forall w | w in Split(s)[1..] :: IsWord(w)) <==>
      && (forall i | 0 <= i < |s| :: IsAlnum(s[i]) || s[i] == '-')
      && (s != "" ==> s[|s| - 1] != '-')
      && (forall i | 0 <= i < |s| - 1 :: s[i] != '-' || s[i + 1] != '-')
    ensures s != "" ==> (Split(s)[0] == "" <==> s[0] == '-')
  {
    if s != "" {
      var rest, r := s[1..], Split(s[1..]);
      WordsByCharacter(rest);
      assert r == [r[0]] + r[1..];
      assert forall i | 0 <= i < |rest| :: rest[i] == s[i + 1];
      if s[0] == '-' {
        assert Split(s)[1..] == r && r[0] in r;
        assert forall w | w in r :: w == r[0] || w in r[1..];
      } else {
        assert Split(s)[1..] == r[1..] && Split(s)[0] == [s[0]] + r[0];
        assert AllAlnum(Split(s)[0]) <==> IsAlnum(s[0]) && AllAlnum(r[0]) by {
          assert forall i | 0 <= i < |r[0]| :: r[0][i] == Split(s)[0][i + 1];
          assert Split(s)[0][0] == s[0];
        }
      }
    }
  }
}
