/** Text: decimal rendering, and the Python string methods the services use. */
module Text {

  /** `str(n)` for a non-negative number; it stands for the text of every identifier and timestamp. */
  function ShowNat(n: nat): (s: string)
    ensures s != "" && forall i | 0 <= i < |s| :: '0' <= s[i] <= '9'
  {
    (if n < 10 then "" else ShowNat(n / 10)) + [('0' as int + n % 10) as char]
  }

  function ReadNat(s: string): int {
    if s == "" then 0 else 10 * ReadNat(s[..|s| - 1]) + (s[|s| - 1] as int - '0' as int)
  }

  lemma {:induction false} ReadShow(n: nat)
    ensures ReadNat(ShowNat(n)) == n
  {
    if n >= 10 {
      ReadShow(n / 10);
      assert ShowNat(n)[..|ShowNat(n)| - 1] == ShowNat(n / 10);
    }
  }

  /** Identifiers with the same text are the same, and none has the text of a null. */
  lemma ShowNatInjective(m: nat, n: nat)
    ensures ShowNat(m) == ShowNat(n) ==> m == n
    ensures ShowNat(m) != "None"
  {
    ReadShow(m);
    ReadShow(n);
    var s := ShowNat(m);
    assert s[0] != 'N';
  }

  /** No database text holds a zero character, and a query with one is refused. */
  predicate Clean(s: string) {
    '\0' !in s
  }

  /** A text that a column of `limit` characters takes. */
  predicate Storable(s: string, limit: nat) {
    |s| <= limit && Clean(s)
  }

  /** The characters that `str.strip()` removes. */
  predicate IsSpace(c: char) {
    '\t' <= c <= '\r' || '\U{1c}' <= c <= ' ' || c == '\U{85}' || c == '\U{a0}' || c == '\U{1680}' ||
    '\U{2000}' <= c <= '\U{200a}' || c == '\U{2028}' || c == '\U{2029}' || c == '\U{202f}' ||
    c == '\U{205f}' || c == '\U{3000}'
  }

  function StripLeft(s: string): (r: string)
    ensures r == "" || !IsSpace(r[0])
  {
    if s != "" && IsSpace(s[0]) then StripLeft(s[1..]) else s
  }

  function StripRight(s: string): (r: string)
    ensures r == "" || !IsSpace(r[|r| - 1])
    ensures r <= s
  {
    if s != "" && IsSpace(s[|s| - 1]) then StripRight(s[..|s| - 1]) else s
  }

  /** `s.strip()`. */
  function Strip(s: string): (r: string)
    ensures r == "" || (!IsSpace(r[0]) && !IsSpace(r[|r| - 1]))
  {
    StripRight(StripLeft(s))
  }

  /** The ASCII letters, and the one other character whose lower case is an ASCII letter or digit
      by itself (U+212A, the Kelvin sign). Every other character is left as it is. */
  function LowerChar(c: char): char {
    if 'A' <= c <= 'Z' then (c as int + 32) as char
    else if c == '\U{212a}' then 'k'
    else c
  }

  /** `s.lower()`. */
  function Lower(s: string): (r: string)
    ensures |r| == |s| && forall i | 0 <= i < |s| :: r[i] == LowerChar(s[i])
  {
    seq(|s|, i requires 0 <= i < |s| => LowerChar(s[i]))
  }

  // ---- What trimming and lower-casing give -----------------------------------------------

  predicate Blank(s: string) {
    forall i | 0 <= i < |s| :: IsSpace(s[i])
  }

  /** A text with no space at either end. */
  predicate Trimmed(s: string) {
    s != "" && !IsSpace(s[0]) && !IsSpace(s[|s| - 1])
  }

  lemma {:induction false} StripLeftPadded(pre: string, s: string)
    requires Blank(pre) && (s == "" || !IsSpace(s[0]))
    ensures StripLeft(pre + s) == s
  {
    if pre == "" {
      assert pre + s == s;
    } else {
      assert (pre + s)[1..] == pre[1..] + s;
      StripLeftPadded(pre[1..], s);
    }
  }

  lemma {:induction false} StripRightPadded(s: string, post: string)
    requires Blank(post) && (s == "" || !IsSpace(s[|s| - 1]))
    ensures StripRight(s + post) == s
  {
    if post == "" {
      assert s + post == s;
    } else {
      assert (s + post)[..|s + post| - 1] == s + post[..|post| - 1];
      StripRightPadded(s, post[..|post| - 1]);
    }
  }

  /** Trimming removes the spaces around a text and nothing else. */
  lemma StripPadded(pre: string, w: string, post: string)
    requires Blank(pre) && Trimmed(w) && Blank(post)
    ensures Strip(pre + w + post) == w
  {
    assert pre + w + post == pre + (w + post);
    StripLeftPadded(pre, w + post);
    StripRightPadded(w, post);
  }

  lemma StripBlank(s: string)
    requires Blank(s)
    ensures Strip(s) == ""
  {
    assert s == s + "";
    StripLeftPadded(s, "");
  }

  /** `t` is `s` with A to Z, and the Kelvin sign, in lower case. */
  predicate LowerOf(s: string, t: string) {
    |t| == |s| && forall i | 0 <= i < |s| ::
      t[i] == if 'A' <= s[i] <= 'Z' then (s[i] as int + 32) as char else if s[i] == '\U{212a}' then 'k' else s[i]
  }
}
