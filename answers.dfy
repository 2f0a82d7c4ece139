/** How `test` and `play` judge a reply: both lower-case and trim the reply and
    the stored answer, and the reply is right when the two results are equal.
    `toLowerCase` is modelled on the ASCII letters; `trim` removes exactly the
    characters ECMAScript classes as WhiteSpace or LineTerminator. */
module Answers {

  /** The characters `String.prototype.trim` strips: tab, line feed, vertical
      tab, form feed, carriage return, space, no-break space, the other Unicode
      space separators, line and paragraph separators and the byte order mark. */
  predicate IsBlank(c: char) {
    var n := c as int;
    n == 0x09 || n == 0x0A || n == 0x0B || n == 0x0C || n == 0x0D || n == 0x20
    || n == 0xA0 || n == 0x1680 || (0x2000 <= n <= 0x200A) || n == 0x2028
    || n == 0x2029 || n == 0x202F || n == 0x205F || n == 0x3000 || n == 0xFEFF
  }

  /** Every character of `s` at a position in [lo, hi) is a blank. */
  predicate BlankIn(s: string, lo: int, hi: int)
    requires 0 <= lo <= hi <= |s|
  {
    forall i :: lo <= i < hi ==> IsBlank(s[i])
  }

  predicate AllBlank(s: string) {
    BlankIn(s, 0, |s|)
  }

  predicate IsUpper(c: char) {
    'A' <= c <= 'Z'
  }

  /** `toLowerCase` on one character. */
  function LowerChar(c: char): (d: char)
    ensures !IsUpper(d)
    ensures IsBlank(d) <==> IsBlank(c)
    ensures d != c ==> IsUpper(c) && d as int == c as int + 32
  {
    if IsUpper(c) then (c as int + 32) as char else c
  }

  /** `s.toLowerCase()`: every character lowered, in place. */
  function ToLower(s: string): (r: string)
    ensures |r| == |s|
    ensures forall i :: 0 <= i < |s| ==> r[i] == LowerChar(s[i])
    ensures forall i :: 0 <= i < |r| ==> !IsUpper(r[i]) && (IsBlank(r[i]) <==> IsBlank(s[i]))
  {
    seq(|s|, i requires 0 <= i < |s| => LowerChar(s[i]))
  }

  /** How many blanks `s` starts with. */
  function LeadingBlanks(s: string): (k: nat)
    ensures k <= |s|
  {
    if s != [] && IsBlank(s[0]) then 1 + LeadingBlanks(s[1..]) else 0
  }

  /** The leading blanks are blanks, and the character after them is not. */
  lemma {:induction false} LeadingBlanksFacts(s: string)
    ensures BlankIn(s, 0, LeadingBlanks(s))
    ensures LeadingBlanks(s) == |s| || !IsBlank(s[LeadingBlanks(s)])
  {
    if s != [] && IsBlank(s[0]) {
      LeadingBlanksFacts(s[1..]);
      assert forall i :: 1 <= i < |s| ==> s[i] == s[1..][i - 1];
    }
  }

  /** How many blanks `s` ends with. */
  function TrailingBlanks(s: string): (k: nat)
    ensures k <= |s|
  {
    if s != [] && IsBlank(s[|s| - 1]) then 1 + TrailingBlanks(s[..|s| - 1]) else 0
  }

  /** The trailing blanks are blanks, and the character before them is not. */
  lemma {:induction false} TrailingBlanksFacts(s: string)
    ensures BlankIn(s, |s| - TrailingBlanks(s), |s|)
    ensures TrailingBlanks(s) == |s| || !IsBlank(s[|s| - 1 - TrailingBlanks(s)])
  {
    if s != [] && IsBlank(s[|s| - 1]) {
      TrailingBlanksFacts(s[..|s| - 1]);
      assert forall i :: 0 <= i < |s| - 1 ==> s[i] == s[..|s| - 1][i];
    }
  }

  /** `s.trim()`: `s` without its leading and trailing blanks. */
  function Trim(s: string): (r: string)
    ensures |r| <= |s|
  {
    LeadingBlanksFacts(s);
    TrailingBlanksFacts(s);
    var k := LeadingBlanks(s);
    if k == |s| then [] else s[k..|s| - TrailingBlanks(s)]
  }

  /** The independent description of `trim`: whatever stands between an
      all-blank prefix and an all-blank suffix, and neither starts nor ends
      with a blank, is what `trim` returns. */
  lemma TrimIsUnique(s: string, k: int, j: int)
    requires 0 <= k <= j <= |s| && BlankIn(s, 0, k) && BlankIn(s, j, |s|)
    requires k == j || (!IsBlank(s[k]) && !IsBlank(s[j - 1]))
    ensures Trim(s) == s[k..j]
  {
    LeadingBlanksFacts(s);
    TrailingBlanksFacts(s);
    if k == j {
      assert AllBlank(s);
    }
  }

  /** Where `trim` cuts `s`. */
  lemma TrimBounds(s: string) returns (k: int, j: int)
    ensures 0 <= k <= j <= |s| && Trim(s) == s[k..j]
    ensures BlankIn(s, 0, k) && BlankIn(s, j, |s|)
    ensures k == j || (!IsBlank(s[k]) && !IsBlank(s[j - 1]))
  {
    LeadingBlanksFacts(s);
    TrailingBlanksFacts(s);
    k := LeadingBlanks(s);
    j := if k == |s| then k else |s| - TrailingBlanks(s);
  }

  /** What `trim` returns is a piece of `s` that is empty exactly when `s` is
      all blanks, and otherwise neither starts nor ends with a blank. */
  lemma TrimFacts(s: string)
    ensures |Trim(s)| <= |s|
    ensures Trim(s) == [] <==> AllBlank(s)
    ensures Trim(s) == [] || (!IsBlank(Trim(s)[0]) && !IsBlank(Trim(s)[|Trim(s)| - 1]))
  {
    var k, j := TrimBounds(s);
    if k < j {
      assert !IsBlank(s[k]);
    }
  }

  /** Blanks around a string do not change what `trim` returns. */
  lemma TrimIgnoresPadding(pre: string, s: string, post: string)
    requires AllBlank(pre) && AllBlank(post)
    ensures Trim(pre + s + post) == Trim(s)
  {
    var k, j := TrimBounds(s);
    var p := pre + s + post;
    var o := |pre|;
    assert p[o + k..o + j] == s[k..j];
    assert BlankIn(p, 0, o + k) by {
      forall i | 0 <= i < o + k ensures IsBlank(p[i]) {
        if i < o { assert p[i] == pre[i]; } else { assert p[i] == s[i - o]; }
      }
    }
    assert BlankIn(p, o + j, |p|) by {
      forall i | o + j <= i < |p| ensures IsBlank(p[i]) {
        if i < o + |s| { assert p[i] == s[i - o]; } else { assert p[i] == post[i - o - |s|]; }
      }
    }
    TrimIsUnique(p, o + k, o + j);
  }

  lemma LowerSlice(s: string, k: int, j: int)
    requires 0 <= k <= j <= |s|
    ensures ToLower(s)[k..j] == ToLower(s[k..j])
  {
  }

  /** Lowering and trimming commute, because lowering never turns a blank into
      a non-blank or back. */
  lemma TrimToLower(s: string)
    ensures Trim(ToLower(s)) == ToLower(Trim(s))
  {
    var k, j := TrimBounds(s);
    var l := ToLower(s);
    assert BlankIn(l, 0, k) && BlankIn(l, j, |l|) by {
      forall i | 0 <= i < |s| && IsBlank(s[i]) ensures IsBlank(l[i]) {
        assert l[i] == LowerChar(s[i]);
      }
    }
    TrimIsUnique(l, k, j);
    LowerSlice(s, k, j);
  }

  /** The normal form both sides are brought to: `x.toLowerCase().trim()`. */
  function Normalize(s: string): (r: string)
    ensures |r| <= |s|
    ensures forall i :: 0 <= i < |r| ==> !IsUpper(r[i])
  {
    TrimToLower(s);
    Trim(ToLower(s))
  }

  /** The normal form is the trimmed string with its letters lowered; it is
      empty exactly when the string is all blanks, and holds no upper-case
      letter. */
  lemma NormalizeFacts(s: string)
    ensures Normalize(s) == ToLower(Trim(s))
    ensures Normalize(s) == [] <==> AllBlank(s)
    ensures forall i :: 0 <= i < |Normalize(s)| ==> !IsUpper(Normalize(s)[i])
  {
    TrimToLower(s);
    TrimFacts(s);
  }

  /** The right-answer test of `test` and `play`. */
  predicate Matches(reply: string, stored: string)
    ensures Matches(reply, stored) ==> (AllBlank(reply) <==> AllBlank(stored))
  {
    NormalizeFacts(reply);
    NormalizeFacts(stored);
    Normalize(reply) == Normalize(stored)
  }

  /** Two strings that differ at most in the case of ASCII letters. */
  predicate EqualIgnoringCase(x: string, y: string) {
    |x| == |y| && forall i :: 0 <= i < |x| ==> LowerChar(x[i]) == LowerChar(y[i])
  }

  /** A reference definition of the verdict: the reply is right exactly when,
      with the surrounding blanks removed, it equals the stored answer up to
      the case of its letters. */
  lemma MatchesIffEqualIgnoringCase(reply: string, stored: string)
    ensures Matches(reply, stored) <==> EqualIgnoringCase(Trim(reply), Trim(stored))
  {
    NormalizeFacts(reply);
    NormalizeFacts(stored);
    var x, y := Trim(reply), Trim(stored);
    if EqualIgnoringCase(x, y) {
      assert ToLower(x) == ToLower(y);
    }
    if Matches(reply, stored) {
      assert ToLower(x) == ToLower(y);
      forall i | 0 <= i < |x| ensures LowerChar(x[i]) == LowerChar(y[i]) {
        assert ToLower(x)[i] == ToLower(y)[i];
      }
    }
  }

  /** Changing the case of letters in the reply never changes the verdict. */
  lemma MatchesIgnoresCase(reply: string, reply': string, stored: string)
    requires EqualIgnoringCase(reply, reply')
    ensures Matches(reply, stored) <==> Matches(reply', stored)
  {
    assert ToLower(reply) == ToLower(reply');
  }

  /** Blanks before or after the reply never change the verdict. */
  lemma MatchesIgnoresPadding(pre: string, reply: string, post: string, stored: string)
    requires AllBlank(pre) && AllBlank(post)
    ensures Matches(pre + reply + post, stored) <==> Matches(reply, stored)
  {
    TrimIgnoresPadding(pre, reply, post);
    NormalizeFacts(pre + reply + post);
    NormalizeFacts(reply);
  }

  /** The verdict is an equivalence between replies and answers. */
  lemma MatchesIsEquivalence(a: string, b: string, c: string)
    ensures Matches(a, a)
    ensures Matches(a, b) ==> Matches(b, a)
    ensures Matches(a, b) && Matches(b, c) ==> Matches(a, c)
  {
  }

  /** " Paris " is a right reply to the answer "paris". */
  lemma RightReplyExample()
    ensures Matches(" Paris ", "paris")
  {
    TrimIsUnique(" Paris ", 1, 6);
    TrimIsUnique("paris", 0, 5);
    assert " Paris "[1..6] == "Paris" && "paris"[0..5] == "paris";
    assert EqualIgnoringCase("Paris", "paris") by {
      assert LowerChar('P') == 'p';
    }
    MatchesIffEqualIgnoringCase(" Paris ", "paris");
  }

  /** "Pari s" is a wrong reply to the answer "paris": blanks inside the reply
      count. */
  lemma WrongReplyExample()
    ensures !Matches("Pari s", "paris")
  {
    TrimIsUnique("Pari s", 0, 6);
    TrimIsUnique("paris", 0, 5);
    MatchesIffEqualIgnoringCase("Pari s", "paris");
  }
}
