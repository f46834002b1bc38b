/** `Utils.getInitials`: the placeholder text shown in place of a missing avatar. */
module Initials {
  import opened Text

  /** String.prototype.charAt(0): the prefix of `s` of length one, or "" for "". */
  function FirstChar(s: string): (r: string)
    ensures r <= s
    ensures |r| <= 1
    ensures |r| == 1 <==> s != []
  {
    if s == [] then "" else [s[0]]
  }

  /** Utils.getInitials: "?" for an empty name, otherwise one or two
      upper-cased characters (see `InitialsSpec`). */
  function GetInitials(name: string): (r: string)
    ensures name == [] ==> r == "?"
    ensures name != [] ==> |r| <= 2
  {
    if name == [] then "?" else Pick(SplitWhitespace(Trim(name)), name)
  }

  /** The branch on the number of pieces of the trimmed name. */
  function Pick(parts: seq<string>, name: string): (r: string)
    requires name != []
    ensures |r| <= 2
    ensures |parts| <= 1 ==> |r| == 1
  {
    if |parts| > 1 then ToUpper(FirstChar(parts[0]) + FirstChar(parts[1]))
    else ToUpper(FirstChar(name))
  }

  /** What the initials are. When the trimmed name has at least two
      whitespace-separated tokens: the upper-cased first characters of the first
      two tokens. Otherwise: the upper-cased first character of the name as
      given, untrimmed. */
  lemma InitialsSpec(name: string)
    requires name != []
    ensures var words := Words(Trim(name));
      |words| >= 2 ==> GetInitials(name) == [UpperChar(words[0][0]), UpperChar(words[1][0])]
    ensures |Words(Trim(name))| < 2 ==> GetInitials(name) == [UpperChar(name[0])]
  {
    var trimmed := Trim(name);
    TokensAreWords(trimmed);
    var words := Words(trimmed);
    assert GetInitials(name) == Pick(words, name);
    if |words| >= 2 {
      TwoTokens(words, name);
    } else {
      OneToken(words, name);
    }
  }

  lemma TwoTokens(words: seq<string>, name: string)
    requires name != [] && |words| >= 2 && words[0] != [] && words[1] != []
    ensures Pick(words, name) == [UpperChar(words[0][0]), UpperChar(words[1][0])]
  {
    assert FirstChar(words[0]) + FirstChar(words[1]) == [words[0][0], words[1][0]];
    assert ToUpper([words[0][0], words[1][0]]) == [UpperChar(words[0][0]), UpperChar(words[1][0])];
  }

  lemma OneToken(words: seq<string>, name: string)
    requires name != [] && |words| < 2
    ensures Pick(words, name) == [UpperChar(name[0])]
  {
    assert FirstChar(name) == [name[0]];
    assert ToUpper([name[0]]) == [UpperChar(name[0])];
  }

  /** `split(/\s+/)` on the trimmed name: a single empty piece for a blank
      name, the tokens otherwise. */
  lemma TokensAreWords(trimmed: string)
    requires IsTrimmed(trimmed)
    ensures trimmed == [] ==> SplitWhitespace(trimmed) == [""] && Words(trimmed) == []
    ensures trimmed != [] ==> SplitWhitespace(trimmed) == Words(trimmed)
  {
    if trimmed != [] {
      SplitWhitespaceWords(trimmed);
    }
  }

  predicate IsWord(w: string) {
    w != [] && forall i :: 0 <= i < |w| ==> !IsSpace(w[i])
  }

  lemma {:induction false} TakeWholeWord(w: string, rest: string)
    requires forall i :: 0 <= i < |w| ==> !IsSpace(w[i])
    requires rest == [] || IsSpace(rest[0])
    ensures TakeWord(w + rest) == w
    decreases |w|
  {
    if w == [] {
      assert w + rest == rest;
    } else {
      var s := w + rest;
      assert s[0] == w[0] && s[1..] == w[1..] + rest;
      assert forall i :: 0 <= i < |w[1..]| ==> !IsSpace(w[1..][i]) by {
        forall i | 0 <= i < |w[1..]|
          ensures !IsSpace(w[1..][i])
        {
          assert w[1..][i] == w[i + 1];
        }
      }
      TakeWholeWord(w[1..], rest);
      assert TakeWord(s) == [w[0]] + TakeWord(s[1..]);
      assert [w[0]] + w[1..] == w;
    }
  }

  lemma WordsOfWord(w: string)
    requires IsWord(w)
    ensures Trim(w) == w && Words(w) == [w]
  {
    TakeWholeWord(w, []);
    assert w + [] == w;
    assert TrimStart(w) == w;
    assert w[|w|..] == [];
  }

  /** The single-token branch reads the untrimmed name, so a leading space is
      what shows up as the initial. */
  lemma LeadingSpaceInitial(name: string)
    requires |name| >= 2 && name[0] == ' ' && IsWord(name[1..])
    ensures GetInitials(name) == " "
  {
    OneWordAfterSpace(name);
    InitialsSpec(name);
    assert GetInitials(name) == [UpperChar(' ')];
  }

  lemma OneWordAfterSpace(name: string)
    requires |name| >= 2 && IsSpace(name[0]) && IsWord(name[1..])
    ensures Words(Trim(name)) == [name[1..]]
  {
    TrimDropsSpace(name);
    WordsOfWord(name[1..]);
  }

  lemma SpaceThenWord(b: string)
    requires IsWord(b)
    ensures Words([' '] + b) == [b]
  {
    assert ([' '] + b)[1..] == b;
    TrimDropsSpace([' '] + b);
    WordsOfWord(b);
  }

  lemma TwoTrimmed(a: string, b: string)
    requires IsWord(a) && IsWord(b)
    ensures IsTrimmed(a + ([' '] + b))
  {
    var name := a + ([' '] + b);
    assert name[0] == a[0] && name[|name| - 1] == b[|b| - 1];
  }

  lemma WordsOfTwo(a: string, b: string)
    requires IsWord(a) && IsWord(b)
    ensures Words(a + ([' '] + b)) == [a, b]
  {
    var name := a + ([' '] + b);
    TakeWholeWord(a, [' '] + b);
    assert name[|a|..] == [' '] + b;
    assert TrimStart(name) == name;
    SpaceThenWord(b);
  }

  /** Two space-separated words give their upper-cased first characters. */
  lemma TwoWordInitials(a: string, b: string)
    requires IsWord(a) && IsWord(b)
    ensures GetInitials(a + [' '] + b) == [UpperChar(a[0]), UpperChar(b[0])]
  {
    TwoWordsOfName(a, b);
    InitialsSpec(a + [' '] + b);
  }

  lemma TwoWordsOfName(a: string, b: string)
    requires IsWord(a) && IsWord(b)
    ensures Words(Trim(a + [' '] + b)) == [a, b]
  {
    var name := a + ([' '] + b);
    assert a + [' '] + b == name;
    TwoTrimmed(a, b);
    assert Trim(name) == name;
    WordsOfTwo(a, b);
  }
}
