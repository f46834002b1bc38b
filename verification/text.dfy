/** String helpers standing in for the JavaScript built-ins the app relies on:
    `trim`, `split(',')`, `split(/\s+/)`, `join`, `includes`, `toLowerCase` and
    `toUpperCase`. Whitespace and letter case are modelled on ASCII only. */
module Text {

  /** JavaScript whitespace restricted to ASCII: space, tab, LF, VT, FF and CR. */
  predicate IsSpace(c: char) {
    c == ' ' || '\t' <= c <= '\r'
  }

  predicate AllSpace(s: string) {
    forall i :: 0 <= i < |s| ==> IsSpace(s[i])
  }

  /** No leading and no trailing whitespace. */
  predicate IsTrimmed(s: string) {
    s == [] || (!IsSpace(s[0]) && !IsSpace(s[|s| - 1]))
  }

  /** Drops the leading whitespace run: what is left is a suffix of `s`
      that is empty or starts with a non-whitespace character. */
  function TrimStart(s: string): (r: string)
    ensures |r| <= |s| && r == s[|s| - |r|..]
    ensures forall i :: 0 <= i < |s| - |r| ==> IsSpace(s[i])
    ensures r == [] || !IsSpace(r[0])
  {
    if s != [] && IsSpace(s[0]) then TrimStart(s[1..]) else s
  }

  /** Drops the trailing whitespace run: what is left is a prefix of `s`
      that is empty or ends with a non-whitespace character. */
  function TrimEnd(s: string): (r: string)
    ensures |r| <= |s| && r == s[..|r|]
    ensures forall i :: |r| <= i < |s| ==> IsSpace(s[i])
    ensures r == [] || !IsSpace(r[|r| - 1])
  {
    if s != [] && IsSpace(s[|s| - 1]) then TrimEnd(s[..|s| - 1]) else s
  }

  /** A leading whitespace character does not change the trimmed text. */
  lemma TrimDropsSpace(s: string)
    requires s != [] && IsSpace(s[0])
    ensures TrimStart(s) == TrimStart(s[1..])
    ensures Trim(s) == Trim(s[1..])
  {
  }

  /** String.prototype.trim: the middle of `s` left once its leading and its
      trailing whitespace runs are cut off. */
  function Trim(s: string): (r: string)
    ensures IsTrimmed(r)
    ensures exists i, j :: 0 <= i <= j <= |s| && r == s[i..j] && AllSpace(s[..i]) && AllSpace(s[j..])
    ensures r == [] <==> AllSpace(s)
    ensures IsTrimmed(s) ==> r == s
    ensures forall c :: c in r ==> c in s
  {
    TrimFacts(s);
    TrimMiddle(s);
    TrimEnd(TrimStart(s))
  }

  lemma TrimMiddle(s: string)
    ensures var r := TrimEnd(TrimStart(s));
      exists i, j :: 0 <= i <= j <= |s| && r == s[i..j] && AllSpace(s[..i]) && AllSpace(s[j..])
  {
    var front := TrimStart(s);
    MiddleOf(s, front, TrimEnd(front));
  }

  /** Cutting a whitespace prefix and then a whitespace suffix leaves a middle slice. */
  lemma MiddleOf(s: string, front: string, r: string)
    requires |front| <= |s| && front == s[|s| - |front|..]
    requires forall m :: 0 <= m < |s| - |front| ==> IsSpace(s[m])
    requires |r| <= |front| && r == front[..|r|]
    requires forall m :: |r| <= m < |front| ==> IsSpace(front[m])
    ensures exists i, j :: 0 <= i <= j <= |s| && r == s[i..j] && AllSpace(s[..i]) && AllSpace(s[j..])
  {
    var i := |s| - |front|;
    var j := i + |r|;
    assert r == s[i..j];
    assert AllSpace(s[..i]) by {
      forall m | 0 <= m < i
        ensures IsSpace(s[..i][m])
      {
        assert s[..i][m] == s[m];
      }
    }
    assert AllSpace(s[j..]) by {
      forall m | 0 <= m < |s| - j
        ensures IsSpace(s[j..][m])
      {
        assert s[j..][m] == front[|r| + m];
      }
    }
  }

  lemma TrimFacts(s: string)
    ensures var r := TrimEnd(TrimStart(s));
      && (r == [] <==> AllSpace(s))
      && (forall c :: c in r ==> c in s)
  {
    TrimEmpty(s);
    TrimChars(s);
  }

  lemma TrimEmpty(s: string)
    ensures TrimEnd(TrimStart(s)) == [] <==> AllSpace(s)
  {
    var front := TrimStart(s);
    assert front != [] ==> front[0] == s[|s| - |front|];
    assert TrimEnd(front) == [] ==> front == [] by {
      assert front != [] ==> !IsSpace(front[0]);
    }
  }

  lemma TrimChars(s: string)
    ensures forall c :: c in TrimEnd(TrimStart(s)) ==> c in s
  {
    var front := TrimStart(s);
    InPrefix(front, |TrimEnd(front)|);
    InSuffix(s, |s| - |front|);
  }

  lemma InPrefix(s: string, n: nat)
    requires n <= |s|
    ensures forall c :: c in s[..n] ==> c in s
  {
    forall c | c in s[..n]
      ensures c in s
    {
      var i :| 0 <= i < n && s[..n][i] == c;
      assert s[i] == c;
    }
  }

  lemma InSuffix(s: string, n: nat)
    requires n <= |s|
    ensures forall c :: c in s[n..] ==> c in s
  {
    forall c | c in s[n..]
      ensures c in s
    {
      var i :| 0 <= i < |s| - n && s[n..][i] == c;
      assert s[n + i] == c;
    }
  }

  function LowerChar(c: char): char {
    if 'A' <= c <= 'Z' then (c as int + 32) as char else c
  }

  function UpperChar(c: char): char {
    if 'a' <= c <= 'z' then (c as int - 32) as char else c
  }

  /** String.prototype.toLowerCase on ASCII letters: no upper-case letter is
      left, and every character that was not one is kept where it was. */
  function ToLower(s: string): (r: string)
    ensures |r| == |s|
    ensures forall i :: 0 <= i < |s| ==> r[i] == LowerChar(s[i])
    ensures forall i :: 0 <= i < |r| ==> !('A' <= r[i] <= 'Z')
    ensures forall i :: 0 <= i < |s| && !('A' <= s[i] <= 'Z') ==> r[i] == s[i]
  {
    seq(|s|, i requires 0 <= i < |s| => LowerChar(s[i]))
  }

  /** String.prototype.toUpperCase on ASCII letters: no lower-case letter is
      left, and every character that was not one is kept where it was. */
  function ToUpper(s: string): (r: string)
    ensures |r| == |s|
    ensures forall i :: 0 <= i < |s| ==> r[i] == UpperChar(s[i])
    ensures forall i :: 0 <= i < |r| ==> !('a' <= r[i] <= 'z')
    ensures forall i :: 0 <= i < |s| && !('a' <= s[i] <= 'z') ==> r[i] == s[i]
  {
    seq(|s|, i requires 0 <= i < |s| => UpperChar(s[i]))
  }

  /** Lower-casing twice is lower-casing once. */
  lemma ToLowerIdempotent(s: string)
    ensures ToLower(ToLower(s)) == ToLower(s)
  {
    var t := ToLower(s);
    assert forall i :: 0 <= i < |t| ==> ToLower(t)[i] == t[i];
  }

  /** Lower-casing forgets letter case: the upper-cased text lower-cases to
      the same text as the original. */
  lemma ToLowerForgetsCase(s: string)
    ensures ToLower(ToUpper(s)) == ToLower(s)
  {
    var u := ToUpper(s);
    forall i | 0 <= i < |s|
      ensures ToLower(u)[i] == ToLower(s)[i]
    {
      assert u[i] == UpperChar(s[i]);
    }
  }

  /** String.prototype.includes: `q` occurs in `s` (the empty string occurs everywhere). */
  predicate Contains(s: string, q: string) {
    q <= s || (s != [] && Contains(s[1..], q))
  }

  /** `Contains` agrees with the positional definition of "is a substring of". */
  lemma {:induction false} ContainsAt(s: string, q: string)
    ensures Contains(s, q) <==> exists k :: 0 <= k <= |s| && q <= s[k..]
  {
    if s == [] {
      if Contains(s, q) {
        assert q <= s[0..];
      }
    } else {
      ContainsAt(s[1..], q);
      if Contains(s, q) {
        if !(q <= s) {
          var k :| 0 <= k <= |s[1..]| && q <= s[1..][k..];
          assert s[1..][k..] == s[k + 1..];
        } else {
          assert q <= s[0..];
        }
      }
      if exists k :: 0 <= k <= |s| && q <= s[k..] {
        var k :| 0 <= k <= |s| && q <= s[k..];
        if k > 0 {
          assert s[1..][k - 1..] == s[k..];
        } else {
          assert s[0..] == s;
        }
      }
    }
  }

  /** String.prototype.split with a one-character separator: the pieces between
      separators, always at least one, none containing the separator. */
  function Split(s: string, sep: char): (r: seq<string>)
    ensures |r| >= 1
    ensures forall i :: 0 <= i < |r| ==> sep !in r[i]
  {
    if s == [] then [""]
    else
      var rest := Split(s[1..], sep);
      if s[0] == sep then [""] + rest else [[s[0]] + rest[0]] + rest[1..]
  }

  /** Array.prototype.join: the first piece leads, and every character comes
      from a piece or from the separator. */
  function Join(parts: seq<string>, sep: string): (r: string)
    ensures parts != [] ==> parts[0] <= r
    ensures forall c :: c in r ==> c in sep || exists i :: 0 <= i < |parts| && c in parts[i]
  {
    if parts == [] then ""
    else if |parts| == 1 then parts[0]
    else parts[0] + sep + Join(parts[1..], sep)
  }

  /** Joining the pieces with the separator gives back the original string. */
  lemma {:induction false} JoinSplit(s: string, sep: char)
    ensures Join(Split(s, sep), [sep]) == s
  {
    if s != [] {
      var rest := Split(s[1..], sep);
      JoinSplit(s[1..], sep);
      if s[0] == sep {
        assert Join([""] + rest, [sep]) == "" + [sep] + Join(rest, [sep]);
      } else if |rest| == 1 {
        assert Join([[s[0]] + rest[0]] + rest[1..], [sep]) == [s[0]] + rest[0];
      } else {
        var parts := [[s[0]] + rest[0]] + rest[1..];
        assert parts[1..] == rest[1..];
        assert Join(parts, [sep]) == [s[0]] + rest[0] + [sep] + Join(rest[1..], [sep]);
      }
    }
  }

  /** A string without the separator is one piece. */
  lemma {:induction false} SplitNoSep(s: string, sep: char)
    requires sep !in s
    ensures Split(s, sep) == [s]
  {
    if s != [] {
      SplitNoSep(s[1..], sep);
      assert [s[0]] + s[1..] == s;
    }
  }

  /** Splitting at a separator occurrence splits the pieces there. */
  lemma {:induction false} SplitConcat(a: string, sep: char, b: string)
    ensures Split(a + [sep] + b, sep) == Split(a, sep) + Split(b, sep)
  {
    if a == [] {
      assert a + [sep] + b == [sep] + b;
      assert ([sep] + b)[1..] == b;
    } else {
      var s := a + [sep] + b;
      assert s[1..] == a[1..] + [sep] + b;
      assert s[0] == a[0];
      SplitConcat(a[1..], sep, b);
      if a[0] == sep {
        SplitAtSep(s, a, sep, Split(b, sep));
      } else {
        SplitAtOther(s, a, sep, Split(b, sep));
      }
    }
  }

  lemma SplitAtSep(s: string, a: string, sep: char, tail: seq<string>)
    requires s != [] && a != [] && s[0] == a[0] == sep
    requires Split(s[1..], sep) == Split(a[1..], sep) + tail
    ensures Split(s, sep) == Split(a, sep) + tail
  {
    assert Split(s, sep) == [""] + Split(s[1..], sep);
    assert Split(a, sep) == [""] + Split(a[1..], sep);
  }

  lemma SplitAtOther(s: string, a: string, sep: char, tail: seq<string>)
    requires s != [] && a != [] && s[0] == a[0] != sep
    requires Split(s[1..], sep) == Split(a[1..], sep) + tail
    ensures Split(s, sep) == Split(a, sep) + tail
  {
    var head := Split(a[1..], sep);
    assert Split(s, sep) == [[a[0]] + (head + tail)[0]] + (head + tail)[1..];
    assert Split(a, sep) == [[a[0]] + head[0]] + head[1..];
    GlueFirst([a[0]], head, tail);
  }

  /** Extending the first piece commutes with appending more pieces. */
  lemma GlueFirst(x: string, head: seq<string>, tail: seq<string>)
    requires head != []
    ensures [x + (head + tail)[0]] + (head + tail)[1..] == ([x + head[0]] + head[1..]) + tail
  {
    assert (head + tail)[1..] == head[1..] + tail;
  }

  /** The maximal leading run of non-whitespace characters. */
  function TakeWord(s: string): (w: string)
    ensures |w| <= |s| && w == s[..|w|]
    ensures forall i :: 0 <= i < |w| ==> !IsSpace(w[i])
    ensures |w| == |s| || IsSpace(s[|w|])
  {
    if s == [] || IsSpace(s[0]) then [] else [s[0]] + TakeWord(s[1..])
  }

  /** String.prototype.split(/\s+/): the pieces between maximal whitespace runs,
      with an empty piece before a leading run and after a trailing run. */
  function SplitWhitespace(s: string): (r: seq<string>)
    ensures |r| >= 1
    decreases |s|
  {
    var w := TakeWord(s);
    var rest := s[|w|..];
    if rest == [] then [w]
    else
      var next := TrimStart(rest);
      assert next == TrimStart(rest[1..]);
      [w] + SplitWhitespace(next)
  }

  /** The whitespace-separated tokens of `s`: its maximal non-whitespace runs. */
  function Words(s: string): (r: seq<string>)
    ensures forall i :: 0 <= i < |r| ==> r[i] != []
    decreases |s|
  {
    var t := TrimStart(s);
    if t == [] then []
    else
      var w := TakeWord(t);
      assert w == [t[0]] + TakeWord(t[1..]);
      var rest := Words(t[|w|..]);
      assert forall i :: 0 < i < |[w] + rest| ==> ([w] + rest)[i] == rest[i - 1];
      [w] + rest
  }

  /** On a non-empty trimmed string, `split(/\s+/)` yields exactly the tokens. */
  lemma {:induction false} SplitWhitespaceWords(s: string)
    requires s != [] && IsTrimmed(s)
    ensures SplitWhitespace(s) == Words(s)
    decreases |s|
  {
    var w := TakeWord(s);
    var rest := s[|w|..];
    assert TrimStart(s) == s;
    if rest != [] {
      var next := TrimStart(rest);
      assert rest[|rest| - 1] == s[|s| - 1];
      assert next[|next| - 1] == s[|s| - 1];
      assert TrimStart(next) == next;
      SplitWhitespaceWords(next);
    }
  }
}
