/** `Utils.parseTags`: the comma-separated tag field of the person form turned
    into a tag list, and its round trip through the edit form, which shows the
    tags joined with ", ". */
module TagParse {
  import opened Text
  import Seqs

  /** What a parsed tag looks like: non-empty, trimmed, free of commas. */
  predicate IsTag(t: string) {
    t != [] && IsTrimmed(t) && ',' !in t
  }

  predicate NonEmpty(t: string) {
    t != []
  }

  function TrimEach(pieces: seq<string>): (r: seq<string>)
    ensures |r| == |pieces|
    ensures forall i :: 0 <= i < |r| ==> r[i] == Trim(pieces[i])
  {
    if pieces == [] then []
    else
      var rest := TrimEach(pieces[1..]);
      assert forall i :: 1 <= i < |pieces| ==> pieces[i] == pieces[1..][i - 1];
      [Trim(pieces[0])] + rest
  }

  /** `split(',').map(t => t.trim()).filter(t => t.length > 0)`. */
  function Pieces(s: string): seq<string> {
    Seqs.Filter(TrimEach(Split(s, ',')), NonEmpty)
  }

  lemma PiecesAreTags(s: string)
    ensures forall t :: t in Pieces(s) ==> IsTag(t)
  {
    var parts := Split(s, ',');
    var trimmed := TrimEach(parts);
    forall t | t in Pieces(s)
      ensures IsTag(t)
    {
      assert t in trimmed;
      var i :| 0 <= i < |trimmed| && trimmed[i] == t;
      assert ',' !in parts[i];
    }
  }

  /** Utils.parseTags: empty or blank input gives no tags; otherwise the
      trimmed, non-empty comma-separated pieces in input order, duplicates kept. */
  function ParseTags(s: string): (r: seq<string>)
    ensures AllSpace(s) ==> r == []
    ensures forall i :: 0 <= i < |r| ==> IsTag(r[i])
  {
    if s == [] || Trim(s) == [] then []
    else
      PiecesAreTags(s);
      assert forall i :: 0 <= i < |Pieces(s)| ==> Pieces(s)[i] in Pieces(s);
      Pieces(s)
  }

  /** The blank-input early return agrees with the general pipeline. */
  lemma GuardRedundant(s: string)
    ensures ParseTags(s) == Pieces(s)
  {
    if s == [] || Trim(s) == [] {
      assert ',' !in s by {
        assert !IsSpace(',');
      }
      SplitNoSep(s, ',');
      assert TrimEach([s]) == [Trim(s)];
    }
  }

  lemma {:induction false} TrimEachConcat(a: seq<string>, b: seq<string>)
    ensures TrimEach(a + b) == TrimEach(a) + TrimEach(b)
  {
    if a == [] {
      assert a + b == b;
    } else {
      assert (a + b)[1..] == a[1..] + b;
      TrimEachConcat(a[1..], b);
    }
  }

  /** Text on both sides of a comma is parsed independently, left part first:
      parsing keeps the input order and does not merge or drop duplicates. */
  lemma ParseTagsConcat(a: string, b: string)
    ensures ParseTags(a + [','] + b) == ParseTags(a) + ParseTags(b)
  {
    GuardRedundant(a + [','] + b);
    GuardRedundant(a);
    GuardRedundant(b);
    SplitConcat(a, ',', b);
    TrimEachConcat(Split(a, ','), Split(b, ','));
    Seqs.FilterConcat(TrimEach(Split(a, ',')), TrimEach(Split(b, ',')), NonEmpty);
  }

  /** A comma-free piece gives its trimmed text as one tag, or nothing if blank. */
  lemma ParseTagsPiece(p: string)
    requires ',' !in p
    ensures ParseTags(p) == if Trim(p) == [] then [] else [Trim(p)]
  {
    GuardRedundant(p);
    SplitNoSep(p, ',');
    assert TrimEach([p]) == [Trim(p)];
  }

  lemma SplitLeadingSpace(x: string)
    ensures var p := Split([' '] + x, ','); var q := Split(x, ',');
      && |p| == |q|
      && p[0] == [' '] + q[0]
      && forall i :: 1 <= i < |p| ==> p[i] == q[i]
  {
    assert ([' '] + x)[1..] == x;
  }

  /** A leading space is ignored. */
  lemma ParseTagsLeadingSpace(x: string)
    ensures ParseTags([' '] + x) == ParseTags(x)
  {
    TrimEachLeadingSpace(x);
    GuardRedundant([' '] + x);
    GuardRedundant(x);
  }

  lemma TrimEachLeadingSpace(x: string)
    ensures TrimEach(Split([' '] + x, ',')) == TrimEach(Split(x, ','))
  {
    SplitLeadingSpace(x);
    TrimEachSpaceFirst(Split([' '] + x, ','), Split(x, ','));
  }

  /** Piece lists that differ only by a space in front of the first piece
      trim to the same list. */
  lemma TrimEachSpaceFirst(p: seq<string>, q: seq<string>)
    requires |p| == |q| >= 1 && p[0] == [' '] + q[0]
    requires forall i :: 1 <= i < |p| ==> p[i] == q[i]
    ensures TrimEach(p) == TrimEach(q)
  {
    assert p[0][1..] == q[0];
    assert p[1..] == q[1..];
    TrimDropsSpace(p[0]);
  }

  lemma JoinCons(tags: seq<string>)
    requires |tags| > 1
    ensures Join(tags, ", ") == tags[0] + [','] + ([' '] + Join(tags[1..], ", "))
  {
    var rest := Join(tags[1..], ", ");
    assert Join(tags, ", ") == tags[0] + ", " + rest;
    assert ", " == [','] + [' '];
  }

  lemma ParseSingleTag(t: string)
    requires IsTag(t)
    ensures ParseTags(t) == [t]
  {
    ParseTagsPiece(t);
  }

  lemma ParseJoinStep(tags: seq<string>)
    requires |tags| > 1 && IsTag(tags[0])
    ensures ParseTags(Join(tags, ", ")) == [tags[0]] + ParseTags(Join(tags[1..], ", "))
  {
    var rest := Join(tags[1..], ", ");
    JoinCons(tags);
    ParseTagsConcat(tags[0], [' '] + rest);
    ParseSingleTag(tags[0]);
    ParseTagsLeadingSpace(rest);
  }

  /** Kept apart from `ParseTagsJoin`: proved there, this equation costs the
      solver far more than on its own. */
  lemma HeadTail(tags: seq<string>)
    requires tags != []
    ensures [tags[0]] + tags[1..] == tags
  {
  }

  /** Parsing a list of tags joined with ", " gives back that list. */
  lemma {:induction false} ParseTagsJoin(tags: seq<string>)
    requires forall i :: 0 <= i < |tags| ==> IsTag(tags[i])
    ensures ParseTags(Join(tags, ", ")) == tags
  {
    if |tags| == 0 {
      assert Join(tags, ", ") == "";
    } else if |tags| == 1 {
      assert Join(tags, ", ") == tags[0];
      ParseSingleTag(tags[0]);
    } else {
      var tail := tags[1..];
      assert forall i :: 0 <= i < |tail| ==> IsTag(tail[i]);
      ParseTagsJoin(tail);
      ParseJoinStep(tags);
      HeadTail(tags);
    }
  }

  /** Opening a person in the edit form fills the tag field with
      `tags.join(', ')`; saving it unchanged parses back the same tags. */
  lemma ReparseEditForm(s: string)
    ensures ParseTags(Join(ParseTags(s), ", ")) == ParseTags(s)
  {
    ParseTagsJoin(ParseTags(s));
  }

  /** The tag field "math, pioneer" gives the tags "math" and "pioneer". */
  lemma MathPioneer()
    ensures ParseTags("math, pioneer") == ["math", "pioneer"]
  {
    assert IsTag("math") by {
      assert !IsSpace('m') && !IsSpace('h');
    }
    assert IsTag("pioneer") by {
      assert !IsSpace('p') && !IsSpace('r');
    }
    var tags := ["math", "pioneer"];
    assert Join(tags[1..], ", ") == "pioneer";
    assert Join(tags, ", ") == "math" + ", " + "pioneer";
    assert "math" + ", " + "pioneer" == "math, pioneer";
    ParseTagsJoin(tags);
  }
}
