/** The data half of `UI.renderPeopleList`: an exact tag filter followed by a
    case-insensitive text search, both keeping list order. */
module Query {
  import opened People
  import opened Text
  import Seqs

  /** The tag filter's test, `p.tags.includes(tag)`: exact and case-sensitive. */
  function Tagged(tag: string): Person -> bool {
    (p: Person) => tag in p.tags
  }

  /** The filter tag counts as set when it is neither null nor "". */
  predicate TagActive(filterTag: Option<string>) {
    filterTag.Some? && filterTag.value != ""
  }

  /** Stage 1: with no active tag the whole list; otherwise exactly the people
      whose tags include the active tag, in list order. */
  function FilterByTag(people: seq<Person>, filterTag: Option<string>): (r: seq<Person>)
    ensures !TagActive(filterTag) ==> r == people
    ensures TagActive(filterTag) ==>
      forall p :: p in r <==> p in people && filterTag.value in p.tags
    ensures TagActive(filterTag) ==>
      forall p :: multiset(r)[p] == if filterTag.value in p.tags then multiset(people)[p] else 0
    ensures Seqs.IsSubseq(r, people)
  {
    if TagActive(filterTag) then
      Seqs.FilterIsSubseq(people, Tagged(filterTag.value));
      Seqs.FilterMultiset(people, Tagged(filterTag.value));
      Seqs.Filter(people, Tagged(filterTag.value))
    else
      Seqs.SubseqRefl(people);
      people
  }

  /** The search test for an already lower-cased query `q`: the lower-cased
      name, some lower-cased tag, or a non-empty lower-cased memo contains `q`. */
  predicate Matches(p: Person, q: string) {
    || Contains(ToLower(p.name), q)
    || (exists i :: 0 <= i < |p.tags| && Contains(ToLower(p.tags[i]), q))
    || (p.memo != "" && Contains(ToLower(p.memo), q))
  }

  function MatchesQuery(q: string): Person -> bool {
    (p: Person) => Matches(p, q)
  }

  /** Stage 2: an empty query shows the list whole. Any other query, including
      one made only of spaces, keeps exactly the people matching its lower-cased
      form, in list order. */
  function Search(people: seq<Person>, query: string): (r: seq<Person>)
    ensures query == "" ==> r == people
    ensures query != "" ==>
      forall p :: p in r <==> p in people && Matches(p, ToLower(query))
    ensures query != "" ==>
      forall p :: multiset(r)[p] == if Matches(p, ToLower(query)) then multiset(people)[p] else 0
    ensures Seqs.IsSubseq(r, people)
  {
    if query == "" then
      Seqs.SubseqRefl(people);
      people
    else
      Seqs.FilterIsSubseq(people, MatchesQuery(ToLower(query)));
      Seqs.FilterMultiset(people, MatchesQuery(ToLower(query)));
      Seqs.Filter(people, MatchesQuery(ToLower(query)))
  }

  /** The list the home screen shows: the tag filter, then the search. A
      person is on it exactly when they are in the list and pass both stages. */
  function Visible(people: seq<Person>, filterTag: Option<string>, query: string): (r: seq<Person>)
    ensures forall p :: p in r <==> p in people && Shown(filterTag, query, p)
  {
    Search(FilterByTag(people, filterTag), query)
  }

  /** Whether one person passes both stages. */
  predicate Shown(filterTag: Option<string>, query: string, p: Person) {
    && (!TagActive(filterTag) || filterTag.value in p.tags)
    && (query == "" || Matches(p, ToLower(query)))
  }

  function ShownBy(filterTag: Option<string>, query: string): Person -> bool {
    (p: Person) => Shown(filterTag, query, p)
  }

  /** The two stages compose to one filter by the conjunction of their tests. */
  lemma VisibleIsOneFilter(people: seq<Person>, filterTag: Option<string>, query: string)
    ensures Visible(people, filterTag, query) == Seqs.Filter(people, ShownBy(filterTag, query))
  {
    if TagActive(filterTag) && query != "" {
      BothStages(people, filterTag, query);
    } else if TagActive(filterTag) {
      Seqs.FilterExt(people, Tagged(filterTag.value), ShownBy(filterTag, query));
    } else if query != "" {
      Seqs.FilterExt(people, MatchesQuery(ToLower(query)), ShownBy(filterTag, query));
    } else {
      var shown := ShownBy(filterTag, query);
      assert forall i :: 0 <= i < |people| ==> shown(people[i]);
    }
  }

  lemma BothStages(people: seq<Person>, filterTag: Option<string>, query: string)
    requires TagActive(filterTag) && query != ""
    ensures Visible(people, filterTag, query) == Seqs.Filter(people, ShownBy(filterTag, query))
  {
    var tagged := Tagged(filterTag.value);
    var matching := MatchesQuery(ToLower(query));
    var both := Seqs.Both(tagged, matching);
    var shown := ShownBy(filterTag, query);
    assert Visible(people, filterTag, query) == Seqs.Filter(Seqs.Filter(people, tagged), matching);
    Seqs.FilterFilter(people, tagged, matching);
    forall x
      ensures both(x) == shown(x)
    {
      assert shown(x) == (filterTag.value in x.tags && Matches(x, ToLower(query)));
    }
    Seqs.FilterExt(people, both, shown);
  }

  /** The visible list is an order-preserving subsequence of the people list
      holding exactly the people that pass both the tag filter and the search. */
  lemma VisiblePeople(people: seq<Person>, filterTag: Option<string>, query: string)
    ensures Seqs.IsSubseq(Visible(people, filterTag, query), people)
    ensures forall p :: p in Visible(people, filterTag, query) <==> p in people && Shown(filterTag, query, p)
    ensures forall p ::
      multiset(Visible(people, filterTag, query))[p] == if Shown(filterTag, query, p) then multiset(people)[p] else 0
  {
    VisibleIsOneFilter(people, filterTag, query);
    Seqs.FilterIsSubseq(people, ShownBy(filterTag, query));
    Seqs.FilterMultiset(people, ShownBy(filterTag, query));
  }

  /** The search only sees the query's lower-cased form: queries that differ
      in letter case give the same list. */
  lemma SearchIgnoresQueryCase(people: seq<Person>, query: string)
    ensures Search(people, ToLower(query)) == Search(people, query)
  {
    ToLowerIdempotent(query);
  }

  /** A blank query is not treated as empty: one space hides a person whose
      name, tags and memo contain no space. */
  lemma BlankQueryFilters(p: Person)
    requires ' ' !in p.name && ' ' !in p.memo
    requires forall i :: 0 <= i < |p.tags| ==> ' ' !in p.tags[i]
    ensures Search([p], " ") == []
  {
    assert ToLower(" ") == " ";
    NoSpaceNoMatch(p.name);
    NoSpaceNoMatch(p.memo);
    forall i | 0 <= i < |p.tags|
      ensures !Contains(ToLower(p.tags[i]), " ")
    {
      NoSpaceNoMatch(p.tags[i]);
    }
    assert !Matches(p, " ");
  }

  lemma NoSpaceNoMatch(s: string)
    requires ' ' !in s
    ensures !Contains(ToLower(s), " ")
  {
    var t := ToLower(s);
    ContainsAt(t, " ");
    forall k | 0 <= k <= |t|
      ensures !(" " <= t[k..])
    {
      if k < |t| {
        assert t[k..][0] == t[k] == LowerChar(s[k]);
        assert s[k] in s;
      }
    }
  }

  /** An upper-case query finds a mixed-case name. */
  lemma UpperCaseQueryFindsName(p: Person)
    requires p.name == "Ada Lovelace"
    ensures Search([p], "ADA") == [p]
  {
    assert ToLower("ADA") == "ada";
    var name := ToLower(p.name);
    assert name[..3] == "ada";
    assert Matches(p, "ada");
  }
}
