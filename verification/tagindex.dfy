/** `Utils.getAllUniqueTags` and the per-tag count shown by `UI.renderAllTags`. */
module TagIndex {
  import opened People
  import opened Order
  import Seqs
  import Query

  /** Some person carries tag `t`. */
  predicate TagOccurs(people: seq<Person>, t: string) {
    exists i :: 0 <= i < |people| && t in people[i].tags
  }

  /** Adds every tag of `tags` to a strictly ascending list. */
  function InsertAll(acc: seq<string>, tags: seq<string>): (r: seq<string>)
    requires StrictlyAscending(acc)
    ensures StrictlyAscending(r)
    ensures forall u :: u in r <==> u in acc || u in tags
    decreases |tags|
  {
    if tags == [] then acc
    else
      assert forall u :: u in tags <==> u == tags[0] || u in tags[1..] by {
        assert tags == [tags[0]] + tags[1..];
      }
      InsertAll(Insert(acc, tags[0]), tags[1..])
  }

  /** Utils.getAllUniqueTags: every tag that occurs on some person, once each,
      in ascending order. The source collects the tags in a Set and sorts the
      array; here they are inserted one by one into a sorted list, which
      `UniqueTagsCanonical` shows gives the same list. */
  function UniqueTags(people: seq<Person>): (r: seq<string>)
    ensures StrictlyAscending(r)
    ensures forall t :: t in r <==> TagOccurs(people, t)
  {
    if people == [] then []
    else
      var rest := UniqueTags(people[1..]);
      assert forall t :: TagOccurs(people, t) <==> t in people[0].tags || TagOccurs(people[1..], t) by {
        forall t
          ensures TagOccurs(people, t) <==> t in people[0].tags || TagOccurs(people[1..], t)
        {
          if TagOccurs(people, t) {
            var i :| 0 <= i < |people| && t in people[i].tags;
            if i > 0 {
              assert people[1..][i - 1] == people[i];
            }
          }
          if TagOccurs(people[1..], t) {
            var i :| 0 <= i < |people[1..]| && t in people[1..][i].tags;
            assert people[i + 1] == people[1..][i];
          }
        }
      }
      InsertAll(rest, people[0].tags)
  }

  /** Any ascending, duplicate-free list of exactly the occurring tags, such as
      the sorted array of the source's tag Set, equals `UniqueTags`. */
  lemma UniqueTagsCanonical(people: seq<Person>, sorted: seq<string>)
    requires StrictlyAscending(sorted)
    requires forall t :: t in sorted <==> TagOccurs(people, t)
    ensures sorted == UniqueTags(people)
  {
    AscendingUnique(sorted, UniqueTags(people));
  }

  /** No tag is listed twice. */
  lemma UniqueTagsDistinct(people: seq<Person>)
    ensures var r := UniqueTags(people);
      forall i, j :: 0 <= i < j < |r| ==> r[i] != r[j]
  {
    AscendingDistinct(UniqueTags(people));
  }

  /** The index depends only on which tags occur, not on the order of people
      or on repeated tags. */
  lemma UniqueTagsOrderFree(a: seq<Person>, b: seq<Person>)
    requires forall t :: TagOccurs(a, t) <==> TagOccurs(b, t)
    ensures UniqueTags(a) == UniqueTags(b)
  {
    AscendingUnique(UniqueTags(a), UniqueTags(b));
  }

  /** Computing the index of a person whose tags are an index gives that index back. */
  lemma UniqueTagsIdempotent(people: seq<Person>, p: Person)
    requires p.tags == UniqueTags(people)
    ensures UniqueTags([p]) == p.tags
  {
    forall t
      ensures t in p.tags <==> TagOccurs([p], t)
    {
      if t in p.tags {
        assert [p][0] == p;
      }
    }
    UniqueTagsCanonical([p], p.tags);
  }

  /** The count shown beside a tag: `people.filter(p => p.tags.includes(tag)).length`. */
  function TagCount(people: seq<Person>, tag: string): (n: nat)
    ensures n <= |people|
    ensures n > 0 <==> TagOccurs(people, tag)
  {
    var carriers := Seqs.Filter(people, Query.Tagged(tag));
    assert TagOccurs(people, tag) ==> carriers != [] by {
      if TagOccurs(people, tag) {
        var i :| 0 <= i < |people| && tag in people[i].tags;
        assert people[i] in carriers;
      }
    }
    assert carriers != [] ==> TagOccurs(people, tag) by {
      if carriers != [] {
        assert carriers[0] in carriers;
        var i :| 0 <= i < |people| && people[i] == carriers[0];
      }
    }
    |carriers|
  }

  /** Every listed tag has a count between 1 and the number of people. */
  lemma TagCountBounds(people: seq<Person>, t: string)
    requires t in UniqueTags(people)
    ensures 1 <= TagCount(people, t) <= |people|
  {
  }

  /** Tapping a tag filters the home list by it; the list then has as many
      people as the count shown beside the tag. */
  lemma TagCountIsFilterSize(people: seq<Person>, t: string)
    requires t != ""
    ensures TagCount(people, t) == |Query.FilterByTag(people, Some(t))|
  {
  }

  /** Two people tagged "math" and "math", "art": the index is "art", "math"
      and "math" is counted twice. */
  lemma MathArtExample(a: Person, b: Person)
    requires a.tags == ["math"] && b.tags == ["math", "art"]
    ensures UniqueTags([a, b]) == ["art", "math"]
    ensures TagCount([a, b], "math") == 2
  {
    var people := [a, b];
    var sorted := ["art", "math"];
    assert Below("art", "math");
    forall t
      ensures t in sorted <==> TagOccurs(people, t)
    {
      if t in sorted {
        assert t in people[1].tags;
      }
      if TagOccurs(people, t) {
        var i :| 0 <= i < |people| && t in people[i].tags;
      }
    }
    UniqueTagsCanonical(people, sorted);
    assert Query.Tagged("math")(people[0]) && Query.Tagged("math")(people[1]);
  }
}
