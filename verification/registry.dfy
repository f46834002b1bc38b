/** The people-list transitions of `UI.savePerson` and `UI.deletePerson`.
    The random id, the random gradient draw and the clock are parameters. */
module Registry {
  import opened People
  import opened TagParse
  import Text
  import Seqs

  /** The person form as submitted: `formId` is "" for a new person and the
      edited person's id otherwise; `avatar` is the pending avatar, if any. */
  datatype Draft = Draft(
    formId: string,
    name: string,
    tagInput: string,
    memo: string,
    avatar: Option<string>)

  /** The outcome of a save. `UnknownId` is the edit of an id that is not in
      the list: the source throws a TypeError reading `colorVariant` of
      `undefined` before it changes or saves anything. */
  datatype SaveResult = Saved(people: seq<Person>) | UnknownId

  /** The record a save writes: the form fields, the parsed tags, the given
      id and colour, and the save time. Its tags are well-formed, and they
      survive the edit form, which shows them joined with ", " and parses the
      field again on the next save. */
  function Record(d: Draft, id: string, colorVariant: string, now: string): (p: Person)
    ensures forall i :: 0 <= i < |p.tags| ==> IsTag(p.tags[i])
    ensures ParseTags(Text.Join(p.tags, ", ")) == p.tags
  {
    ReparseEditForm(d.tagInput);
    Person(id := id, name := d.name, tags := ParseTags(d.tagInput), memo := d.memo,
           avatar := d.avatar, colorVariant := colorVariant, updatedAt := now)
  }

  /** UI.savePerson. Without a form id: a new record with id `freshId` and the
      gradient of draw `draw` goes to the front, the old list following
      unchanged. With a form id present in the list: the first record with that
      id is replaced in place by one keeping its id and colour, and nothing else
      changes. With a form id absent from the list: `UnknownId`. */
  function SavePerson(people: seq<Person>, d: Draft, freshId: string, draw: GradientIndex, now: string): (r: SaveResult)
    ensures d.formId == "" ==>
      && r.Saved?
      && |r.people| == |people| + 1
      && r.people[1..] == people
      && r.people[0] == Record(d, freshId, r.people[0].colorVariant, now)
      && r.people[0].colorVariant in Gradients
    ensures d.formId != "" && !HasId(people, d.formId) ==> r == UnknownId
    ensures d.formId != "" && HasId(people, d.formId) ==>
      && r.Saved?
      && |r.people| == |people|
      && var k := FindIndex(people, d.formId);
      && r.people[k] == Record(d, people[k].id, people[k].colorVariant, now)
      && forall j :: 0 <= j < |people| && j != k ==> r.people[j] == people[j]
  {
    if d.formId == "" then
      Saved([Record(d, freshId, GradientAt(draw), now)] + people)
    else
      var k := FindIndex(people, d.formId);
      if k == -1 then UnknownId
      else Saved(people[k := Record(d, d.formId, people[k].colorVariant, now)])
  }

  /** Every record that was in the list keeps its id and colour through a save:
      an add shifts it one place down, an edit leaves it where it was. */
  lemma SaveKeepsColors(people: seq<Person>, d: Draft, freshId: string, draw: GradientIndex, now: string)
    requires d.formId == "" || HasId(people, d.formId)
    ensures var after := SavePerson(people, d, freshId, draw, now).people;
      d.formId == "" ==>
        && |after| == |people| + 1
        && forall i :: 0 <= i < |people| ==>
             after[i + 1].id == people[i].id && after[i + 1].colorVariant == people[i].colorVariant
    ensures var after := SavePerson(people, d, freshId, draw, now).people;
      d.formId != "" ==>
        && |after| == |people|
        && forall i :: 0 <= i < |people| ==>
             after[i].id == people[i].id && after[i].colorVariant == people[i].colorVariant
  {
    var after := SavePerson(people, d, freshId, draw, now).people;
    if d.formId == "" {
      forall i | 0 <= i < |people|
        ensures after[i + 1] == people[i]
      {
        assert after[1..][i] == people[i];
      }
    } else {
      var k := FindIndex(people, d.formId);
      forall i | 0 <= i < |people|
        ensures after[i].id == people[i].id && after[i].colorVariant == people[i].colorVariant
      {
        if i == k {
          assert after[k] == Record(d, people[k].id, people[k].colorVariant, now);
        } else {
          assert after[i] == people[i];
        }
      }
    }
  }

  /** Saving the same edit twice at the same timestamp is the same as saving it
      once. */
  lemma EditIdempotent(people: seq<Person>, d: Draft, freshId: string, draw: GradientIndex, now: string)
    requires d.formId != "" && HasId(people, d.formId)
    ensures var once := SavePerson(people, d, freshId, draw, now).people;
      SavePerson(once, d, freshId, draw, now) == Saved(once)
  {
    var k := FindIndex(people, d.formId);
    var once := SavePerson(people, d, freshId, draw, now).people;
    assert once[k].id == d.formId;
    assert HasId(once, d.formId);
    assert FindIndex(once, d.formId) == k;
    assert once[k := Record(d, d.formId, once[k].colorVariant, now)] == once;
  }

  /** Ids are pairwise distinct. The source never checks this; it holds as long
      as every generated id is fresh. */
  predicate UniqueIds(people: seq<Person>) {
    forall i, j :: 0 <= i < j < |people| ==> people[i].id != people[j].id
  }

  /** A save keeps ids distinct when an added record's id is fresh. */
  lemma SaveKeepsUniqueIds(people: seq<Person>, d: Draft, freshId: string, draw: GradientIndex, now: string)
    requires UniqueIds(people)
    requires d.formId == "" ==> !HasId(people, freshId)
    requires d.formId == "" || HasId(people, d.formId)
    ensures UniqueIds(SavePerson(people, d, freshId, draw, now).people)
  {
    var after := SavePerson(people, d, freshId, draw, now).people;
    if d.formId == "" {
      forall i, j | 0 <= i < j < |after|
        ensures after[i].id != after[j].id
      {
        assert after[j] == people[j - 1];
        if i > 0 {
          assert after[i] == people[i - 1];
        }
      }
    }
  }

  function Other(id: string): Person -> bool {
    (p: Person) => p.id != id
  }

  /** UI.deletePerson once confirmed: every record with the id goes, the others
      stay in their order; an absent id leaves the list as it was. */
  function DeletePerson(people: seq<Person>, id: string): (r: seq<Person>)
    ensures forall p :: p in r <==> p in people && p.id != id
    ensures forall p :: multiset(r)[p] == if p.id != id then multiset(people)[p] else 0
    ensures !HasId(r, id)
    ensures !HasId(people, id) ==> r == people
    ensures HasId(people, id) ==> |r| < |people|
    ensures Seqs.IsSubseq(r, people)
  {
    var r := Seqs.Filter(people, Other(id));
    Seqs.FilterIsSubseq(people, Other(id));
    Seqs.FilterMultiset(people, Other(id));
    DeleteShrinks(people, id);
    assert !HasId(r, id) by {
      forall i | 0 <= i < |r|
        ensures r[i].id != id
      {
        assert r[i] in r;
      }
    }
    r
  }

  lemma {:induction false} DeleteShrinks(people: seq<Person>, id: string)
    ensures HasId(people, id) ==> |Seqs.Filter(people, Other(id))| < |people|
  {
    if people != [] {
      DeleteShrinks(people[1..], id);
      if HasId(people, id) && people[0].id != id {
        var i :| 0 <= i < |people| && people[i].id == id;
        assert people[1..][i - 1].id == id;
      }
    }
  }

  /** Deleting the record just added with a fresh id gives back the old list. */
  lemma DeleteUndoesAdd(people: seq<Person>, d: Draft, freshId: string, draw: GradientIndex, now: string)
    requires d.formId == ""
    requires !HasId(people, freshId)
    ensures DeletePerson(SavePerson(people, d, freshId, draw, now).people, freshId) == people
  {
    var after := SavePerson(people, d, freshId, draw, now).people;
    assert after == [after[0]] + people;
    Seqs.FilterConcat([after[0]], people, Other(freshId));
  }

  /** Deletion keeps ids distinct. */
  lemma DeleteKeepsUniqueIds(people: seq<Person>, id: string)
    requires UniqueIds(people)
    ensures UniqueIds(DeletePerson(people, id))
  {
    FilterKeepsUniqueIds(people, Other(id));
  }

  lemma {:induction false} FilterKeepsUniqueIds(people: seq<Person>, keep: Person -> bool)
    requires UniqueIds(people)
    ensures UniqueIds(Seqs.Filter(people, keep))
  {
    if people != [] {
      var rest := Seqs.Filter(people[1..], keep);
      assert UniqueIds(people[1..]) by {
        forall i, j | 0 <= i < j < |people[1..]|
          ensures people[1..][i].id != people[1..][j].id
        {
          assert people[1..][i] == people[i + 1] && people[1..][j] == people[j + 1];
        }
      }
      FilterKeepsUniqueIds(people[1..], keep);
      if keep(people[0]) {
        var r := [people[0]] + rest;
        forall j | 0 < j < |r|
          ensures r[0].id != r[j].id
        {
          assert r[j] in rest;
          var m :| 0 <= m < |people[1..]| && people[1..][m] == r[j];
          assert people[m + 1] == r[j];
        }
      }
    }
  }

  /** Adding "Ada Lovelace" with tag field "math, pioneer" to an empty list
      gives one record carrying the two tags and one of the six gradients. */
  lemma AddToEmptyExample(d: Draft, freshId: string, draw: GradientIndex, now: string)
    requires d == Draft("", "Ada Lovelace", "math, pioneer", "", None)
    ensures var r := SavePerson([], d, freshId, draw, now);
      && r.Saved? && |r.people| == 1
      && r.people[0].id == freshId
      && r.people[0].tags == ["math", "pioneer"]
      && r.people[0].colorVariant in Gradients
  {
    MathPioneer();
  }
}
