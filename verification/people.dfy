/** The people list: one record per registered person, newest first. */
module People {

  datatype Option<T> = None | Some(value: T)

  /** A person record as the app stores it. `avatar` is a data URL or absent;
      `colorVariant` is the CSS class of the placeholder gradient; `updatedAt`
      is an ISO-8601 timestamp the model treats as an opaque string. */
  datatype Person = Person(
    id: string,
    name: string,
    tags: seq<string>,
    memo: string,
    avatar: Option<string>,
    colorVariant: string,
    updatedAt: string)

  /** The six placeholder gradients, in the order the random draw indexes them. */
  const Gradients: seq<string> := [
    "bg-gradient-1", "bg-gradient-2", "bg-gradient-3",
    "bg-gradient-4", "bg-gradient-5", "bg-gradient-6"
  ]

  /** The values `Math.floor(Math.random() * 6)` can take. */
  type GradientIndex = i: int | 0 <= i < 6

  /** The gradient picked by a random draw: always one of the six, and
      different draws pick different gradients. */
  function GradientAt(i: GradientIndex): (g: string)
    ensures g in Gradients
    ensures forall j: GradientIndex :: j != i ==> g != Gradients[j]
  {
    Gradients[i]
  }

  /** Every gradient is the pick of some draw. */
  lemma EveryGradientDrawable(g: string)
    requires g in Gradients
    ensures exists i: GradientIndex :: GradientAt(i) == g
  {
    var k :| 0 <= k < |Gradients| && Gradients[k] == g;
    assert GradientAt(k) == g;
  }

  predicate HasId(people: seq<Person>, id: string) {
    exists i :: 0 <= i < |people| && people[i].id == id
  }

  /** `Array.prototype.findIndex(p => p.id === id)`: the first position holding
      `id`, or -1 when there is none. */
  function FindIndex(people: seq<Person>, id: string): (k: int)
    ensures -1 <= k < |people|
    ensures k == -1 <==> !HasId(people, id)
    ensures k >= 0 ==> people[k].id == id && forall j :: 0 <= j < k ==> people[j].id != id
  {
    if people == [] then -1
    else if people[0].id == id then 0
    else
      var k := FindIndex(people[1..], id);
      assert forall j :: 0 < j < |people| ==> people[j] == people[1..][j - 1];
      if k == -1 then -1 else k + 1
  }
}
