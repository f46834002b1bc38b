/** The order `Array.prototype.sort()` uses when given no comparator: strings
    compared character by character, a proper prefix coming first. Characters
    are compared by code point, which agrees with the UTF-16 code-unit order
    JavaScript uses for every character of the Basic Multilingual Plane. */
module Order {

  predicate Below(a: string, b: string) {
    if a == [] then b != []
    else if b == [] then false
    else if a[0] == b[0] then Below(a[1..], b[1..])
    else a[0] < b[0]
  }

  lemma {:induction false} BelowIrreflexive(a: string)
    ensures !Below(a, a)
  {
    if a != [] {
      BelowIrreflexive(a[1..]);
    }
  }

  lemma {:induction false} BelowTransitive(a: string, b: string, c: string)
    requires Below(a, b) && Below(b, c)
    ensures Below(a, c)
  {
    if a != [] && b != [] && c != [] && a[0] == b[0] && b[0] == c[0] {
      BelowTransitive(a[1..], b[1..], c[1..]);
    }
  }

  lemma {:induction false} BelowTotal(a: string, b: string)
    requires a != b
    ensures Below(a, b) || Below(b, a)
  {
    if a != [] && b != [] && a[0] == b[0] {
      assert a == [a[0]] + a[1..] && b == [b[0]] + b[1..];
      BelowTotal(a[1..], b[1..]);
    }
  }

  /** Strictly ascending, hence free of duplicates. */
  predicate StrictlyAscending(xs: seq<string>) {
    forall i, j :: 0 <= i < j < |xs| ==> Below(xs[i], xs[j])
  }

  lemma AscendingDistinct(xs: seq<string>)
    requires StrictlyAscending(xs)
    ensures forall i, j :: 0 <= i < j < |xs| ==> xs[i] != xs[j]
  {
    forall i, j | 0 <= i < j < |xs|
      ensures xs[i] != xs[j]
    {
      BelowIrreflexive(xs[i]);
    }
  }

  /** Adds `t` to a strictly ascending list, keeping it strictly ascending and
      adding nothing when `t` is already present. */
  function Insert(xs: seq<string>, t: string): (r: seq<string>)
    requires StrictlyAscending(xs)
    ensures StrictlyAscending(r)
    ensures forall u :: u in r <==> u in xs || u == t
    ensures |r| <= |xs| + 1
  {
    if xs == [] then [t]
    else if t == xs[0] then xs
    else if Below(t, xs[0]) then
      InsertFront(xs, t);
      [t] + xs
    else
      BelowTotal(t, xs[0]);
      var tail := Insert(xs[1..], t);
      assert forall k :: 0 <= k < |tail| ==> Below(xs[0], tail[k]) by {
        forall k | 0 <= k < |tail|
          ensures Below(xs[0], tail[k])
        {
          assert tail[k] in tail;
          if tail[k] != t {
            var m :| 0 <= m < |xs[1..]| && xs[1..][m] == tail[k];
            assert xs[m + 1] == tail[k];
          }
        }
      }
      [xs[0]] + tail
  }

  lemma InsertFront(xs: seq<string>, t: string)
    requires StrictlyAscending(xs) && xs != [] && Below(t, xs[0])
    ensures StrictlyAscending([t] + xs)
  {
    var r := [t] + xs;
    forall i, j | 0 <= i < j < |r|
      ensures Below(r[i], r[j])
    {
      if i == 0 && j > 1 {
        BelowTransitive(t, xs[0], xs[j - 1]);
      }
    }
  }

  lemma SameMembersEmpty(a: seq<string>, b: seq<string>)
    requires forall u :: u in a <==> u in b
    ensures a == [] <==> b == []
  {
    if a != [] {
      assert a[0] in a;
    }
    if b != [] {
      assert b[0] in b;
    }
  }

  /** Strictly ascending lists with the same members are equal: a sorted,
      duplicate-free enumeration of a set of strings is unique. */
  lemma {:induction false} AscendingUnique(a: seq<string>, b: seq<string>)
    requires StrictlyAscending(a) && StrictlyAscending(b)
    requires forall u :: u in a <==> u in b
    ensures a == b
    decreases |a|
  {
    SameMembersEmpty(a, b);
    if a != [] {
      assert a[0] == b[0] by {
        assert a[0] in a && b[0] in b;
        var k :| 0 <= k < |b| && b[k] == a[0];
        var m :| 0 <= m < |a| && a[m] == b[0];
        if k > 0 && m > 0 {
          BelowTransitive(b[0], a[0], b[0]);
          BelowIrreflexive(b[0]);
        }
      }
      AscendingDistinct(a);
      AscendingDistinct(b);
      forall u
        ensures u in a[1..] <==> u in b[1..]
      {
        if u in a[1..] {
          var m :| 0 <= m < |a[1..]| && a[1..][m] == u;
          assert a[m + 1] == u && u != a[0] && u in a && u in b;
          var k :| 0 <= k < |b| && b[k] == u;
          assert k > 0 && b[1..][k - 1] == u;
        }
        if u in b[1..] {
          var m :| 0 <= m < |b[1..]| && b[1..][m] == u;
          assert b[m + 1] == u && u != b[0] && u in b && u in a;
          var k :| 0 <= k < |a| && a[k] == u;
          assert k > 0 && a[1..][k - 1] == u;
        }
      }
      AscendingUnique(a[1..], b[1..]);
      assert a == [a[0]] + a[1..] && b == [b[0]] + b[1..];
    }
  }
}
