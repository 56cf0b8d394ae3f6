/** The travel-group session state as a value: the groups keyed by name, the
    order in which the names were inserted (the key order of the dictionary),
    and the name of the active group. The two transitions of the sidebar,
    creating a group and deleting the active one, are given here as functions
    on that value; the class in module GroupManager is proved against them. */
module GroupState {

  /** One group's record: its roster and its expense list. */
  datatype Group<E> = Group(people: seq<string>, expenses: seq<E>)

  /** The record a new group starts with: no people, no expenses. */
  function EmptyGroup<E>(): (g: Group<E>)
    ensures |g.people| == 0 && |g.expenses| == 0
  {
    Group([], [])
  }

  predicate NoDuplicates(names: seq<string>) {
    forall i, j :: 0 <= i < j < |names| ==> names[i] != names[j]
  }

  datatype Session<E> = Session(order: seq<string>, groups: map<string, Group<E>>, active: string)
  {
    /** The key order lists every key of the mapping exactly once, and the
        active name is one of those keys. */
    predicate Valid() {
      && NoDuplicates(order)
      && (forall k :: k in order ==> k in groups)
      && (forall k :: k in groups ==> k in order)
      && active in groups
    }

    /** The number of groups, as the source counts them: the length of the key list. */
    function Count(): (n: nat) {
      |order|
    }
  }

  /** The three ways the "Add Group" button can end. */
  datatype CreateStatus = Created | AlreadyExists | InvalidName

  /** The two ways a delete request can end; LastGroup is the refusal when
      at most one group exists, where the source does not offer the button. */
  datatype DeleteStatus = Deleted | LastGroup

  datatype CreateStep<E> = CreateStep(session: Session<E>, status: CreateStatus)
  datatype DeleteStep<E> = DeleteStep(session: Session<E>, status: DeleteStatus)

  /** The names in order with every occurrence of x removed: what deleting the
      key x does to the insertion order of a dictionary. */
  function RemoveName(names: seq<string>, x: string): (r: seq<string>)
    ensures |r| <= |names|
    ensures forall y :: y in r <==> y in names && y != x
  {
    if names == [] then []
    else if names[0] == x then RemoveName(names[1..], x)
    else [names[0]] + RemoveName(names[1..], x)
  }

  /** Creating a group: the name must be non-empty and not yet a key; then an
      empty record is inserted under it (at the end of the key order) and it
      becomes active. Otherwise the state is untouched and the status says
      which warning is shown, checked in the source's order. */
  function Create<E>(s: Session<E>, name: string): (r: CreateStep<E>)
    ensures r.status == Created <==> name != "" && name !in s.groups
    ensures r.status == AlreadyExists <==> name in s.groups
    ensures r.status == InvalidName <==> name == "" && name !in s.groups
  {
    if name != "" && name !in s.groups then
      CreateStep(Session(s.order + [name], s.groups[name := EmptyGroup()], name), Created)
    else if name in s.groups then
      CreateStep(s, AlreadyExists)
    else
      CreateStep(s, InvalidName)
  }

  /** Deleting the active group, offered only when more than one group exists:
      its key is removed and the first remaining key becomes active. */
  function Delete<E>(s: Session<E>): (r: DeleteStep<E>)
    requires s.Valid()
    ensures r.status == Deleted <==> s.Count() > 1
  {
    if s.Count() <= 1 then
      DeleteStep(s, LastGroup)
    else
      var rest := RemoveName(s.order, s.active);
      RemoveNameLength(s.order, s.active);
      DeleteStep(Session(rest, s.groups - {s.active}, rest[0]), Deleted)
  }

  // ---------------------------------------------------------------------
  // Removing a name from the key order

  lemma {:induction false} RemoveNameAbsent(names: seq<string>, x: string)
    requires x !in names
    ensures RemoveName(names, x) == names
  {
    if names != [] {
      RemoveNameAbsent(names[1..], x);
    }
  }

  /** In a list without duplicates, removing the name at position i keeps
      everything before and after it, in the same order. */
  lemma {:induction false} RemoveNameAt(names: seq<string>, i: nat)
    requires NoDuplicates(names)
    requires i < |names|
    ensures RemoveName(names, names[i]) == names[..i] + names[i + 1..]
  {
    var x := names[i];
    if i == 0 {
      assert x !in names[1..] by {
        forall j | 0 <= j < |names[1..]| ensures names[1..][j] != x {
          assert names[1..][j] == names[j + 1];
        }
      }
      RemoveNameAbsent(names[1..], x);
    } else {
      var tail := names[1..];
      assert NoDuplicates(tail) by {
        forall a, b | 0 <= a < b < |tail| ensures tail[a] != tail[b] {
          assert tail[a] == names[a + 1] && tail[b] == names[b + 1];
        }
      }
      assert names[0] != x;
      assert tail[i - 1] == x;
      RemoveNameAt(tail, i - 1);
      assert names[..i] == [names[0]] + tail[..i - 1];
      assert names[i + 1..] == tail[i..];
    }
  }

  lemma RemoveNameLength(names: seq<string>, x: string)
    requires NoDuplicates(names)
    requires x in names
    ensures |RemoveName(names, x)| == |names| - 1
  {
    var i :| 0 <= i < |names| && names[i] == x;
    RemoveNameAt(names, i);
  }

  /** Removing a name keeps a list free of duplicates. */
  lemma {:induction false} RemoveNameNoDuplicates(names: seq<string>, x: string)
    requires NoDuplicates(names)
    ensures NoDuplicates(RemoveName(names, x))
  {
    if names != [] {
      var tail := names[1..];
      assert NoDuplicates(tail) by {
        forall a, b | 0 <= a < b < |tail| ensures tail[a] != tail[b] {
          assert tail[a] == names[a + 1] && tail[b] == names[b + 1];
        }
      }
      RemoveNameNoDuplicates(tail, x);
      if names[0] != x {
        var r := [names[0]] + RemoveName(tail, x);
        assert names[0] !in tail by {
          forall j | 0 <= j < |tail| ensures tail[j] != names[0] {
            assert tail[j] == names[j + 1];
          }
        }
        forall a, b | 0 <= a < b < |r| ensures r[a] != r[b] {
          if a == 0 {
            assert r[b] in RemoveName(tail, x);
          } else {
            assert r[a] == RemoveName(tail, x)[a - 1] && r[b] == RemoveName(tail, x)[b - 1];
          }
        }
      }
    }
  }

  /** A list without duplicates has as many elements as the set of its elements. */
  lemma {:induction false} DistinctCardinality(names: seq<string>)
    requires NoDuplicates(names)
    ensures |set k | k in names| == |names|
  {
    if names != [] {
      var tail := names[1..];
      assert NoDuplicates(tail) by {
        forall a, b | 0 <= a < b < |tail| ensures tail[a] != tail[b] {
          assert tail[a] == names[a + 1] && tail[b] == names[b + 1];
        }
      }
      DistinctCardinality(tail);
      assert names[0] !in tail by {
        forall j | 0 <= j < |tail| ensures tail[j] != names[0] {
          assert tail[j] == names[j + 1];
        }
      }
      assert (set k | k in names) == {names[0]} + (set k | k in tail);
    }
  }

  /** In a valid session the key list and the mapping agree on the number of groups. */
  lemma ValidCount<E>(s: Session<E>)
    requires s.Valid()
    ensures |s.groups| == s.Count()
    ensures s.Count() >= 1
  {
    DistinctCardinality(s.order);
    assert s.groups.Keys == set k | k in s.order;
  }

  // ---------------------------------------------------------------------
  // Creating a group

  /** A successful create adds exactly the new key, bound to an empty record,
      makes it active, appends it to the key order and leaves every existing
      group as it was. */
  lemma CreateAddsExactlyOne<E>(s: Session<E>, name: string)
    requires s.Valid()
    requires name != "" && name !in s.groups
    ensures var r := Create(s, name);
      && r.status == Created
      && r.session.groups.Keys == s.groups.Keys + {name}
      && r.session.groups[name] == EmptyGroup()
      && r.session.active == name
      && r.session.order == s.order + [name]
      && r.session.Count() == s.Count() + 1
      && |r.session.groups| == |s.groups| + 1
      && (forall k :: k in s.groups ==> r.session.groups[k] == s.groups[k])
  {
  }

  /** An empty name, or a name already present, leaves the whole state as it was. */
  lemma CreateRejected<E>(s: Session<E>, name: string)
    requires name == "" || name in s.groups
    ensures Create(s, name).session == s
    ensures Create(s, name).status != Created
  {
  }

  lemma CreatePreservesValid<E>(s: Session<E>, name: string)
    requires s.Valid()
    ensures Create(s, name).session.Valid()
  {
  }

  // ---------------------------------------------------------------------
  // Deleting the active group

  /** With at most one group the delete is refused and nothing changes. */
  lemma DeleteRefused<E>(s: Session<E>)
    requires s.Valid()
    requires s.Count() <= 1
    ensures Delete(s).status == LastGroup
    ensures Delete(s).session == s
  {
  }

  /** A successful delete removes exactly the active key; every other key keeps
      its record and its place relative to the others, and the count drops by
      one. */
  lemma DeleteRemovesExactlyActive<E>(s: Session<E>, i: nat)
    requires s.Valid()
    requires s.Count() > 1
    requires i < |s.order| && s.order[i] == s.active
    ensures var r := Delete(s).session;
      && r.groups.Keys == s.groups.Keys - {s.active}
      && (forall k :: k in r.groups ==> r.groups[k] == s.groups[k])
      && r.order == s.order[..i] + s.order[i + 1..]
      && r.Count() == s.Count() - 1
      && |r.groups| == |s.groups| - 1
  {
    RemoveNameAt(s.order, i);
    ValidCount(s);
  }

  /** After a successful delete the active group is the first remaining key. */
  lemma DeleteActivatesFirst<E>(s: Session<E>)
    requires s.Valid()
    requires s.Count() > 1
    ensures var r := Delete(s).session;
      && r.Count() >= 1
      && r.active == r.order[0]
      && r.active != s.active
      && r.active == (if s.order[0] == s.active then s.order[1] else s.order[0])
  {
    var r := Delete(s).session;
    var i :| 0 <= i < |s.order| && s.order[i] == s.active;
    RemoveNameAt(s.order, i);
    if i == 0 {
      assert r.order[0] == s.order[1];
    } else {
      assert r.order[0] == s.order[0];
      assert s.order[0] != s.active;
    }
  }

  lemma DeletePreservesValid<E>(s: Session<E>)
    requires s.Valid()
    ensures Delete(s).session.Valid()
    ensures Delete(s).session.Count() >= 1
  {
    if s.Count() > 1 {
      RemoveNameNoDuplicates(s.order, s.active);
      RemoveNameLength(s.order, s.active);
    }
  }

  /** Deleting a group right after creating it gives back the original groups
      and key order; the active group is then the oldest one, not necessarily
      the one that was active before. */
  lemma CreateThenDelete<E>(s: Session<E>, name: string)
    requires s.Valid()
    requires Create(s, name).status == Created
    ensures var c := Create(s, name).session;
      var d := Delete(c);
      && d.status == Deleted
      && d.session.groups == s.groups
      && d.session.order == s.order
      && d.session.active == s.order[0]
  {
    var c := Create(s, name).session;
    CreatePreservesValid(s, name);
    ValidCount(s);
    RemoveNameAt(c.order, |s.order|);
    assert c.order[..|s.order|] == s.order;
    assert c.groups - {name} == s.groups;
  }
}
