/** The sidebar's session state as the object the source mutates in place:
    a dictionary of groups (its keys in insertion order) and the active
    group's name. Each method is one button press and is proved against the
    transition functions of module GroupState. */
module GroupManager {
  import opened GroupState

  class SessionManager<E> {
    /** The keys of the groups dictionary, in insertion order. */
    var order: seq<string>
    var groups: map<string, Group<E>>
    var active: string

    /** The state as a value. */
    function State(): (s: Session<E>)
      reads this
    {
      Session(order, groups, active)
    }

    ghost predicate Valid()
      reads this
    {
      State().Valid()
    }

    /** A session holding one initial group, which is active. */
    constructor (name: string, initial: Group<E>)
      ensures Valid()
      ensures order == [name] && groups == map[name := initial] && active == name
    {
      order := [name];
      groups := map[name := initial];
      active := name;
    }

    /** "Add Group": insert an empty group under a new, non-empty name and make
        it active; otherwise change nothing and report which warning applies. */
    method CreateGroup(name: string) returns (status: CreateStatus)
      requires Valid()
      modifies this
      ensures Valid()
      ensures status == Create(old(State()), name).status
      ensures State() == Create(old(State()), name).session
      ensures status == Created ==>
        && groups == old(groups)[name := EmptyGroup()]
        && order == old(order) + [name]
        && active == name
      ensures status != Created ==> order == old(order) && groups == old(groups) && active == old(active)
    {
      CreatePreservesValid(State(), name);
      if name != "" && name !in groups {
        groups := groups[name := EmptyGroup()];
        order := order + [name];
        active := name;
        status := Created;
      } else if name in groups {
        status := AlreadyExists;
      } else {
        status := InvalidName;
      }
    }

    /** "Delete Current Group", offered only when more than one group exists:
        remove the active group and make the first remaining key active. */
    method DeleteActiveGroup() returns (status: DeleteStatus)
      requires Valid()
      modifies this
      ensures Valid()
      ensures status == Delete(old(State())).status
      ensures State() == Delete(old(State())).session
      ensures status == Deleted <==> |old(order)| > 1
      ensures status == Deleted ==>
        && groups == old(groups) - {old(active)}
        && order == RemoveName(old(order), old(active))
        && active == order[0]
      ensures status == LastGroup ==> order == old(order) && groups == old(groups) && active == old(active)
    {
      DeletePreservesValid(State());
      if |order| > 1 {
        RemoveNameLength(order, active);
        groups := groups - {active};
        order := RemoveName(order, active);
        active := order[0];
        status := Deleted;
      } else {
        status := LastGroup;
      }
    }
  }

  /** A client that sees only the contracts: a second group can be created and
      deleted again, after which the first group is active once more. */
  method CreateAndDeleteScenario<E>(first: Group<E>) returns (m: SessionManager<E>)
    ensures m.Valid()
    ensures m.order == ["Default"] && m.groups == map["Default" := first] && m.active == "Default"
  {
    m := new SessionManager("Default", first);
    var s := m.CreateGroup("Goa Trip");
    assert s == Created;
    assert m.active == "Goa Trip" && m.order == ["Default", "Goa Trip"];
    s := m.CreateGroup("Goa Trip");
    assert s == AlreadyExists;
    s := m.CreateGroup("");
    assert s == InvalidName;
    var d := m.DeleteActiveGroup();
    assert d == Deleted;
    assert ["Default", "Goa Trip"][1..] == ["Goa Trip"];
    d := m.DeleteActiveGroup();
    assert d == LastGroup;
  }
}
