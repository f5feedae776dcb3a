/** A worked lifecycle of one item through create, update and delete. */
module Scenario {
  import opened Wrappers
  import opened Schema
  import opened ChangeLog
  import opened Service
  import opened Invariants

  const Widget := Item("Widget", None, 9.99, Some(0.0))
  const RepricedWidget := Widget.(price := 12.50)

  /** Creating, repricing and deleting "Widget" in an empty database leaves the
      items table empty and a log of three events numbered 1 to 3: the insert
      and the update with the row as written, and the delete with the row as it
      was just before the delete, the earlier two unchanged. */
  lemma WidgetLifecycle(x: Id)
    ensures Run(Init, [CreateRequest(x, Widget), UpdateRequest(x, RepricedWidget), DeleteRequest(x)])
            == State(map[], [Event(1, x, Widget, Insert),
                             Event(2, x, RepricedWidget, Update),
                             Event(3, x, RepricedWidget, Delete)])
  {
    var s1 := Handle(Init, CreateRequest(x, Widget)).state;
    assert s1 == State(map[x := Widget], [Event(1, x, Widget, Insert)]);
    var s2 := Handle(s1, UpdateRequest(x, RepricedWidget)).state;
    assert !NameInUse(s1.items - {x}, RepricedWidget.name);
    assert s2 == State(map[x := RepricedWidget], s1.log + [Event(2, x, RepricedWidget, Update)]);
    var s3 := Handle(s2, DeleteRequest(x)).state;
    assert s2.items - {x} == map[];
    assert s3 == State(map[], s2.log + [Event(3, x, RepricedWidget, Delete)]);
    var reqs := [CreateRequest(x, Widget), UpdateRequest(x, RepricedWidget), DeleteRequest(x)];
    assert reqs[1..][1..][1..] == [];
    assert Run(Init, reqs) == Run(s1, reqs[1..]) == Run(s2, reqs[1..][1..]) == Run(s3, []);
  }

  /** A second create reusing the name fails with a server error and logs nothing. */
  lemma DuplicateNameRejected(x: Id, y: Id)
    requires x != y
    ensures var s1 := CreateItem(Init, x, Widget).state;
            var r := CreateItem(s1, y, Widget);
            r.reply == Failure(ServerError(DuplicateName)) && r.state == s1 && Status(r.reply) == 500
  {
  }
}
