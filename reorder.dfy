/** The data half of the drop handler in src/main.js: after a drag the
    page's items are read top to bottom, and the todo list is rebuilt in
    that order from the stored todos. */
module Reorder {
  import opened Options
  import opened Records

  /** `observed.map(id => todos.find(t => t.id === id)).filter(Boolean)`:
      each observed id becomes the first todo with that id; ids no todo has
      are skipped, and todos whose id is not observed are not kept. */
  function Reconcile(todos: seq<Todo>, observed: seq<int>): (r: seq<Todo>)
    ensures |r| <= |observed|
  {
    if observed == [] then []
    else
      (match FindById(todos, observed[0])
       case None => []
       case Some(t) => [t])
      + Reconcile(todos, observed[1..])
  }

  /** The observed ids that some todo has, in observed order: the reference
      definition of what the rebuilt list's ids must be. */
  function KnownIds(todos: seq<Todo>, observed: seq<int>): (r: seq<int>)
    ensures forall k :: 0 <= k < |r| ==> r[k] in observed && r[k] in Ids(todos)
  {
    if observed == [] then []
    else (if observed[0] in Ids(todos) then [observed[0]] else []) + KnownIds(todos, observed[1..])
  }

  /** The rebuilt list's ids are exactly the known observed ids, in the
      observed order. */
  lemma {:induction false} ReconcileIds(todos: seq<Todo>, observed: seq<int>)
    ensures Ids(Reconcile(todos, observed)) == KnownIds(todos, observed)
  {
    if observed != [] {
      var head := match FindById(todos, observed[0]) case None => [] case Some(t) => [t];
      IdsAppend(head, Reconcile(todos, observed[1..]));
      ReconcileIds(todos, observed[1..]);
    }
  }

  /** Every element of the rebuilt list is the first todo carrying its id. */
  lemma {:induction false} ReconcileFirst(todos: seq<Todo>, observed: seq<int>)
    ensures forall k :: 0 <= k < |Reconcile(todos, observed)| ==>
      FindById(todos, Reconcile(todos, observed)[k].id) == Some(Reconcile(todos, observed)[k])
  {
    if observed != [] {
      ReconcileFirst(todos, observed[1..]);
      var head := match FindById(todos, observed[0]) case None => [] case Some(t) => [t];
      var r := Reconcile(todos, observed);
      assert r == head + Reconcile(todos, observed[1..]);
      forall k | 0 <= k < |r| ensures FindById(todos, r[k].id) == Some(r[k]) {
        if k >= |head| {
          assert r[k] == Reconcile(todos, observed[1..])[k - |head|];
        }
      }
    }
  }

  /** Everything in the rebuilt list comes from the stored todos. */
  lemma {:induction false} ReconcileMembers(todos: seq<Todo>, observed: seq<int>)
    ensures forall t :: t in Reconcile(todos, observed) ==> t in todos
  {
    if observed != [] {
      ReconcileMembers(todos, observed[1..]);
      match IndexOfId(todos, observed[0])
      case None =>
      case Some(i) => assert todos[i] in todos;
    }
  }

  /** A todo whose id was not observed is not in the rebuilt list. */
  lemma ReconcileDropsUnobserved(todos: seq<Todo>, observed: seq<int>, t: Todo)
    requires t.id !in observed
    ensures t !in Reconcile(todos, observed)
  {
    ReconcileIds(todos, observed);
  }

  /** Ids other than that of the todo at `j` rebuild the same list whether or
      not that todo is present. */
  lemma {:induction false} ReconcileWithout(todos: seq<Todo>, j: nat, observed: seq<int>)
    requires j < |todos| && todos[j].id !in observed
    ensures Reconcile(todos, observed) == Reconcile(todos[..j] + todos[j + 1..], observed)
  {
    if observed != [] {
      FindByIdWithout(todos, j, observed[0]);
      ReconcileWithout(todos, j, observed[1..]);
    }
  }

  /** Reading back the order the list was rendered in gives the list itself,
      as long as no two todos share an id. */
  lemma {:induction false} ReconcileRenderedOrder(todos: seq<Todo>)
    requires DistinctIds(todos)
    ensures Reconcile(todos, Ids(todos)) == todos
  {
    if todos != [] {
      RenderedStep(todos);
      ReconcileRenderedOrder(todos[1..]);
      assert [todos[0]] + todos[1..] == todos;
    }
  }

  /** The first rendered id brings back the first todo; the rest of the ids
      rebuild the rest of the list as they would without it. */
  lemma RenderedStep(todos: seq<Todo>)
    requires todos != [] && DistinctIds(todos)
    ensures DistinctIds(todos[1..])
    ensures Reconcile(todos, Ids(todos)) == [todos[0]] + Reconcile(todos[1..], Ids(todos[1..]))
  {
    TailDistinct(todos);
    ReconcileDropHead(todos, Ids(todos[1..]));
    ReconcileUnfoldHead(todos);
  }

  lemma TailDistinct(todos: seq<Todo>)
    requires todos != [] && DistinctIds(todos)
    ensures DistinctIds(todos[1..]) && todos[0].id !in Ids(todos[1..])
  {
    RestDistinct(todos, 0);
    assert todos[..0] + todos[1..] == todos[1..];
  }

  /** Ids other than the first todo's rebuild the same list without it. */
  lemma {:induction false} ReconcileDropHead(todos: seq<Todo>, observed: seq<int>)
    requires todos != [] && todos[0].id !in observed
    ensures Reconcile(todos, observed) == Reconcile(todos[1..], observed)
  {
    if observed != [] {
      assert FindById(todos, observed[0]) == FindById(todos[1..], observed[0]);
      ReconcileDropHead(todos, observed[1..]);
    }
  }

  lemma ReconcileUnfoldHead(todos: seq<Todo>)
    requires todos != []
    ensures Reconcile(todos, Ids(todos)) == [todos[0]] + Reconcile(todos, Ids(todos[1..]))
  {
    assert Ids(todos)[1..] == Ids(todos[1..]);
  }

  /** When the observed ids are a rearrangement of the todos' ids (and ids are
      unique), the rebuilt list is a rearrangement of the todos: nothing is
      lost or duplicated by a drag. */
  lemma {:induction false} ReconcilePermutation(todos: seq<Todo>, observed: seq<int>)
    requires DistinctIds(todos)
    requires multiset(observed) == multiset(Ids(todos))
    ensures multiset(Reconcile(todos, observed)) == multiset(todos)
    decreases |observed|
  {
    if observed == [] {
      assert |Ids(todos)| == |multiset(Ids(todos))| == 0;
    } else {
      var j, rest := PermutationStep(todos, observed);
      ReconcilePermutation(rest, observed[1..]);
    }
  }

  /** One step of the drag argument: the first observed id picks out one todo,
      and the remaining ids are a rearrangement of the remaining todos' ids. */
  lemma PermutationStep(todos: seq<Todo>, observed: seq<int>) returns (j: nat, rest: seq<Todo>)
    requires DistinctIds(todos) && observed != []
    requires multiset(observed) == multiset(Ids(todos))
    ensures j < |todos| && rest == todos[..j] + todos[j + 1..]
    ensures DistinctIds(rest) && multiset(observed[1..]) == multiset(Ids(rest))
    ensures Reconcile(todos, observed) == [todos[j]] + Reconcile(rest, observed[1..])
    ensures multiset(todos) == multiset(rest) + multiset{todos[j]}
  {
    var x := observed[0];
    assert x in multiset(Ids(todos));
    j := IndexOfIdFound(todos, x);
    rest := todos[..j] + todos[j + 1..];
    IdsWithout(todos, j);
    RemainingIds(observed, Ids(todos), Ids(rest));
    ReconcileWithout(todos, j, observed[1..]);
    assert Reconcile(todos, observed) == [todos[j]] + Reconcile(todos, observed[1..]);
  }

  lemma RemainingIds(observed: seq<int>, all: seq<int>, others: seq<int>)
    requires observed != [] && multiset(observed) == multiset(all)
    requires multiset(all) == multiset(others) + multiset{observed[0]}
    requires observed[0] !in others
    ensures multiset(observed[1..]) == multiset(others)
    ensures observed[0] !in observed[1..]
  {
    assert observed == [observed[0]] + observed[1..];
    MultisetCancel(multiset(observed[1..]), multiset(others), observed[0]);
    assert multiset(others)[observed[0]] == 0;
  }

  /** An id that occurs among the todos is found, at a position carrying it. */
  lemma IndexOfIdFound(todos: seq<Todo>, id: int) returns (j: nat)
    requires id in Ids(todos)
    ensures IndexOfId(todos, id) == Some(j) && j < |todos| && todos[j].id == id
  {
    var k :| 0 <= k < |todos| && Ids(todos)[k] == id;
    j := IndexOfId(todos, id).value;
  }

  lemma MultisetCancel(a: multiset<int>, b: multiset<int>, x: int)
    requires a + multiset{x} == b + multiset{x}
    ensures a == b
  {
    forall y ensures a[y] == b[y] {
      assert (a + multiset{x})[y] == (b + multiset{x})[y];
    }
  }

  /** Taking out the todo at `j` of a list with unique ids: the other ids keep
      their order, its id occurs nowhere else, and the rest keeps unique ids. */
  lemma IdsWithout(todos: seq<Todo>, j: nat)
    requires j < |todos| && DistinctIds(todos)
    ensures var rest := todos[..j] + todos[j + 1..];
      multiset(Ids(todos)) == multiset(Ids(rest)) + multiset{todos[j].id}
      && todos[j].id !in Ids(rest)
      && DistinctIds(rest)
      && multiset(todos) == multiset(rest) + multiset{todos[j]}
  {
    SplitAt(todos, j);
    SplitAt(Ids(todos), j);
    IdsOfRest(todos, j);
    RestDistinct(todos, j);
  }

  lemma IdsOfRest(todos: seq<Todo>, j: nat)
    requires j < |todos|
    ensures Ids(todos[..j] + todos[j + 1..]) == Ids(todos)[..j] + Ids(todos)[j + 1..]
  {
    IdsAppend(todos[..j], todos[j + 1..]);
    var ids := Ids(todos);
    assert Ids(todos[..j]) == ids[..j];
    assert Ids(todos[j + 1..]) == ids[j + 1..];
  }

  lemma SplitAt<T>(s: seq<T>, j: nat)
    requires j < |s|
    ensures s == s[..j] + [s[j]] + s[j + 1..]
    ensures multiset(s) == multiset(s[..j] + s[j + 1..]) + multiset{s[j]}
  {
    assert s == s[..j] + [s[j]] + s[j + 1..];
  }

  lemma RestDistinct(todos: seq<Todo>, j: nat)
    requires j < |todos| && DistinctIds(todos)
    ensures var rest := todos[..j] + todos[j + 1..];
      DistinctIds(rest) && todos[j].id !in Ids(rest)
  {
    var rest := todos[..j] + todos[j + 1..];
    forall a | 0 <= a < |rest| ensures rest[a] == todos[if a < j then a else a + 1] {
    }
    forall a, b | 0 <= a < b < |rest| ensures rest[a].id != rest[b].id {
      assert rest[a] == todos[if a < j then a else a + 1];
      assert rest[b] == todos[if b < j then b else b + 1];
    }
    forall a | 0 <= a < |rest| ensures Ids(rest)[a] != todos[j].id {
      assert rest[a] == todos[if a < j then a else a + 1];
    }
  }

  /** With two todos under one id, the rebuilt list holds the first one twice
      and loses the second. */
  lemma ReconcileDuplicateId()
    ensures var a, b := Todo(1, "a", false), Todo(1, "b", false);
      Reconcile([a, b], [1, 1]) == [a, a]
  {
    var a, b := Todo(1, "a", false), Todo(1, "b", false);
    assert [1, 1][1..] == [1];
  }

  /** [A, B, C] with ids 1, 2, 3, observed as 3, 1, 2, becomes [C, A, B]. */
  lemma ReconcileMoveExample(a: Todo, b: Todo, c: Todo)
    requires a.id == 1 && b.id == 2 && c.id == 3
    ensures Reconcile([a, b, c], [3, 1, 2]) == [c, a, b]
  {
    var abc := [a, b, c];
    IndexOfIdAt(abc, 3, 2);
    IndexOfIdAt(abc, 1, 0);
    IndexOfIdAt(abc, 2, 1);
    assert Reconcile(abc, [2]) == [b] by { assert Reconcile(abc, [2]) == [b] + Reconcile(abc, []); }
    assert Reconcile(abc, [1, 2]) == [a, b] by { assert [1, 2][1..] == [2]; }
    assert [3, 1, 2][1..] == [1, 2];
  }

  /** [A, B] with ids 1, 2, observed as 2, 1, 9, becomes [B, A]: the unknown
      id 9 is skipped. */
  lemma ReconcileUnknownIdExample(a: Todo, b: Todo)
    requires a.id == 1 && b.id == 2
    ensures Reconcile([a, b], [2, 1, 9]) == [b, a]
  {
    var ab := [a, b];
    IndexOfIdAt(ab, 2, 1);
    IndexOfIdAt(ab, 1, 0);
    assert IndexOfId(ab, 9) == None;
    assert Reconcile(ab, [9]) == [] by { assert Reconcile(ab, [9]) == [] + Reconcile(ab, []); }
    assert Reconcile(ab, [1, 9]) == [a] by { assert [1, 9][1..] == [9]; }
    assert [2, 1, 9][1..] == [1, 9];
  }
}
