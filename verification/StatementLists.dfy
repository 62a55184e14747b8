/**
 StatementLists: the statements of a block, in a doubly linked list that also knows, from each statement, the list it is
 in. Lists hand statements over to each other.
 */
module StatementLists {

  class Statement {
    var list: StatementList?
    var previous: Statement?
    var next: Statement?

    constructor ()
      ensures list == null && previous == null && next == null
    {
      list, previous, next := null, null, null;
    }
  }

  class StatementList {
    var first: Statement?
    var last: Statement?

    constructor ()
      ensures first == null && last == null
    {
      first, last := null, null;
    }
  }

  // ----- Linked lists as values -----

  /** What a statement and a list store. */
  datatype Cell = Cell(list: StatementList?, previous: Statement?, next: Statement?)
  datatype Ends = Ends(first: Statement?, last: Statement?)

  const DETACHED := Cell(null, null, null)

  ghost function At(s: seq<Statement>, i: int): Statement? {
    if 0 <= i < |s| then s[i] else null
  }

  ghost predicate Distinct<T>(s: seq<T>) {
    forall i, j :: 0 <= i < j < |s| ==> s[i] != s[j]
  }

  ghost function IndexOf<T>(s: seq<T>, x: T): (k: nat)
    requires x in s
    ensures k < |s| && s[k] == x
  {
    if s[0] == x then 0 else 1 + IndexOf(s[1..], x)
  }

  ghost predicate CellAt(cells: map<Statement, Cell>, list: StatementList, s: seq<Statement>, i: nat)
    requires i < |s|
  {
    s[i] in cells && cells[s[i]] == Cell(list, At(s, i - 1), At(s, i + 1))
  }

  /** `s` is linked both ways and every statement in it refers to the list. */
  ghost predicate Chain(cells: map<Statement, Cell>, list: StatementList, s: seq<Statement>) {
    Distinct(s) && forall i: nat {:trigger CellAt(cells, list, s, i)} :: i < |s| ==> CellAt(cells, list, s, i)
  }

  ghost function EndsOf(s: seq<Statement>): Ends {
    Ends(At(s, 0), At(s, |s| - 1))
  }

  ghost predicate Linked(cells: map<Statement, Cell>, ends: map<StatementList, Ends>, contents: map<StatementList, seq<Statement>>,
                         list: StatementList)
    requires list in ends && list in contents
  {
    ends[list] == EndsOf(contents[list]) && Chain(cells, list, contents[list])
  }

  /** A statement is in the list it refers to, or in none. */
  ghost predicate Placed(cells: map<Statement, Cell>, contents: map<StatementList, seq<Statement>>, x: Statement)
    requires x in cells
  {
    if cells[x].list == null then cells[x] == DETACHED else cells[x].list in contents && x in contents[cells[x].list]
  }

  ghost predicate Consistent(cells: map<Statement, Cell>, ends: map<StatementList, Ends>, contents: map<StatementList, seq<Statement>>) {
    && ends.Keys == contents.Keys
    && (forall list {:trigger Linked(cells, ends, contents, list)} :: list in contents ==> Linked(cells, ends, contents, list))
    && (forall x {:trigger Placed(cells, contents, x)} :: x in cells ==> Placed(cells, contents, x))
  }

  lemma ChainMember(cells: map<Statement, Cell>, list: StatementList, s: seq<Statement>, x: Statement)
    requires Chain(cells, list, s) && x in s
    ensures x in cells && cells[x].list == list
  {
    assert CellAt(cells, list, s, IndexOf(s, x));
  }

  lemma ChainKept(cells: map<Statement, Cell>, cells': map<Statement, Cell>, list: StatementList, s: seq<Statement>)
    requires Chain(cells, list, s)
    requires forall x :: x in s && x in cells ==> x in cells' && cells'[x] == cells[x]
    ensures Chain(cells', list, s)
  {
    forall i: nat | i < |s| ensures CellAt(cells', list, s, i) {
      assert CellAt(cells, list, s, i);
    }
  }

  ghost function SetNext(cells: map<Statement, Cell>, x: Statement?, next: Statement?): map<Statement, Cell> {
    if x != null && x in cells then cells[x := cells[x].(next := next)] else cells
  }

  ghost function SetPrevious(cells: map<Statement, Cell>, x: Statement?, previous: Statement?): map<Statement, Cell> {
    if x != null && x in cells then cells[x := cells[x].(previous := previous)] else cells
  }

  ghost function Inserted<T>(s: seq<T>, k: nat, x: T): seq<T>
    requires k <= |s|
  {
    s[..k] + ([x] + s[k..])
  }

  ghost function Removed<T>(s: seq<T>, k: nat): seq<T>
    requires k < |s|
  {
    s[..k] + s[k + 1..]
  }

  /** The links once `x` stands between `p` and `n`. */
  ghost function CellsInserted(cells: map<Statement, Cell>, list: StatementList, p: Statement?, n: Statement?, x: Statement)
    : map<Statement, Cell>
  {
    SetPrevious(SetNext(cells, p, x), n, x)[x := Cell(list, p, n)]
  }

  /** The links once `x` is taken out. */
  ghost function CellsRemoved(cells: map<Statement, Cell>, x: Statement): map<Statement, Cell>
    requires x in cells
  {
    SetPrevious(SetNext(cells, cells[x].previous, cells[x].next), cells[x].next, cells[x].previous)[x := DETACHED]
  }

  lemma InsertedChain(cells: map<Statement, Cell>, list: StatementList, s: seq<Statement>, k: nat, x: Statement)
    requires Chain(cells, list, s) && k <= |s| && x !in s
    ensures Chain(CellsInserted(cells, list, At(s, k - 1), At(s, k), x), list, Inserted(s, k, x))
  {
    var cells', t := CellsInserted(cells, list, At(s, k - 1), At(s, k), x), Inserted(s, k, x);
    assert k > 0 ==> CellAt(cells, list, s, k - 1);
    assert k < |s| ==> CellAt(cells, list, s, k);
    forall i: nat | i < |t| ensures CellAt(cells', list, t, i) {
      if i < k {
        assert CellAt(cells, list, s, i);
      } else if i > k {
        assert CellAt(cells, list, s, i - 1);
      }
    }
  }

  lemma RemovedChain(cells: map<Statement, Cell>, list: StatementList, s: seq<Statement>, k: nat)
    requires Chain(cells, list, s) && k < |s| && s[k] in cells
    ensures Chain(CellsRemoved(cells, s[k]), list, Removed(s, k))
  {
    var cells', t := CellsRemoved(cells, s[k]), Removed(s, k);
    assert CellAt(cells, list, s, k);
    assert k > 0 ==> CellAt(cells, list, s, k - 1);
    assert k + 1 < |s| ==> CellAt(cells, list, s, k + 1);
    forall i: nat | i < |t| ensures CellAt(cells', list, t, i) {
      assert CellAt(cells, list, s, if i < k then i else i + 1);
    }
  }

  /** Two lists have no statement in common. */
  lemma Disjoint(cells: map<Statement, Cell>, list: StatementList, s: seq<Statement>, other: StatementList, t: seq<Statement>)
    requires Chain(cells, list, s) && Chain(cells, other, t) && list != other
    ensures forall x :: x in t ==> x !in s
  {
    forall x | x in t ensures x !in s {
      ChainMember(cells, other, t, x);
      if x in s {
        ChainMember(cells, list, s, x);
      }
    }
  }

  lemma InsertedElsewhere(cells: map<Statement, Cell>, list: StatementList, s: seq<Statement>, k: nat, x: Statement, y: Statement)
    requires Chain(cells, list, s) && k <= |s| && y in cells && y != x
    ensures var cells' := CellsInserted(cells, list, At(s, k - 1), At(s, k), x);
      y in cells' && cells'[y].list == cells[y].list && (y !in s ==> cells'[y] == cells[y])
  {
  }

  lemma RemovedElsewhere(cells: map<Statement, Cell>, list: StatementList, s: seq<Statement>, k: nat, y: Statement)
    requires Chain(cells, list, s) && k < |s| && s[k] in cells && y in cells && y != s[k]
    ensures var cells' := CellsRemoved(cells, s[k]);
      y in cells' && cells'[y].list == cells[y].list && (y !in s ==> cells'[y] == cells[y])
  {
    assert CellAt(cells, list, s, k);
  }

  /** Inserting a detached statement anywhere in one list keeps all lists. */
  lemma InsertConsistent(cells: map<Statement, Cell>, ends: map<StatementList, Ends>, contents: map<StatementList, seq<Statement>>,
                         list: StatementList, k: nat, x: Statement)
    requires Consistent(cells, ends, contents) && list in contents && k <= |contents[list]|
    requires x in cells && cells[x] == DETACHED
    ensures var s := contents[list];
      Consistent(CellsInserted(cells, list, At(s, k - 1), At(s, k), x), ends[list := EndsOf(Inserted(s, k, x))],
                 contents[list := Inserted(s, k, x)])
  {
    assert Linked(cells, ends, contents, list);
    var s := contents[list];
    var t, cells' := Inserted(s, k, x), CellsInserted(cells, list, At(s, k - 1), At(s, k), x);
    var ends', contents' := ends[list := EndsOf(t)], contents[list := t];
    if x in s {
      ChainMember(cells, list, s, x);
      assert false;
    }
    InsertedChain(cells, list, s, k, x);
    forall other | other in contents' ensures Linked(cells', ends', contents', other) {
      if other != list {
        assert Linked(cells, ends, contents, other);
        Disjoint(cells, list, s, other, contents[other]);
        OthersInserted(cells, list, s, k, x, other, contents[other]);
      }
    }
    forall y | y in cells' ensures Placed(cells', contents', y) {
      if y == x {
        assert t[k] == x;
      } else {
        assert Placed(cells, contents, y);
        InsertedElsewhere(cells, list, s, k, x, y);
        InsertedHolds(s, k, x);
        if y in s {
          ChainMember(cells, list, s, y);
        }
      }
    }
  }

  lemma InsertedHolds<T>(s: seq<T>, k: nat, x: T)
    requires k <= |s|
    ensures forall y :: y in Inserted(s, k, x) <==> y == x || y in s
  {
    assert s == s[..k] + s[k..];
  }

  lemma OthersInserted(cells: map<Statement, Cell>, list: StatementList, s: seq<Statement>, k: nat, x: Statement,
                       other: StatementList, t: seq<Statement>)
    requires Chain(cells, list, s) && k <= |s| && Chain(cells, other, t) && (forall y :: y in t ==> y !in s)
    requires x in cells && cells[x] == DETACHED
    ensures Chain(CellsInserted(cells, list, At(s, k - 1), At(s, k), x), other, t)
  {
    forall y | y in t && y in cells ensures CellsInserted(cells, list, At(s, k - 1), At(s, k), x)[y] == cells[y] {
      ChainMember(cells, other, t, y);
      InsertedElsewhere(cells, list, s, k, x, y);
    }
    ChainKept(cells, CellsInserted(cells, list, At(s, k - 1), At(s, k), x), other, t);
  }

  /** Removing a statement from its list keeps all lists. */
  lemma RemoveConsistent(cells: map<Statement, Cell>, ends: map<StatementList, Ends>, contents: map<StatementList, seq<Statement>>,
                         list: StatementList, k: nat)
    requires Consistent(cells, ends, contents) && list in contents && k < |contents[list]|
    ensures contents[list][k] in cells
    ensures Consistent(CellsRemoved(cells, contents[list][k]), ends[list := EndsOf(Removed(contents[list], k))],
                       contents[list := Removed(contents[list], k)])
  {
    assert Linked(cells, ends, contents, list);
    var s := contents[list];
    assert CellAt(cells, list, s, k);
    var t, cells' := Removed(s, k), CellsRemoved(cells, s[k]);
    var ends', contents' := ends[list := EndsOf(t)], contents[list := t];
    RemovedChain(cells, list, s, k);
    forall other | other in contents' ensures Linked(cells', ends', contents', other) {
      if other != list {
        assert Linked(cells, ends, contents, other);
        Disjoint(cells, list, s, other, contents[other]);
        OthersRemoved(cells, list, s, k, other, contents[other]);
      }
    }
    forall y | y in cells' ensures Placed(cells', contents', y) {
      if y != s[k] {
        assert Placed(cells, contents, y);
        RemovedElsewhere(cells, list, s, k, y);
        RemovedHolds(s, k);
        if y in s {
          ChainMember(cells, list, s, y);
        }
      }
    }
  }

  lemma RemovedHolds<T>(s: seq<T>, k: nat)
    requires k < |s|
    ensures forall y :: y in s && y != s[k] ==> y in Removed(s, k)
  {
    assert s == s[..k] + ([s[k]] + s[k + 1..]);
  }

  lemma OthersRemoved(cells: map<Statement, Cell>, list: StatementList, s: seq<Statement>, k: nat,
                      other: StatementList, t: seq<Statement>)
    requires Chain(cells, list, s) && k < |s| && s[k] in cells && Chain(cells, other, t) && (forall y :: y in t ==> y !in s)
    ensures Chain(CellsRemoved(cells, s[k]), other, t)
  {
    forall y | y in t && y in cells ensures CellsRemoved(cells, s[k])[y] == cells[y] {
      RemovedElsewhere(cells, list, s, k, y);
    }
    ChainKept(cells, CellsRemoved(cells, s[k]), other, t);
  }

  lemma InsertedEnds(s: seq<Statement>, k: nat, x: Statement)
    requires k <= |s|
    ensures EndsOf(Inserted(s, k, x))
         == Ends(if k == 0 then x else At(s, 0), if k == |s| then x else At(s, |s| - 1))
  {
  }

  lemma RemovedEnds(s: seq<Statement>, k: nat)
    requires k < |s|
    ensures EndsOf(Removed(s, k))
         == Ends(if k == 0 then At(s, 1) else At(s, 0), if k + 1 == |s| then At(s, k - 1) else At(s, |s| - 1))
  {
  }

  /** What the statements around a place in a list look like. */
  lemma Around(cells: map<Statement, Cell>, ends: map<StatementList, Ends>, contents: map<StatementList, seq<Statement>>,
               list: StatementList, k: nat)
    requires Consistent(cells, ends, contents) && list in contents && k <= |contents[list]|
    ensures var s := contents[list];
      && ends[list] == EndsOf(s)
      && (k > 0 ==> s[k - 1] in cells && cells[s[k - 1]] == Cell(list, At(s, k - 2), At(s, k)))
      && (k < |s| ==> s[k] in cells && cells[s[k]] == Cell(list, At(s, k - 1), At(s, k + 1)))
      && (k + 1 < |s| ==> s[k + 1] in cells && s[k + 1] != s[k])
      && (0 < k < |s| ==> s[k - 1] != s[k]) && (0 < k < |s| - 1 ==> s[k - 1] != s[k + 1])
      && (s != [] ==> s[0] in cells && s[|s| - 1] in cells)
  {
    assert Linked(cells, ends, contents, list);
    var s := contents[list];
    assert k > 0 ==> CellAt(cells, list, s, k - 1);
    assert k < |s| ==> CellAt(cells, list, s, k);
    assert k + 1 < |s| ==> CellAt(cells, list, s, k + 1);
    assert s != [] ==> CellAt(cells, list, s, 0) && CellAt(cells, list, s, |s| - 1);
  }

  ghost function EndsInserted(e: Ends, p: Statement?, n: Statement?, x: Statement): Ends {
    Ends(if p == null then x else e.first, if n == null then x else e.last)
  }

  ghost function EndsRemoved(e: Ends, x: Cell): Ends {
    Ends(if x.previous == null then x.next else e.first, if x.next == null then x.previous else e.last)
  }

  /** The statement before a place, as the list or the statement at the place knows it. */
  ghost function Before(cells: map<Statement, Cell>, ends: map<StatementList, Ends>, list: StatementList, n: Statement?): Statement?
    requires list in ends && (n != null ==> n in cells)
  {
    if n == null then ends[list].last else cells[n].previous
  }

  lemma InsertStep(cells: map<Statement, Cell>, ends: map<StatementList, Ends>, contents: map<StatementList, seq<Statement>>,
                   list: StatementList, k: nat, x: Statement)
    requires Consistent(cells, ends, contents) && list in contents && k <= |contents[list]|
    requires x in cells && cells[x].list == null
    ensures var n := At(contents[list], k);
      && cells[x] == DETACHED && (n != null ==> n in cells)
      && var p := Before(cells, ends, list, n);
         Consistent(CellsInserted(cells, list, p, n, x), ends[list := EndsInserted(ends[list], p, n, x)],
                    contents[list := Inserted(contents[list], k, x)])
  {
    assert Placed(cells, contents, x);
    Around(cells, ends, contents, list, k);
    InsertConsistent(cells, ends, contents, list, k, x);
    InsertedEnds(contents[list], k, x);
  }

  lemma RemoveStep(cells: map<Statement, Cell>, ends: map<StatementList, Ends>, contents: map<StatementList, seq<Statement>>,
                   list: StatementList, k: nat)
    requires Consistent(cells, ends, contents) && list in contents && k < |contents[list]|
    ensures var x := contents[list][k];
      x in cells && Consistent(CellsRemoved(cells, x), ends[list := EndsRemoved(ends[list], cells[x])],
                               contents[list := Removed(contents[list], k)])
  {
    Around(cells, ends, contents, list, k);
    RemoveConsistent(cells, ends, contents, list, k);
    RemovedEnds(contents[list], k);
  }

  /** Some statements detached, or handed over to another list. */
  ghost function Detached(cells: map<Statement, Cell>, xs: seq<Statement>): map<Statement, Cell> {
    map y | y in cells :: if y in xs then DETACHED else cells[y]
  }

  ghost function Relisted(cells: map<Statement, Cell>, xs: seq<Statement>, list: StatementList): map<Statement, Cell> {
    map y | y in cells :: if y in xs then cells[y].(list := list) else cells[y]
  }

  /** Detaching everything in a list empties it and keeps the others. */
  lemma ClearConsistent(cells: map<Statement, Cell>, ends: map<StatementList, Ends>, contents: map<StatementList, seq<Statement>>,
                        list: StatementList)
    requires Consistent(cells, ends, contents) && list in contents
    ensures Consistent(Detached(cells, contents[list]), ends[list := Ends(null, null)], contents[list := []])
  {
    assert Linked(cells, ends, contents, list);
    var s := contents[list];
    var cells', ends', contents' := Detached(cells, s), ends[list := Ends(null, null)], contents[list := []];
    forall other | other in contents' ensures Linked(cells', ends', contents', other) {
      if other != list {
        assert Linked(cells, ends, contents, other);
        Disjoint(cells, list, s, other, contents[other]);
        ChainKept(cells, cells', other, contents[other]);
      }
    }
    forall y | y in cells' ensures Placed(cells', contents', y) {
      assert Placed(cells, contents, y);
    }
  }

  ghost function Handed(contents: map<StatementList, seq<Statement>>, list: StatementList, that: StatementList)
    : map<StatementList, seq<Statement>>
    requires that in contents
  {
    contents[list := contents[that]][that := []]
  }

  ghost function EndsHanded(ends: map<StatementList, Ends>, list: StatementList, that: StatementList): map<StatementList, Ends>
    requires that in ends
  {
    ends[list := ends[that]][that := Ends(null, null)]
  }

  /** Handing everything over to an empty list keeps all lists. */
  lemma HandConsistent(cells: map<Statement, Cell>, ends: map<StatementList, Ends>, contents: map<StatementList, seq<Statement>>,
                       list: StatementList, that: StatementList)
    requires Consistent(cells, ends, contents) && list in contents && that in contents && contents[list] == [] && list != that
    ensures Consistent(Relisted(cells, contents[that], list), EndsHanded(ends, list, that), Handed(contents, list, that))
  {
    assert Linked(cells, ends, contents, that);
    var s := contents[that];
    var cells', ends', contents' := Relisted(cells, s, list), EndsHanded(ends, list, that), Handed(contents, list, that);
    forall other | other in contents' ensures Linked(cells', ends', contents', other) {
      if other == list {
        forall i: nat | i < |s| ensures CellAt(cells', list, s, i) {
          assert CellAt(cells, that, s, i);
        }
      } else if other != that {
        assert Linked(cells, ends, contents, other);
        Disjoint(cells, that, s, other, contents[other]);
        ChainKept(cells, cells', other, contents[other]);
      }
    }
    forall y | y in cells' ensures Placed(cells', contents', y) {
      assert Placed(cells, contents, y);
      if y in s {
        ChainMember(cells, that, s, y);
      }
    }
  }

  /** The links after StatementList::operator=: of the old statements only the first is detached. */
  ghost function CellsAssigned(cells: map<Statement, Cell>, contents: map<StatementList, seq<Statement>>, list: StatementList, that: StatementList)
    : map<Statement, Cell>
    requires list in contents && that in contents
  {
    var moved := if list == that then cells else Relisted(cells, contents[that], list);
    if contents[list] == [] then moved else Detached(moved, [contents[list][0]])
  }

  /** That leaves consistent lists exactly when there was at most one statement to give up. */
  lemma AssignExact(cells: map<Statement, Cell>, ends: map<StatementList, Ends>, contents: map<StatementList, seq<Statement>>,
                    list: StatementList, that: StatementList)
    requires Consistent(cells, ends, contents) && list in contents && that in contents
    ensures Consistent(CellsAssigned(cells, contents, list, that), EndsHanded(ends, list, that), Handed(contents, list, that))
       <==> |contents[list]| <= 1
  {
    var s, cells', contents' := contents[list], CellsAssigned(cells, contents, list, that), Handed(contents, list, that);
    assert Linked(cells, ends, contents, list);
    if |s| <= 1 {
      ClearConsistent(cells, ends, contents, list);
      var empty := contents[list := []];
      if list == that {
        assert contents' == empty && EndsHanded(ends, list, that) == ends[list := Ends(null, null)];
        assert s == [] ==> Detached(cells, s) == cells;
        assert |s| == 1 ==> s == [s[0]];
      } else {
        HandConsistent(Detached(cells, s), ends[list := Ends(null, null)], empty, list, that);
        assert Linked(cells, ends, contents, that);
        Disjoint(cells, list, s, that, contents[that]);
        assert Handed(empty, list, that) == contents';
        assert EndsHanded(ends[list := Ends(null, null)], list, that) == EndsHanded(ends, list, that);
        AssignedCells(cells, contents, list, that);
      }
    } else {
      var y := s[1];
      assert CellAt(cells, list, s, 1);
      assert y != s[0] && y in s;
      if list != that {
        assert Linked(cells, ends, contents, that);
        Disjoint(cells, that, contents[that], list, s);
      }
      assert cells'[y].list == list && y !in contents'[list];
      assert !Placed(cells', contents', y);
    }
  }

  lemma AssignedCells(cells: map<Statement, Cell>, contents: map<StatementList, seq<Statement>>, list: StatementList, that: StatementList)
    requires list in contents && that in contents && list != that && |contents[list]| <= 1
    requires forall x :: x in contents[that] ==> x !in contents[list]
    ensures Relisted(Detached(cells, contents[list]), contents[that], list) == CellsAssigned(cells, contents, list, that)
  {
    var s := contents[list];
    assert |s| == 1 ==> s == [s[0]];
    assert s == [] ==> Detached(cells, s) == cells;
  }

  /** Only two lists hold something else than before. */
  ghost predicate OthersSame(before: map<StatementList, seq<Statement>>, after: map<StatementList, seq<Statement>>,
                             list: StatementList, that: StatementList) {
    after.Keys == before.Keys && forall l :: l in before && l != list && l != that ==> after[l] == before[l]
  }

  lemma LastMoved<T>(s: seq<T>, t: seq<T>, k: nat)
    requires 0 < k <= |t|
    ensures [t[..k][k - 1]] + (t[k..] + s) == t[k - 1..] + s && t[..k][..k - 1] == t[..k - 1]
  {
  }

  lemma FirstMoved<T>(s: seq<T>, t: seq<T>, k: nat)
    requires k < |t|
    ensures (s + t[..k]) + [t[k..][0]] == s + t[..k + 1] && t[k..][1..] == t[k + 1..]
  {
  }

  /** The first `i` statements of `t` inserted at place `k` in `s`. */
  ghost function Spliced<T>(s: seq<T>, k: nat, t: seq<T>, i: nat): seq<T>
    requires k <= |s| && i <= |t|
  {
    s[..k] + (t[..i] + s[k..])
  }

  lemma SplicedNone<T>(s: seq<T>, k: nat, t: seq<T>)
    requires k <= |s|
    ensures Spliced(s, k, t, 0) == s && t[0..] == t
  {
  }

  lemma SplicedStep(s: seq<Statement>, k: nat, t: seq<Statement>, i: nat)
    requires k <= |s| && i < |t|
    ensures k + i <= |Spliced(s, k, t, i)| && At(Spliced(s, k, t, i), k + i) == At(s, k)
    ensures Inserted(Spliced(s, k, t, i), k + i, t[i..][0]) == Spliced(s, k, t, i + 1) && t[i..][1..] == t[i + 1..]
  {
  }

  lemma NextOf(cells: map<Statement, Cell>, list: StatementList, s: seq<Statement>, i: nat)
    requires Chain(cells, list, s) && i < |s|
    ensures s[i] in cells && s[i] !in s[..i] && cells[s[i]].next == At(s, i + 1)
  {
    assert CellAt(cells, list, s, i);
  }

  lemma DetachedMembers(cells: map<Statement, Cell>, s: seq<Statement>, list: StatementList)
    requires Chain(cells, list, s)
    ensures forall x :: x in s ==> x in Detached(cells, s) && Detached(cells, s)[x] == DETACHED
  {
    forall x | x in s ensures x in cells {
      ChainMember(cells, list, s, x);
    }
  }

  lemma RelistedStep(cells: map<Statement, Cell>, s: seq<Statement>, i: nat, list: StatementList)
    requires i < |s| && s[i] in cells && s[i] !in s[..i]
    ensures var r := Relisted(cells, s[..i], list);
      r[s[i]] == cells[s[i]] && r[s[i] := r[s[i]].(list := list)] == Relisted(cells, s[..i + 1], list)
  {
    assert s[..i + 1] == s[..i] + [s[i]];
  }

  lemma DetachedStep(cells: map<Statement, Cell>, s: seq<Statement>, i: nat)
    requires i < |s| && s[i] in cells
    ensures Detached(cells, s[..i])[s[i] := DETACHED] == Detached(cells, s[..i + 1])
  {
    assert s[..i + 1] == s[..i] + [s[i]];
  }

  // ----- The lists in place -----

  /** All statements and lists of one AST, with what each list holds. */
  class Arena {
    ghost var statements: set<Statement>
    ghost var lists: set<StatementList>
    ghost var contents: map<StatementList, seq<Statement>>

    ghost function Cells(): map<Statement, Cell>
      reads this`statements, statements`list, statements`previous, statements`next
    {
      map x | x in statements :: Cell(x.list, x.previous, x.next)
    }

    ghost function Heads(): map<StatementList, Ends>
      reads this`lists, lists`first, lists`last
    {
      map l | l in lists :: Ends(l.first, l.last)
    }

    ghost predicate Valid()
      reads this, statements, lists
    {
      Consistent(Cells(), Heads(), contents)
    }

    /** The lists now hold what `updated` says. */
    ghost method Adopt(updated: map<StatementList, seq<Statement>>)
      requires Consistent(Cells(), Heads(), updated)
      modifies this`contents
      ensures Valid() && contents == updated
    {
      contents := updated;
    }

    method LinkAtEnd(list: StatementList, statement: Statement)
      requires list in lists && statement in statements && Cells()[statement] == DETACHED
      requires list.last != null ==> list.last in statements && list.last != statement
      modifies statements, list
      ensures Cells() == CellsInserted(old(Cells()), list, old(list.last), null, statement)
      ensures Heads() == old(Heads()[list := EndsInserted(Heads()[list], list.last, null, statement)])
    {
      if list.last == null {
        list.first := statement;
      } else {
        statement.previous := list.last;
        list.last.next := statement;
      }
      list.last := statement;
      statement.list := list;
    }

    method LinkBetween(list: StatementList, prev: Statement, next: Statement, statement: Statement)
      requires list in lists && statement in statements && prev in statements && next in statements
      requires prev != next && statement !in {prev, next}
      modifies statements
      ensures Cells() == CellsInserted(old(Cells()), list, prev, next, statement) && Heads() == old(Heads())
    {
      prev.next := statement;
      next.previous := statement;
      statement.previous := prev;
      statement.next := next;
      statement.list := list;
    }

    method LinkAtFront(list: StatementList, statement: Statement)
      requires list in lists && statement in statements && Cells()[statement] == DETACHED
      requires list.first != null && list.first in statements && list.first != statement
      modifies statements, list
      ensures Cells() == CellsInserted(old(Cells()), list, null, old(list.first), statement)
      ensures Heads() == old(Heads()[list := EndsInserted(Heads()[list], null, list.first, statement)])
    {
      list.first.previous := statement;
      statement.next := list.first;
      list.first := statement;
      statement.list := list;
    }

    /** The writes of StatementList::insert before `location`, or at the end; the assignment of `list` ends each case. */
    method LinkBefore(list: StatementList, location: Statement?, statement: Statement)
      requires list in lists && statement in statements && Cells()[statement] == DETACHED
      requires location != null ==> location in statements && location != statement
      requires location != null && location.previous != null ==> location.previous in statements && location.previous !in {location, statement}
      requires location != null && location.previous == null ==> list.first == location
      requires location == null && list.last != null ==> list.last in statements && list.last != statement
      modifies statements, list
      ensures var p := old(Before(Cells(), Heads(), list, location));
        && Cells() == CellsInserted(old(Cells()), list, p, location, statement)
        && Heads() == old(Heads())[list := EndsInserted(old(Heads()[list]), p, location, statement)]
    {
      if location == null {
        LinkAtEnd(list, statement);
      } else if location.previous != null {
        LinkBetween(list, location.previous, location, statement);
      } else {
        LinkAtFront(list, statement);
      }
    }

    /** `(p == nullptr ? first : p->next) = n` */
    method SetAfter(list: StatementList, p: Statement?, n: Statement?)
      requires list in lists && (p != null ==> p in statements)
      modifies (if p == null then {} else {p})`next, list`first
      ensures Cells() == SetNext(old(Cells()), p, n)
      ensures Heads() == if p == null then old(Heads())[list := Ends(n, list.last)] else old(Heads())
      ensures p == null ==> list.first == n
    {
      if p == null {
        list.first := n;
      } else {
        p.next := n;
      }
    }

    /** `(n == nullptr ? last : n->previous) = p` */
    method SetBefore(list: StatementList, n: Statement?, p: Statement?)
      requires list in lists && (n != null ==> n in statements)
      modifies (if n == null then {} else {n})`previous, list`last
      ensures Cells() == SetPrevious(old(Cells()), n, p)
      ensures Heads() == if n == null then old(Heads())[list := Ends(list.first, p)] else old(Heads())
      ensures n == null ==> list.last == p
    {
      if n == null {
        list.last := p;
      } else {
        n.previous := p;
      }
    }

    method Detach(target: Statement)
      requires target in statements
      modifies target
      ensures Cells() == old(Cells())[target := DETACHED]
    {
      target.list := null;
      target.previous := null;
      target.next := null;
    }

    /** The writes of StatementList::erase. */
    method Unlink(list: StatementList, target: Statement)
      requires list in lists && target in statements
      requires target.previous != null ==> target.previous in statements && target.previous != target
      requires target.next != null ==> target.next in statements && target.next != target
      modifies statements, list
      ensures Cells() == CellsRemoved(old(Cells()), target)
      ensures Heads() == old(Heads())[list := EndsRemoved(old(Heads()[list]), old(Cells()[target]))]
      ensures target.list == null
    {
      var oldPrev := target.previous;
      var oldNext := target.next;
      SetAfter(list, oldPrev, oldNext);
      SetBefore(list, oldNext, oldPrev);
      Detach(target);
    }

    /** StatementList::insert before the statement at place `k`, or at the end for a null location. */
    method InsertAt(list: StatementList, location: Statement?, statement: Statement, ghost k: nat)
      requires Valid() && list in contents && k <= |contents[list]| && location == At(contents[list], k)
      requires statement in statements && statement.list == null
      modifies this`contents, statements, list
      ensures Valid() && contents == old(contents)[list := Inserted(old(contents)[list], k, statement)]
    {
      Around(Cells(), Heads(), contents, list, k);
      InsertStep(Cells(), Heads(), contents, list, k, statement);
      ghost var updated := contents[list := Inserted(contents[list], k, statement)];
      LinkBefore(list, location, statement);
      Adopt(updated);
    }

    method Insert(list: StatementList, location: Statement?, statement: Statement)
      requires Valid() && list in lists && statement in statements && statement.list == null
      requires location != null ==> location in statements && location.list == list
      modifies this`contents, statements, list
      ensures Valid() && list in old(contents) && (location != null ==> location in old(contents)[list])
      ensures var s := old(contents)[list];
              contents == old(contents)[list := Inserted(s, if location == null then |s| else IndexOf(s, location), statement)]
    {
      assert location != null ==> Placed(Cells(), contents, location);
      assert list in Heads();
      InsertAt(list, location, statement, if location == null then |contents[list]| else IndexOf(contents[list], location));
    }

    /** StatementList::erase */
    method Erase(statement: Statement)
      requires Valid() && statement in statements
      modifies this`contents, statements, lists
      ensures Valid()
      ensures old(statement.list) == null ==> contents == old(contents)
      ensures old(statement.list) != null ==>
                var list := old(statement.list);
                list in old(contents) && statement in old(contents)[list]
                && contents == old(contents)[list := Removed(old(contents)[list], IndexOf(old(contents)[list], statement))]
      ensures statement.list == null
    {
      assert Placed(Cells(), contents, statement);
      if statement.list != null {
        EraseFrom(statement.list, statement);
      }
    }

    method EraseFrom(list: StatementList, statement: Statement)
      requires Valid() && statement in statements && statement.list == list && list in lists
      modifies this`contents, statements, list
      ensures Valid() && statement.list == null
      ensures list in old(contents) && statement in old(contents)[list]
      ensures contents == old(contents)[list := Removed(old(contents)[list], IndexOf(old(contents)[list], statement))]
    {
      assert Placed(Cells(), contents, statement);
      EraseAt(list, statement, IndexOf(contents[list], statement));
    }

    method EraseAt(list: StatementList, statement: Statement, ghost k: nat)
      requires Valid() && list in contents && k < |contents[list]| && contents[list][k] == statement
      modifies this`contents, statements, list
      ensures Valid() && statement.list == null
      ensures contents == old(contents)[list := Removed(old(contents)[list], k)]
    {
      Around(Cells(), Heads(), contents, list, k);
      RemoveStep(Cells(), Heads(), contents, list, k);
      ghost var updated := contents[list := Removed(contents[list], k)];
      Unlink(list, statement);
      Adopt(updated);
    }

    /** The writes of pop_front. */
    method UnlinkFirst(list: StatementList, result: Statement)
      requires list in lists && result in statements && list.first == result && result.previous == null
      requires result.next != null ==> result.next in statements && result.next != result
      modifies statements, list
      ensures Cells() == CellsRemoved(old(Cells()), result)
      ensures Heads() == old(Heads())[list := EndsRemoved(old(Heads()[list]), old(Cells()[result]))]
      ensures result.list == null
    {
      ghost var next := result.next;
      SetAfter(list, null, result.next);
      SetBefore(list, list.first, null);
      Detach(result);
    }

    /** StatementList::pop_front */
    method PopFront(list: StatementList) returns (result: Statement)
      requires Valid() && list in lists && list.first != null
      modifies this`contents, statements, list
      ensures Valid() && list in old(contents) && old(contents)[list] != []
      ensures result == old(contents)[list][0] && result.list == null && result in statements
      ensures contents == old(contents)[list := old(contents)[list][1..]]
    {
      Around(Cells(), Heads(), contents, list, 0);
      RemoveStep(Cells(), Heads(), contents, list, 0);
      assert Removed(contents[list], 0) == contents[list][1..];
      ghost var updated := contents[list := contents[list][1..]];
      result := list.first;
      UnlinkFirst(list, result);
      Adopt(updated);
    }

    /** The writes of pop_back. */
    method UnlinkLast(list: StatementList, result: Statement)
      requires list in lists && result in statements && list.last == result && result.next == null
      requires result.previous != null ==> result.previous in statements && result.previous != result
      modifies statements, list
      ensures Cells() == CellsRemoved(old(Cells()), result)
      ensures Heads() == old(Heads())[list := EndsRemoved(old(Heads()[list]), old(Cells()[result]))]
      ensures result.list == null
    {
      SetBefore(list, null, result.previous);
      SetAfter(list, list.last, null);
      Detach(result);
    }

    /** StatementList::pop_back */
    method PopBack(list: StatementList) returns (result: Statement)
      requires Valid() && list in lists && list.last != null
      modifies this`contents, statements, list
      ensures Valid() && list in old(contents) && old(contents)[list] != []
      ensures var s := old(contents)[list];
        result == s[|s| - 1] && result.list == null && result in statements && contents == old(contents)[list := s[..|s| - 1]]
    {
      ghost var s := contents[list];
      Around(Cells(), Heads(), contents, list, |s|);
      Around(Cells(), Heads(), contents, list, |s| - 1);
      RemoveStep(Cells(), Heads(), contents, list, |s| - 1);
      assert Removed(s, |s| - 1) == s[..|s| - 1];
      ghost var updated := contents[list := s[..|s| - 1]];
      result := list.last;
      UnlinkLast(list, result);
      Adopt(updated);
    }

    /** The writes of push_front. */
    method LinkFirst(list: StatementList, statement: Statement)
      requires list in lists && statement in statements && Cells()[statement] == DETACHED
      requires list.first != null ==> list.first in statements && list.first != statement
      requires list.first == null <==> list.last == null
      modifies statements, list
      ensures Cells() == CellsInserted(old(Cells()), list, null, old(list.first), statement)
      ensures Heads() == old(Heads()[list := EndsInserted(Heads()[list], null, list.first, statement)])
    {
      statement.list := list;
      if list.first == null {
        list.last := statement;
      } else {
        list.first.previous := statement;
        statement.next := list.first;
      }
      list.first := statement;
    }

    /** StatementList::push_front */
    method PushFront(list: StatementList, statement: Statement)
      requires Valid() && list in lists && statement in statements && statement.list == null
      modifies this`contents, statements, list
      ensures Valid() && list in old(contents) && contents == old(contents)[list := [statement] + old(contents)[list]]
    {
      ghost var s := contents[list];
      Around(Cells(), Heads(), contents, list, 0);
      InsertStep(Cells(), Heads(), contents, list, 0, statement);
      assert Inserted(s, 0, statement) == [statement] + s;
      ghost var updated := contents[list := [statement] + s];
      LinkFirst(list, statement);
      Adopt(updated);
    }

    /** StatementList::push_back */
    method PushBack(list: StatementList, statement: Statement)
      requires Valid() && list in lists && statement in statements && statement.list == null
      modifies this`contents, statements, list
      ensures Valid() && list in old(contents) && contents == old(contents)[list := old(contents)[list] + [statement]]
    {
      ghost var s := contents[list];
      Around(Cells(), Heads(), contents, list, |s|);
      InsertStep(Cells(), Heads(), contents, list, |s|, statement);
      assert Inserted(s, |s|, statement) == s + [statement];
      ghost var updated := contents[list := s + [statement]];
      LinkAtEnd(list, statement);
      Adopt(updated);
    }

    /** StatementList::empty says whether the list holds nothing. */
    lemma Empty(list: StatementList)
      requires Valid() && list in lists
      ensures contents.Keys == lists && (list.first == null <==> contents[list] == []) && (list.last == null <==> contents[list] == [])
    {
      Around(Cells(), Heads(), contents, list, 0);
    }

    /** `push_front(that.pop_back())` */
    method MoveLast(list: StatementList, that: StatementList)
      requires Valid() && list in lists && that in lists && list != that && that.first != null
      modifies this`contents, statements, list, that
      ensures Valid() && list in old(contents) && that in old(contents) && old(contents)[that] != []
      ensures var s, t := old(contents)[list], old(contents)[that];
        OthersSame(old(contents), contents, list, that) && contents[list] == [t[|t| - 1]] + s && contents[that] == t[..|t| - 1]
    {
      Empty(that);
      var statement := PopBack(that);
      PushFront(list, statement);
    }

    /** StatementList::push_front of a whole list. */
    method PushFrontAll(list: StatementList, that: StatementList)
      requires Valid() && list in lists && that in lists && list != that
      modifies this`contents, statements, list, that
      ensures Valid() && list in old(contents) && that in old(contents)
      ensures OthersSame(old(contents), contents, list, that)
      ensures contents[list] == old(contents)[that] + old(contents)[list] && contents[that] == []
    {
      Empty(list);
      Empty(that);
      ghost var s, t, k: nat := contents[list], contents[that], |contents[that]|;
      assert t[k..] + s == s && t[..k] == t;
      while that.first != null
        invariant Valid() && k <= |t| && OthersSame(old(contents), contents, list, that)
        invariant contents[list] == t[k..] + s && contents[that] == t[..k]
        decreases k
      {
        Empty(that);
        MoveLast(list, that);
        LastMoved(s, t, k);
        k := k - 1;
      }
      Empty(that);
      assert t[0..] == t && t[..0] == [];
    }

    /** `push_back(that.pop_front())` */
    method MoveFirst(list: StatementList, that: StatementList)
      requires Valid() && list in lists && that in lists && list != that && that.first != null
      modifies this`contents, statements, list, that
      ensures Valid() && list in old(contents) && that in old(contents) && old(contents)[that] != []
      ensures var s, t := old(contents)[list], old(contents)[that];
        OthersSame(old(contents), contents, list, that) && contents[list] == s + [t[0]] && contents[that] == t[1..]
    {
      Empty(that);
      var statement := PopFront(that);
      PushBack(list, statement);
    }

    /** StatementList::push_back of a whole list. */
    method PushBackAll(list: StatementList, that: StatementList)
      requires Valid() && list in lists && that in lists && list != that
      modifies this`contents, statements, list, that
      ensures Valid() && list in old(contents) && that in old(contents)
      ensures OthersSame(old(contents), contents, list, that)
      ensures contents[list] == old(contents)[list] + old(contents)[that] && contents[that] == []
    {
      Empty(list);
      Empty(that);
      ghost var s, t, k: nat := contents[list], contents[that], 0;
      assert s + t[..k] == s && t[k..] == t;
      while that.first != null
        invariant Valid() && k <= |t| && OthersSame(old(contents), contents, list, that)
        invariant contents[list] == s + t[..k] && contents[that] == t[k..]
        decreases |t| - k
      {
        Empty(that);
        MoveFirst(list, that);
        FirstMoved(s, t, k);
        k := k + 1;
      }
      Empty(that);
      assert t[..|t|] == t && t[|t|..] == [];
    }

    /** One turn of the loop that inserts a whole list before the statement at place `k`. */
    method InsertFirst(list: StatementList, location: Statement?, that: StatementList, ghost k: nat)
      requires Valid() && list in lists && that in lists && list != that && that.first != null
      requires list in contents && k <= |contents[list]| && location == At(contents[list], k)
      modifies this`contents, statements, list, that
      ensures Valid() && that in old(contents) && old(contents)[that] != []
      ensures var s, t := old(contents)[list], old(contents)[that];
        OthersSame(old(contents), contents, list, that) && contents[list] == Inserted(s, k, t[0]) && contents[that] == t[1..]
    {
      Around(Cells(), Heads(), contents, that, 0);
      var first := that.first;
      EraseAt(that, first, 0);
      InsertAt(list, location, first, k);
      assert Removed(old(contents)[that], 0) == old(contents)[that][1..];
    }

    method InsertNext(list: StatementList, location: Statement?, that: StatementList,
                      ghost s: seq<Statement>, ghost k: nat, ghost t: seq<Statement>, ghost i: nat)
      requires Valid() && list in lists && that in lists && list != that && that.first != null
      requires k <= |s| && location == At(s, k) && i < |t|
      requires list in contents && that in contents && contents[list] == Spliced(s, k, t, i) && contents[that] == t[i..]
      modifies this`contents, statements, list, that
      ensures Valid() && OthersSame(old(contents), contents, list, that)
      ensures contents[list] == Spliced(s, k, t, i + 1) && contents[that] == t[i + 1..]
    {
      SplicedStep(s, k, t, i);
      InsertFirst(list, location, that, k + i);
    }

    method InsertAllAt(list: StatementList, location: Statement?, that: StatementList, ghost k: nat)
      requires Valid() && list in contents && that in contents && list != that
      requires k <= |contents[list]| && location == At(contents[list], k)
      modifies this`contents, statements, list, that
      ensures Valid() && OthersSame(old(contents), contents, list, that)
      ensures contents[list] == Spliced(old(contents)[list], k, old(contents)[that], |old(contents)[that]|) && contents[that] == []
    {
      assert list in Heads() && that in Heads();
      Empty(that);
      ghost var s, t, i: nat := contents[list], contents[that], 0;
      SplicedNone(s, k, t);
      while that.first != null
        invariant Valid() && i <= |t| && OthersSame(old(contents), contents, list, that)
        invariant contents[list] == Spliced(s, k, t, i) && contents[that] == t[i..]
        decreases |t| - i
      {
        Empty(that);
        InsertNext(list, location, that, s, k, t, i);
        i := i + 1;
      }
      Empty(that);
    }

    /** StatementList::insert of a whole list before `location`, or at the end. */
    method InsertAll(list: StatementList, location: Statement?, that: StatementList)
      requires Valid() && list in lists && that in lists && list != that
      requires location != null ==> location in statements && location.list == list
      modifies this`contents, statements, list, that
      ensures Valid() && list in old(contents) && that in old(contents) && OthersSame(old(contents), contents, list, that)
      ensures location != null ==> location in old(contents)[list]
      ensures var s, t := old(contents)[list], old(contents)[that];
              contents[list] == Spliced(s, if location == null then |s| else IndexOf(s, location), t, |t|) && contents[that] == []
    {
      assert location != null ==> Placed(Cells(), contents, location);
      assert list in Heads() && that in Heads();
      InsertAllAt(list, location, that, if location == null then |contents[list]| else IndexOf(contents[list], location));
    }

    /** StatementList::clear */
    method Clear(list: StatementList)
      requires Valid() && list in lists
      modifies this`contents, statements, list
      ensures Valid() && list in old(contents) && contents == old(contents)[list := []]
      ensures forall x :: x in old(contents)[list] ==> x in Cells() && Cells()[x] == DETACHED
    {
      assert list in Heads();
      ClearConsistent(Cells(), Heads(), contents, list);
      ghost var s, updated := contents[list], contents[list := []];
      assert Linked(Cells(), Heads(), contents, list);
      DetachAll(list.first, s, list);
      DetachedMembers(old(Cells()), s, list);
      SetEnds(list, null, null);
      Adopt(updated);
    }

    method SetEnds(list: StatementList, first: Statement?, last: Statement?)
      requires list in lists
      modifies list
      ensures Cells() == old(Cells()) && Heads() == old(Heads())[list := Ends(first, last)]
      ensures list.first == first && list.last == last
    {
      list.first := first;
      list.last := last;
    }

    /** The loop of clear. */
    method DetachAll(first: Statement?, ghost s: seq<Statement>, ghost list: StatementList)
      requires first == At(s, 0) && Chain(Cells(), list, s)
      modifies statements
      ensures Cells() == Detached(old(Cells()), s)
    {
      var iter := first;
      ghost var cells, i: nat := Cells(), 0;
      assert s[..0] == [] && Detached(cells, []) == cells;
      while iter != null
        invariant i <= |s| && iter == At(s, i) && Cells() == Detached(cells, s[..i])
        decreases |s| - i
      {
        var statement := iter;
        NextOf(cells, list, s, i);
        iter := statement.next;
        Detach(statement);
        DetachedStep(cells, s, i);
        i := i + 1;
      }
      assert s[..|s|] == s;
    }

    /** The loop that tells statements which list they are in. */
    method RelistAll(list: StatementList, first: Statement?, ghost s: seq<Statement>, ghost that: StatementList)
      requires first == At(s, 0) && Chain(Cells(), that, s)
      modifies statements`list
      ensures Cells() == Relisted(old(Cells()), s, list)
    {
      var stmt := first;
      ghost var cells, i: nat := Cells(), 0;
      assert s[..0] == [] && Relisted(cells, [], list) == cells;
      while stmt != null
        invariant i <= |s| && stmt == At(s, i) && Cells() == Relisted(cells, s[..i], list)
        decreases |s| - i
      {
        NextOf(cells, that, s, i);
        RelistedStep(cells, s, i, list);
        Relist(stmt, list);
        stmt := stmt.next;
        i := i + 1;
      }
      assert s[..|s|] == s;
    }

    method Relist(statement: Statement, list: StatementList)
      requires statement in statements
      modifies statement`list
      ensures Cells() == old(Cells()[statement := Cells()[statement].(list := list)])
    {
      statement.list := list;
    }

    /** The constructor of StatementList that takes another list's statements. */
    method MoveConstruct(list: StatementList, that: StatementList)
      requires Valid() && list in lists && that in lists && list != that && list.first == null
      modifies this`contents, statements, list, that
      ensures Valid() && that in old(contents) && contents == Handed(old(contents), list, that)
    {
      Empty(list);
      Empty(that);
      HandConsistent(Cells(), Heads(), contents, list, that);
      assert Linked(Cells(), Heads(), contents, that);
      ghost var s, updated := contents[that], Handed(contents, list, that);
      TakeEnds(list, that);
      RelistAll(list, list.first, s, that);
      Adopt(updated);
    }

    /**
     StatementList::operator=. The loop over the statements to give up sets `next` before it follows it. The lists are
     consistent afterwards exactly when there was at most one such statement; a list that is assigned to itself is lost.
     */
    method MoveAssign(list: StatementList, that: StatementList)
      requires Valid() && list in lists && that in lists
      modifies this`contents, statements, list, that
      ensures list in old(contents) && that in old(contents) && contents == Handed(old(contents), list, that)
      ensures Cells() == CellsAssigned(old(Cells()), old(contents), list, that)
      ensures Heads() == EndsHanded(old(Heads()), list, that)
      ensures Valid() <==> |old(contents)[list]| <= 1
    {
      assert list in Heads() && that in Heads();
      AssignExact(Cells(), Heads(), contents, list, that);
      assert Linked(Cells(), Heads(), contents, that) && Linked(Cells(), Heads(), contents, list);
      Around(Cells(), Heads(), contents, list, 0);
      ghost var updated := Handed(contents, list, that);
      Assign(list, that, contents);
      AdoptAny(updated);
    }

    ghost method AdoptAny(updated: map<StatementList, seq<Statement>>)
      modifies this`contents
      ensures contents == updated && (Valid() <==> Consistent(Cells(), Heads(), updated))
    {
      contents := updated;
    }

    /** The writes of operator=. */
    method Assign(list: StatementList, that: StatementList, ghost before: map<StatementList, seq<Statement>>)
      requires list in lists && that in lists && list in before && that in before
      requires Linked(Cells(), Heads(), before, that) && list.first == At(before[list], 0)
      requires before[list] != [] ==> before[list][0] in statements
      modifies statements, list, that
      ensures Cells() == CellsAssigned(old(Cells()), before, list, that)
      ensures Heads() == EndsHanded(old(Heads()), list, that)
    {
      var oldFirst := list.first;
      TakeEnds(list, that);
      AssignRelist(list, that, list.first, before[that]);
      AssignDetach(oldFirst, before[list]);
    }

    method TakeEnds(list: StatementList, that: StatementList)
      requires list in lists && that in lists
      modifies list, that
      ensures Cells() == old(Cells()) && Heads() == EndsHanded(old(Heads()), list, that)
      ensures list.first == if list == that then null else old(that.first)
    {
      SetEnds(list, that.first, that.last);
      SetEnds(that, null, null);
    }

    method AssignRelist(list: StatementList, that: StatementList, first: Statement?, ghost t: seq<Statement>)
      requires Chain(Cells(), that, t) && first == if list == that then null else At(t, 0)
      modifies statements`list
      ensures Cells() == if list == that then old(Cells()) else Relisted(old(Cells()), t, list)
    {
      if list == that {
        assert first == null;
        RelistAll(list, first, [], that);
        assert Relisted(old(Cells()), [], list) == old(Cells());
      } else {
        RelistAll(list, first, t, that);
      }
    }

    /** The second loop of operator=, which stops after the first statement. */
    method AssignDetach(oldFirst: Statement?, ghost s: seq<Statement>)
      requires oldFirst == At(s, 0) && (s != [] ==> s[0] in statements)
      modifies statements
      ensures Cells() == if s == [] then old(Cells()) else Detached(old(Cells()), [s[0]])
    {
      var stmt := oldFirst;
      ghost var turns := 0;
      ghost var cells := Cells();
      while stmt != null
        invariant turns <= 1 && stmt == (if turns == 0 then oldFirst else null)
        invariant Cells() == if turns == 0 || s == [] then cells else Detached(cells, [s[0]])
        decreases 1 - turns
      {
        Detach(stmt);
        assert Cells()[stmt] == DETACHED && Cells() == Detached(cells, [s[0]]);
        stmt := stmt.next;
        turns := turns + 1;
      }
    }
  }
}
