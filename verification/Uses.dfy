/**
 Uses: the operand slots of expressions and statements. A slot is a link in the list of all uses of the expression it
 refers to; the word with its backward link also holds the slot's waymark.
 */
module Uses {

  datatype Tag = Zero | One | Stop | FullStop

  /** One word: a pointer with a two-bit tag beside it. */
  datatype TaggedPointer = TaggedPointer(pointer: Use?, tag: Tag)

  class Use {
    var prev: TaggedPointer
    var next: Use?
    var expression: Node?

    constructor (tag: Tag)
      ensures prev == TaggedPointer(null, tag) && next == null && expression == null
    {
      prev := TaggedPointer(null, tag);
      next := null;
      expression := null;
    }
  }

  /** An expression or statement: its operand slots, and the first of the uses that refer to it. */
  class Node {
    const operands: seq<Use>
    var firstUse: Use?

    constructor (operands: seq<Use>)
      ensures this.operands == operands && firstUse == null
    {
      this.operands := operands;
      firstUse := null;
    }
  }

  ghost function Without<T>(s: seq<T>, x: T): seq<T> {
    if s == [] then [] else (if s[0] == x then [] else [s[0]]) + Without(s[1..], x)
  }

  ghost function Reverse<T>(s: seq<T>): seq<T> {
    if s == [] then [] else Reverse(s[1..]) + [s[0]]
  }

  ghost predicate Distinct<T>(s: seq<T>) {
    forall i, j :: 0 <= i < j < |s| ==> s[i] != s[j]
  }

  ghost function IndexOf<T>(s: seq<T>, x: T): (k: nat)
    requires x in s
    ensures k < |s| && s[k] == x
  {
    if s[0] == x then 0 else 1 + IndexOf(s[1..], x)
  }

  lemma {:induction false} WithoutNone<T>(s: seq<T>, x: T)
    requires x !in s
    ensures Without(s, x) == s
    decreases |s|
  {
    if s != [] {
      WithoutNone(s[1..], x);
      assert [s[0]] + s[1..] == s;
    }
  }

  lemma {:induction false} WithoutAt<T>(s: seq<T>, k: nat)
    requires k < |s| && Distinct(s)
    ensures Without(s, s[k]) == s[..k] + s[k + 1..]
    decreases |s|
  {
    var x, rest := s[k], s[1..];
    if k == 0 {
      WithoutNone(rest, x);
    } else {
      assert rest[k - 1] == x && Distinct(rest);
      WithoutAt(rest, k - 1);
      assert Without(s, x) == [s[0]] + Without(rest, x);
      assert [s[0]] + (rest[..k - 1] + rest[k..]) == s[..k] + s[k + 1..];
    }
  }

  /** What a slot stores apart from its tag. */
  datatype Link = Link(prev: Use?, next: Use?, expression: Node?)

  ghost function At(list: seq<Use>, i: int): Use? {
    if 0 <= i < |list| then list[i] else null
  }

  /** The `i`th use of `e` refers to `e`, and to its neighbours in the list. */
  ghost predicate LinkedAt(links: map<Use, Link>, e: Node, list: seq<Use>, i: nat)
    requires i < |list|
  {
    list[i] in links && links[list[i]] == Link(At(list, i - 1), At(list, i + 1), e)
  }

  ghost predicate IsChain(links: map<Use, Link>, e: Node, list: seq<Use>) {
    Distinct(list) && forall i: nat :: i < |list| ==> LinkedAt(links, e, list, i)
  }

  /** Each node's list holds exactly the slots that refer to it; slot `x` is in none of them. */
  ghost predicate Consistent(x: Use?, links: map<Use, Link>, firsts: map<Node, Use?>, lists: map<Node, seq<Use>>) {
    && firsts.Keys == lists.Keys
    && (forall e {:trigger Listed(x, links, firsts, lists, e)} :: e in lists ==> Listed(x, links, firsts, lists, e))
    && (forall u {:trigger Placed(u, links[u], lists)} :: u in links && u != x ==> Placed(u, links[u], lists))
  }

  ghost predicate Listed(x: Use?, links: map<Use, Link>, firsts: map<Node, Use?>, lists: map<Node, seq<Use>>, e: Node)
    requires e in firsts && e in lists
  {
    && firsts[e] == At(lists[e], 0)
    && IsChain(links, e, lists[e])
    && (x == null || x !in lists[e])
  }

  ghost predicate Placed(u: Use, link: Link, lists: map<Node, seq<Use>>) {
    if link.expression == null then link.prev == null && link.next == null
    else link.expression in lists && u in lists[link.expression]
  }

  lemma ChainMember(links: map<Use, Link>, e: Node, list: seq<Use>, u: Use)
    requires IsChain(links, e, list) && u in list
    ensures u in links && links[u].expression == e
  {
    assert LinkedAt(links, e, list, IndexOf(list, u));
  }

  /** A chain stays one when links of other slots change. */
  lemma ChainKept(links: map<Use, Link>, links': map<Use, Link>, e: Node, list: seq<Use>)
    requires IsChain(links, e, list)
    requires forall u :: u in list && u in links ==> u in links' && links'[u] == links[u]
    ensures IsChain(links', e, list)
  {
    forall i: nat | i < |list| ensures LinkedAt(links', e, list, i) {
      assert LinkedAt(links, e, list, i);
    }
  }

  /** The links after the neighbours of `use` have been linked to each other. */
  ghost function Bypassed(links: map<Use, Link>, use: Use): map<Use, Link>
    requires use in links
  {
    var p, n := links[use].prev, links[use].next;
    var links := if p != null && p in links then links[p := links[p].(next := n)] else links;
    if n != null && n in links then links[n := links[n].(prev := p)] else links
  }

  lemma BypassedChain(links: map<Use, Link>, e: Node, list: seq<Use>, k: nat)
    requires IsChain(links, e, list) && k < |list| && list[k] in links
    ensures IsChain(Bypassed(links, list[k]), e, list[..k] + list[k + 1..])
  {
    var rest := list[..k] + list[k + 1..];
    assert LinkedAt(links, e, list, k);
    forall i: nat | i < |rest| ensures LinkedAt(Bypassed(links, list[k]), e, rest, i) {
      var j := if i < k then i else i + 1;
      assert LinkedAt(links, e, list, j);
    }
  }

  /** Linking the neighbours of a slot changes no slot outside its list. */
  lemma BypassedElsewhere(links: map<Use, Link>, e: Node, list: seq<Use>, k: nat, u: Use)
    requires IsChain(links, e, list) && k < |list| && list[k] in links && u in links
    ensures Bypassed(links, list[k])[u].expression == links[u].expression
    ensures u !in list ==> Bypassed(links, list[k])[u] == links[u]
  {
    assert LinkedAt(links, e, list, k);
  }

  /** Unlinking takes the slot out of its list and keeps all others. */
  lemma UnlinkedConsistent(use: Use, links: map<Use, Link>, firsts: map<Node, Use?>, lists: map<Node, seq<Use>>, e: Node, k: nat)
    requires Consistent(null, links, firsts, lists) && use in links && links[use].expression == e
    requires e in lists && k < |lists[e]| && lists[e][k] == use
    ensures Consistent(use, Bypassed(links, use),
                       if links[use].prev == null then firsts[e := links[use].next] else firsts,
                       lists[e := lists[e][..k] + lists[e][k + 1..]])
  {
    assert Placed(use, links[use], lists);
    assert Listed(null, links, firsts, lists, e);
    var list, links' := lists[e], Bypassed(links, use);
    var rest := list[..k] + list[k + 1..];
    var firsts' := if links[use].prev == null then firsts[e := links[use].next] else firsts;
    assert LinkedAt(links, e, list, k);
    BypassedChain(links, e, list, k);
    forall n | n in lists ensures Listed(use, links', firsts', lists[e := rest], n) {
      if n != e {
        assert Listed(null, links, firsts, lists, n);
        OtherChain(links, e, list, k, n, lists[n]);
      }
    }
    forall u | u in links' && u != use ensures Placed(u, links'[u], lists[e := rest]) {
      assert Placed(u, links[u], lists);
      StillPlaced(links, e, lists, k, u);
    }
  }

  lemma StillPlaced(links: map<Use, Link>, e: Node, lists: map<Node, seq<Use>>, k: nat, u: Use)
    requires e in lists && IsChain(links, e, lists[e]) && k < |lists[e]| && lists[e][k] in links
    requires u in links && u != lists[e][k] && Placed(u, links[u], lists)
    ensures Placed(u, Bypassed(links, lists[e][k])[u], lists[e := lists[e][..k] + lists[e][k + 1..]])
  {
    var list := lists[e];
    BypassedElsewhere(links, e, list, k, u);
    if u in list {
      ChainMember(links, e, list, u);
      var j := IndexOf(list, u);
      assert u == (list[..k] + list[k + 1..])[if j < k then j else j - 1];
    }
  }

  /** The words of a placed slot point into the AST. */
  lemma NeighboursKnown(use: Use, links: map<Use, Link>, firsts: map<Node, Use?>, lists: map<Node, seq<Use>>)
    requires Consistent(null, links, firsts, lists) && use in links
    ensures var link := links[use];
      && (link.prev != null ==> link.prev in links && link.prev != use)
      && (link.next != null ==> link.next in links && link.next != use && link.next != link.prev)
      && (link.expression != null ==> link.expression in firsts)
      && (link.prev == null && link.expression != null ==> firsts[link.expression] == use)
      && (link.expression == null ==> link.prev == null && link.next == null)
  {
    assert Placed(use, links[use], lists);
    var e := links[use].expression;
    if e != null {
      assert Listed(null, links, firsts, lists, e);
      var list := lists[e];
      var k := IndexOf(list, use);
      assert LinkedAt(links, e, list, k);
      assert k > 0 ==> LinkedAt(links, e, list, k - 1);
      assert k + 1 < |list| ==> LinkedAt(links, e, list, k + 1);
    }
  }

  lemma OtherChain(links: map<Use, Link>, e: Node, list: seq<Use>, k: nat, n: Node, other: seq<Use>)
    requires IsChain(links, e, list) && k < |list| && list[k] in links
    requires IsChain(links, n, other) && n != e
    ensures IsChain(Bypassed(links, list[k]), n, other) && list[k] !in other
  {
    assert LinkedAt(links, e, list, k);
    forall u | u in other ensures u !in list {
      ChainMember(links, n, other, u);
      if u in list {
        ChainMember(links, e, list, u);
      }
    }
    ChainKept(links, Bypassed(links, list[k]), n, other);
  }

  /** The links after `use` has been put in front of the list that starts at `first`. */
  ghost function Pushed(links: map<Use, Link>, use: Use, target: Node?, first: Use?): map<Use, Link> {
    var links := links[use := Link(null, first, target)];
    if first != null && first in links then links[first := links[first].(prev := use)] else links
  }

  lemma PushedChain(links: map<Use, Link>, use: Use, e: Node, list: seq<Use>)
    requires IsChain(links, e, list) && use !in list
    ensures IsChain(Pushed(links, use, e, At(list, 0)), e, [use] + list)
  {
    var longer := [use] + list;
    forall i: nat | i < |longer| ensures LinkedAt(Pushed(links, use, e, At(list, 0)), e, longer, i) {
      assert i > 0 ==> LinkedAt(links, e, list, i - 1);
    }
  }

  /** Linking a slot into a list changes no slot outside that list. */
  lemma PushedElsewhere(links: map<Use, Link>, use: Use, e: Node, list: seq<Use>, u: Use)
    requires IsChain(links, e, list) && u in links && u != use
    ensures Pushed(links, use, e, At(list, 0))[u].expression == links[u].expression
    ensures u !in list ==> Pushed(links, use, e, At(list, 0))[u] == links[u]
  {
    assert list != [] ==> LinkedAt(links, e, list, 0);
  }

  /** Linking puts the slot first in the list of its target and keeps all others. */
  lemma PushedConsistent(use: Use, e: Node, links: map<Use, Link>, firsts: map<Node, Use?>, lists: map<Node, seq<Use>>)
    requires Consistent(use, links, firsts, lists) && e in lists
    ensures Consistent(null, Pushed(links, use, e, firsts[e]), firsts[e := use], lists[e := [use] + lists[e]])
  {
    assert Listed(use, links, firsts, lists, e);
    var list := lists[e];
    var longer, links' := [use] + list, Pushed(links, use, e, firsts[e]);
    PushedChain(links, use, e, list);
    forall n | n in lists ensures Listed(null, links', firsts[e := use], lists[e := longer], n) {
      if n != e {
        assert Listed(use, links, firsts, lists, n);
        forall u | u in lists[n] ensures u !in list && u in links && links'[u] == links[u] {
          ChainMember(links, n, lists[n], u);
          if u in list {
            ChainMember(links, e, list, u);
          }
          PushedElsewhere(links, use, e, list, u);
        }
        ChainKept(links, links', n, lists[n]);
      }
    }
    forall u | u in links' ensures Placed(u, links'[u], lists[e := longer]) {
      if u == use {
        assert longer[0] == use;
      } else {
        assert list != [] ==> LinkedAt(links, e, list, 0);
        assert Placed(u, links[u], lists);
        PushedElsewhere(links, use, e, list, u);
        if u in list {
          ChainMember(links, e, list, u);
          assert u == longer[IndexOf(list, u) + 1];
        }
      }
    }
  }

  /** A slot that refers to nothing is in no list. */
  lemma ClearedConsistent(use: Use, links: map<Use, Link>, firsts: map<Node, Use?>, lists: map<Node, seq<Use>>)
    requires Consistent(use, links, firsts, lists)
    ensures Consistent(null, Pushed(links, use, null, null), firsts, lists)
  {
    var links' := Pushed(links, use, null, null);
    forall n | n in lists ensures Listed(null, links', firsts, lists, n) {
      assert Listed(use, links, firsts, lists, n);
      ChainKept(links, links', n, lists[n]);
    }
    forall u | u in links' ensures Placed(u, links'[u], lists) {
      assert u != use ==> Placed(u, links[u], lists);
    }
  }

  lemma FirstKnown(x: Use, e: Node?, links: map<Use, Link>, firsts: map<Node, Use?>, lists: map<Node, seq<Use>>)
    requires Consistent(x, links, firsts, lists)
    ensures e != null && e in firsts && firsts[e] != null ==> firsts[e] in links
  {
    if e != null && e in lists {
      assert Listed(x, links, firsts, lists, e);
      assert lists[e] != [] ==> LinkedAt(links, e, lists[e], 0);
    }
  }

  lemma NotListed(use: Use, links: map<Use, Link>, firsts: map<Node, Use?>, lists: map<Node, seq<Use>>)
    requires Consistent(null, links, firsts, lists) && use in links && links[use].expression == null
    ensures Consistent(use, links, firsts, lists)
  {
    forall u | u in links && u != use ensures Placed(u, links[u], lists) {
    }
    forall e | e in lists ensures Listed(use, links, firsts, lists, e) {
      assert Listed(null, links, firsts, lists, e);
      if use in lists[e] {
        ChainMember(links, e, lists[e], use);
      }
    }
  }

  /** The use lists after one slot stops referring to `before` and starts to refer to `after`. */
  ghost function Moved(lists: map<Node, seq<Use>>, use: Use, before: Node?, after: Node?): map<Node, seq<Use>>
  {
    if before == after then lists else
      var less := if before == null || before !in lists then lists else lists[before := Without(lists[before], use)];
      if after == null || after !in less then less else less[after := [use] + less[after]]
  }

  lemma MovedTwice(lists: map<Node, seq<Use>>, use: Use, before: Node?, after: Node?)
    requires before != after
    ensures Moved(Moved(lists, use, before, null), use, null, after) == Moved(lists, use, before, after)
  {
  }

  lemma {:induction false} DistinctSize<T>(s: seq<T>)
    requires Distinct(s)
    ensures |set x | x in s| == |s|
    decreases |s|
  {
    if s != [] {
      DistinctSize(s[1..]);
      assert (set x | x in s) == (set x | x in s[1..]) + {s[0]};
      assert s[0] !in s[1..];
    }
  }

  ghost function FirstBypassed(links: map<Use, Link>, firsts: map<Node, Use?>, use: Use): map<Node, Use?>
    requires use in links
  {
    var link := links[use];
    if link.prev == null && link.expression != null then firsts[link.expression := link.next] else firsts
  }

  ghost function FirstPushed(firsts: map<Node, Use?>, use: Use, target: Node?): map<Node, Use?> {
    if target == null then firsts else firsts[target := use]
  }

  lemma UnlinkStep(use: Use, links: map<Use, Link>, firsts: map<Node, Use?>, lists: map<Node, seq<Use>>)
    requires Consistent(null, links, firsts, lists) && use in links
    ensures Consistent(use, Bypassed(links, use), FirstBypassed(links, firsts, use),
                       Moved(lists, use, links[use].expression, null))
  {
    assert Placed(use, links[use], lists);
    var e := links[use].expression;
    if e == null {
      NotListed(use, links, firsts, lists);
    } else {
      assert Listed(null, links, firsts, lists, e);
      var k := IndexOf(lists[e], use);
      UnlinkedConsistent(use, links, firsts, lists, e, k);
      WithoutAt(lists[e], k);
    }
  }

  lemma LinkStep(use: Use, target: Node?, links: map<Use, Link>, firsts: map<Node, Use?>, lists: map<Node, seq<Use>>)
    requires Consistent(use, links, firsts, lists) && (target != null ==> target in firsts)
    ensures Consistent(null, Pushed(links, use, target, if target == null then null else firsts[target]),
                       FirstPushed(firsts, use, target), Moved(lists, use, null, target))
  {
    if target == null {
      ClearedConsistent(use, links, firsts, lists);
    } else {
      PushedConsistent(use, target, links, firsts, lists);
    }
  }

  lemma UserListed(links: map<Use, Link>, firsts: map<Node, Use?>, lists: map<Node, seq<Use>>, e: Node, u: Use)
    requires Consistent(null, links, firsts, lists) && e in lists
    ensures firsts[e] == At(lists[e], 0) && Distinct(lists[e])
    ensures u in links && links[u].expression == e <==> u in lists[e]
  {
    assert Listed(null, links, firsts, lists, e);
    if u in lists[e] {
      ChainMember(links, e, lists[e], u);
    }
    assert u in links ==> Placed(u, links[u], lists);
  }

  lemma {:induction false} ReverseSnoc<T>(s: seq<T>, x: T)
    ensures Reverse(s + [x]) == [x] + Reverse(s)
    decreases |s|
  {
    if s == [] {
      assert s + [x] == [x];
    } else {
      ReverseSnoc(s[1..], x);
      assert (s + [x])[1..] == s[1..] + [x];
    }
  }

  /** The list of `n` once the first `i` uses in `list` have moved from `e` to `target`, in turn. */
  ghost function ReplacedList(e: Node, target: Node?, list: seq<Use>, i: nat, n: Node, before: seq<Use>): seq<Use>
    requires i <= |list|
  {
    if n == e then list[i..] else if n == target then Reverse(list[..i]) + before else before
  }

  ghost predicate ListsReplaced(e: Node, target: Node?, list: seq<Use>, i: nat, lists: map<Node, seq<Use>>, lists': map<Node, seq<Use>>)
    requires i <= |list|
  {
    && lists'.Keys == lists.Keys
    && forall n {:trigger ReplacedList(e, target, list, i, n, lists[n])} :: n in lists ==> lists'[n] == ReplacedList(e, target, list, i, n, lists[n])
  }

  /** The lists after every use of `e` has gone to the front of the list of `target`, the last one first. */
  ghost function AllReplaced(lists: map<Node, seq<Use>>, e: Node, target: Node?): map<Node, seq<Use>>
    requires e in lists
  {
    var emptied := lists[e := []];
    if target == null || target !in lists then emptied else emptied[target := Reverse(lists[e]) + lists[target]]
  }

  lemma AllMoved(e: Node, target: Node?, list: seq<Use>, lists: map<Node, seq<Use>>, lists': map<Node, seq<Use>>)
    requires e in lists && e != target && list == lists[e] && ListsReplaced(e, target, list, |list|, lists, lists')
    ensures lists' == AllReplaced(lists, e, target)
  {
    assert list[..|list|] == list;
    forall n | n in lists ensures lists'[n] == AllReplaced(lists, e, target)[n] {
      assert lists'[n] == ReplacedList(e, target, list, |list|, n, lists[n]);
    }
  }

  ghost predicate RefsReplaced(target: Node?, moved: seq<Use>, refs: map<Use, Node?>, refs': map<Use, Node?>) {
    refs'.Keys == refs.Keys && forall u :: u in refs ==> refs'[u] == if u in moved then target else refs[u]
  }

  lemma ReplacedListStep(e: Node, target: Node?, list: seq<Use>, i: nat, n: Node, before: seq<Use>)
    requires Distinct(list) && i < |list| && e != target
    ensures var moved := ReplacedList(e, target, list, i + 1, n, before);
      if n == e then moved == Without(ReplacedList(e, target, list, i, n, before), list[i])
      else if n == target then moved == [list[i]] + ReplacedList(e, target, list, i, n, before)
      else moved == before
  {
    WithoutAt(list[i..], 0);
    assert list[i..][1..] == list[i + 1..];
    ReverseSnoc(list[..i], list[i]);
    assert list[..i + 1] == list[..i] + [list[i]];
    assert ([list[i]] + Reverse(list[..i])) + before == [list[i]] + (Reverse(list[..i]) + before);
  }

  lemma ReplacedStep(e: Node, target: Node?, list: seq<Use>, i: nat, lists: map<Node, seq<Use>>, lists': map<Node, seq<Use>>)
    requires Distinct(list) && i < |list| && e in lists && e != target
    requires ListsReplaced(e, target, list, i, lists, lists')
    ensures ListsReplaced(e, target, list, i + 1, lists, Moved(lists', list[i], e, target))
  {
    forall n | n in lists
      ensures Moved(lists', list[i], e, target)[n] == ReplacedList(e, target, list, i + 1, n, lists[n])
    {
      assert lists'[n] == ReplacedList(e, target, list, i, n, lists[n]);
      ReplacedListStep(e, target, list, i, n, lists[n]);
    }
  }

  /** The slots of `refs` stop referring to `e` between `before` and `after`. */
  ghost predicate Freed(e: Node, before: map<Use, Node?>, after: map<Use, Node?>) {
    (exists u :: u in before && before[u] == e) && forall u :: u in after ==> after[u] != e
  }

  ghost predicate Empty(operands: seq<Use>, refs: map<Use, Node?>) {
    forall u :: u in operands && u in refs ==> refs[u] == null
  }

  /** Slot `u` belongs to `root` or to an expression that lost its last use. */
  ghost predicate Explained(u: Use, operands: seq<Use>, nodes: set<Node>, before: map<Use, Node?>, after: map<Use, Node?>) {
    u in operands || exists e :: e in nodes && u in e.operands && Freed(e, before, after)
  }

  ghost predicate OnlyCleared(before: map<Use, Node?>, after: map<Use, Node?>) {
    after.Keys == before.Keys && forall u :: u in after ==> after[u] == before[u] || after[u] == null
  }

  /**
   What dropping references means: slots are only cleared, every expression that lost its last use has no operands
   left, and no other slot is cleared but those of `operands`.
   */
  ghost predicate Cascade(operands: seq<Use>, nodes: set<Node>, before: map<Use, Node?>, after: map<Use, Node?>) {
    && OnlyCleared(before, after)
    && (forall e {:trigger Freed(e, before, after)} :: e in nodes && Freed(e, before, after) ==> Empty(e.operands, after))
    && (forall u :: u in after && after[u] != before[u] ==> Explained(u, operands, nodes, before, after))
  }

  /** If nothing in `refs` refers to `e` any more, its own references are dropped too. */
  ghost predicate Dropped(e: Node, nodes: set<Node>, refs: map<Use, Node?>, after: map<Use, Node?>) {
    if forall u :: u in refs ==> refs[u] != e then Cascade(e.operands, nodes, refs, after) && Empty(e.operands, after)
    else after == refs
  }

  /** Clearing one operand, and then the operands of its target if that was the last use, continues the cascade. */
  lemma CascadeStep(operands: seq<Use>, nodes: set<Node>, before: map<Use, Node?>, mid: map<Use, Node?>, use: Use, e: Node,
                    after: map<Use, Node?>)
    requires Cascade(operands, nodes, before, mid) && use in operands && use in mid && mid[use] == e && e in nodes
    requires Dropped(e, nodes, mid[use := null], after)
    ensures Cascade(operands, nodes, before, after) && OnlyCleared(mid, after) && after[use] == null
  {
    var cleared := mid[use := null];
    assert before[use] == e;
    forall n | n in nodes && Freed(n, before, after) ensures Empty(n.operands, after) {
      if Freed(n, before, mid) {
      } else if n != e {
        var u :| u in mid && mid[u] == n;
        assert cleared[u] == n;
        assert Freed(n, cleared, after);
      }
    }
    forall u | u in after && after[u] != before[u] ensures Explained(u, operands, nodes, before, after) {
      if u != use {
        if mid[u] != before[u] {
          var n :| u in operands || (n in nodes && u in n.operands && Freed(n, before, mid));
          assert u !in operands ==> Freed(n, before, after);
        } else if u in e.operands {
          assert Freed(e, before, after);
        } else {
          var n :| n in nodes && u in n.operands && Freed(n, cleared, after);
          assert Freed(n, before, after);
        }
      }
    }
  }

  /** Dropping references after others have been dropped continues the cascade of the same operands. */
  lemma CascadeStart(operands: seq<Use>, nodes: set<Node>, refs: map<Use, Node?>)
    ensures Cascade(operands, nodes, refs, refs)
  {
  }

  lemma EmptyStep(operands: seq<Use>, i: nat, refs: map<Use, Node?>, after: map<Use, Node?>)
    requires i < |operands| && Empty(operands[..i], refs) && OnlyCleared(refs, after)
    requires operands[i] in after ==> after[operands[i]] == null
    ensures Empty(operands[..i + 1], after)
  {
    assert operands[..i + 1] == operands[..i] + [operands[i]];
  }

  lemma CascadeLive(operands: seq<Use>, nodes: set<Node>, before: map<Use, Node?>, after: map<Use, Node?>)
    requires Cascade(operands, nodes, before, after)
    ensures Live(after) <= Live(before)
  {
  }

  ghost function Live(refs: map<Use, Node?>): set<Use> {
    set u | u in refs && refs[u] != null
  }

  lemma LessLive(refs: map<Use, Node?>, use: Use)
    requires use in refs && refs[use] != null
    ensures Live(refs[use := null]) < Live(refs)
  {
    assert use in Live(refs);
  }

  /** All slots and nodes of one AST, with the use list of every node. */
  class Context {
    ghost var uses: set<Use>
    ghost var nodes: set<Node>
    ghost var lists: map<Node, seq<Use>>

    ghost function Links(): map<Use, Link>
      reads this`uses, uses
    {
      map u | u in uses :: Link(u.prev.pointer, u.next, u.expression)
    }

    ghost function Firsts(): map<Node, Use?>
      reads this`nodes, nodes
    {
      map e | e in nodes :: e.firstUse
    }

    /** The target of every slot. */
    ghost function Refs(): map<Use, Node?>
      reads this`uses, uses
    {
      map u | u in uses :: u.expression
    }

    ghost predicate Valid()
      reads this, uses, nodes
    {
      Consistent(null, Links(), Firsts(), lists)
    }

    /** ExpressionUse::setPrevNext */
    method SetPrevNext(use: Use, to: Use?)
      requires use in uses && (use.prev.pointer != null ==> use.prev.pointer in uses)
      requires use.expression != null ==> use.expression in nodes
      modifies uses`next, nodes`firstUse
      ensures var p := use.prev.pointer;
              Links() == if p != null then old(Links())[p := old(Links())[p].(next := to)] else old(Links())
      ensures Firsts() == if use.prev.pointer == null && use.expression != null then old(Firsts())[use.expression := to]
                          else old(Firsts())
      ensures use.prev.pointer != use ==> use.next == old(use.next)
    {
      if use.prev.pointer != null {
        use.prev.pointer.next := to;
      } else if use.expression != null {
        use.expression.firstUse := to;
      }
    }

    /** ExpressionUse::setNextPrev */
    method SetNextPrev(use: Use, to: Use?)
      requires use in uses && (use.next != null ==> use.next in uses)
      modifies uses`prev
      ensures Links() == if use.next != null then old(Links())[use.next := old(Links())[use.next].(prev := to)]
                         else old(Links())
      ensures forall u :: u in uses ==> u.prev.tag == old(u.prev.tag)
    {
      if use.next != null {
        use.next.prev := use.next.prev.(pointer := to);
      }
    }

    /** The neighbours of the slot are linked to each other. */
    method LinkNeighbours(use: Use)
      requires use in uses && (use.prev.pointer != null ==> use.prev.pointer in uses && use.prev.pointer != use)
      requires use.next != null ==> use.next in uses && use.next != use
      requires use.expression != null ==> use.expression in nodes
      modifies uses`prev, uses`next, nodes`firstUse
      ensures Links() == old(Bypassed(Links(), use))
      ensures Firsts() == old(FirstBypassed(Links(), Firsts(), use))
      ensures forall u :: u in uses ==> u.prev.tag == old(u.prev.tag)
    {
      SetPrevNext(use, use.next);
      SetNextPrev(use, use.prev.pointer);
    }

    /** The first half of setUse: the slot leaves the list it is in. */
    method Unlink(use: Use)
      requires Valid() && use in uses
      modifies uses`prev, uses`next, nodes`firstUse
      ensures Consistent(use, Links(), Firsts(), Moved(lists, use, use.expression, null))
      ensures forall u :: u in uses ==> u.prev.tag == old(u.prev.tag)
    {
      ghost var links, firsts := Links(), Firsts();
      NeighboursKnown(use, links, firsts, lists);
      LinkNeighbours(use);
      UnlinkStep(use, links, firsts, lists);
    }

    /** The slot goes in front of the uses of its new target. */
    method PutInFront(use: Use, target: Node?)
      requires use in uses && (target != null ==> target in nodes)
      requires target != null && target.firstUse != null ==> target.firstUse in uses
      modifies uses, nodes`firstUse
      ensures Links() == old(Pushed(Links(), use, target, if target == null then null else target.firstUse))
      ensures Firsts() == old(FirstPushed(Firsts(), use, target))
      ensures use.expression == target && forall u :: u in uses && u != use ==> u.expression == old(u.expression)
      ensures forall u :: u in uses ==> u.prev.tag == old(u.prev.tag)
    {
      ghost var links := Links();
      use.expression := target;
      if target == null {
        use.next := null;
      } else {
        use.next := target.firstUse;
        target.firstUse := use;
      }
      use.prev := use.prev.(pointer := null);
      assert Links() == links[use := Link(null, use.next, target)];
      SetNextPrev(use, use);
    }

    /** The second half of setUse: the slot enters the list of its new target. */
    method Relink(use: Use, target: Node?, ghost lists: map<Node, seq<Use>>)
      requires Consistent(use, Links(), Firsts(), lists) && use in uses && (target != null ==> target in nodes)
      modifies uses, nodes`firstUse
      ensures Consistent(null, Links(), Firsts(), Moved(lists, use, null, target))
      ensures Refs() == old(Refs())[use := target]
      ensures forall u :: u in uses ==> u.prev.tag == old(u.prev.tag)
    {
      ghost var links, firsts := Links(), Firsts();
      FirstKnown(use, target, links, firsts, lists);
      PutInFront(use, target);
      LinkStep(use, target, links, firsts, lists);
    }

    /** The body of setUse after its test. */
    method Retarget(use: Use, target: Node?)
      requires Valid() && use in uses && (target != null ==> target in nodes) && use.expression != target
      modifies uses, nodes`firstUse
      ensures Consistent(null, Links(), Firsts(), Moved(lists, use, old(use.expression), target))
      ensures Refs() == old(Refs())[use := target]
      ensures forall u :: u in uses ==> u.prev.tag == old(u.prev.tag)
    {
      MovedTwice(lists, use, use.expression, target);
      Unlink(use);
      Relink(use, target, Moved(lists, use, use.expression, null));
    }

    /** ExpressionUse::setUse */
    method SetUse(use: Use, target: Node?)
      requires Valid() && use in uses && (target != null ==> target in nodes)
      modifies this`lists, uses, nodes`firstUse
      ensures Valid()
      ensures Refs() == old(Refs())[use := target]
      ensures forall u :: u in uses ==> u.prev.tag == old(u.prev.tag)
      ensures lists == Moved(old(lists), use, old(use.expression), target)
    {
      if use.expression == target {
        assert Refs() == Refs()[use := target];
        return;
      }
      Retarget(use, target);
      lists := Moved(lists, use, old(use.expression), target);
    }

    /** One turn of the loop in replaceAllUsesWith. */
    method ReplaceFirst(e: Node, target: Node?, ghost list: seq<Use>, ghost i: nat,
                        ghost lists0: map<Node, seq<Use>>, ghost refs0: map<Use, Node?>)
      requires Valid() && e in nodes && (target != null ==> target in nodes) && e != target
      requires e.firstUse != null && i <= |list| && Distinct(list) && e in lists0
      requires ListsReplaced(e, target, list, i, lists0, lists) && RefsReplaced(target, list[..i], refs0, Refs())
      modifies this`lists, uses, nodes`firstUse
      ensures Valid() && i < |list|
      ensures ListsReplaced(e, target, list, i + 1, lists0, lists) && RefsReplaced(target, list[..i + 1], refs0, Refs())
      ensures forall u :: u in uses ==> u.prev.tag == old(u.prev.tag)
    {
      Known(e);
      assert lists[e] == ReplacedList(e, target, list, i, e, lists0[e]);
      ReplacedStep(e, target, list, i, lists0, lists);
      assert list[..i + 1] == list[..i] + [list[i]];
      SetUse(e.firstUse, target);
    }

    /** Expression::replaceAllUsesWith */
    method ReplaceAllUsesWith(e: Node, target: Node?)
      requires Valid() && e in nodes && (target != null ==> target in nodes)
      modifies this`lists, uses, nodes`firstUse
      ensures Valid()
      ensures RefsReplaced(target, old(lists[e]), old(Refs()), Refs())
      ensures forall u :: u in uses ==> u.prev.tag == old(u.prev.tag)
      ensures lists == if target == e then old(lists) else AllReplaced(old(lists), e, target)
    {
      Known(e);
      if target == e {
        return;
      }
      ghost var list, i: nat := lists[e], 0;
      while e.firstUse != null
        invariant Valid() && i <= |list|
        invariant ListsReplaced(e, target, list, i, old(lists), lists)
        invariant RefsReplaced(target, list[..i], old(Refs()), Refs())
        invariant forall u :: u in uses ==> u.prev.tag == old(u.prev.tag)
        decreases |list| - i
      {
        ReplaceFirst(e, target, list, i, old(lists), old(Refs()));
        i := i + 1;
      }
      Known(e);
      assert lists[e] == ReplacedList(e, target, list, i, e, old(lists)[e]);
      assert list[..i] == list;
      AllMoved(e, target, list, old(lists), lists);
    }

    /** The list of a node holds its users and starts where the node says. */
    lemma Known(e: Node)
      requires Valid() && e in nodes
      ensures nodes == lists.Keys && uses == Refs().Keys
      ensures e.firstUse == At(lists[e], 0) && Distinct(lists[e])
      ensures forall u :: u in lists[e] <==> u in uses && u.expression == e
    {
      forall u: Use ensures u in lists[e] <==> u in Links() && Links()[u].expression == e {
        UserListed(Links(), Firsts(), lists, e, u);
      }
      assert Listed(null, Links(), Firsts(), lists, e);
    }

    /** A node is marked unused exactly when no slot refers to it. */
    lemma Unused(e: Node)
      requires Valid() && e in nodes
      ensures e.firstUse == null <==> forall u :: u in Refs() ==> Refs()[u] != e
    {
      Known(e);
      if lists[e] != [] {
        var u := lists[e][0];
        assert u in lists[e] && Refs()[u] == e;
      } else {
        forall u | u in Refs() ensures Refs()[u] != e {
          assert u !in lists[e];
        }
      }
    }

    /** The operand slots of all nodes belong to the AST. */
    ghost predicate Closed()
      reads this`uses, this`nodes
    {
      forall n, u :: n in nodes && u in n.operands ==> u in uses
    }

    /** Clears a slot, and drops the references of its target if that was the last use. */
    method Release(use: Use, e: Node)
      requires Valid() && Closed() && use in uses && use.expression == e
      modifies this`lists, uses, nodes`firstUse
      ensures Valid() && Dropped(e, nodes, old(Refs())[use := null], Refs())
      ensures forall u :: u in uses ==> u.prev.tag == old(u.prev.tag)
      decreases Live(Refs()), 0
    {
      NeighboursKnown(use, Links(), Firsts(), lists);
      ghost var mid := Refs();
      SetUse(use, null);
      LessLive(mid, use);
      Unused(e);
      if e.firstUse == null {
        DropAllReferences(e);
      }
    }

    /** One turn of the loop in dropAllExpressionReferences. */
    method DropOperand(root: Node, use: Use, ghost before: map<Use, Node?>)
      requires Valid() && Closed() && use in uses && use in root.operands
      requires Cascade(root.operands, nodes, before, Refs())
      modifies this`lists, uses, nodes`firstUse
      ensures Valid() && Cascade(root.operands, nodes, before, Refs())
      ensures OnlyCleared(old(Refs()), Refs()) && Refs()[use] == null
      ensures forall u :: u in uses ==> u.prev.tag == old(u.prev.tag)
      decreases Live(Refs()), 1
    {
      var e := use.expression;
      if e != null {
        NeighboursKnown(use, Links(), Firsts(), lists);
        ghost var mid := Refs();
        Release(use, e);
        CascadeStep(root.operands, nodes, before, mid, use, e, Refs());
      }
    }

    /** ExpressionUser::dropAllExpressionReferences, with the references that expressions drop in turn. */
    method DropAllReferences(root: Node)
      requires Valid() && Closed() && forall u :: u in root.operands ==> u in uses
      modifies this`lists, uses, nodes`firstUse
      ensures Valid() && Cascade(root.operands, nodes, old(Refs()), Refs()) && Empty(root.operands, Refs())
      ensures forall u :: u in uses ==> u.prev.tag == old(u.prev.tag)
      decreases Live(Refs()), 2
    {
      CascadeStart(root.operands, nodes, Refs());
      for i := 0 to |root.operands|
        invariant Valid() && Cascade(root.operands, nodes, old(Refs()), Refs())
        invariant Empty(root.operands[..i], Refs())
        invariant forall u :: u in uses ==> u.prev.tag == old(u.prev.tag)
      {
        CascadeLive(root.operands, nodes, old(Refs()), Refs());
        ghost var refs := Refs();
        DropOperand(root, root.operands[i], old(Refs()));
        EmptyStep(root.operands, i, refs, Refs());
      }
      assert root.operands[..|root.operands|] == root.operands;
    }

    /** ExpressionReference::reset, where `user` is the holder's own user with its single slot. */
    method Reset(user: Node, expr: Node?)
      requires Valid() && Closed() && (expr != null ==> expr in nodes)
      requires |user.operands| == 1 && user.operands[0] in uses
      modifies this`lists, uses, nodes`firstUse
      ensures Valid()
      ensures var use, refs := user.operands[0], old(Refs())[user.operands[0] := expr];
              if old(use.expression) == null || old(use.expression) == expr then Refs() == refs
              else Dropped(old(use.expression), nodes, refs, Refs())
      ensures forall u :: u in uses ==> u.prev.tag == old(u.prev.tag)
    {
      var use := user.operands[0];
      var current := use.expression;
      NeighboursKnown(use, Links(), Firsts(), lists);
      SetUse(use, expr);
      if current != null {
        Unused(current);
        if current.firstUse == null {
          DropAllReferences(current);
        }
      }
    }

    /** Expression::uses_size */
    method UsesSize(e: Node) returns (size: nat)
      requires Valid() && e in nodes
      ensures size == |set u | u in uses && u.expression == e|
    {
      Known(e);
      size := 0;
      var iter := e.firstUse;
      while iter != null
        invariant size <= |lists[e]| && iter == At(lists[e], size)
        decreases |lists[e]| - size
      {
        assert Listed(null, Links(), Firsts(), lists, e) && LinkedAt(Links(), e, lists[e], size);
        size := size + 1;
        iter := iter.next;
      }
      assert (set u | u in uses && u.expression == e) == set u | u in lists[e];
      DistinctSize(lists[e]);
    }
  }
}
