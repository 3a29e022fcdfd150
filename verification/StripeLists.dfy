/** inactive_list and handle_list of src/jraid5.c: two rings through the lru nodes of the stripes. */
module StripeLists {
  import opened Lists
  import opened LruList
  import opened HashChain

  ghost function Nodes(stripes: seq<StripeHead>): (nodes: seq<ListNode<StripeHead?>>)
    ensures |nodes| == |stripes|
    ensures forall i :: 0 <= i < |stripes| ==> nodes[i] == stripes[i].lru
  {
    seq(|stripes|, i requires 0 <= i < |stripes| => stripes[i].lru)
  }

  lemma {:induction false} NodesWithout(stripes: seq<StripeHead>, sh: StripeHead)
    requires forall x :: x in stripes && x.lru == sh.lru ==> x == sh
    ensures Nodes(Without(stripes, sh)) == Without(Nodes(stripes), sh.lru)
  {
    if stripes != [] {
      assert Nodes(stripes)[1..] == Nodes(stripes[1..]);
      if stripes[0] != sh {
        NodesWithout(stripes[1..], sh);
        assert Nodes([stripes[0]] + Without(stripes[1..], sh)) == [stripes[0].lru] + Nodes(Without(stripes[1..], sh));
      }
    }
  }

  ghost function LruNodes(live: set<StripeHead>): set<ListNode<StripeHead?>> {
    set sh | sh in live :: sh.lru
  }

  datatype ListPart = Owned | Linked | OthersAlone

  ghost predicate ListHolds(headA: ListNode<StripeHead?>, headB: ListNode<StripeHead?>, live: set<StripeHead>,
                            a: seq<StripeHead>, b: seq<StripeHead>, part: ListPart)
    reads LruNodes(live)`next, LruNodes(live)`prev, LruNodes(live)`entry,
          headA`next, headA`prev, headB`next, headB`prev
  {
    match part
    case Owned =>
      && headA != headB
      && (forall sh :: sh in live ==> sh.lru.entry == sh && sh.lru != headA && sh.lru != headB)
      && (forall sh :: sh in a ==> sh in live && sh !in b)
      && (forall sh :: sh in b ==> sh in live && sh !in a)
    case Linked => (forall sh :: sh in a + b ==> sh in live) && Ring(headA, Nodes(a)) && Ring(headB, Nodes(b))
    case OthersAlone => forall sh :: sh in live && sh !in a && sh !in b ==> sh.lru.Alone()
  }

  /** Two lists of live stripes: each is well linked, no stripe is on both, and the node of a stripe
      on neither is alone. Quantified over its parts, to stay folded where it is only handed on. */
  ghost predicate ListsOk(headA: ListNode<StripeHead?>, headB: ListNode<StripeHead?>, live: set<StripeHead>,
                          a: seq<StripeHead>, b: seq<StripeHead>)
    reads LruNodes(live)`next, LruNodes(live)`prev, LruNodes(live)`entry,
          headA`next, headA`prev, headB`next, headB`prev
  {
    forall part :: ListHolds(headA, headB, live, a, b, part)
  }

  lemma OpenLists(headA: ListNode<StripeHead?>, headB: ListNode<StripeHead?>, live: set<StripeHead>,
                  a: seq<StripeHead>, b: seq<StripeHead>)
    requires ListsOk(headA, headB, live, a, b)
    ensures headA != headB
    ensures forall sh :: sh in live ==> sh.lru.entry == sh && sh.lru != headA && sh.lru != headB
    ensures forall sh :: sh in a ==> sh in live && sh !in b
    ensures forall sh :: sh in b ==> sh in live && sh !in a
    ensures Ring(headA, Nodes(a)) && Ring(headB, Nodes(b))
    ensures forall sh :: sh in live && sh !in a && sh !in b ==> sh.lru.Alone()
  {
    assert ListHolds(headA, headB, live, a, b, Owned);
    assert ListHolds(headA, headB, live, a, b, Linked);
    assert ListHolds(headA, headB, live, a, b, OthersAlone);
  }

  lemma CloseLists(headA: ListNode<StripeHead?>, headB: ListNode<StripeHead?>, live: set<StripeHead>,
                   a: seq<StripeHead>, b: seq<StripeHead>)
    requires headA != headB
    requires forall sh :: sh in live ==> sh.lru.entry == sh && sh.lru != headA && sh.lru != headB
    requires forall sh :: sh in a ==> sh in live && sh !in b
    requires forall sh :: sh in b ==> sh in live && sh !in a
    requires Ring(headA, Nodes(a)) && Ring(headB, Nodes(b))
    requires forall sh :: sh in live && sh !in a && sh !in b ==> sh.lru.Alone()
    ensures ListsOk(headA, headB, live, a, b)
  {}

  /** list_add_tail(&sh->lru, headA). */
  method Append(sh: StripeHead, headA: ListNode<StripeHead?>, ghost headB: ListNode<StripeHead?>,
                ghost live: set<StripeHead>, ghost a: seq<StripeHead>, ghost b: seq<StripeHead>)
    requires ListsOk(headA, headB, live, a, b) && sh in live && sh !in a && sh !in b
    modifies LruNodes(live)`next, LruNodes(live)`prev, headA`next, headA`prev
    ensures ListsOk(headA, headB, live, a + [sh], b)
  {
    OpenLists(headA, headB, live, a, b);
    Neighbours(headA, Nodes(a), headA);
    AddTail(sh.lru, headA, Nodes(a));
    assert Nodes(a + [sh]) == Nodes(a) + [sh.lru];
    CloseLists(headA, headB, live, a + [sh], b);
  }

  /** list_del_init(&sh->lru). */
  method Delist(sh: StripeHead, ghost headA: ListNode<StripeHead?>, ghost headB: ListNode<StripeHead?>,
                ghost live: set<StripeHead>, ghost a: seq<StripeHead>, ghost b: seq<StripeHead>)
    requires ListsOk(headA, headB, live, a, b) && sh in a
    modifies LruNodes(live)`next, LruNodes(live)`prev, headA`next, headA`prev
    ensures ListsOk(headA, headB, live, Without(a, sh), b)
  {
    OpenLists(headA, headB, live, a, b);
    WithoutNodes(a, sh);
    assert forall x :: x in live && x !in a ==> x.lru !in Nodes(a);
    Detach(sh, headA, a);
    ghost var after := Without(a, sh);
    assert forall x :: x in after ==> x in a;
    assert forall x :: x in live && x !in after ==> x !in a || x == sh;
    CloseLists(headA, headB, live, after, b);
  }

  method Detach(sh: StripeHead, ghost head: ListNode<StripeHead?>, ghost here: seq<StripeHead>)
    requires Ring(head, Nodes(here)) && sh in here
    requires forall x :: x in here && x.lru == sh.lru ==> x == sh
    modifies (set n | n in Nodes(here))`next, (set n | n in Nodes(here))`prev, head`next, head`prev
    ensures Ring(head, Nodes(Without(here, sh))) && sh.lru.Alone()
  {
    Neighbours(head, Nodes(here), sh.lru);
    NodesWithout(here, sh);
    DelInit(sh.lru, head, Nodes(here));
  }

  lemma WithoutNodes(stripes: seq<StripeHead>, sh: StripeHead)
    requires Distinct(Nodes(stripes))
    ensures Distinct(Without(stripes, sh))
    ensures forall x :: x in Without(stripes, sh) ==> x in stripes && x != sh
    ensures forall x :: x in stripes && x != sh ==> x in Without(stripes, sh)
  {
    forall i, j | 0 <= i < j < |stripes| ensures stripes[i] != stripes[j] {
      assert Nodes(stripes)[i] != Nodes(stripes)[j];
    }
    WithoutKeeps(stripes, sh);
  }

  lemma NotAlone(head: ListNode<StripeHead?>, stripes: seq<StripeHead>, sh: StripeHead)
    requires Ring(head, Nodes(stripes)) && sh in stripes
    ensures sh.lru.next != sh.lru
  {
    var k :| 0 <= k < |stripes| && stripes[k] == sh;
    assert LinkAt(head, Nodes(stripes), k + 1);
  }

  lemma SwapLists(headA: ListNode<StripeHead?>, headB: ListNode<StripeHead?>, live: set<StripeHead>,
                  a: seq<StripeHead>, b: seq<StripeHead>)
    requires ListsOk(headA, headB, live, a, b)
    ensures ListsOk(headB, headA, live, b, a)
  {
    OpenLists(headA, headB, live, a, b);
    CloseLists(headB, headA, live, b, a);
  }

  /** A stripe is on at most one of the lists. */
  lemma OnOneList(headA: ListNode<StripeHead?>, headB: ListNode<StripeHead?>, live: set<StripeHead>,
                  a: seq<StripeHead>, b: seq<StripeHead>, sh: StripeHead)
    requires ListsOk(headA, headB, live, a, b)
    ensures sh in a || sh in b ==> sh in live
    ensures sh in a ==> sh !in b && Without(b, sh) == b
    ensures sh in b ==> sh !in a && Without(a, sh) == a
  {
    OpenLists(headA, headB, live, a, b);
  }

  method DelistEither(sh: StripeHead, ghost headA: ListNode<StripeHead?>, ghost headB: ListNode<StripeHead?>,
                      ghost live: set<StripeHead>, ghost a: seq<StripeHead>, ghost b: seq<StripeHead>)
    requires ListsOk(headA, headB, live, a, b) && (sh in a || sh in b)
    modifies LruNodes(live)`next, LruNodes(live)`prev, headA`next, headA`prev, headB`next, headB`prev
    ensures ListsOk(headA, headB, live, Without(a, sh), Without(b, sh))
  {
    OnOneList(headA, headB, live, a, b, sh);
    ghost var first := sh in a;
    if !first {
      SwapLists(headA, headB, live, a, b);
    }
    Delist(sh, if first then headA else headB, if first then headB else headA, live,
           if first then a else b, if first then b else a);
    if !first {
      SwapLists(headB, headA, live, Without(b, sh), a);
    }
  }

  /** list_empty(&sh->lru). */
  lemma AloneIffOff(headA: ListNode<StripeHead?>, headB: ListNode<StripeHead?>, live: set<StripeHead>,
                    a: seq<StripeHead>, b: seq<StripeHead>, sh: StripeHead)
    requires ListsOk(headA, headB, live, a, b) && sh in live
    ensures sh.lru.next == sh.lru <==> sh !in a && sh !in b
  {
    OpenLists(headA, headB, live, a, b);
    if sh in a {
      NotAlone(headA, a, sh);
    } else if sh in b {
      NotAlone(headB, b, sh);
    }
  }

  /** list_empty(head) and list_entry(head->next). */
  method First(headA: ListNode<StripeHead?>, ghost headB: ListNode<StripeHead?>, ghost live: set<StripeHead>,
               ghost a: seq<StripeHead>, ghost b: seq<StripeHead>) returns (r: StripeHead?)
    requires ListsOk(headA, headB, live, a, b)
    ensures r == null <==> a == []
    ensures r != null ==> r == a[0] && r in live && r !in b
  {
    OpenLists(headA, headB, live, a, b);
    FirstOfRing(headA, Nodes(a));
    if headA.next == headA {
      return null;
    }
    assert a[0].lru == headA.next && a[0] in live;
    r := headA.next.entry;
  }

  /** A new stripe joins the live ones, or one on neither list leaves them. */
  lemma ResizeLists(headA: ListNode<StripeHead?>, headB: ListNode<StripeHead?>, live: set<StripeHead>,
                    a: seq<StripeHead>, b: seq<StripeHead>, to: set<StripeHead>)
    requires ListsOk(headA, headB, live, a, b)
    requires forall sh :: sh in to && sh !in live ==>
               sh.lru.entry == sh && sh.lru != headA && sh.lru != headB && sh.lru.Alone()
    requires forall sh :: sh in live && sh !in to ==> sh !in a && sh !in b
    ensures ListsOk(headA, headB, to, a, b)
  {
    OpenLists(headA, headB, live, a, b);
    CloseLists(headA, headB, to, a, b);
  }
}
