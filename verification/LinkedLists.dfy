/** Doubly linked lists as sequences: who stands next to whom, before and after an element is taken out. */
module LinkedLists {
  import opened Options
  import opened Sequences

  /** The element at a position; nothing off either end. */
  function At<T>(s: seq<T>, i: int): Option<T> {
    if 0 <= i < |s| then Some(s[i]) else None
  }

  /** The two links of a node. */
  datatype Ends<T> = Ends(next: Option<T>, prev: Option<T>)

  /** The links position i has in a list. */
  function Neighbours<T>(s: seq<T>, i: int): Ends<T> {
    Ends(At(s, i + 1), At(s, i - 1))
  }

  /** The links position j has once the neighbours of position i have been joined. */
  function Joined<T>(s: seq<T>, i: nat, j: nat): Ends<T> {
    Ends(At(s, if j + 1 == i then i + 1 else j + 1), At(s, if j == i + 1 then i - 1 else j - 1))
  }

  /** Joining the neighbours leaves every other element linked as in the list without that one. */
  lemma JoinedIsWithout<T>(s: seq<T>, i: nat, k: nat)
    requires i < |s| && k < |s| - 1
    ensures var j := if k < i then k else k + 1;
            Without(s, i)[k] == s[j] && Neighbours(Without(s, i), k) == Joined(s, i, j)
  {
  }

  lemma HeadWithout<T>(s: seq<T>, i: nat)
    requires i < |s|
    ensures At(Without(s, i), 0) == At(s, if i == 0 then 1 else 0)
  {
  }

  /** A newcomer in front: it and the old first element face each other, the others keep their links. */
  lemma InFrontLinks<T>(x: T, s: seq<T>, k: nat)
    requires k <= |s|
    ensures var now := [x] + s;
            if k == 0 then now[k] == x && Neighbours(now, k) == Ends(At(s, 0), None)
            else now[k] == s[k - 1] && Neighbours(now, k) == Ends(At(s, k), if k == 1 then Some(x) else At(s, k - 2))
  {
  }

  // ----- Several lists -----

  /** The first list with this element; the number of lists when there is none. */
  ghost function ChainOf<T>(all: seq<seq<T>>, c: T): (k: nat)
    ensures k <= |all| && (k < |all| ==> c in all[k]) && forall j | 0 <= j < k :: c !in all[j]
  {
    if all == [] || c in all[0] then 0 else 1 + ChainOf(all[1..], c)
  }

  /** No element occurs twice, in one list or in two. */
  ghost predicate Disjoint<T>(all: seq<seq<T>>) {
    forall k | 0 <= k < |all| :: Distinct(all[k]) && forall c | c in all[k] :: ChainOf(all, c) == k
  }

  lemma DisjointFrom<T>(all: seq<seq<T>>)
    requires forall k | 0 <= k < |all| :: Distinct(all[k])
    requires forall j, k, c | 0 <= j < |all| && 0 <= k < |all| && c in all[j] && c in all[k] :: j == k
    ensures Disjoint(all)
  {
    hide Distinct;
    forall k, c | 0 <= k < |all| && c in all[k] ensures ChainOf(all, c) == k {
      assert c in all[ChainOf(all, c)];
    }
  }

  /** The elements of all lists but one. */
  ghost function Outside<T>(all: seq<seq<T>>, k: int): set<T> {
    set j, c | 0 <= j < |all| && j != k && c in all[j] :: c
  }

  lemma OutsideAlive<T>(all: seq<seq<T>>, k: int)
    ensures forall c | c in Outside(all, k) :: allocated(c)
  {
  }

  lemma InOneList<T>(all: seq<seq<T>>, k: nat)
    requires Disjoint(all) && k < |all|
    ensures forall c | c in all[k] :: c !in Outside(all, k)
  {
    hide Distinct;
    forall c | c in all[k] ensures c !in Outside(all, k) {
      assert ChainOf(all, c) == k;
    }
  }

  // ----- Several lists, one of them hanging from the head pointer -----

  /** Chains of linked elements; the head pointer leads to chain `cur`, the others are not reached from it. */
  datatype Chains<T> = Chains(all: seq<seq<T>>, cur: nat) {
    ghost predicate Ok() {
      cur < |all| && Disjoint(all)
    }

    /** What a walk from the head pointer meets. */
    function Reached(): seq<T> {
      if cur < |all| then all[cur] else []
    }

    ghost predicate Has(c: T) {
      exists k | 0 <= k < |all| :: c in all[k]
    }
  }

  /** A newcomer in front of the chain at the head pointer. */
  ghost function Pushed<T>(l: Chains<T>, c: T): Chains<T> {
    if l.cur < |l.all| then l.(all := l.all[l.cur := [c] + l.all[l.cur]]) else l
  }

  /** An element leaves its chain; if it was first there, the head pointer moves to what is left of that chain.
      For an element in no chain that is nothing at all. */
  ghost function Unlinked<T>(l: Chains<T>, c: T): Chains<T> {
    var k := ChainOf(l.all, c);
    if k == |l.all| then Chains(l.all + [[]], |l.all|)
    else Chains(l.all[k := Remove(l.all[k], c)], if l.all[k][0] == c then k else l.cur)
  }

  lemma PushedPlace<T>(l: Chains<T>, c: T, x: T, k: nat)
    requires l.Ok() && !l.Has(c) && k < |l.all| && x in Pushed(l, c).all[k]
    ensures k == if x == c then l.cur else ChainOf(l.all, x)
    ensures x != c ==> x in l.all[k]
  {
    InFront(c, l.all[l.cur]);
  }

  lemma PushedOk<T>(l: Chains<T>, c: T)
    requires l.Ok() && !l.Has(c)
    ensures Pushed(l, c).Ok()
    ensures Pushed(l, c).Has(c)
    ensures forall x :: x != c ==> (Pushed(l, c).Has(x) <==> l.Has(x))
  {
    var now := Pushed(l, c).all;
    DistinctFront(c, l.all[l.cur]);
    InFront(c, l.all[l.cur]);
    assert c in now[l.cur];
    forall k, x | 0 <= k < |now| && x in now[k] ensures ChainOf(now, x) == k {
      PushedPlace(l, c, x, k);
      PushedPlace(l, c, x, ChainOf(now, x));
    }
    forall x | x != c ensures Pushed(l, c).Has(x) <==> l.Has(x) {
      if l.Has(x) {
        var k :| 0 <= k < |l.all| && x in l.all[k];
        assert x in now[k];
      }
    }
  }

  lemma UnlinkedPlace<T>(l: Chains<T>, c: T, x: T, i: nat)
    requires l.Ok() && i < |Unlinked(l, c).all| && x in Unlinked(l, c).all[i]
    ensures i == ChainOf(l.all, x) < |l.all| && x != c
  {
    var k := ChainOf(l.all, c);
    if k < |l.all| { RemoveMembers(l.all[k], c); }
  }

  lemma UnlinkedOk<T>(l: Chains<T>, c: T)
    requires l.Ok()
    ensures Unlinked(l, c).Ok()
    ensures forall x :: Unlinked(l, c).Has(x) <==> l.Has(x) && x != c
  {
    var k, now := ChainOf(l.all, c), Unlinked(l, c).all;
    if k < |l.all| {
      RemoveMembers(l.all[k], c);
      RemoveDistinct(l.all[k], c);
    }
    forall j, x | 0 <= j < |now| && x in now[j] ensures ChainOf(now, x) == j {
      UnlinkedPlace(l, c, x, j);
      UnlinkedPlace(l, c, x, ChainOf(now, x));
    }
    forall x ensures Unlinked(l, c).Has(x) <==> l.Has(x) && x != c {
      if l.Has(x) && x != c {
        var j :| 0 <= j < |l.all| && x in l.all[j];
        assert x in now[j];
      } else if Unlinked(l, c).Has(x) {
        var j :| 0 <= j < |now| && x in now[j];
        UnlinkedPlace(l, c, x, j);
      }
    }
  }
}
