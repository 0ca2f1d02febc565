/** The handle registry: 32 bucket lists keyed by `id & 31`, with insertion at the head and removal
    by pointer.  The socket registry and the SSL context registry of the source are both of this form. */
module Registry {

  const CASCADE: nat := 31
  const INT_MAX: int := 0x7FFF_FFFF

  /** `id & 31` of a two's complement integer: the remainder that is never negative. */
  function Slot(id: int): (b: nat)
    ensures b <= CASCADE
  {
    id % (CASCADE + 1)
  }

  /** What sc_t and sc_ssl_ctx_t have in common. */
  class Entry {
    var next: Entry?
    var id: int
    var refcnt: int

    constructor ()
    {
      next, id, refcnt := null, 0, 0;
    }
  }

  /** `n` is the latest registered entry of slot `b` with an identifier below `limit`, null if none. */
  ghost predicate Latest(nodes: set<Entry>, b: nat, limit: int, n: Entry?)
    reads nodes`id
  {
    && (n != null ==> n in nodes && Slot(n.id) == b && n.id < limit)
    && (forall y :: y in nodes && Slot(y.id) == b && y.id < limit ==> n != null && y.id <= n.id)
  }

  ghost predicate Distinct(nodes: set<Entry>)
    reads nodes`id
  {
    forall x, y :: x in nodes && y in nodes && x.id == y.id ==> x == y
  }

  ghost function IdsOf(nodes: set<Entry>): set<int>
    reads nodes`id
  {
    set x | x in nodes :: x.id
  }

  lemma IdsRemoved(nodes: set<Entry>, e: Entry)
    requires Distinct(nodes) && e in nodes
    ensures IdsOf(nodes - {e}) == IdsOf(nodes) - {e.id}
  {
  }

  lemma DistinctAdded(nodes: set<Entry>, e: Entry)
    requires Distinct(nodes) && forall x :: x in nodes ==> x.id < e.id
    ensures Distinct(nodes + {e})
  {
  }

  lemma DistinctRemoved(nodes: set<Entry>, e: Entry)
    requires Distinct(nodes)
    ensures Distinct(nodes - {e})
  {
  }

  /** A new entry with the next identifier is the latest of its slot, and alters no older relation. */
  lemma LatestAdded(nodes: set<Entry>, e: Entry, b: nat, limit: int, n: Entry?)
    requires (forall x :: x in nodes ==> x.id < e.id) && limit <= e.id
    requires Latest(nodes, b, limit, n)
    ensures Latest(nodes + {e}, b, limit, n)
    ensures limit == e.id ==> Latest(nodes + {e}, b, e.id + 1, if b == Slot(e.id) then e else n)
  {
  }

  /** Without `e`, what pointed to `e` is to point to `m`, to which `e` pointed, and the rest is as before. */
  lemma LatestRemoved(nodes: set<Entry>, e: Entry, m: Entry?, b: nat, limit: int, n: Entry?)
    requires e in nodes && Latest(nodes, Slot(e.id), e.id, m) && Latest(nodes, b, limit, n)
    requires Distinct(nodes)
    ensures Latest(nodes - {e}, b, limit, if n == e then m else n)
  {
  }

  /** Later registered entries stand before earlier ones. */
  ghost predicate Descending(l: seq<Entry>)
    reads l`id
  {
    l == [] || (Descending(l[1..]) && forall y :: y in l[1..] ==> y.id < l[0].id)
  }

  /** The members of a list. */
  ghost predicate Members(l: seq<Entry>, nodes: set<Entry>, b: nat, limit: int)
    reads nodes`id
  {
    && (forall x :: x in l ==> x in nodes && Slot(x.id) == b && x.id < limit)
    && (forall x :: x in nodes && Slot(x.id) == b && x.id < limit ==> x in l)
  }

  /** The list without its element `e`, the others in their order. */
  ghost function Without(l: seq<Entry>, e: Entry): (r: seq<Entry>)
    ensures forall x :: x in r ==> x in l && x != e
    ensures forall x :: x in l && x != e ==> x in r
  {
    if l == [] then [] else if l[0] == e then Without(l[1..], e) else [l[0]] + Without(l[1..], e)
  }

  lemma DescendingCons(x: Entry, l: seq<Entry>)
    ensures Descending([x] + l) <==> Descending(l) && forall y :: y in l ==> y.id < x.id
  {
    assert ([x] + l)[1..] == l;
  }

  lemma {:induction false} WithoutIs(l: seq<Entry>, e: Entry)
    requires Descending(l)
    ensures Descending(Without(l, e))
  {
    if l != [] {
      assert l == [l[0]] + l[1..];
      DescendingCons(l[0], l[1..]);
      WithoutIs(l[1..], e);
      DescendingCons(l[0], Without(l[1..], e));
      assert Without(l, e) == if l[0] == e then Without(l[1..], e) else [l[0]] + Without(l[1..], e);
    }
  }

  /** A descending list is determined by its members. */
  lemma {:induction false} SameList(l: seq<Entry>, m: seq<Entry>)
    requires Descending(l) && Descending(m) && forall x :: x in l <==> x in m
    ensures l == m
  {
    assert l != [] ==> l[0] in m;
    assert m != [] ==> m[0] in l;
    if l != [] && m != [] {
      assert l == [l[0]] + l[1..] && m == [m[0]] + m[1..];
      hide Descending;
      assert l[0] in m && m[0] in l;
      assert l[0] == m[0];
      assert forall x :: x in l[1..] <==> x in l && x != l[0];
      assert forall x :: x in m[1..] <==> x in m && x != m[0];
      SameList(l[1..], m[1..]);
    }
  }

  lemma MembersAdded(l: seq<Entry>, nodes: set<Entry>, e: Entry, b: nat)
    requires Descending(l) && Members(l, nodes, b, e.id) && forall x :: x in nodes ==> x.id < e.id
    ensures var m := (if b == Slot(e.id) then [e] else []) + l;
            Descending(m) && Members(m, nodes + {e}, b, e.id + 1)
  {
    DescendingCons(e, l);
    assert [] + l == l;
    hide Slot;
  }

  lemma MembersRemoved(l: seq<Entry>, nodes: set<Entry>, e: Entry, b: nat, limit: int)
    requires Descending(l) && Members(l, nodes, b, limit)
    ensures Descending(Without(l, e)) && Members(Without(l, e), nodes - {e}, b, limit)
  {
    WithoutIs(l, e);
  }

  class Table {
    var bucket: array<Entry?>
    var counter: int
    ghost var nodes: set<Entry>

    /** Each bucket and each link point to the latest entry before: the lists run through all
        entries of their slot, from the last registered to the first. */
    ghost predicate Valid()
      reads this, bucket, nodes`next, nodes`id
    {
      && bucket.Length == CASCADE + 1 && 0 <= counter <= INT_MAX
      && (forall x :: x in nodes ==> 0 < x.id <= counter && Latest(nodes, Slot(x.id), x.id, x.next))
      && (forall b :: 0 <= b <= CASCADE ==> Latest(nodes, b, counter + 1, bucket[b]))
      && Distinct(nodes)
    }

    /** The identifiers in use. */
    ghost function Ids(): set<int>
      reads this`nodes, nodes`id
    {
      IdsOf(nodes)
    }

    /** The list that starts at `x`. */
    ghost function ListFrom(x: Entry?): (l: seq<Entry>)
      requires Valid() && (x != null ==> x in nodes)
      reads this, bucket, nodes`next, nodes`id
      decreases if x == null then 0 else x.id
    {
      if x == null then [] else [x] + ListFrom(x.next)
    }

    /** A list holds exactly the older entries of its slot, each once, the latest first. */
    lemma {:induction false} ListIs(x: Entry?, b: nat, limit: int)
      requires Valid() && Latest(nodes, b, limit, x)
      ensures Descending(ListFrom(x)) && Members(ListFrom(x), nodes, b, limit)
      decreases if x == null then 0 else x.id
    {
      if x != null {
        ListIs(x.next, b, x.id);
        DescendingCons(x, ListFrom(x.next));
      }
    }

    /** Every bucket list is finite and holds exactly the live entries of its slot, the latest first. */
    lemma BucketList(b: nat)
      requires Valid() && b <= CASCADE
      ensures var l := ListFrom(bucket[b]);
              Descending(l) && forall x :: x in l <==> x in nodes && Slot(x.id) == b
    {
      ListIs(bucket[b], b, counter + 1);
    }

    /** A bucket list is determined by its members. */
    lemma BucketListIs(b: nat, l: seq<Entry>)
      requires Valid() && b <= CASCADE && Descending(l) && Members(l, nodes, b, counter + 1)
      ensures ListFrom(bucket[b]) == l
    {
      ListIs(bucket[b], b, counter + 1);
      SameList(ListFrom(bucket[b]), l);
    }

    /** Registration as the clients see it: the new entry becomes the first of its bucket list, and
        every list (`b` is any slot) is otherwise as before. */
    method Register(e: Entry, ghost b: nat)
      requires Valid() && e !in nodes && counter < INT_MAX && b <= CASCADE
      modifies this`counter, this`nodes, bucket, e
      ensures Valid() && nodes == old(nodes) + {e}
      ensures e.id == counter == old(counter) + 1 && e.refcnt == 1
      ensures ListFrom(bucket[b]) == (if b == Slot(e.id) then [e] else []) + old(ListFrom(bucket[b]))
    {
      hide *;
      HeadList(b);
      ghost var l := ListFrom(bucket[b]);
      Add(e);
      FirstOfList(l, old(nodes), e, b);
    }

    lemma HeadList(b: nat)
      requires Valid() && b <= CASCADE
      ensures b < bucket.Length && (bucket[b] != null ==> bucket[b] in nodes)
      ensures Descending(ListFrom(bucket[b])) && Members(ListFrom(bucket[b]), nodes, b, counter + 1)
      ensures forall x :: x in nodes ==> x.id <= counter
    {
      ListIs(bucket[b], b, counter + 1);
    }

    /** The bucket lists after `e` was added to `before`, `l` being one of them until then. */
    lemma FirstOfList(l: seq<Entry>, before: set<Entry>, e: Entry, b: nat)
      requires Valid() && b <= CASCADE && nodes == before + {e} && e.id == counter
      requires Descending(l) && Members(l, before, b, e.id) && forall x :: x in before ==> x.id < e.id
      ensures ListFrom(bucket[b]) == (if b == Slot(e.id) then [e] else []) + l
    {
      MembersAdded(l, before, e, b);
      BucketListIs(b, (if b == Slot(e.id) then [e] else []) + l);
    }

    /** Removal as the clients see it: its target is gone, and every list is otherwise as before. */
    method Unregister(e: Entry, ghost b: nat) returns (found: bool)
      requires Valid() && b <= CASCADE
      modifies this`nodes, bucket, nodes`next
      ensures Valid() && nodes == old(nodes) - {e}
      ensures found <==> e in old(nodes)
      ensures ListFrom(bucket[b]) == Without(old(ListFrom(bucket[b])), e)
    {
      hide *;
      HeadList(b);
      ghost var l := ListFrom(bucket[b]);
      found := Rem(e);
      GoneFromList(l, old(nodes), e, b);
    }

    /** The bucket lists after `e` was removed from `before`, `l` being one of them until then. */
    lemma GoneFromList(l: seq<Entry>, before: set<Entry>, e: Entry, b: nat)
      requires Valid() && b <= CASCADE && nodes == before - {e}
      requires Descending(l) && Members(l, before, b, counter + 1)
      ensures ListFrom(bucket[b]) == Without(l, e)
    {
      MembersRemoved(l, before, e, b, counter + 1);
      BucketListIs(b, Without(l, e));
    }

    constructor ()
      ensures Valid() && fresh(bucket) && nodes == {} && counter == 0
    {
      bucket := new Entry?[CASCADE + 1](_ => null);
      counter, nodes := 0, {};
    }

    /** socket_class_add, and the registration in mod_sc_ssl_ctx_create. */
    method Add(e: Entry)
      requires Valid() && e !in nodes && counter < INT_MAX
      modifies this`counter, this`nodes, bucket, e
      ensures Valid() && nodes == old(nodes) + {e}
      ensures e.id == counter == old(counter) + 1 && e.refcnt == 1
      ensures Ids() == old(Ids()) + {e.id}
    {
      hide Latest, Distinct, Slot;
      counter := counter + 1;
      e.id, e.refcnt := counter, 1;
      Newcomer(e);
      LinkFirst(e);
      assert forall x :: x in old(nodes) ==> x.id == old(x.id);
    }

    /** Put `e` at the head of its bucket. */
    method LinkFirst(e: Entry)
      requires bucket.Length == CASCADE + 1 && e !in nodes && 0 < e.id == counter <= INT_MAX
      requires forall x :: x in nodes ==> 0 < x.id <= counter && Latest(nodes + {e}, Slot(x.id), x.id, x.next)
      requires Latest(nodes + {e}, Slot(e.id), e.id, bucket[Slot(e.id)]) && Distinct(nodes + {e})
      requires forall b :: 0 <= b <= CASCADE ==>
                 Latest(nodes + {e}, b, counter + 1, if b == Slot(e.id) then e else bucket[b])
      modifies this`nodes, bucket, e`next
      ensures Valid() && nodes == old(nodes) + {e}
    {
      hide Latest, Distinct, Slot;
      e.next := bucket[Slot(e.id)];
      bucket[Slot(e.id)] := e;
      nodes := nodes + {e};
      forall x | x in nodes
        ensures Latest(nodes, Slot(x.id), x.id, x.next)
      {
        assert x != e ==> x.next == old(x.next);
      }
      forall b | 0 <= b <= CASCADE
        ensures Latest(nodes, b, counter + 1, bucket[b])
      {
        assert bucket[b] == if b == Slot(e.id) then e else old(bucket[b]);
      }
    }

    /** The relations that hold with `e`, which has just been given its identifier. */
    lemma Newcomer(e: Entry)
      requires bucket.Length == CASCADE + 1 && e !in nodes && e.id == counter && Distinct(nodes)
      requires forall x :: x in nodes ==> 0 < x.id < counter && Latest(nodes, Slot(x.id), x.id, x.next)
      requires forall b :: 0 <= b <= CASCADE ==> Latest(nodes, b, counter, bucket[b])
      ensures Distinct(nodes + {e}) && Latest(nodes + {e}, Slot(e.id), e.id, bucket[Slot(e.id)])
      ensures forall x :: x in nodes ==> Latest(nodes + {e}, Slot(x.id), x.id, x.next)
      ensures forall b :: 0 <= b <= CASCADE ==>
                Latest(nodes + {e}, b, counter + 1, if b == Slot(e.id) then e else bucket[b])
    {
      forall x | x in nodes
        ensures Latest(nodes + {e}, Slot(x.id), x.id, x.next)
      {
        LatestAdded(nodes, e, Slot(x.id), x.id, x.next);
      }
      forall b | 0 <= b <= CASCADE
        ensures Latest(nodes + {e}, b, counter + 1, if b == Slot(e.id) then e else bucket[b])
      {
        LatestAdded(nodes, e, b, e.id, bucket[b]);
      }
      LatestAdded(nodes, e, Slot(e.id), e.id, bucket[Slot(e.id)]);
      DistinctAdded(nodes, e);
    }

    /** The unlinking loop of socket_class_rem and remove_context. */
    method Rem(e: Entry) returns (found: bool)
      requires Valid()
      modifies this`nodes, bucket, nodes`next
      ensures Valid() && nodes == old(nodes) - {e}
      ensures found <==> e in old(nodes)
      ensures Ids() == if found then old(Ids()) - {e.id} else old(Ids())
    {
      var i := Slot(e.id);
      var cp: Entry?, cc := null, bucket[i];
      while cc != null && cc != e
        invariant cc != null ==> cc in nodes && Slot(cc.id) == i
        invariant if cp == null then cc == bucket[i] else cp in nodes && Slot(cp.id) == i && cp.next == cc
        invariant e in nodes ==> cc != null && e.id <= cc.id
        decreases if cc == null then 0 else cc.id
      {
        cp, cc := cc, cc.next;
      }
      if cc == null {
        return false;
      }
      if cp == null {
        UnlinkHead(e);
      } else {
        UnlinkInner(e, cp);
      }
      hide Latest, IdsOf;
      IdsRemoved(old(nodes), e);
      found := true;
    }

    /** The head of the bucket of `e` skips it. */
    method UnlinkHead(e: Entry)
      requires Valid() && e in nodes && bucket[Slot(e.id)] == e
      modifies this`nodes, bucket
      ensures Valid() && nodes == old(nodes) - {e}
    {
      hide Latest, Distinct, Slot;
      OnePredecessor(e, null);
      Survivors(e);
      DistinctRemoved(nodes, e);
      bucket[Slot(e.id)] := e.next;
      nodes := nodes - {e};
      forall b | 0 <= b <= CASCADE
        ensures Latest(nodes, b, counter + 1, bucket[b])
      {
        assert bucket[b] == if old(bucket[b]) == e then e.next else old(bucket[b]);
      }
    }

    /** The entry `cp` before `e` skips it. */
    method UnlinkInner(e: Entry, cp: Entry)
      requires Valid() && e in nodes && cp in nodes && Slot(cp.id) == Slot(e.id) && cp.next == e
      modifies this`nodes, cp`next
      ensures Valid() && nodes == old(nodes) - {e}
    {
      hide Latest, Distinct, Slot;
      OnePredecessor(e, cp);
      Survivors(e);
      DistinctRemoved(nodes, e);
      cp.next := e.next;
      nodes := nodes - {e};
      forall x | x in nodes
        ensures Latest(nodes, Slot(x.id), x.id, x.next)
      {
        assert x.next == if old(x.next) == e then old(e.next) else old(x.next);
      }
    }

    /** The relations that hold without `e`. */
    lemma Survivors(e: Entry)
      requires Valid() && e in nodes
      ensures forall x :: x in nodes ==>
                Latest(nodes - {e}, Slot(x.id), x.id, if x.next == e then e.next else x.next)
      ensures forall b :: 0 <= b <= CASCADE ==>
                Latest(nodes - {e}, b, counter + 1, if bucket[b] == e then e.next else bucket[b])
    {
      forall x | x in nodes
        ensures Latest(nodes - {e}, Slot(x.id), x.id, if x.next == e then e.next else x.next)
      {
        LatestRemoved(nodes, e, e.next, Slot(x.id), x.id, x.next);
      }
      forall b | 0 <= b <= CASCADE
        ensures Latest(nodes - {e}, b, counter + 1, if bucket[b] == e then e.next else bucket[b])
      {
        LatestRemoved(nodes, e, e.next, b, counter + 1, bucket[b]);
      }
    }

    /** Nothing else points to `e`. */
    lemma OnePredecessor(e: Entry, cp: Entry?)
      requires Valid() && e in nodes
      requires if cp == null then bucket[Slot(e.id)] == e else cp in nodes && Slot(cp.id) == Slot(e.id) && cp.next == e
      ensures forall x :: x in nodes && x.next == e ==> x == cp
      ensures forall b :: 0 <= b <= CASCADE && bucket[b] == e ==> b == Slot(e.id) && cp == null
    {
    }

    /** The search loop of socket_class_find and mod_sc_ssl_ctx_from_class. */
    method Find(id: int) returns (r: Entry?)
      requires Valid()
      ensures r == null <==> id !in Ids()
      ensures r != null ==> r in nodes && r.id == id
    {
      r := bucket[Slot(id)];
      while r != null && r.id != id
        invariant r != null ==> r in nodes && Slot(r.id) == Slot(id)
        invariant forall y :: y in nodes && y.id == id ==> r != null && y.id <= r.id
        decreases if r == null then 0 else r.id
      {
        r := r.next;
      }
    }
  }

  /** What a client does with handles: create one, release one by its identifier, look one up. */
  datatype Command = Create | Release(id: int) | Lookup(id: int)

  /** The answers of a plain set of identifiers. */
  ghost function Answers(cmds: seq<Command>, counter: int, live: set<int>): seq<bool> {
    if cmds == [] then []
    else
      match cmds[0]
      case Create => [true] + Answers(cmds[1..], counter + 1, live + {counter + 1})
      case Release(id) => [id in live] + Answers(cmds[1..], counter, live - {id})
      case Lookup(id) => [id in live] + Answers(cmds[1..], counter, live)
  }

  /** One command; a release looks its target up first. */
  method Perform(t: Table, cmd: Command) returns (answer: bool)
    requires t.Valid() && t.counter < INT_MAX
    modifies t, t.bucket, t.nodes
    ensures t.Valid() && t.bucket == old(t.bucket) && fresh(t.nodes - old(t.nodes))
    ensures old(t.counter) <= t.counter <= old(t.counter) + 1
    ensures Answers([cmd], old(t.counter), old(t.Ids())) == [answer]
    ensures t.counter == (if cmd.Create? then old(t.counter) + 1 else old(t.counter))
    ensures t.Ids() == match cmd
                       case Create => old(t.Ids()) + {t.counter}
                       case Release(id) => old(t.Ids()) - {id}
                       case Lookup(_) => old(t.Ids())
  {
    hide Table.Valid, Table.Ids;
    match cmd
    case Create =>
      var e := new Entry();
      t.Add(e);
      answer := true;
    case Release(id) =>
      var e := t.Find(id);
      answer := e != null;
      if e != null {
        var found := t.Rem(e);
      }
    case Lookup(id) =>
      var e := t.Find(id);
      answer := e != null;
  }

  lemma NoAnswers(counter: int, live: set<int>)
    ensures Answers([], counter, live) == []
  {
  }

  lemma FirstAnswer(cmds: seq<Command>, k: nat, counter: int, live: set<int>)
    requires k < |cmds|
    ensures Answers(cmds[k..], counter, live) == Answers([cmds[k]], counter, live) +
            match cmds[k]
            case Create => Answers(cmds[k + 1..], counter + 1, live + {counter + 1})
            case Release(id) => Answers(cmds[k + 1..], counter, live - {id})
            case Lookup(_) => Answers(cmds[k + 1..], counter, live)
  {
    assert cmds[k..][1..] == cmds[k + 1..];
    assert forall c, l :: Answers([], c, l) == [];
  }

  /** Over any run the registry answers like the set of the identifiers created and not released,
      while the counter stays below the limit of int. */
  method Run(t: Table, cmds: seq<Command>) returns (answers: seq<bool>)
    requires t.Valid() && t.counter + |cmds| <= INT_MAX
    modifies t, t.bucket, t.nodes
    ensures t.Valid()
    ensures answers == Answers(cmds, old(t.counter), old(t.Ids()))
  {
    hide Table.Valid, Table.Ids, Answers;
    answers := [];
    assert cmds[0..] == cmds;
    for k := 0 to |cmds|
      invariant t.Valid() && t.bucket == old(t.bucket) && fresh(t.nodes - old(t.nodes))
      invariant t.counter <= old(t.counter) + k
      invariant answers + Answers(cmds[k..], t.counter, t.Ids()) == Answers(cmds, old(t.counter), old(t.Ids()))
    {
      ghost var c, live := t.counter, t.Ids();
      var a := Perform(t, cmds[k]);
      FirstAnswer(cmds, k, c, live);
      answers := answers + [a];
    }
    NoAnswers(t.counter, t.Ids());
    assert cmds[|cmds|..] == [];
  }
}
