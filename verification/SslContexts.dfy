/** SSL contexts shared between sockets by reference counting. */
module SslContexts {
  import opened Registry

  /** The userdata record of an SSL socket; an Entry is an SSL context. */
  class UserData {
    var ctx: Entry?

    constructor ()
      ensures ctx == null
    {
      ctx := null;
    }
  }

  /** The records that point at a context. */
  ghost function Pointing(users: set<UserData>, c: Entry): set<UserData>
    reads users`ctx
  {
    set u | u in users && u.ctx == c
  }

  ghost predicate Known(users: set<UserData>, handles: multiset<Entry>, nodes: set<Entry>)
    reads users`ctx
  {
    && (forall u :: u in users ==> u.ctx in nodes)
    && (forall c :: c in handles ==> c in nodes)
  }

  /** An unknown context is not referenced. */
  lemma Unreferenced(users: set<UserData>, handles: multiset<Entry>, nodes: set<Entry>, c: Entry)
    requires Known(users, handles, nodes) && c !in nodes
    ensures |Pointing(users, c)| + handles[c] == 0
  {
    assert Pointing(users, c) == {};
  }

  lemma KnownAdded(users: set<UserData>, handles: multiset<Entry>, nodes: set<Entry>, c: Entry)
    requires Known(users, handles, nodes)
    ensures Known(users, handles + multiset{c}, nodes + {c})
  {
  }

  lemma KnownDropped(users: set<UserData>, handles: multiset<Entry>, nodes: set<Entry>, c: Entry)
    requires Known(users, handles, nodes)
    ensures Known(users, handles - multiset{c}, nodes)
  {
  }

  /** A context without references may go. */
  lemma NoneLeft(users: set<UserData>, handles: multiset<Entry>, nodes: set<Entry>, c: Entry)
    requires Known(users, handles, nodes) && |Pointing(users, c)| + handles[c] == 0
    ensures Known(users, handles, nodes - {c})
  {
    forall u | u in users
      ensures u.ctx in nodes - {c}
    {
      assert u !in Pointing(users, c);
    }
  }

  lemma Joined(users: set<UserData>, u: UserData, c: Entry)
    requires u !in users
    ensures |Pointing(users + {u}, c)| == |Pointing(users, c)| + if u.ctx == c then 1 else 0
  {
    assert Pointing(users + {u}, c) == Pointing(users, c) + if u.ctx == c then {u} else {};
  }

  lemma Left(users: set<UserData>, u: UserData, c: Entry)
    requires u in users
    ensures |Pointing(users - {u}, c)| == |Pointing(users, c)| - if u.ctx == c then 1 else 0
  {
    Joined(users - {u}, u, c);
    PutBack(users, u);
  }

  lemma PutBack(users: set<UserData>, u: UserData)
    requires u in users
    ensures users - {u} + {u} == users
  {
  }

  /** All SSL sockets of the process and its context registry. `handles` counts, per context, the
      references that are held by no socket: those of the context objects of the program. */
  class World {
    const reg: Table
    var users: set<UserData>
    var handles: multiset<Entry>

    /** The references to a context: userdata records plus outstanding handles. */
    ghost function References(c: Entry): nat
      reads this`users, this`handles, users`ctx
    {
      |Pointing(users, c)| + handles[c]
    }

    /** Registered contexts have the count of their references, and only they are referenced. */
    ghost predicate Valid()
      reads this, users`ctx, reg, reg.bucket, reg.nodes
    {
      && reg.Valid()
      && (forall c :: c in reg.nodes ==> c.refcnt == References(c) > 0)
      && Known(users, handles, reg.nodes)
    }

    constructor ()
      ensures Valid() && fresh(reg) && fresh(reg.bucket) && reg.nodes == {} && reg.counter == 0
      ensures users == {} && handles == multiset{}
    {
      reg := new Table();
      users, handles := {}, multiset{};
    }

    /** mod_sc_ssl_ctx_create: the caller gets a handle on a new context. */
    method CtxCreate() returns (c: Entry)
      requires Valid() && reg.counter < INT_MAX
      modifies this`handles, reg`counter, reg`nodes, reg.bucket
      ensures Valid() && fresh(c) && c.refcnt == 1
      ensures reg.nodes == old(reg.nodes) + {c} && handles == old(handles) + multiset{c}
      ensures reg.counter == old(reg.counter) + 1
    {
      hide Table.Valid, Table.Ids, Pointing, Known;
      c := new Entry();
      Unreferenced(users, handles, reg.nodes, c);
      reg.Add(c);
      handles := handles + multiset{c};
      KnownAdded(users, old(handles), old(reg.nodes), c);
      forall x | x in reg.nodes
        ensures x.refcnt == References(x) > 0
      {
        assert x != c ==> x.refcnt == old(x.refcnt) == old(References(x));
      }
    }

    /** mod_sc_ssl_ctx_destroy: give one handle back. The context is unlinked (and then freed)
        exactly when that was the last reference. */
    method CtxDestroy(c: Entry)
      requires Valid() && c in handles && c in reg.nodes
      modifies this`handles, c`refcnt, reg`nodes, reg.bucket, reg.nodes`next
      ensures Valid() && handles == old(handles) - multiset{c}
      ensures c.refcnt == old(c.refcnt) - 1
      ensures reg.nodes == if c.refcnt == 0 then old(reg.nodes) - {c} else old(reg.nodes)
    {
      hide Table.Valid, Table.Ids, Pointing, Known;
      c.refcnt := c.refcnt - 1;
      handles := handles - multiset{c};
      KnownDropped(users, old(handles), reg.nodes, c);
      assert c.refcnt == References(c);
      if c.refcnt <= 0 {
        NoneLeft(users, handles, reg.nodes, c);
        var found := reg.Rem(c);
      }
      forall x | x in reg.nodes
        ensures x.refcnt == References(x) > 0
      {
        assert x != c ==> x.refcnt == old(x.refcnt) == old(References(x));
      }
    }

    /** `refcnt++` on behalf of somebody who is about to hold the context. */
    method Retain(c: Entry)
      requires Valid()
      modifies this`handles, c`refcnt
      ensures c in reg.nodes ==> Valid()
      ensures handles == old(handles) + multiset{c} && c.refcnt == old(c.refcnt) + 1
    {
      hide Table.Valid, Table.Ids, Pointing, Known;
      c.refcnt := c.refcnt + 1;
      handles := handles + multiset{c};
      KnownAdded(users, old(handles), reg.nodes, c);
      assert c in reg.nodes ==> reg.nodes + {c} == reg.nodes;
      forall x | c in reg.nodes && x in reg.nodes
        ensures x.refcnt == References(x) > 0
      {
        assert x != c ==> x.refcnt == old(x.refcnt) == old(References(x));
      }
    }

    /** A new record takes over a handle. */
    method Adopt(u: UserData, c: Entry)
      requires u !in users && c in handles
      modifies this`users, this`handles, u`ctx
      ensures old(Valid()) ==> Valid()
      ensures u.ctx == c && users == old(users) + {u} && handles == old(handles) - multiset{c}
    {
      hide Table.Valid, Table.Ids, Pointing;
      u.ctx := c;
      users := users + {u};
      handles := handles - multiset{c};
      forall x | old(Valid()) && x in reg.nodes
        ensures x.refcnt == References(x) > 0
      {
        Joined(old(users), u, x);
        assert old(Valid()) ==> x.refcnt == old(x.refcnt) == old(References(x));
        assert Pointing(old(users), x) == old(Pointing(users, x));
      }
    }

    /** A record gives its reference up to a handle. */
    method Disown(u: UserData)
      requires Valid() && u in users
      modifies this`users, this`handles
      ensures Valid() && u.ctx in handles && u.ctx in reg.nodes
      ensures users == old(users) - {u} && handles == old(handles) + multiset{u.ctx}
    {
      hide Table.Valid, Table.Ids, Pointing;
      handles := handles + multiset{u.ctx};
      users := users - {u};
      forall x | x in reg.nodes
        ensures x.refcnt == References(x) > 0
      {
        Left(old(users), u, x);
        assert x.refcnt == old(x.refcnt) == old(References(x));
      }
    }

    /** The record `u` counts itself on `c` and points at it. */
    method Take(u: UserData, c: Entry)
      requires Valid() && u !in users
      modifies this`users, this`handles, c`refcnt, u`ctx
      ensures c in reg.nodes ==> Valid()
      ensures u.ctx == c && users == old(users) + {u} && handles == old(handles)
      ensures c.refcnt == old(c.refcnt) + 1
    {
      hide *;
      Retain(c);
      Adopt(u, c);
    }

    /** free_userdata: the record goes, and its reference with it. */
    method FreeUserdata(u: UserData)
      requires Valid() && u in users && u.ctx in reg.nodes
      modifies this`users, this`handles, u.ctx`refcnt, reg`nodes, reg.bucket, reg.nodes`next
      ensures Valid() && users == old(users) - {u} && handles == old(handles)
      ensures u.ctx.refcnt == old(u.ctx.refcnt) - 1
      ensures reg.nodes == if u.ctx.refcnt == 0 then old(reg.nodes) - {u.ctx} else old(reg.nodes)
    {
      hide *;
      Disown(u);
      Counted(u.ctx);
      CtxDestroy(u.ctx);
    }

    lemma Counted(c: Entry)
      requires Valid() && c in reg.nodes
      ensures c.refcnt == References(c) > 0
    {
    }

    /** A new record on a new context or, if one was named, on that one (`use`), in which case the
        new context is destroyed again. */
    method Open(use: Entry?) returns (u: UserData)
      requires Valid() && reg.counter < INT_MAX && (use != null ==> use in reg.nodes)
      modifies this`users, this`handles, reg`counter, reg`nodes, reg.bucket, reg.nodes`next, reg.nodes`refcnt
      ensures Valid() && fresh(u) && users == old(users) + {u} && handles == old(handles) && u.ctx in reg.nodes
      ensures reg.counter == old(reg.counter) + 1
      ensures if use == null then fresh(u.ctx) && u.ctx.refcnt == 1 && reg.nodes == old(reg.nodes) + {u.ctx}
              else u.ctx == use && use.refcnt == old(use.refcnt) + 1 && reg.nodes == old(reg.nodes)
      ensures forall x :: x in old(reg.nodes) && x != use ==> x.refcnt == old(x.refcnt)
    {
      hide *;
      u := new UserData();
      var ctx := CtxCreate();
      if use != null {
        CtxDestroy(ctx);
        Take(u, use);
      } else {
        Adopt(u, ctx);
      }
    }

    /** mod_sc_ssl_create. A failure after the context was chosen frees the record again. */
    method Create(use: Entry?, fails: bool) returns (u: UserData)
      requires Valid() && reg.counter < INT_MAX && (use != null ==> use in reg.nodes)
      modifies this`users, this`handles, reg`counter, reg`nodes, reg.bucket, reg.nodes`next, reg.nodes`refcnt
      ensures Valid() && fresh(u) && handles == old(handles) && reg.counter == old(reg.counter) + 1
      ensures fails ==> users == old(users) && reg.nodes == old(reg.nodes)
      ensures fails ==> forall x :: x in reg.nodes ==> x.refcnt == old(x.refcnt)
      ensures !fails ==> users == old(users) + {u} && u.ctx in reg.nodes
      ensures !fails && use == null ==> fresh(u.ctx) && u.ctx.refcnt == 1 && reg.nodes == old(reg.nodes) + {u.ctx}
      ensures forall x :: x in old(reg.nodes) && x != use ==> x in reg.nodes && x.refcnt == old(x.refcnt)
      ensures !fails && use != null ==> u.ctx == use && use.refcnt == old(use.refcnt) + 1 && reg.nodes == old(reg.nodes)
    {
      hide *;
      Positive();
      u := Open(use);
      if fails {
        FreeUserdata(u);
      }
    }

    lemma Positive()
      requires Valid()
      ensures forall c :: c in reg.nodes ==> c.refcnt > 0
    {
    }

    /** mod_sc_ssl_accept on the listening record: the new connection shares its context.
        A failed handshake frees the new record again. */
    method Accept(listener: UserData, fails: bool) returns (u: UserData)
      requires Valid() && listener in users && listener.ctx in reg.nodes
      modifies this`users, this`handles, listener.ctx`refcnt, reg`nodes, reg.bucket, reg.nodes`next
      ensures Valid() && fresh(u) && handles == old(handles) && reg.nodes == old(reg.nodes)
      ensures listener.ctx == old(listener.ctx) == u.ctx
      ensures users == if fails then old(users) else old(users) + {u}
      ensures u.ctx.refcnt == if fails then old(listener.ctx.refcnt) else old(listener.ctx.refcnt) + 1
    {
      hide *;
      Counted(listener.ctx);
      u := new UserData();
      Take(u, listener.ctx);
      if fails {
        FreeUserdata(u);
      }
    }

    /** The swap of contexts in mod_sc_ssl_starttls: the record's own context is given back before
        the named one is counted.  It is sound unless the record held the last reference to the
        very context that is named: then the record is left pointing at a context that is gone. */
    method Swap(u: UserData, use: Entry)
      requires Valid() && u in users && u.ctx in reg.nodes && use in reg.nodes
      modifies this`users, this`handles, u`ctx, u.ctx`refcnt, use`refcnt, reg`nodes, reg.bucket, reg.nodes`next
      ensures u.ctx == use && users == old(users) && handles == old(handles)
      ensures (use in reg.nodes ==> Valid()) && reg.nodes <= old(reg.nodes)
      ensures use in reg.nodes <==> !(use == old(u.ctx) && old(use.refcnt) == 1)
      ensures use == old(u.ctx) ==> use.refcnt == old(use.refcnt)
      ensures use != old(u.ctx) ==> use.refcnt == old(use.refcnt) + 1
      ensures var own := old(u.ctx);
              && (use != own ==> own.refcnt == old(own.refcnt) - 1)
              && reg.nodes == if old(own.refcnt) == 1 then old(reg.nodes) - {own} else old(reg.nodes)
    {
      hide *;
      Positive();
      PutBack(users, u);
      FreeUserdata(u);
      Take(u, use);
    }

    /** mod_sc_ssl_starttls on a socket with or without a record. The arguments may be bad, or name
        a context. Exactly one family of calls breaks the invariant: naming the record's own context
        while nobody else holds it. */
    method Starttls(r: UserData?, badArgs: bool, use: Entry?) returns (u: UserData)
      requires Valid() && reg.counter < INT_MAX
      requires (r != null ==> r in users && r.ctx in reg.nodes) && (use != null ==> use in reg.nodes)
      modifies this`users, this`handles, (if r == null then {} else {r})`ctx
      modifies reg`counter, reg`nodes, reg.bucket, reg.nodes`next, reg.nodes`refcnt
      ensures u in users && users == old(users) + {u} && handles == old(handles)
      ensures if r != null then u == r && reg.counter == old(reg.counter)
              else fresh(u) && reg.counter == old(reg.counter) + 1
      ensures fresh(reg.nodes - old(reg.nodes))
      ensures use != null && !badArgs ==> u.ctx == use
      ensures (use == null || badArgs) && r != null ==> u.ctx == old(r.ctx) && reg.nodes == old(reg.nodes)
      // a socket without a record gets a context of its own, unless one is named
      ensures (use == null || badArgs) && r == null ==>
                fresh(u.ctx) && u.ctx.refcnt == 1 && reg.nodes == old(reg.nodes) + {u.ctx}
      ensures use != null && !badArgs && r == null ==> reg.nodes == old(reg.nodes)
      ensures use != null && !badArgs && r != null ==>
                reg.nodes == if old(r.ctx.refcnt) == 1 then old(reg.nodes) - {old(r.ctx)} else old(reg.nodes)
      // one reference moves to the context that is named, and no other count changes
      ensures use != null && !badArgs ==>
                use.refcnt == old(use.refcnt) + if r != null && old(r.ctx) == use then 0 else 1
      ensures use != null && !badArgs && r != null && old(r.ctx) != use ==>
                old(r.ctx).refcnt == old(r.ctx.refcnt) - 1
      ensures forall x :: x in old(reg.nodes)
                          && (badArgs || use == null || (x != use && (r == null || x != old(r.ctx)))) ==>
                x in reg.nodes && x.refcnt == old(x.refcnt)
      ensures Valid() <==> !(r != null && !badArgs && use == old(r.ctx) && old(use.refcnt) == 1)
    {
      hide *;
      if r == null {
        u := Open(null);
      } else {
        u := r;
      }
      if badArgs {
        return;
      }
      if use != null {
        Swap(u, use);
        NoDangling();
      }
    }

    /** No record points at a freed context. */
    lemma NoDangling()
      ensures Valid() ==> forall u :: u in users ==> u.ctx in reg.nodes
    {
    }

    /** A caller that holds a handle on the named context is safe. */
    lemma HandleSuffices(u: UserData, use: Entry)
      requires Valid() && u in users && use in handles
      ensures use in reg.nodes && !(use == u.ctx && use.refcnt == 1)
    {
      assert use == u.ctx ==> u in Pointing(users, use);
    }

    /** Contexts are registered exactly as long as somebody refers to them, and count who does. */
    lemma RegisteredIffReferenced()
      requires Valid()
      ensures forall c :: c in reg.nodes <==> References(c) > 0
      ensures forall c :: c in reg.nodes ==> c.refcnt == References(c)
    {
      forall c | c !in reg.nodes
        ensures References(c) == 0
      {
        Unreferenced(users, handles, reg.nodes, c);
      }
    }

    /** Every registered context has a holder: when the sockets are closed and the context objects
        are gone, no context is left. */
    lemma NothingLeaks()
      requires Valid()
      ensures forall c :: c in reg.nodes ==> c in handles || exists u :: u in users && u.ctx == c
    {
      forall c | c in reg.nodes && c !in handles
        ensures exists u :: u in users && u.ctx == c
      {
        var u :| u in Pointing(users, c);
      }
    }

    lemma KnownContexts()
      requires Valid()
      ensures forall c :: c in handles ==> c in reg.nodes
    {
    }

    /** Any operation on the context objects of the program. */
    method ContextStep()
      requires Valid() && reg.counter < INT_MAX
      modifies this`handles, reg`counter, reg`nodes, reg.bucket, reg.nodes`next, reg.nodes`refcnt
      ensures Valid() && old(reg.counter) <= reg.counter <= old(reg.counter) + 1
      ensures fresh(reg.nodes - old(reg.nodes))
    {
      hide *;
      KnownContexts();
      if
      case true =>
        var c := CtxCreate();
      case handles != multiset{} =>
        var c :| c in handles;
        CtxDestroy(c);
    }

    /** A new socket, with a context of its own or with any context object of the program. */
    method CreateStep(fails: bool)
      requires Valid() && reg.counter < INT_MAX
      modifies this`users, this`handles, reg`counter, reg`nodes, reg.bucket, reg.nodes`next, reg.nodes`refcnt
      ensures Valid() && old(reg.counter) <= reg.counter <= old(reg.counter) + 1
      ensures fresh(users - old(users)) && fresh(reg.nodes - old(reg.nodes))
    {
      hide *;
      KnownContexts();
      var use: Entry? := null;
      if handles != multiset{} {
        if case true => case true => use :| use in handles;
      }
      var u := Create(use, fails);
    }

    /** A connection on any socket, or the end of it. */
    method SocketStep(fails: bool)
      requires Valid()
      modifies this`users, this`handles, reg`nodes, reg.bucket, reg.nodes`next, reg.nodes`refcnt
      ensures Valid() && fresh(users - old(users)) && reg.nodes <= old(reg.nodes)
    {
      hide *;
      NoDangling();
      if
      case users == {} =>
      case users != {} =>
        var l :| l in users;
        var u := Accept(l, fails);
      case users != {} =>
        var u :| u in users;
        FreeUserdata(u);
    }

    /** starttls on any socket, with any context object of the program. */
    method StarttlsStep(badArgs: bool)
      requires Valid() && reg.counter < INT_MAX
      modifies this`users, this`handles, users`ctx, reg`counter, reg`nodes, reg.bucket, reg.nodes`next, reg.nodes`refcnt
      ensures Valid() && old(reg.counter) <= reg.counter <= old(reg.counter) + 1
      ensures fresh(users - old(users)) && fresh(reg.nodes - old(reg.nodes))
    {
      hide *;
      KnownContexts();
      NoDangling();
      var r: UserData?, use: Entry? := null, null;
      if users != {} {
        if case true => case true => r :| r in users;
      }
      if handles != multiset{} {
        if case true => case true => use :| use in handles;
      }
      if r != null && use != null {
        HandleSuffices(r, use);
      }
      var u := Starttls(r, badArgs, use);
    }

    /** Whatever the program does, in any order: in the state after it each count is the number of
        references, contexts are registered exactly while somebody refers to them (so that none is
        left when the sockets and the context objects are gone), and no socket has one that is gone. */
    method Run(steps: nat)
      requires Valid() && reg.counter + steps <= INT_MAX
      modifies this`users, this`handles, users`ctx, reg`counter, reg`nodes, reg.bucket, reg.nodes`next, reg.nodes`refcnt
      ensures Valid()
      ensures forall c :: c in reg.nodes ==> c.refcnt == References(c)
      ensures forall c :: c in reg.nodes <==> References(c) > 0
      ensures forall c :: c in reg.nodes ==> c in handles || exists u :: u in users && u.ctx == c
      ensures forall u :: u in users ==> u.ctx in reg.nodes
    {
      hide *;
      for k := 0 to steps
        invariant Valid() && reg.counter + steps - k <= INT_MAX && reg.bucket == old(reg.bucket)
        invariant fresh(users - old(users)) && fresh(reg.nodes - old(reg.nodes))
      {
        if
        case true => ContextStep();
        case true => CreateStep(false);
        case true => CreateStep(true);
        case true => SocketStep(false);
        case true => SocketStep(true);
        case true => StarttlsStep(false);
        case true => StarttlsStep(true);
      }
      RegisteredIffReferenced();
      NothingLeaks();
      NoDangling();
    }
  }

  /** A context object, a socket that uses it, and the object given back: naming the context again in
      starttls breaks the invariant. */
  method StarttlsExample() returns (w: World, u: UserData)
    ensures fresh(w) && w.users == {u} && !w.Valid()
  {
    hide World.Valid, Table.Valid, Known;
    w := new World();
    var c := w.CtxCreate();
    u := w.Create(c, false);
    w.CtxDestroy(c);
    var v := w.Starttls(u, false, c);
  }
}
