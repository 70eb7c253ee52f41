/** The round robin of boost_http_server_2: a pool of contexts, and the server that
    draws one for its signals, one for its acceptor, and one for every connection. */
module ContextPool {
  import opened Options
  import opened Bytes

  // ------------------------------------------------------------- arithmetic

  /** The contexts that n draws from a new pool return. */
  function Draws(size: nat, n: nat): (draws: seq<nat>)
    requires size > 0
    ensures |draws| == n
  {
    if n == 0 then [] else Draws(size, n - 1) + [Cursor(size, n - 1)]
  }

  /** The cursor after n draws: one further each time, back to 0 at the end. */
  function Cursor(size: nat, n: nat): nat
    requires size > 0
  {
    if n == 0 then 0
    else if Cursor(size, n - 1) + 1 == size then 0
    else Cursor(size, n - 1) + 1
  }

  function Count(draws: seq<nat>, context: nat): nat {
    if draws == [] then 0 else Count(Front(draws), context) + (if Last(draws) == context then 1 else 0)
  }

  lemma {:induction false} Multiples(size: nat, q: nat, q': nat)
    requires q < q'
    ensures (q + 1) * size <= q' * size
    decreases q'
  {
    if q + 1 < q' { Multiples(size, q, q' - 1); }
    assert q' * size == (q' - 1) * size + size;
  }

  /** Quotient and remainder are unique. */
  lemma {:induction false} Unique(size: nat, q: nat, r: nat, q': nat, r': nat)
    requires r < size && r' < size && q * size + r == q' * size + r'
    ensures q == q' && r == r'
  {
    assert (q + 1) * size == q * size + size && (q' + 1) * size == q' * size + size;
    if q < q' {
      Multiples(size, q, q');
    } else if q' < q {
      Multiples(size, q', q);
    }
  }

  lemma {:induction false} Division(n: nat, size: nat, q: nat, r: nat)
    requires size > 0 && r < size && n == q * size + r
    ensures n / size == q && n % size == r
  {
    Unique(size, n / size, n % size, q, r);
  }

  lemma {:induction false} NextQuotient(n: nat, size: nat)
    requires size > 0
    ensures if n % size + 1 == size then (n + 1) % size == 0 && (n + 1) / size == n / size + 1
            else (n + 1) % size == n % size + 1 && (n + 1) / size == n / size
  {
    var q, r := n / size, n % size;
    if r + 1 == size {
      assert (q + 1) * size == q * size + size;
      Division(n + 1, size, q + 1, 0);
    } else {
      Division(n + 1, size, q, r + 1);
    }
  }

  lemma {:induction false} CursorIsRemainder(size: nat, n: nat)
    requires size > 0
    ensures Cursor(size, n) == n % size
  {
    if n > 0 {
      CursorIsRemainder(size, n - 1);
      NextQuotient(n - 1, size);
    }
  }

  lemma {:induction false} DrawAt(size: nat, n: nat, k: nat)
    requires size > 0 && k < n
    ensures Draws(size, n)[k] == k % size
    decreases n
  {
    if k < n - 1 {
      DrawAt(size, n - 1, k);
    } else {
      CursorIsRemainder(size, n - 1);
    }
  }

  /** Balance: of n draws every context has had n / size, rounded down or up; up
      exactly for those before the cursor. */
  lemma {:induction false} Balanced(size: nat, n: nat, context: nat)
    requires context < size
    ensures Count(Draws(size, n), context) == if context < n % size then n / size + 1 else n / size
  {
    if n == 0 {
      Division(0, size, 0, 0);
    } else {
      Balanced(size, n - 1, context);
      CursorIsRemainder(size, n - 1);
      NextQuotient(n - 1, size);
      assert Front(Draws(size, n)) == Draws(size, n - 1);
    }
  }

  /** Connections are balanced too: no context has two more of them than another. */
  lemma {:induction false} ConnectionsBalanced(size: nat, n: nat, a: nat, b: nat)
    requires a < size && b < size
    ensures var connections := Draws(size, n + 2)[2..];
            Count(connections, a) <= Count(connections, b) + 1
  {
    if size > 1 {
      CountAfterTwo(size, n, a);
      CountAfterTwo(size, n, b);
    }
  }

  /** Leaving out the draws of 0 and 1 is starting at 2: shift the contexts by two. */
  lemma {:induction false} CountAfterTwo(size: nat, n: nat, context: nat)
    requires context < size && size >= 2
    ensures var from := (context + size - 2) % size;
            Count(Draws(size, n + 2)[2..], context) == if from < n % size then n / size + 1 else n / size
  {
    var from := (context + size - 2) % size;
    ShiftedCount(size, n, context);
    Balanced(size, n, from);
  }

  lemma {:induction false} ShiftedCount(size: nat, n: nat, context: nat)
    requires context < size && size >= 2
    ensures Count(Draws(size, n + 2)[2..], context) == Count(Draws(size, n), (context + size - 2) % size)
  {
    if n == 0 {
      assert Draws(size, 2)[2..] == [];
    } else {
      ShiftedCount(size, n - 1, context);
      var longer := Draws(size, n + 2);
      assert Front(longer[2..]) == Draws(size, n + 1)[2..] && Last(longer[2..]) == Cursor(size, n + 1);
      assert Front(Draws(size, n)) == Draws(size, n - 1) && Last(Draws(size, n)) == Cursor(size, n - 1);
      CursorTwoOn(size, n - 1, context);
    }
  }

  lemma {:induction false} CursorTwoOn(size: nat, n: nat, context: nat)
    requires context < size && size >= 2
    ensures Cursor(size, n + 2) == context <==> Cursor(size, n) == (context + size - 2) % size
  {
    CursorBelow(size, n);
    CursorBelow(size, n + 1);
    if context >= 2 {
      Division(context + size - 2, size, 1, context - 2);
    } else {
      Division(context + size - 2, size, 0, context + size - 2);
    }
  }

  lemma {:induction false} CursorBelow(size: nat, n: nat)
    requires size > 0
    ensures Cursor(size, n) < size
  {
    CursorIsRemainder(size, n);
  }

  // ------------------------------------------------------------ the objects

  class Pool {
    const size: nat
    var next: nat
    ghost var drawn: nat

    ghost predicate Valid()
      reads this
    {
      size > 0 && next == Cursor(size, drawn) && next < size
    }

    constructor (size: nat)
      requires size > 0
      ensures Valid() && this.size == size && drawn == 0
    {
      this.size := size;
      next, drawn := 0, 0;
    }

    /** The constructor's exception: there is no pool of no contexts. */
    static method Make(size: nat) returns (pool: Option<Pool>)
      ensures pool.None? <==> size == 0
      ensures pool.Some? ==> fresh(pool.value) && pool.value.Valid() && pool.value.size == size && pool.value.drawn == 0
    {
      if size == 0 { return None; }
      var p := new Pool(size);
      return Some(p);
    }

    method GetIoContext() returns (context: nat)
      requires Valid()
      modifies this
      ensures Valid() && drawn == old(drawn) + 1
      ensures context == old(drawn) % size && next == drawn % size
      ensures Draws(size, drawn) == Draws(size, old(drawn)) + [context]
    {
      context := next;
      next := next + 1;
      if next == size {
        next := 0;
      }
      CursorIsRemainder(size, drawn);
      CursorIsRemainder(size, drawn + 1);
      drawn := drawn + 1;
    }
  }

  /** The server, with the contexts of the connection objects it has created, the
      latest of which waits to be accepted. */
  class Server {
    const pool: Pool
    const signals: nat
    const acceptor: nat
    var newConnection: nat
    ghost var created: seq<nat>

    ghost predicate Valid()
      reads this, pool
    {
      && pool.Valid() && pool.drawn == |created| + 2
      && Draws(pool.size, pool.drawn) == [signals, acceptor] + created
      && created != [] && newConnection == Last(created)
    }

    constructor (contexts: Pool)
      requires contexts.Valid() && contexts.drawn == 0
      modifies contexts
      ensures Valid() && pool == contexts && |created| == 1
    {
      var s := contexts.GetIoContext();
      var a := contexts.GetIoContext();
      pool, signals, acceptor := contexts, s, a;
      newConnection, created := 0, [];
      new;
      assert Draws(pool.size, 2) == [signals, acceptor] + created;
      StartAccept();
    }

    method StartAccept()
      requires pool.Valid() && pool.drawn == |created| + 2
      requires Draws(pool.size, pool.drawn) == [signals, acceptor] + created
      modifies this`newConnection, this`created, pool
      ensures Valid() && created == old(created) + [newConnection]
    {
      newConnection := pool.GetIoContext();
      created := created + [newConnection];
      assert [signals, acceptor] + old(created) + [newConnection] == [signals, acceptor] + created;
    }

    /** Whether or not the accept succeeded, the next connection is created. */
    method HandleAccept(error: bool) returns (started: Option<nat>)
      requires Valid()
      modifies this`newConnection, this`created, pool
      ensures Valid() && created == old(created) + [newConnection]
      ensures started == if error then None else Some(old(newConnection))
    {
      started := None;
      if !error {
        started := Some(newConnection);
      }
      StartAccept();
    }

    /** The k-th connection object, from 0, is on context (k + 2) mod size. */
    lemma ConnectionContext(k: nat)
      requires Valid() && k < |created|
      ensures created[k] == (k + 2) % pool.size
    {
      DrawAt(pool.size, pool.drawn, k + 2);
      assert Draws(pool.size, pool.drawn)[k + 2] == created[k];
    }
  }
}
