/** Core/Templates/SeptemRecyclePool: a stack of free objects shared by many threads.

An object is the identity `make_shared` gives it, a number in order of creation.  The class
follows the source, with clients and dropped objects recorded as ghost state; every lock-protected
body is one step of the state machine. */
module RecyclePool {

  type Obj = nat
  type Client = nat

  /** A client was handed an object and counts on it. */
  datatype Claim = Claim(client: Client, obj: Obj)

  /** `free` is the stack, its top last.  `held` are the claims of the clients, one for each time
      an object was handed out; `dropped` are objects that were destroyed.  `made` counts the
      objects ever created. */
  datatype Pool = Pool(free: seq<Obj>, held: multiset<Claim>, dropped: set<Obj>, made: nat)

  const EMPTY := Pool([], multiset{}, {}, 0)

  ghost predicate IsClaimed(p: Pool, o: Obj) {
    exists c: Client :: Claim(c, o) in p.held
  }

  ghost predicate NoDuplicates(s: seq<Obj>) {
    forall i, j :: 0 <= i < j < |s| ==> s[i] != s[j]
  }

  /** Each object that is claimed is claimed once, by one client. */
  ghost predicate OneClaimEach(held: multiset<Claim>) {
    forall k, l :: k in held && l in held && k.obj == l.obj ==> k == l && held[k] == 1
  }

  /** Exclusive ownership: every object ever made is in exactly one place. */
  ghost predicate Exclusive(p: Pool) {
    && NoDuplicates(p.free)
    && OneClaimEach(p.held)
    && (forall o: Obj :: o in p.free ==> !IsClaimed(p, o) && o !in p.dropped)
    && (forall o: Obj :: IsClaimed(p, o) ==> o !in p.dropped)
    && (forall o: Obj :: o < p.made <==> o in p.free || IsClaimed(p, o) || o in p.dropped)
    && p.made == |p.free| + |p.held| + |p.dropped|
  }

  // ----- steps

  function Max(a: int, b: int): int {
    if a < b then b else a
  }

  /** n new objects on top of the stack. */
  function Grown(p: Pool, n: nat): Pool {
    p.(free := p.free + seq(n, i => p.made + i), made := p.made + n)
  }

  function Elements(s: seq<Obj>): set<Obj> {
    set o | o in s
  }

  /** All but the lowest n objects popped and destroyed. */
  function Shrunk(p: Pool, n: nat): Pool
    requires n <= |p.free|
  {
    p.(free := p.free[..n], dropped := p.dropped + Elements(p.free[n..]))
  }

  function AfterReset(p: Pool, count: int): Pool {
    Grown(p, Max(0, count - |p.free|))
  }

  function AfterResize(p: Pool, count: nat): Pool {
    if count > |p.free| then Grown(p, count - |p.free|) else Shrunk(p, count)
  }

  function Taken(p: Pool, c: Client): Pool
    requires p.free != []
  {
    var top := p.free[|p.free| - 1];
    p.(free := p.free[..|p.free| - 1], held := p.held + multiset{Claim(c, top)})
  }

  function Created(p: Pool, c: Client): Pool {
    p.(held := p.held + multiset{Claim(c, p.made)}, made := p.made + 1)
  }

  /** Dealloc pushes whatever it is given, by whomever; that client's claim ends, if it has one. */
  function ReturnedBy(p: Pool, c: Client, o: Obj): Pool {
    p.(free := p.free + [o], held := p.held - multiset{Claim(c, o)})
  }

  // ----- the source's own operations

  class TSharedRecyclePool {
    var m_pool: seq<Obj>
    var made: nat
    ghost var held: multiset<Claim>
    ghost var dropped: set<Obj>

    ghost function View(): Pool
      reads this
    {
      Pool(m_pool, held, dropped, made)
    }

    constructor (inNum: int)
      ensures View() == AfterReset(EMPTY, inNum)
      ensures |m_pool| == Max(0, inNum) == made && held == multiset{} && dropped == {}
      ensures Exclusive(View())
    {
      m_pool := [];
      made := 0;
      held := multiset{};
      dropped := {};
      new;
      assert View() == EMPTY;
      Reset(inNum);
      EmptyIsExclusive();
      ResetKeepsExclusive(EMPTY, inNum);
    }

    method MakeShared() returns (o: Obj)
      modifies this`made
      ensures o == old(made) && made == old(made) + 1
    {
      o := made;
      made := made + 1;
    }

    method Reset(poolCount: int)
      modifies this
      ensures View() == AfterReset(old(View()), poolCount)
      ensures old(m_pool) <= m_pool && |m_pool| == Max(|old(m_pool)|, poolCount)
      ensures forall i :: |old(m_pool)| <= i < |m_pool| ==> m_pool[i] >= old(made)
    {
      var imax := poolCount - |m_pool|;
      if imax > 0 {
        PushNew(imax);
      }
    }

    method Resize(poolCount: nat)
      modifies this
      ensures View() == AfterResize(old(View()), poolCount)
      ensures |m_pool| == poolCount && (m_pool <= old(m_pool) || old(m_pool) <= m_pool)
      ensures forall i :: |old(m_pool)| <= i < |m_pool| ==> m_pool[i] >= old(made)
    {
      var imax := poolCount - |m_pool|;
      if imax > 0 {
        PushNew(imax);
      } else {
        imax := -imax;
        ghost var was := View();
        var i := 0;
        while i < imax
          invariant 0 <= i <= imax
          invariant View() == Shrunk(was, |was.free| - i)
        {
          ghost var top := m_pool[|m_pool| - 1];
          ShrinkOne(was, |m_pool|);
          dropped := dropped + {top};
          m_pool := m_pool[..|m_pool| - 1];
          i := i + 1;
        }
      }
    }

    /** The loop that pushes fresh objects, the same in Reset and in Resize. */
    method PushNew(imax: nat)
      modifies this
      ensures View() == Grown(old(View()), imax)
    {
      ghost var was := View();
      var i := 0;
      while i < imax
        invariant 0 <= i <= imax
        invariant View() == Grown(was, i)
      {
        var o := MakeShared();
        m_pool := m_pool + [o];
        i := i + 1;
      }
    }

    /** The locked half of Alloc; on a miss the lock is released with nothing taken. */
    method TakeTop(ghost client: Client) returns (hit: bool, ret: Obj)
      modifies this
      ensures hit <==> old(m_pool) != []
      ensures hit ==> ret == old(m_pool)[|old(m_pool)| - 1] && View() == Taken(old(View()), client)
      ensures !hit ==> View() == old(View())
    {
      if m_pool != [] {
        ret := m_pool[|m_pool| - 1];
        m_pool := m_pool[..|m_pool| - 1];
        held := held + multiset{Claim(client, ret)};
        return true, ret;
      }
      return false, 0;
    }

    /** The unlocked half of Alloc, reached after a miss. */
    method CreateNew(ghost client: Client) returns (ret: Obj)
      modifies this
      ensures ret == old(made) && View() == Created(old(View()), client)
    {
      ret := MakeShared();
      held := held + multiset{Claim(client, ret)};
    }

    /** A null pointer (None) is ignored; nothing else is checked. */
    method Dealloc(ptr: Option<Obj>, ghost client: Client)
      modifies this
      ensures View() == if ptr.Some? then ReturnedBy(old(View()), client, ptr.value) else old(View())
      ensures m_pool == if ptr.Some? then old(m_pool) + [ptr.value] else old(m_pool)
    {
      if ptr.Some? {
        m_pool := m_pool + [ptr.value];
        held := held - multiset{Claim(client, ptr.value)};
      }
    }
  }

  datatype Option<T> = None | Some(value: T)

  // ----- what every step keeps

  lemma ShrinkOne(p: Pool, n: nat)
    requires 0 < n <= |p.free|
    ensures Shrunk(p, n - 1)
            == Shrunk(p, n).(free := p.free[..n][..n - 1], dropped := Shrunk(p, n).dropped + {p.free[..n][n - 1]})
  {
    assert p.free[n - 1..] == [p.free[n - 1]] + p.free[n..];
    assert Elements(p.free[n - 1..]) == Elements(p.free[n..]) + {p.free[n - 1]};
  }

  lemma EmptyIsExclusive()
    ensures Exclusive(EMPTY)
  {
    assert forall o: Obj :: o !in EMPTY.free && !IsClaimed(EMPTY, o) && o !in EMPTY.dropped;
  }

  lemma GrownKeepsExclusive(p: Pool, n: nat)
    requires Exclusive(p)
    ensures Exclusive(Grown(p, n))
  {
    var q := Grown(p, n);
    assert forall o: Obj :: IsClaimed(q, o) <==> IsClaimed(p, o);
    forall i, j | 0 <= i < j < |q.free|
      ensures q.free[i] != q.free[j]
    {
      assert i < |p.free| ==> p.free[i] in p.free;
    }
    forall o: Obj
      ensures o in q.free <==> o in p.free || p.made <= o < q.made
    {
      if p.made <= o < q.made {
        assert q.free[|p.free| + (o - p.made)] == o;
      }
      if o in p.free {
        var i :| 0 <= i < |p.free| && p.free[i] == o;
        assert q.free[i] == o;
      }
    }
  }

  lemma ResetKeepsExclusive(p: Pool, count: int)
    requires Exclusive(p)
    ensures Exclusive(AfterReset(p, count))
    ensures |AfterReset(p, count).free| == Max(|p.free|, count)
  {
    GrownKeepsExclusive(p, Max(0, count - |p.free|));
  }

  lemma {:induction false} ElementsCount(s: seq<Obj>)
    requires NoDuplicates(s)
    ensures |Elements(s)| == |s|
  {
    if s != [] {
      var front := s[..|s| - 1];
      ElementsCount(front);
      assert Elements(s) == Elements(front) + {s[|s| - 1]};
    }
  }

  lemma SplitMembers(s: seq<Obj>, n: nat)
    requires n <= |s| && NoDuplicates(s)
    ensures NoDuplicates(s[..n])
    ensures |Elements(s[n..])| == |s| - n
    ensures forall o: Obj :: o in s <==> o in s[..n] || o in Elements(s[n..])
    ensures forall o: Obj :: o in s[..n] ==> o !in Elements(s[n..])
  {
    assert s == s[..n] + s[n..];
    ElementsCount(s[n..]);
  }

  lemma ShrunkKeepsExclusive(p: Pool, n: nat)
    requires Exclusive(p) && n <= |p.free|
    ensures Exclusive(Shrunk(p, n))
  {
    SplitMembers(p.free, n);
    DroppedKeepsExclusive(p, Shrunk(p, n), Elements(p.free[n..]));
  }

  /** Free objects are destroyed. */
  lemma DroppedKeepsExclusive(p: Pool, q: Pool, gone: set<Obj>)
    requires Exclusive(p)
    requires NoDuplicates(q.free) && |p.free| == |q.free| + |gone|
    requires forall o: Obj :: o in p.free <==> o in q.free || o in gone
    requires forall o: Obj :: o in q.free ==> o !in gone
    requires q.held == p.held && q.made == p.made && q.dropped == p.dropped + gone
    ensures Exclusive(q)
  {
    assert forall o: Obj :: IsClaimed(q, o) <==> IsClaimed(p, o);
    hide NoDuplicates, OneClaimEach, IsClaimed;
    assert p.dropped !! gone;
  }

  lemma ResizeKeepsExclusive(p: Pool, count: nat)
    requires Exclusive(p)
    ensures Exclusive(AfterResize(p, count))
    ensures |AfterResize(p, count).free| == count
  {
    hide Exclusive;
    if count > |p.free| {
      GrownKeepsExclusive(p, count - |p.free|);
    } else {
      ShrunkKeepsExclusive(p, count);
    }
  }

  /** A new claim on an object nobody claims yet. */
  lemma NewClaim(p: Pool, q: Pool, c: Client, o: Obj)
    requires OneClaimEach(p.held) && !IsClaimed(p, o)
    requires q.held == p.held + multiset{Claim(c, o)}
    ensures OneClaimEach(q.held) && |q.held| == |p.held| + 1
    ensures forall x: Obj :: IsClaimed(q, x) <==> IsClaimed(p, x) || x == o
  {
    assert Claim(c, o) in q.held;
    forall x: Obj
      ensures IsClaimed(q, x) <==> IsClaimed(p, x) || x == o
    {
      if IsClaimed(p, x) {
        var d :| Claim(d, x) in p.held;
        assert Claim(d, x) in q.held;
      }
    }
    forall k, l | k in q.held && l in q.held && k.obj == l.obj
      ensures k == l && q.held[k] == 1
    {
      assert k in p.held ==> k == Claim(k.client, k.obj) && IsClaimed(p, k.obj);
      assert l in p.held ==> l == Claim(l.client, l.obj) && IsClaimed(p, l.obj);
    }
  }

  /** The end of the only claim on an object. */
  lemma ClaimEnds(p: Pool, q: Pool, c: Client, o: Obj)
    requires OneClaimEach(p.held) && Claim(c, o) in p.held
    requires q.held == p.held - multiset{Claim(c, o)}
    ensures OneClaimEach(q.held) && |q.held| == |p.held| - 1
    ensures forall x: Obj :: IsClaimed(q, x) <==> IsClaimed(p, x) && x != o
  {
    forall x: Obj
      ensures IsClaimed(q, x) <==> IsClaimed(p, x) && x != o
    {
      if IsClaimed(p, x) && x != o {
        var d :| Claim(d, x) in p.held;
        assert Claim(d, x) in q.held;
      }
    }
    assert forall k :: k in q.held ==> k in p.held;
  }

  /** Alloc on a hit: the object was free, so nobody held it, and now exactly this client does. */
  lemma TakenKeepsExclusive(p: Pool, c: Client)
    requires Exclusive(p) && p.free != []
    ensures Exclusive(Taken(p, c))
    ensures !IsClaimed(p, p.free[|p.free| - 1])
  {
    hide OneClaimEach, IsClaimed;
    var top := p.free[|p.free| - 1];
    SplitMembers(p.free, |p.free| - 1);
    assert p.free[|p.free| - 1..] == [top];
    NewClaim(p, Taken(p, c), c, top);
  }

  lemma CreatedKeepsExclusive(p: Pool, c: Client)
    requires Exclusive(p)
    ensures Exclusive(Created(p, c))
    ensures !IsClaimed(p, p.made)
  {
    hide OneClaimEach, IsClaimed;
    NewClaim(p, Created(p, c), c, p.made);
  }

  lemma HolderCanReturn(p: Pool, c: Client, o: Obj)
    requires Exclusive(p) && Claim(c, o) in p.held
    ensures Exclusive(ReturnedBy(p, c, o))
  {
    var q := ReturnedBy(p, c, o);
    assert IsClaimed(p, o);
    ClaimEnds(p, q, c, o);
    hide OneClaimEach, IsClaimed;
    assert q.free[|p.free|] == o;
    assert forall x: Obj :: x in q.free <==> x in p.free || x == o;
  }

  lemma OthersCannotReturn(p: Pool, c: Client, o: Obj)
    requires Exclusive(p) && Claim(c, o) !in p.held
    ensures !Exclusive(ReturnedBy(p, c, o))
  {
    var q := ReturnedBy(p, c, o);
    assert q.held == p.held && q.free[|p.free|] == o;
    if o in p.free {
      var i :| 0 <= i < |p.free| && p.free[i] == o;
      assert q.free[i] == q.free[|p.free|];
    } else if IsClaimed(p, o) {
      assert IsClaimed(q, o) && o in q.free;
    } else if o < p.made {
      assert o in q.dropped && o in q.free;
    } else {
      assert o in q.free && o >= q.made;
    }
  }

  /** Dealloc keeps ownership exclusive exactly when the client that calls it is the one that
      was handed the object and has not given it back since. */
  lemma ReturnedKeepsExclusive(p: Pool, c: Client, o: Obj)
    requires Exclusive(p)
    ensures Exclusive(ReturnedBy(p, c, o)) <==> Claim(c, o) in p.held
  {
    hide Exclusive;
    if Claim(c, o) in p.held {
      HolderCanReturn(p, c, o);
    } else {
      OthersCannotReturn(p, c, o);
    }
  }

  /** A held object that is returned twice goes to the next two clients: the second is handed
      it while the first still counts on it. */
  lemma TwiceReturnedIsTwiceHeld(p: Pool, c: Client, o: Obj, first: Client, second: Client)
    requires Exclusive(p) && Claim(c, o) in p.held
    ensures var once := ReturnedBy(p, c, o);
            var twice := ReturnedBy(once, c, o);
            var shared := Taken(Taken(twice, first), second);
            && Exclusive(once) && !Exclusive(twice) && !Exclusive(shared)
            && multiset{Claim(first, o), Claim(second, o)} <= shared.held
  {
    HolderCanReturn(p, c, o);
    var once := ReturnedBy(p, c, o);
    assert p.held[Claim(c, o)] == 1;
    OthersCannotReturn(once, c, o);
    BothHold(ReturnedBy(once, c, o), first, second, o);
  }

  lemma BothHold(p: Pool, first: Client, second: Client, o: Obj)
    requires |p.free| >= 2 && p.free[|p.free| - 1] == p.free[|p.free| - 2] == o
    ensures var shared := Taken(Taken(p, first), second);
            !Exclusive(shared) && multiset{Claim(first, o), Claim(second, o)} <= shared.held
  {
    var shared := Taken(Taken(p, first), second);
    assert shared.held == p.held + multiset{Claim(first, o), Claim(second, o)};
    SharedIsNotExclusive(shared, first, second, o);
  }

  lemma SharedIsNotExclusive(p: Pool, first: Client, second: Client, o: Obj)
    requires multiset{Claim(first, o), Claim(second, o)} <= p.held
    ensures !Exclusive(p)
  {
    assert p.held[Claim(first, o)] >= multiset{Claim(first, o), Claim(second, o)}[Claim(first, o)];
    assert Claim(first, o) in p.held && Claim(second, o) in p.held;
  }

  /** It is not enough that the object is handed out at the time: a client that returns it once
      more, after it has gone to another, takes it away from that one. */
  lemma StaleReturnSharesTheObject(p: Pool, stale: Client, o: Obj, holder: Client, next: Client)
    requires Exclusive(p) && Claim(stale, o) in p.held && stale != holder
    ensures var handedOn := Taken(ReturnedBy(p, stale, o), holder);
            var shared := Taken(ReturnedBy(handedOn, stale, o), next);
            && Exclusive(handedOn) && IsClaimed(handedOn, o)
            && !Exclusive(shared)
            && multiset{Claim(holder, o), Claim(next, o)} <= shared.held
  {
    var once := ReturnedBy(p, stale, o);
    var handedOn := Taken(once, holder);
    HolderCanReturn(p, stale, o);
    TakenKeepsExclusive(once, holder);
    assert Claim(holder, o) in handedOn.held;
    assert IsClaimed(handedOn, o);
    assert Claim(stale, o) !in handedOn.held;
    var shared := Taken(ReturnedBy(handedOn, stale, o), next);
    assert shared.held == handedOn.held + multiset{Claim(next, o)};
    SharedIsNotExclusive(shared, holder, next, o);
  }

  // ----- every run

  datatype Event =
    | Take(client: Client)
    | Create(client: Client)
    | Give(client: Client, obj: Obj)
    | GiveNull(client: Client)
    | Forget(client: Client, obj: Obj)
    | ResetTo(count: int)
    | ResizeTo(size: nat)

  /** One step.  A client that took nothing because the stack was empty goes on with Create.
      Anybody may give back anything; a client forgets what it holds (its last pointer dies). */
  function Step(p: Pool, e: Event): Pool {
    match e
    case Take(c) => if p.free == [] then p else Taken(p, c)
    case Create(c) => Created(p, c)
    case Give(c, o) => ReturnedBy(p, c, o)
    case GiveNull(_) => p
    case Forget(c, o) =>
      if Claim(c, o) !in p.held then p
      else p.(held := p.held - multiset{Claim(c, o)}, dropped := p.dropped + {o})
    case ResetTo(n) => AfterReset(p, n)
    case ResizeTo(n) => AfterResize(p, n)
  }

  function Run(p: Pool, events: seq<Event>): Pool {
    if events == [] then p else Step(Run(p, events[..|events| - 1]), events[|events| - 1])
  }

  /** Only Give can be wrong: it must come from the holder. */
  ghost predicate IsProper(p: Pool, e: Event) {
    e.Give? ==> Claim(e.client, e.obj) in p.held
  }

  ghost predicate AllProper(p: Pool, events: seq<Event>) {
    forall n :: 0 <= n < |events| ==> IsProper(Run(p, events[..n]), events[n])
  }

  ghost predicate ExclusiveThroughout(p: Pool, events: seq<Event>) {
    forall n :: 0 <= n <= |events| ==> Exclusive(Run(p, events[..n]))
  }

  /** A step keeps ownership exclusive exactly when it is proper. */
  lemma StepKeepsExclusive(p: Pool, e: Event)
    requires Exclusive(p)
    ensures Exclusive(Step(p, e)) <==> IsProper(p, e)
  {
    match e {
      case Take(c) =>
        if p.free != [] {
          TakenKeepsExclusive(p, c);
        }
      case Create(c) => CreatedKeepsExclusive(p, c);
      case Give(c, o) => ReturnedKeepsExclusive(p, c, o);
      case GiveNull(_) =>
      case Forget(c, o) => ForgetKeepsExclusive(p, c, o);
      case ResetTo(n) => ResetKeepsExclusive(p, n);
      case ResizeTo(n) => ResizeKeepsExclusive(p, n);
    }
  }

  lemma ForgetKeepsExclusive(p: Pool, c: Client, o: Obj)
    requires Exclusive(p)
    ensures Exclusive(Step(p, Forget(c, o)))
  {
    if Claim(c, o) in p.held {
      assert IsClaimed(p, o);
      ClaimEnds(p, Step(p, Forget(c, o)), c, o);
      hide OneClaimEach, IsClaimed;
    }
  }

  lemma RunExtends(p: Pool, events: seq<Event>, n: nat)
    requires n < |events|
    ensures Run(p, events[..n + 1]) == Step(Run(p, events[..n]), events[n])
  {
    assert events[..n + 1][..n] == events[..n];
  }

  /** On every run, ownership is exclusive throughout exactly when every object that comes back
      comes from the client that holds it at that time. */
  lemma RunKeepsExclusive(p: Pool, events: seq<Event>)
    requires Exclusive(p)
    ensures ExclusiveThroughout(p, events) <==> AllProper(p, events)
  {
    hide Exclusive, Step, IsProper, Run;
    if AllProper(p, events) {
      forall n | 0 <= n <= |events|
        ensures Exclusive(Run(p, events[..n]))
      {
        ProperSoFar(p, events, n);
      }
    }
    if ExclusiveThroughout(p, events) {
      forall n | 0 <= n < |events|
        ensures IsProper(Run(p, events[..n]), events[n])
      {
        RunExtends(p, events, n);
        StepKeepsExclusive(Run(p, events[..n]), events[n]);
      }
    }
  }

  lemma {:induction false} ProperSoFar(p: Pool, events: seq<Event>, n: nat)
    requires Exclusive(p) && AllProper(p, events) && n <= |events|
    ensures Exclusive(Run(p, events[..n]))
  {
    if n > 0 {
      hide Exclusive, Step, IsProper, Run;
      ProperSoFar(p, events, n - 1);
      RunExtends(p, events, n - 1);
      StepKeepsExclusive(Run(p, events[..n - 1]), events[n - 1]);
    }
  }

  /** This step is the holder giving the object back or forgetting it. */
  predicate GivesUp(e: Event, holder: Client, o: Obj) {
    (e.Give? || e.Forget?) && e.client == holder && e.obj == o
  }

  /** On every run, a client's claim lasts until that client gives the object up, and while all
      others keep to what is theirs, it is the only one. */
  lemma HeldUntilGivenUp(p: Pool, events: seq<Event>, holder: Client, o: Obj)
    requires Claim(holder, o) in p.held
    requires forall i :: 0 <= i < |events| ==> !GivesUp(events[i], holder, o)
    ensures Claim(holder, o) in Run(p, events).held
    ensures Exclusive(p) && AllProper(p, events) ==>
              forall c: Client :: Claim(c, o) in Run(p, events).held ==> c == holder
  {
    ClaimLasts(p, events, holder, o);
    if Exclusive(p) && AllProper(p, events) {
      hide Run, AllProper;
      assert events[..|events|] == events;
      ProperSoFar(p, events, |events|);
    }
  }

  lemma {:induction false} ClaimLasts(p: Pool, events: seq<Event>, holder: Client, o: Obj)
    requires Claim(holder, o) in p.held
    requires forall i :: 0 <= i < |events| ==> !GivesUp(events[i], holder, o)
    ensures Claim(holder, o) in Run(p, events).held
  {
    if events != [] {
      hide Step;
      ClaimLasts(p, events[..|events| - 1], holder, o);
      ClaimSurvivesStep(Run(p, events[..|events| - 1]), events[|events| - 1], holder, o);
    }
  }

  lemma ClaimSurvivesStep(p: Pool, e: Event, holder: Client, o: Obj)
    requires Claim(holder, o) in p.held && !GivesUp(e, holder, o)
    ensures Claim(holder, o) in Step(p, e).held
  {
  }
}
