/** The pool of Redis clients, as threads use it: getting a client is one step when one
    is free, and two steps, with others in between, when a new one must be made. */
module Pool {
  import opened Wrappers

  type Client = nat        // clients are numbered as they are made
  type User = nat

  datatype Hold = Hold(user: User, client: Client)

  /** `waiting` are the users that found no free client and are making one; `peak` is
      the largest number of users holding or making a client so far, and `failed` counts
      those whose client could not be made. */
  datatype State = State(free: seq<Client>, held: seq<Hold>, waiting: seq<User>, created: nat, peak: nat, failed: nat)

  datatype Step =
    | Get(user: User)          // the locked part of get
    | Make(index: nat)         // a waiting user has made its client
    | Fail(index: nat)         // a waiting user could not connect, and gets an exception
    | GiveBack(index: nat)     // a held client is returned

  const START: State := State([0], [], [], 1, 0, 0)

  predicate Enabled(s: State, step: Step) {
    match step
    case Get(_) => true
    case Make(i) => i < |s.waiting|
    case Fail(i) => i < |s.waiting|
    case GiveBack(i) => i < |s.held|
  }

  function Without<T>(xs: seq<T>, i: nat): seq<T>
    requires i < |xs|
  {
    xs[..i] + xs[i + 1..]
  }

  function Counted(s: State): State {
    var users := |s.held| + |s.waiting|;
    s.(peak := if users > s.peak then users else s.peak)
  }

  function Next(s: State, step: Step): State
    requires Enabled(s, step)
  {
    match step
    case Get(user) =>
      Counted(if s.free != [] then s.(free := s.free[1..], held := s.held + [Hold(user, s.free[0])])
              else s.(waiting := s.waiting + [user]))
    case Make(i) =>
      s.(waiting := Without(s.waiting, i), held := s.held + [Hold(s.waiting[i], s.created)], created := s.created + 1)
    case Fail(i) =>
      s.(waiting := Without(s.waiting, i), failed := s.failed + 1)
    case GiveBack(i) =>
      s.(held := Without(s.held, i), free := s.free + [s.held[i].client])
  }

  ghost predicate IsRun(s: State, steps: seq<Step>)
    decreases steps
  {
    steps != [] ==> Enabled(s, steps[0]) && IsRun(Next(s, steps[0]), steps[1..])
  }

  ghost function After(s: State, steps: seq<Step>): State
    requires IsRun(s, steps)
    decreases steps
  {
    if steps == [] then s else After(Next(s, steps[0]), steps[1..])
  }

  // ---------------------------------------------------------------- the invariant

  function Clients(held: seq<Hold>): (clients: seq<Client>)
    ensures |clients| == |held| && forall i :: 0 <= i < |held| ==> clients[i] == held[i].client
  {
    seq(|held|, i requires 0 <= i < |held| => held[i].client)
  }

  /** All clients made so far. */
  function Made(created: nat): seq<Client> {
    seq(created, i => i)
  }

  ghost predicate NoneLost(s: State) {
    multiset(s.free) + multiset(Clients(s.held)) == multiset(Made(s.created))
  }

  /** No more clients are made than were ever in use at the same time, nor fewer unless
      some could not be made. */
  ghost predicate MadeAtPeak(s: State) {
    s.created + |s.waiting| <= (if s.peak > 1 then s.peak else 1) <= s.created + |s.waiting| + s.failed
  }

  ghost predicate Accounted(s: State) {
    && NoneLost(s)
    && MadeAtPeak(s)
    && |s.held| + |s.waiting| <= s.peak
  }

  lemma Taken<T>(xs: seq<T>, i: nat)
    requires i < |xs|
    ensures multiset(xs) == multiset(Without(xs, i)) + multiset{xs[i]}
  {
    assert xs == xs[..i] + [xs[i]] + xs[i + 1..];
  }

  lemma Added<T>(xs: seq<T>, x: T)
    ensures multiset(xs + [x]) == multiset(xs) + multiset{x}
  {
  }

  lemma ClientsAdded(held: seq<Hold>, h: Hold)
    ensures Clients(held + [h]) == Clients(held) + [h.client]
  {
  }

  lemma ClientsWithout(held: seq<Hold>, i: nat)
    requires i < |held|
    ensures Clients(Without(held, i)) == Without(Clients(held), i)
  {
  }

  lemma MadeMore(created: nat)
    ensures Made(created + 1) == Made(created) + [created]
  {
  }

  lemma Sizes(s: State)
    requires Accounted(s)
    ensures |s.free| + |s.held| == s.created
  {
    assert |multiset(s.free) + multiset(Clients(s.held))| == |s.free| + |s.held|;
    assert |multiset(Made(s.created))| == s.created;
  }

  lemma PopLosesNone(s: State, user: User)
    requires NoneLost(s) && s.free != []
    ensures NoneLost(s.(free := s.free[1..], held := s.held + [Hold(user, s.free[0])]))
  {
    hide Clients, Made;
    Taken(s.free, 0);
    assert Without(s.free, 0) == s.free[1..];
    ClientsAdded(s.held, Hold(user, s.free[0]));
    Added(Clients(s.held), s.free[0]);
  }

  lemma MakeLosesNone(s: State, i: nat)
    requires NoneLost(s) && i < |s.waiting|
    ensures NoneLost(Next(s, Make(i)))
  {
    hide Clients, Made;
    ClientsAdded(s.held, Hold(s.waiting[i], s.created));
    Added(Clients(s.held), s.created);
    MadeMore(s.created);
    Added(Made(s.created), s.created);
  }

  lemma GiveBackLosesNone(s: State, i: nat)
    requires NoneLost(s) && i < |s.held|
    ensures NoneLost(Next(s, GiveBack(i)))
  {
    hide Made;
    ClientsWithout(s.held, i);
    Taken(Clients(s.held), i);
    Added(s.free, s.held[i].client);
  }

  lemma StepKeepsAccounts(s: State, step: Step)
    requires Accounted(s) && Enabled(s, step)
    ensures Accounted(Next(s, step))
  {
    Sizes(s);
    match step {
      case Get(user) =>
        if s.free != [] {
          PopLosesNone(s, user);
        }
      case Make(i) => MakeLosesNone(s, i);
      case Fail(i) =>
      case GiveBack(i) => GiveBackLosesNone(s, i);
    }
  }

  // ---------------------------------------------------------------- safety

  /** Every client made is in exactly one place: free, or held by one user. */
  ghost predicate Safe(s: State) {
    && (forall i, j :: 0 <= i < j < |s.held| ==> s.held[i].client != s.held[j].client)
    && (forall i, j :: 0 <= i < j < |s.free| ==> s.free[i] != s.free[j])
    && (forall h <- s.held :: h.client !in s.free)
    && (forall c: nat :: c < s.created <==> c in s.free || exists h <- s.held :: h.client == c)
    && MadeAtPeak(s)
  }

  lemma MadeOnce(created: nat, c: Client)
    ensures multiset(Made(created))[c] == if c < created then 1 else 0
  {
    if created > 0 {
      MadeMore(created - 1);
      MadeOnce(created - 1, c);
    }
  }

  lemma Twice<T>(xs: seq<T>, i: nat, j: nat)
    requires i < j < |xs| && xs[i] == xs[j]
    ensures multiset(xs)[xs[i]] >= 2
  {
    Taken(xs, j);
    assert Without(xs, j)[i] == xs[i];
    assert xs[i] in multiset(Without(xs, j));
  }

  lemma AccountedIsSafe(s: State)
    requires Accounted(s)
    ensures Safe(s)
  {
    var free, held := multiset(s.free), multiset(Clients(s.held));
    forall c: nat
      ensures free[c] + held[c] == if c < s.created then 1 else 0
      ensures c in s.free <==> free[c] > 0
    {
      MadeOnce(s.created, c);
      assert (free + held)[c] == free[c] + held[c];
      assert c in s.free <==> c in free;
    }
    forall i, j | 0 <= i < j < |s.held|
      ensures s.held[i].client != s.held[j].client
    {
      if s.held[i].client == s.held[j].client {
        Twice(Clients(s.held), i, j);
      }
    }
    forall i, j | 0 <= i < j < |s.free|
      ensures s.free[i] != s.free[j]
    {
      if s.free[i] == s.free[j] {
        Twice(s.free, i, j);
      }
    }
    forall c: nat
      ensures c in held <==> exists h <- s.held :: h.client == c
    {
      if c in held {
        var i :| 0 <= i < |s.held| && Clients(s.held)[i] == c;
        assert s.held[i] in s.held;
      }
      if h :| h in s.held && h.client == c {
        var i :| 0 <= i < |s.held| && s.held[i] == h;
        assert Clients(s.held)[i] == c;
      }
    }
  }

  lemma {:induction false} RunKeepsAccounts(s: State, steps: seq<Step>)
    requires Accounted(s) && IsRun(s, steps)
    ensures Accounted(After(s, steps))
    decreases steps
  {
    if steps != [] {
      StepKeepsAccounts(s, steps[0]);
      RunKeepsAccounts(Next(s, steps[0]), steps[1..]);
    }
  }

  /** Whatever the interleaving, no client is held twice or lost, and no more clients
      are made than were ever in use at the same time; exactly as many if none failed. */
  lemma EveryRunIsSafe(steps: seq<Step>)
    requires IsRun(START, steps)
    ensures Safe(After(START, steps))
    ensures var s := After(START, steps);
            s.failed == 0 ==> s.created + |s.waiting| == if s.peak > 1 then s.peak else 1
  {
    assert Made(1) == [0];
    assert Accounted(START);
    RunKeepsAccounts(START, steps);
    AccountedIsSafe(After(START, steps));
  }

  // ---------------------------------------------------------------- the manager

  class RedisCliMgr {
    var list: seq<Client>      // m_listCli
    var made: nat              // how many clients were constructed
    ghost var state: State

    ghost predicate Valid()
      reads this
    {
      list == state.free && made == state.created && Accounted(state)
    }

    constructor ()
      ensures Valid() && state == START
    {
      list, made, state := [0], 1, START;
      new;
      assert Made(1) == [0];
    }

    /** The locked part of get: a free client, if there is one. */
    method PopFree(ghost user: User) returns (client: Option<Client>)
      requires Valid()
      modifies this
      ensures Valid() && state == Next(old(state), Get(user))
      ensures client == if old(list) != [] then Some(old(list)[0]) else None
    {
      StepKeepsAccounts(state, Get(user));
      state := Next(state, Get(user));
      if list != [] {
        client := Some(list[0]);
        list := list[1..];
      } else {
        client := None;
      }
    }

    /** The rest of get, when no client was free: a new one, or an exception when it
        cannot connect. */
    method Construct(connects: bool, ghost index: nat) returns (client: Option<Client>)
      requires Valid() && index < |state.waiting|
      modifies this
      ensures Valid() && state == Next(old(state), if connects then Make(index) else Fail(index))
      ensures client == if connects then Some(old(made)) else None
      ensures client.Some? ==> client.value !in old(list) && forall h <- old(state).held :: h.client != client.value
    {
      AccountedIsSafe(state);
      ghost var step := if connects then Make(index) else Fail(index);
      StepKeepsAccounts(state, step);
      state := Next(state, step);
      client := None;
      if connects {
        client, made := Some(made), made + 1;
      }
    }

    /** giveback, by the guard's destructor: a client that is held is free again. */
    method ReturnClient(client: Client, ghost index: nat)
      requires Valid() && index < |state.held| && state.held[index].client == client
      modifies this
      ensures Valid() && state == Next(old(state), GiveBack(index)) && list == old(list) + [client]
    {
      StepKeepsAccounts(state, GiveBack(index));
      state := Next(state, GiveBack(index));
      list := list + [client];
    }
  }
}
