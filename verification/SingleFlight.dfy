/** requestTenantExpansion on one tenant record: any number of callers, one expansion at a time. */
module SingleFlight {
  import opened Ipv4

  /** What a call returns: nil, the expansion's own error, or one of the guards' errors. */
  datatype Outcome = Done | Failed(reason: string) | NotFound | TenantClosing | Cancelled

  /** Where a caller is. `ch` is the wait channel it created or waits on, `err` the expansion's result. */
  datatype Caller =
    | Performing(ch: nat)
    | Publishing(ch: nat, err: Outcome)
    | Announcing(ch: nat, err: Outcome)
    | Waiting(ch: nat)
    | Returned(result: Outcome)

  datatype Presence = Present | Leaving | Gone

  /** The record's expandCh and lastExpandErr, the channels made and closed so far, and the callers.
      Channels are numbered in the order they are made. `performed`, `results` and `last` are histories: what the
      expansion of each channel returned, the result published for each channel, and the channel published last. */
  datatype State = State(
    tenant: Presence,
    expandCh: Option<nat>,
    lastErr: Outcome,
    made: nat,
    closed: seq<nat>,
    callers: map<nat, Caller>,
    performed: map<nat, Outcome>,
    results: map<nat, Outcome>,
    last: Option<nat>)

  ghost predicate Init(s: State) {
    s == State(Present, None, Done, 0, [], map[], map[], map[], None)
  }

  function Move(s: State, c: nat, to: Caller): State {
    s.(callers := s.callers[c := to])
  }

  /** Under the lock: refuse, join the running expansion, or become the one that runs it. */
  predicate Enter(s: State, c: nat, s': State) {
    && c !in s.callers
    && s' == match s.tenant
             case Gone => Move(s, c, Returned(NotFound))
             case Leaving => Move(s, c, Returned(TenantClosing))
             case Present =>
               if s.expandCh.Some? then Move(s, c, Waiting(s.expandCh.value))
               else Move(s, c, Performing(s.made)).(expandCh := Some(s.made), made := s.made + 1)
  }

  function Performed(s: State, c: nat, ch: nat, err: Outcome): State {
    Move(s, c, Publishing(ch, err)).(performed := s.performed[ch := err])
  }

  /** performTenantExpansion returns. */
  ghost predicate Perform(s: State, c: nat, s': State) {
    && c in s.callers && s.callers[c].Performing?
    && exists err :: s' == Performed(s, c, s.callers[c].ch, err)
  }

  /** Under the lock: record the result if the record still carries this channel. */
  predicate Publish(s: State, c: nat, s': State) {
    && c in s.callers && s.callers[c].Publishing?
    && var (ch, err) := (s.callers[c].ch, s.callers[c].err);
    && var t := Move(s, c, Announcing(ch, err));
    && s' == if s.tenant != Gone && s.expandCh == Some(ch)
             then t.(lastErr := err, expandCh := None, results := s.results[ch := err], last := Some(ch))
             else t
  }

  /** close(waitCh). */
  predicate Announce(s: State, c: nat, s': State) {
    && c in s.callers && s.callers[c].Announcing?
    && s' == Move(s, c, Returned(s.callers[c].err)).(closed := s.closed + [s.callers[c].ch])
  }

  /** A waiter wakes up: its channel is closed, or its context ends. */
  predicate Wake(s: State, c: nat, s': State) {
    && c in s.callers && s.callers[c].Waiting?
    && (s' == Move(s, c, Returned(Cancelled)) || Woken(s, c, s'))
  }

  predicate Woken(s: State, c: nat, s': State)
    requires c in s.callers && s.callers[c].Waiting?
  {
    s.callers[c].ch in s.closed && s' == Move(s, c, Returned(if s.tenant == Gone then NotFound else s.lastErr))
  }

  /** RemoveTenant marks the record, later drops it. */
  predicate Leave(s: State, s': State) {
    || (s.tenant == Present && s' == s.(tenant := Leaving))
    || (s.tenant == Leaving && s' == s.(tenant := Gone))
  }

  ghost predicate Next(s: State, s': State) {
    || Leave(s, s')
    || exists c :: Enter(s, c, s') || Perform(s, c, s') || Publish(s, c, s') || Announce(s, c, s') || Wake(s, c, s')
  }

  predicate InFlight(c: Caller) {
    c.Performing? || c.Publishing?
  }

  /** The caller made its channel and has not closed it yet. */
  predicate IsOwner(c: Caller) {
    InFlight(c) || c.Announcing?
  }

  /** Channels have one owner. */
  ghost predicate OneOwner(s: State, c: nat, d: nat) {
    (c in s.callers && d in s.callers && IsOwner(s.callers[c]) && IsOwner(s.callers[d]) && s.callers[c].ch == s.callers[d].ch)
    ==> c == d
  }

  ghost predicate CallerOk(s: State, c: nat) {
    c in s.callers ==>
      match s.callers[c]
      case Performing(ch) => s.expandCh == Some(ch) && ch !in s.closed
      case Publishing(ch, _) => s.expandCh == Some(ch) && ch !in s.closed
      case Announcing(ch, err) => ch < s.made && ch !in s.closed && Published(s, ch, err)
      case Waiting(ch) => ch < s.made
      case Returned(_) => true
  }

  /** The result of an expansion reached the record, or the record was gone. */
  predicate Published(s: State, ch: nat, err: Outcome) {
    s.tenant != Gone ==> s.expandCh != Some(ch) && ch in s.results && s.results[ch] == err
  }

  ghost predicate Inv(s: State) {
    && (forall c {:trigger CallerOk(s, c)} :: CallerOk(s, c))
    && (forall c, d {:trigger OneOwner(s, c, d)} :: OneOwner(s, c, d))
    && (s.expandCh.Some? ==> s.expandCh.value < s.made)
    && (s.tenant != Gone && s.expandCh.Some? ==> s.expandCh.value !in s.closed)
    && (forall i :: 0 <= i < |s.closed| ==> s.closed[i] < s.made)
    && (forall i, j :: 0 <= i < j < |s.closed| ==> s.closed[i] != s.closed[j])
    && (s.tenant != Gone ==> forall i :: 0 <= i < |s.closed| ==> s.closed[i] in s.results)
    && (forall ch :: ch in s.results ==> ch < s.made && s.expandCh != Some(ch) && s.last.Some? && ch <= s.last.value)
    && (s.last.Some? ==> s.last.value in s.results && s.lastErr == s.results[s.last.value])
    && (s.expandCh.Some? && s.last.Some? ==> s.last.value < s.expandCh.value)
  }

  lemma InitInv(s: State)
    requires Init(s)
    ensures Inv(s)
  {
  }

  /** A caller that is refused or joins. */
  lemma JoinKeeps(s: State, c: nat, to: Caller)
    requires Inv(s) && c !in s.callers && (to.Returned? || (to.Waiting? && to.ch < s.made))
    ensures Inv(Move(s, c, to))
  {
    var s' := Move(s, c, to);
    forall d
      ensures CallerOk(s', d)
    {
      assert CallerOk(s, d);
    }
    forall d, e
      ensures OneOwner(s', d, e)
    {
      assert OneOwner(s, d, e);
    }
  }

  /** A caller that starts an expansion. */
  lemma StartKeeps(s: State, c: nat, s': State)
    requires Inv(s) && c !in s.callers && s.expandCh.None?
    requires s' == Move(s, c, Performing(s.made)).(expandCh := Some(s.made), made := s.made + 1)
    ensures Inv(s')
  {
    forall d
      ensures CallerOk(s', d)
    {
      assert CallerOk(s, d);
    }
    forall d, e
      ensures OneOwner(s', d, e)
    {
      assert CallerOk(s, d) && CallerOk(s, e) && OneOwner(s, d, e);
    }
  }

  lemma EnterKeeps(s: State, c: nat, s': State)
    requires Inv(s) && Enter(s, c, s')
    ensures Inv(s')
  {
    match s.tenant
    case Gone => JoinKeeps(s, c, Returned(NotFound));
    case Leaving => JoinKeeps(s, c, Returned(TenantClosing));
    case Present =>
      if s.expandCh.Some? {
        JoinKeeps(s, c, Waiting(s.expandCh.value));
      } else {
        StartKeeps(s, c, s');
      }
  }

  lemma PerformKeeps(s: State, c: nat, s': State)
    requires Inv(s) && Perform(s, c, s')
    ensures Inv(s')
  {
    forall d
      ensures CallerOk(s', d)
    {
      assert CallerOk(s, d) && CallerOk(s, c) && OneOwner(s, c, d);
    }
    forall d, e
      ensures OneOwner(s', d, e)
    {
      assert OneOwner(s, d, e);
    }
  }

  lemma PublishKeeps(s: State, c: nat, s': State)
    requires Inv(s) && Publish(s, c, s')
    ensures Inv(s')
  {
    assert CallerOk(s, c);
    forall d
      ensures CallerOk(s', d)
    {
      assert CallerOk(s, d) && CallerOk(s, c) && OneOwner(s, c, d);
    }
    forall d, e
      ensures OneOwner(s', d, e)
    {
      assert CallerOk(s, d) && CallerOk(s, e) && OneOwner(s, d, e);
    }
  }

  lemma AnnounceKeeps(s: State, c: nat, s': State)
    requires Inv(s) && Announce(s, c, s')
    ensures Inv(s')
  {
    assert CallerOk(s, c);
    forall d
      ensures CallerOk(s', d)
    {
      assert CallerOk(s, d) && CallerOk(s, c) && OneOwner(s, c, d);
    }
    forall d, e
      ensures OneOwner(s', d, e)
    {
      assert CallerOk(s, d) && CallerOk(s, e) && OneOwner(s, d, e);
    }
  }

  lemma WakeKeeps(s: State, c: nat, s': State)
    requires Inv(s) && Wake(s, c, s')
    ensures Inv(s')
  {
    forall d
      ensures CallerOk(s', d)
    {
      assert CallerOk(s, d) && CallerOk(s, c) && OneOwner(s, c, d);
    }
    forall d, e
      ensures OneOwner(s', d, e)
    {
      assert CallerOk(s, d) && CallerOk(s, e) && OneOwner(s, d, e);
    }
  }

  lemma NextKeepsInv(s: State, s': State)
    requires Inv(s) && Next(s, s')
    ensures Inv(s')
  {
    if Leave(s, s') {
      forall d
        ensures CallerOk(s', d)
      {
        assert CallerOk(s, d);
      }
      forall d, e
        ensures OneOwner(s', d, e)
      {
        assert OneOwner(s, d, e);
      }
    } else {
      var c :| Enter(s, c, s') || Perform(s, c, s') || Publish(s, c, s') || Announce(s, c, s') || Wake(s, c, s');
      if Enter(s, c, s') {
        EnterKeeps(s, c, s');
      } else if Perform(s, c, s') {
        PerformKeeps(s, c, s');
      } else if Publish(s, c, s') {
        PublishKeeps(s, c, s');
      } else if Announce(s, c, s') {
        AnnounceKeeps(s, c, s');
      } else {
        WakeKeeps(s, c, s');
      }
    }
  }

  ghost predicate IsRun(ss: seq<State>) {
    |ss| > 0 && Init(ss[0]) && forall i {:trigger Stepped(ss, i)} :: Stepped(ss, i)
  }

  ghost predicate Stepped(ss: seq<State>, i: int) {
    0 <= i < |ss| - 1 ==> Next(ss[i], ss[i + 1])
  }

  lemma {:induction false} RunInv(ss: seq<State>, i: nat)
    requires IsRun(ss) && i < |ss|
    ensures Inv(ss[i])
  {
    if i == 0 {
      InitInv(ss[0]);
    } else {
      RunInv(ss, i - 1);
      assert Stepped(ss, i - 1);
      NextKeepsInv(ss[i - 1], ss[i]);
    }
  }

  /** At most one expansion is in flight. */
  lemma AtMostOneInFlight(ss: seq<State>, i: nat, c: nat, d: nat)
    requires IsRun(ss) && i < |ss| && c in ss[i].callers && d in ss[i].callers
    requires InFlight(ss[i].callers[c]) && InFlight(ss[i].callers[d])
    ensures c == d
  {
    RunInv(ss, i);
    assert CallerOk(ss[i], c) && CallerOk(ss[i], d) && OneOwner(ss[i], c, d);
  }

  // ----- every channel is closed, or somebody will close it -----

  /** Channel ch is closed, or a running caller made it and has yet to close it. */
  ghost predicate Accounted(s: State, ch: nat) {
    ch in s.closed || exists c :: Owns(s, c, ch)
  }

  predicate Owns(s: State, c: nat, ch: nat) {
    c in s.callers && IsOwner(s.callers[c]) && s.callers[c].ch == ch
  }

  /** A step of caller c leaves the other owners alone, so it is enough to look at c's own channel. */
  lemma AccountedKept(s: State, c: nat, s': State, ch: nat)
    requires Accounted(s, ch) && s.closed <= s'.closed
    requires forall d :: d != c ==> (d in s.callers ==> d in s'.callers && s'.callers[d] == s.callers[d])
    requires Owns(s, c, ch) ==> Owns(s', c, ch) || ch in s'.closed
    ensures Accounted(s', ch)
  {
    if ch in s.closed {
      var i :| 0 <= i < |s.closed| && s.closed[i] == ch;
      assert s'.closed[i] == ch;
    } else {
      var d :| Owns(s, d, ch);
      assert Owns(s', d, ch) || ch in s'.closed;
    }
  }

  lemma EnterAccounted(s: State, c: nat, s': State, ch: nat)
    requires ch < s.made ==> Accounted(s, ch)
    requires Enter(s, c, s') && ch < s'.made
    ensures Accounted(s', ch)
  {
    if ch < s.made {
      AccountedKept(s, c, s', ch);
    } else {
      assert Owns(s', c, ch);
    }
  }

  lemma MoveAccounted(s: State, c: nat, s': State, ch: nat)
    requires Accounted(s, ch) && (Perform(s, c, s') || Publish(s, c, s') || Wake(s, c, s'))
    ensures Accounted(s', ch)
  {
    AccountedKept(s, c, s', ch);
  }

  lemma AnnounceAccounted(s: State, c: nat, s': State, ch: nat)
    requires Accounted(s, ch) && Announce(s, c, s')
    ensures Accounted(s', ch)
  {
    assert s'.closed[|s.closed|] == s.callers[c].ch;
    AccountedKept(s, c, s', ch);
  }

  lemma NextAccounted(s: State, s': State, ch: nat)
    requires ch < s.made ==> Accounted(s, ch)
    requires Next(s, s') && ch < s'.made
    ensures Accounted(s', ch)
  {
    if Leave(s, s') {
      AccountedKept(s, 0, s', ch);
    } else {
      var c :| Enter(s, c, s') || Perform(s, c, s') || Publish(s, c, s') || Announce(s, c, s') || Wake(s, c, s');
      if Enter(s, c, s') {
        EnterAccounted(s, c, s', ch);
      } else if Announce(s, c, s') {
        AnnounceAccounted(s, c, s', ch);
      } else {
        MoveAccounted(s, c, s', ch);
      }
    }
  }

  /** In every run each channel made so far is closed or still owned by a running caller. */
  lemma {:induction false} RunAccounted(ss: seq<State>, i: nat, ch: nat)
    requires IsRun(ss) && i < |ss| && ch < ss[i].made
    ensures Accounted(ss[i], ch)
  {
    if i > 0 {
      if ch < ss[i - 1].made {
        RunAccounted(ss, i - 1, ch);
      }
      assert Stepped(ss, i - 1);
      NextAccounted(ss[i - 1], ss[i], ch);
    }
  }

  /** A wait channel is closed exactly once: never twice, never while its owner still has to close it, and never not
      at all, since a channel that is not closed has a running owner. */
  lemma ClosedOnce(ss: seq<State>, i: nat, ch: nat)
    requires IsRun(ss) && i < |ss|
    ensures multiset(ss[i].closed)[ch] == if ch < ss[i].made && forall c :: !Owns(ss[i], c, ch) then 1 else 0
  {
    var s := ss[i];
    RunInv(ss, i);
    CountDistinct(s.closed, ch);
    if ch < s.made {
      RunAccounted(ss, i, ch);
    }
    forall c | Owns(s, c, ch)
      ensures ch !in s.closed
    {
      assert CallerOk(s, c);
    }
  }

  lemma {:induction false} CountDistinct(a: seq<nat>, x: nat)
    requires forall i, j :: 0 <= i < j < |a| ==> a[i] != a[j]
    ensures multiset(a)[x] == if x in a then 1 else 0
  {
    if a != [] {
      var n := |a| - 1;
      assert a == a[..n] + [a[n]];
      CountDistinct(a[..n], x);
    }
  }

  /** Once no expansion is running, every channel ever made is closed. */
  lemma AllClosedAtRest(ss: seq<State>, i: nat, ch: nat)
    requires IsRun(ss) && i < |ss| && ch < ss[i].made
    requires forall c :: c in ss[i].callers ==> !IsOwner(ss[i].callers[c])
    ensures multiset(ss[i].closed)[ch] == 1
  {
    ClosedOnce(ss, i, ch);
  }

  /** No waiter is stranded: it can wake up, or the one owner of its channel has a step to make towards closing it. */
  lemma WaiterNotStranded(ss: seq<State>, i: nat, c: nat)
    requires IsRun(ss) && i < |ss| && c in ss[i].callers && ss[i].callers[c].Waiting?
    ensures
      var s, ch := ss[i], ss[i].callers[c].ch;
      || (ch in s.closed && exists s' :: Next(s, s') && Woken(s, c, s'))
      || (exists d, s' :: Owns(s, d, ch) && Next(s, s') && (Perform(s, d, s') || Publish(s, d, s') || Announce(s, d, s')))
  {
    var s, ch := ss[i], ss[i].callers[c].ch;
    RunInv(ss, i);
    assert CallerOk(s, c);
    RunAccounted(ss, i, ch);
    if ch in s.closed {
      var s' := Move(s, c, Returned(if s.tenant == Gone then NotFound else s.lastErr));
      assert Wake(s, c, s');
      assert Next(s, s') && Woken(s, c, s');
    } else {
      var d :| Owns(s, d, ch);
      OwnerMoves(s, d, ch);
      var s' :| Perform(s, d, s') || Publish(s, d, s') || Announce(s, d, s');
      assert Next(s, s');
    }
  }

  lemma OwnerMoves(s: State, d: nat, ch: nat)
    requires Owns(s, d, ch)
    ensures exists s' :: Perform(s, d, s') || Publish(s, d, s') || Announce(s, d, s')
  {
    var o := s.callers[d];
    match o
    case Performing(_) =>
      assert Perform(s, d, Performed(s, d, ch, Done));
    case Publishing(_, err) =>
      var t := Move(s, d, Announcing(ch, err));
      var s' := if s.tenant != Gone && s.expandCh == Some(ch)
                then t.(lastErr := err, expandCh := None, results := s.results[ch := err], last := Some(ch))
                else t;
      assert Publish(s, d, s');
    case Announcing(_, err) =>
      assert Announce(s, d, Move(s, d, Returned(err)).(closed := s.closed + [ch]));
  }

  /** While the record exists, a woken waiter returns the result of an expansion that was published
      no earlier than the one it waited on. */
  lemma WaiterResult(ss: seq<State>, i: nat, c: nat) returns (g: nat)
    requires IsRun(ss) && i + 1 < |ss| && ss[i].tenant != Gone
    requires c in ss[i].callers && ss[i].callers[c].Waiting? && Woken(ss[i], c, ss[i + 1])
    ensures g >= ss[i].callers[c].ch && g in ss[i].results
    ensures ss[i + 1].callers[c] == Returned(ss[i].results[g])
  {
    RunInv(ss, i);
    var k :| 0 <= k < |ss[i].closed| && ss[i].closed[k] == ss[i].callers[c].ch;
    g := ss[i].last.value;
  }

  /** A waiter whose tenant is gone is told so. */
  lemma WaiterOfGone(ss: seq<State>, i: nat, c: nat)
    requires IsRun(ss) && i + 1 < |ss| && ss[i].tenant == Gone
    requires c in ss[i].callers && ss[i].callers[c].Waiting? && c in ss[i + 1].callers && ss[i + 1].callers[c].Returned?
    ensures ss[i + 1].callers[c].result == NotFound || ss[i + 1].callers[c].result == Cancelled
  {
    assert Stepped(ss, i);
    var s, s' := ss[i], ss[i + 1];
    var d :| Enter(s, d, s') || Perform(s, d, s') || Publish(s, d, s') || Announce(s, d, s') || Wake(s, d, s');
    assert d == c;
  }

  // ----- what callers return -----

  /** A caller on its way out carries what its expansion returned. */
  predicate Carries(s: State, c: nat) {
    c in s.callers && (s.callers[c].Publishing? || s.callers[c].Announcing?) ==>
      s.callers[c].ch in s.performed && s.performed[s.callers[c].ch] == s.callers[c].err
  }

  predicate ResultPerformed(s: State, ch: nat) {
    ch in s.results ==> ch in s.performed && s.performed[ch] == s.results[ch]
  }

  /** Steps that leave what expansions returned alone, and move caller d to a place that carries nothing. */
  predicate Neutral(s: State, d: nat, s': State) {
    && d in s'.callers && !s'.callers[d].Publishing? && !s'.callers[d].Announcing?
    && s'.callers == s.callers[d := s'.callers[d]] && s'.performed == s.performed && s'.results == s.results
  }

  lemma NeutralSteps(s: State, d: nat, s': State)
    requires Enter(s, d, s') || Announce(s, d, s') || Wake(s, d, s')
    ensures Neutral(s, d, s')
  {
  }

  lemma PerformCarries(s: State, d: nat, s': State, c: nat, ch: nat)
    requires Perform(s, d, s') && OneOwner(s, c, d) && CallerOk(s, d)
    ensures Carries(s, c) ==> Carries(s', c)
    ensures ResultPerformed(s, ch) && (ch in s.results ==> s.expandCh != Some(ch)) ==> ResultPerformed(s', ch)
  {
  }

  lemma PublishCarries(s: State, d: nat, s': State, c: nat, ch: nat)
    requires Publish(s, d, s') && Carries(s, d)
    ensures Carries(s, c) ==> Carries(s', c)
    ensures ResultPerformed(s, ch) ==> ResultPerformed(s', ch)
  {
  }

  lemma NextCarries(s: State, s': State, c: nat, ch: nat)
    requires Inv(s) && Next(s, s') && History(s)
    ensures Carries(s', c) && ResultPerformed(s', ch)
  {
    assert Carries(s, c) && ResultPerformed(s, ch);
    if !Leave(s, s') {
      var d :| Enter(s, d, s') || Perform(s, d, s') || Publish(s, d, s') || Announce(s, d, s') || Wake(s, d, s');
      if Perform(s, d, s') {
        assert OneOwner(s, c, d) && CallerOk(s, d);
        PerformCarries(s, d, s', c, ch);
      } else if Publish(s, d, s') {
        assert Carries(s, d);
        PublishCarries(s, d, s', c, ch);
      } else {
        NeutralSteps(s, d, s');
      }
    }
  }

  ghost predicate History(s: State) {
    && (forall c {:trigger Carries(s, c)} :: Carries(s, c))
    && (forall ch {:trigger ResultPerformed(s, ch)} :: ResultPerformed(s, ch))
  }

  lemma NextHistory(s: State, s': State)
    requires Inv(s) && History(s) && Next(s, s')
    ensures History(s')
  {
    forall c
      ensures Carries(s', c)
    {
      NextCarries(s, s', c, 0);
    }
    forall ch
      ensures ResultPerformed(s', ch)
    {
      NextCarries(s, s', 0, ch);
    }
  }

  lemma {:induction false} RunHistory(ss: seq<State>, i: nat)
    requires IsRun(ss) && i < |ss|
    ensures History(ss[i])
  {
    if i > 0 {
      RunInv(ss, i - 1);
      RunHistory(ss, i - 1);
      assert Stepped(ss, i - 1);
      NextHistory(ss[i - 1], ss[i]);
    }
  }

  /** Caller c runs the expansion of ch, or has returned what it returned. */
  predicate OwnsOrDone(s: State, c: nat, ch: nat) {
    c in s.callers &&
    match s.callers[c]
    case Performing(x) => x == ch
    case Publishing(x, _) => x == ch
    case Announcing(x, _) => x == ch
    case Waiting(_) => false
    case Returned(err) => ch in s.closed && ch in s.performed && s.performed[ch] == err
  }

  /** Another caller's step. */
  lemma OtherOwnsOrDone(s: State, d: nat, s': State, c: nat, ch: nat)
    requires c != d && OwnsOrDone(s, c, ch) && s.closed <= s'.closed
    requires d in s'.callers && s'.callers == s.callers[d := s'.callers[d]]
    requires forall x :: x in s.performed && x in s.closed ==> x in s'.performed && s'.performed[x] == s.performed[x]
    ensures OwnsOrDone(s', c, ch)
  {
    if ch in s.closed {
      var i :| 0 <= i < |s.closed| && s.closed[i] == ch;
      assert s'.closed[i] == ch;
    }
  }

  lemma PerformKeepsClosed(s: State, d: nat, s': State)
    requires Perform(s, d, s') && CallerOk(s, d)
    ensures s'.closed == s.closed && d in s'.callers && s'.callers == s.callers[d := s'.callers[d]]
    ensures forall x :: x in s.performed && x in s.closed ==> x in s'.performed && s'.performed[x] == s.performed[x]
  {
  }

  lemma OwnStep(s: State, c: nat, s': State, ch: nat)
    requires OwnsOrDone(s, c, ch) && Carries(s, c)
    requires Perform(s, c, s') || Publish(s, c, s') || Announce(s, c, s')
    ensures OwnsOrDone(s', c, ch)
  {
    assert Announce(s, c, s') ==> s'.closed[|s.closed|] == ch;
  }

  lemma NextOwnsOrDone(s: State, s': State, c: nat, ch: nat)
    requires Inv(s) && History(s) && Next(s, s') && OwnsOrDone(s, c, ch)
    ensures OwnsOrDone(s', c, ch)
  {
    assert Carries(s, c);
    if !Leave(s, s') {
      var d :| Enter(s, d, s') || Perform(s, d, s') || Publish(s, d, s') || Announce(s, d, s') || Wake(s, d, s');
      if d == c {
        OwnStep(s, c, s', ch);
      } else if Perform(s, d, s') {
        assert CallerOk(s, d);
        PerformKeepsClosed(s, d, s');
        OtherOwnsOrDone(s, d, s', c, ch);
      } else {
        OtherSteps(s, d, s');
        OtherOwnsOrDone(s, d, s', c, ch);
      }
    }
  }

  lemma OtherSteps(s: State, d: nat, s': State)
    requires Enter(s, d, s') || Publish(s, d, s') || Announce(s, d, s') || Wake(s, d, s')
    ensures d in s'.callers && s'.callers == s.callers[d := s'.callers[d]]
    ensures s'.performed == s.performed && s.closed <= s'.closed
  {
  }

  lemma {:induction false} RunOwnsOrDone(ss: seq<State>, i: nat, j: nat, c: nat, ch: nat)
    requires IsRun(ss) && i <= j < |ss| && OwnsOrDone(ss[i], c, ch)
    ensures OwnsOrDone(ss[j], c, ch)
    decreases j
  {
    if i < j {
      RunOwnsOrDone(ss, i, j - 1, c, ch);
      StepOwnsOrDone(ss, j - 1, c, ch);
    }
  }

  lemma StepOwnsOrDone(ss: seq<State>, i: nat, c: nat, ch: nat)
    requires IsRun(ss) && i + 1 < |ss| && OwnsOrDone(ss[i], c, ch)
    ensures OwnsOrDone(ss[i + 1], c, ch)
  {
    RunInv(ss, i);
    RunHistory(ss, i);
    assert Stepped(ss, i);
    NextOwnsOrDone(ss[i], ss[i + 1], c, ch);
  }

  /** The caller that runs an expansion returns what the expansion returned; while the record exists that is also the
      result published to the waiters. */
  lemma OwnerResult(ss: seq<State>, i: nat, j: nat, c: nat)
    requires IsRun(ss) && i <= j < |ss| && c in ss[i].callers && ss[i].callers[c].Performing?
    requires c in ss[j].callers && ss[j].callers[c].Returned?
    ensures
      var ch, s := ss[i].callers[c].ch, ss[j];
      && ch in s.closed && ch in s.performed && s.callers[c].result == s.performed[ch]
      && (s.tenant != Gone ==> ch in s.results && s.callers[c].result == s.results[ch])
  {
    var ch := ss[i].callers[c].ch;
    RunOwnsOrDone(ss, i, j, c, ch);
    RunInv(ss, j);
    RunHistory(ss, j);
    assert ResultPerformed(ss[j], ch);
  }

  /** What becomes of a caller that enters: refused if the tenant is gone or leaving, it waits for the expansion in
      flight if there is one, and else runs one of its own on a new channel. */
  lemma EnterOutcome(ss: seq<State>, i: nat, c: nat, d: nat)
    requires IsRun(ss) && i + 1 < |ss| && c !in ss[i].callers && c in ss[i + 1].callers
    ensures
      var s, at := ss[i], ss[i + 1].callers[c];
      && (s.tenant == Gone ==> at == Returned(NotFound))
      && (s.tenant == Leaving ==> at == Returned(TenantClosing))
      && (s.tenant == Present && d in s.callers && InFlight(s.callers[d]) ==> at == Waiting(s.callers[d].ch))
      && (s.tenant == Present && (forall e :: e in s.callers ==> !InFlight(s.callers[e])) ==> at == Performing(s.made))
  {
    var s := ss[i];
    RunInv(ss, i);
    assert Stepped(ss, i);
    NewcomerEnters(s, ss[i + 1], c);
    assert CallerOk(s, d);
    if s.tenant == Present && s.expandCh.Some? {
      RunAccounted(ss, i, s.expandCh.value);
      var e :| Owns(s, e, s.expandCh.value);
      assert CallerOk(s, e);
    }
  }

  lemma NewcomerEnters(s: State, s': State, c: nat)
    requires Next(s, s') && c !in s.callers && c in s'.callers
    ensures Enter(s, c, s')
  {
    if !Leave(s, s') {
      var d :| Enter(s, d, s') || Perform(s, d, s') || Publish(s, d, s') || Announce(s, d, s') || Wake(s, d, s');
      if !Enter(s, d, s') {
        SameCallers(s, d, s');
      }
    }
  }

  lemma SameCallers(s: State, d: nat, s': State)
    requires Perform(s, d, s') || Publish(s, d, s') || Announce(s, d, s') || Wake(s, d, s')
    ensures d in s.callers && s'.callers.Keys == s.callers.Keys
  {
  }
}
