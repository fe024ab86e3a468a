/**
 * The Secret Santa matcher of `SecretSantaAssigner` (Secret_santa/main.py).
 *
 * Employees are visited in shuffled order; each draws one child from the pool
 * of emails not yet drawn, never themselves and never last year's child. The
 * greedy pass does not backtrack: when an employee has no candidate left, the
 * whole run fails.
 *
 * Randomness is made explicit. The shuffle is a permutation of positions (see
 * module Shuffle) and `random.choice` is an oracle `pick` that, on turn `i`,
 * returns some member of the candidate set it is given.
 */
module SecretSanta {
  import opened Shuffle

  /** One row of the employee table: a display name and the email that keys it. */
  datatype Employee = Employee(name: string, email: string)

  /** What a run produces: the employee-to-child map, or the failure that ends the run. */
  datatype Outcome = Success(assignments: map<string, string>) | NoValidAssignment

  /** `random.choice`: on turn `i`, some member of the candidates it is handed. */
  type Chooser = (nat, set<string>) -> string

  ghost predicate ValidChooser(pick: Chooser) {
    forall turn: nat, candidates: set<string> :: candidates != {} ==> pick(turn, candidates) in candidates
  }

  /** The emails of the employees in `s`. */
  function EmailSet(s: seq<Employee>): set<string> {
    set i | 0 <= i < |s| :: s[i].email
  }

  predicate EmailsDistinct(s: seq<Employee>) {
    forall i, j :: 0 <= i < j < |s| ==> s[i].email != s[j].email
  }

  // ---------------------------------------------------------------------------
  // Properties of an assignment
  // ---------------------------------------------------------------------------

  ghost predicate NoSelfAssignment(m: map<string, string>) {
    forall e :: e in m ==> m[e] != e
  }

  ghost predicate AvoidsPreviousChildren(m: map<string, string>, previous: map<string, string>) {
    forall e :: e in m && e in previous ==> m[e] != previous[e]
  }

  /** No child is drawn by two employees. */
  ghost predicate Injective(m: map<string, string>) {
    forall x, y :: x in m && y in m && x != y ==> m[x] != m[y]
  }

  /** Every recorded pair obeys both rules, and no child is recorded twice. */
  ghost predicate FollowsRules(m: map<string, string>, previous: map<string, string>) {
    && Injective(m)
    && NoSelfAssignment(m)
    && AvoidsPreviousChildren(m, previous)
  }

  /** A complete draw over `emails`: a bijection onto itself that meets both rules. */
  ghost predicate IsSecretSantaDraw(m: map<string, string>, emails: set<string>, previous: map<string, string>) {
    && m.Keys == emails
    && m.Values == emails
    && FollowsRules(m, previous)
  }

  // ---------------------------------------------------------------------------
  // The greedy pass, one turn at a time
  // ---------------------------------------------------------------------------

  /** The children still undrawn and the assignments recorded so far. */
  datatype Progress = Progress(pool: set<string>, assignments: map<string, string>)

  /**
   * The children `email` may draw from `pool`: everyone left but themselves
   * and, when there is one, last year's child.
   */
  function Candidates(pool: set<string>, email: string, previous: map<string, string>): (r: set<string>)
    ensures r <= pool && email !in r
    ensures email in previous ==> previous[email] !in r
  {
    var others := pool - {email};
    if email in previous then others - {previous[email]} else others
  }

  /** Turn `turn` of the pass, for employee `e`; None when `e` has no candidate. */
  function Step(st: Progress, e: Employee, previous: map<string, string>, pick: Chooser, turn: nat): Option<Progress> {
    var candidates := Candidates(st.pool, e.email, previous);
    if candidates == {} then None
    else
      var child := pick(turn, candidates);
      Some(Progress(st.pool - {child}, st.assignments[e.email := child]))
  }

  datatype Option<T> = None | Some(value: T)

  /** The state after the first `k` turns over `order`, or None once a turn has failed. */
  function RunTurns(order: seq<Employee>, previous: map<string, string>, pick: Chooser, k: nat): Option<Progress>
    requires k <= |order|
  {
    if k == 0 then Some(Progress(EmailSet(order), map[]))
    else
      match RunTurns(order, previous, pick, k - 1)
      case None => None
      case Some(st) => Step(st, order[k - 1], previous, pick, k - 1)
  }

  /** The whole pass over the shuffled list `order`. */
  function Assign(order: seq<Employee>, previous: map<string, string>, pick: Chooser): Outcome {
    match RunTurns(order, previous, pick, |order|)
    case None => NoValidAssignment
    case Some(st) => Success(st.assignments)
  }

  /** Employee `order[k]` has no candidate on their turn. */
  ghost predicate StuckAt(order: seq<Employee>, previous: map<string, string>, pick: Chooser, k: nat)
    requires k < |order|
  {
    var st := RunTurns(order, previous, pick, k);
    st.Some? && Candidates(st.value.pool, order[k].email, previous) == {}
  }

  // ---------------------------------------------------------------------------
  // Facts about email sets
  // ---------------------------------------------------------------------------

  lemma EmailSetAppend(s: seq<Employee>, e: Employee)
    ensures EmailSet(s + [e]) == EmailSet(s) + {e.email}
  {
    var t := s + [e];
    forall x | x in EmailSet(t) ensures x in EmailSet(s) + {e.email} {
      var i :| 0 <= i < |t| && t[i].email == x;
      if i < |s| { assert s[i] == t[i]; }
    }
    forall x | x in EmailSet(s) + {e.email} ensures x in EmailSet(t) {
      if x == e.email {
        assert t[|s|].email == x;
      } else {
        var i :| 0 <= i < |s| && s[i].email == x;
        assert t[i] == s[i];
      }
    }
  }

  /** A list has distinct emails when its front does and its last email is new. */
  lemma DistinctAppend(s: seq<Employee>, e: Employee)
    ensures EmailsDistinct(s + [e]) <==> EmailsDistinct(s) && e.email !in EmailSet(s)
  {
    var t := s + [e];
    if EmailsDistinct(t) {
      forall i, j | 0 <= i < j < |s| ensures s[i].email != s[j].email {
        assert t[i] == s[i] && t[j] == s[j];
      }
      forall i | 0 <= i < |s| ensures s[i].email != e.email {
        assert t[i] == s[i] && t[|s|] == e;
      }
    }
    if EmailsDistinct(s) && e.email !in EmailSet(s) {
      forall i, j | 0 <= i < j < |t| ensures t[i].email != t[j].email {
        if j == |s| {
          assert s[i].email in EmailSet(s);
        } else {
          assert t[i] == s[i] && t[j] == s[j];
        }
      }
    }
  }

  /** A list has at most as many distinct emails as entries, exactly as many when no email repeats. */
  lemma {:induction false} EmailSetSize(s: seq<Employee>)
    ensures |EmailSet(s)| <= |s|
    ensures |EmailSet(s)| == |s| <==> EmailsDistinct(s)
  {
    if |s| > 0 {
      var init, last := s[..|s| - 1], s[|s| - 1];
      assert s == init + [last];
      EmailSetSize(init);
      EmailSetAppend(init, last);
      DistinctAppend(init, last);
    }
  }

  // ---------------------------------------------------------------------------
  // The invariant of the pass
  // ---------------------------------------------------------------------------

  /**
   * The bookkeeping after the employees `visited` have had their turn: each of
   * them has a child, pool and children are disjoint employee emails, and the
   * pool lost one email per turn. While no email has repeated, the pool is
   * exactly the employee emails not yet drawn.
   */
  ghost predicate Accounts(emails: set<string>, visited: seq<Employee>, pool: set<string>, m: map<string, string>) {
    && m.Keys == EmailSet(visited)
    && pool <= emails
    && m.Values <= emails
    && pool !! m.Values
    && |pool| + |visited| == |emails|
    && (EmailsDistinct(visited) ==> pool == emails - m.Values)
  }

  /** What holds after `k` turns over `order` with state `st`: the bookkeeping and both rules. */
  ghost predicate Consistent(order: seq<Employee>, previous: map<string, string>, k: nat, st: Progress)
    requires k <= |order|
  {
    && Accounts(EmailSet(order), order[..k], st.pool, st.assignments)
    && FollowsRules(st.assignments, previous)
  }

  /** A successful turn removes exactly one child from the pool: one of the employee's candidates. */
  lemma StepShrinksPool(st: Progress, e: Employee, previous: map<string, string>, pick: Chooser, turn: nat)
    requires ValidChooser(pick)
    requires Step(st, e, previous, pick, turn).Some?
    ensures var st' := Step(st, e, previous, pick, turn).value;
      && e.email in st'.assignments
      && st'.assignments[e.email] in Candidates(st.pool, e.email, previous)
      && st'.pool == st.pool - {st'.assignments[e.email]}
      && |st'.pool| == |st.pool| - 1
  {
    var candidates := Candidates(st.pool, e.email, previous);
    assert pick(turn, candidates) in candidates;
  }

  /** Recording `e -> c` adds `c` to the children and, for a new key, nothing else leaves. */
  lemma UpdateValues(m: map<string, string>, e: string, c: string)
    ensures m[e := c].Values <= m.Values + {c}
    ensures c in m[e := c].Values
    ensures e !in m ==> m[e := c].Values == m.Values + {c}
  {
    var m' := m[e := c];
    assert m'[e] == c;
    forall v | v in m'.Values ensures v in m.Values + {c} {
      var x :| x in m' && m'[x] == v;
      if x != e { assert m[x] == v; }
    }
    if e !in m {
      forall v | v in m.Values ensures v in m'.Values {
        var x :| x in m && m[x] == v;
        assert m'[x] == v;
      }
    }
  }

  /** Recording a child nobody holds keeps the children pairwise distinct. */
  lemma UpdateInjective(m: map<string, string>, e: string, c: string)
    requires Injective(m) && c !in m.Values
    ensures Injective(m[e := c])
  {
    var m' := m[e := c];
    forall x, y | x in m' && y in m' && x != y ensures m'[x] != m'[y] {
      if x == e { assert m[y] in m.Values; }
      else if y == e { assert m[x] in m.Values; }
    }
  }

  /**
   * Moving child `c` from the pool to the assignments keeps the accounting:
   * both stay within the employee emails, they stay disjoint, and the pool
   * loses exactly one email. For a new key, pool and children still partition
   * the emails.
   */
  lemma DrawKeepsAccounts(emails: set<string>, pool: set<string>, m: map<string, string>, e: string, c: string)
    requires c in pool && pool <= emails && m.Values <= emails && pool !! m.Values
    ensures pool - {c} <= emails && m[e := c].Values <= emails && pool - {c} !! m[e := c].Values
    ensures |pool - {c}| == |pool| - 1
    ensures e !in m && pool == emails - m.Values ==> pool - {c} == emails - m[e := c].Values
  {
    UpdateValues(m, e, c);
  }

  /** Recording a child who is neither the employee, last year's child, nor already drawn keeps the rules. */
  lemma DrawKeepsRules(m: map<string, string>, previous: map<string, string>, e: string, c: string)
    requires FollowsRules(m, previous)
    requires c != e && (e in previous ==> c != previous[e]) && c !in m.Values
    ensures FollowsRules(m[e := c], previous)
  {
    UpdateInjective(m, e, c);
  }

  /** Employee `e` drawing child `c` from the pool keeps the bookkeeping. */
  lemma DrawKeepsBookkeeping(emails: set<string>, visited: seq<Employee>, e: Employee,
                             pool: set<string>, m: map<string, string>, c: string)
    requires Accounts(emails, visited, pool, m) && c in pool
    ensures Accounts(emails, visited + [e], pool - {c}, m[e.email := c])
  {
    EmailSetAppend(visited, e);
    DistinctAppend(visited, e);
    DrawKeepsAccounts(emails, pool, m, e.email, c);
  }

  /** Recording child `c`, one of employee `k`'s candidates, keeps the invariant. */
  lemma RecordKeepsConsistent(order: seq<Employee>, previous: map<string, string>, k: nat,
                              pool: set<string>, m: map<string, string>, c: string)
    requires k < |order| && Consistent(order, previous, k, Progress(pool, m))
    requires c in Candidates(pool, order[k].email, previous)
    ensures Consistent(order, previous, k + 1, Progress(pool - {c}, m[order[k].email := c]))
  {
    assert order[..k + 1] == order[..k] + [order[k]];
    DrawKeepsBookkeeping(EmailSet(order), order[..k], order[k], pool, m, c);
    DrawKeepsRules(m, previous, order[k].email, c);
  }

  lemma StepKeepsConsistent(order: seq<Employee>, previous: map<string, string>, pick: Chooser, k: nat, st: Progress)
    requires ValidChooser(pick)
    requires k < |order| && Consistent(order, previous, k, st)
    requires Step(st, order[k], previous, pick, k).Some?
    ensures Consistent(order, previous, k + 1, Step(st, order[k], previous, pick, k).value)
  {
    StepShrinksPool(st, order[k], previous, pick, k);
    var c := Step(st, order[k], previous, pick, k).value.assignments[order[k].email];
    RecordKeepsConsistent(order, previous, k, st.pool, st.assignments, c);
  }

  /** Before the first turn: the pool holds every employee email and nothing is assigned. */
  lemma InitialConsistent(order: seq<Employee>, previous: map<string, string>)
    ensures Consistent(order, previous, 0, Progress(EmailSet(order), map[]))
  {
    var m: map<string, string> := map[];
    assert EmailSet(order[..0]) == {};
    assert m.Keys == {} && m.Values == {};
  }

  /** The invariant holds after every turn the pass survives. */
  lemma {:induction false} RunTurnsConsistent(order: seq<Employee>, previous: map<string, string>, pick: Chooser,
                                              k: nat, st: Progress)
    requires ValidChooser(pick)
    requires k <= |order| && RunTurns(order, previous, pick, k) == Some(st)
    ensures Consistent(order, previous, k, st)
  {
    if k == 0 {
      InitialConsistent(order, previous);
    } else {
      var before := RunTurns(order, previous, pick, k - 1);
      assert before.Some?;
      RunTurnsConsistent(order, previous, pick, k - 1, before.value);
      StepKeepsConsistent(order, previous, pick, k - 1, before.value);
    }
  }

  /** Once a turn fails, every later state is a failure too. */
  lemma {:induction false} FailurePersists(order: seq<Employee>, previous: map<string, string>, pick: Chooser, k: nat, j: nat)
    requires k <= j <= |order|
    requires RunTurns(order, previous, pick, k).None?
    ensures RunTurns(order, previous, pick, j).None?
  {
    if j > k {
      FailurePersists(order, previous, pick, k, j - 1);
    }
  }

  // ---------------------------------------------------------------------------
  // What a completed pass guarantees
  // ---------------------------------------------------------------------------

  /** The final state of a successful pass satisfies the invariant with every employee visited. */
  lemma SuccessIsConsistent(order: seq<Employee>, previous: map<string, string>, pick: Chooser)
    requires ValidChooser(pick)
    requires Assign(order, previous, pick).Success?
    ensures RunTurns(order, previous, pick, |order|).Some?
    ensures Consistent(order, previous, |order|, RunTurns(order, previous, pick, |order|).value)
    ensures Assign(order, previous, pick).assignments == RunTurns(order, previous, pick, |order|).value.assignments
  {
    RunTurnsConsistent(order, previous, pick, |order|, RunTurns(order, previous, pick, |order|).value);
  }

  /** No employee is assigned themselves. */
  lemma AssignNoSelf(order: seq<Employee>, previous: map<string, string>, pick: Chooser)
    requires ValidChooser(pick)
    ensures Assign(order, previous, pick).Success? ==> NoSelfAssignment(Assign(order, previous, pick).assignments)
  {
    if Assign(order, previous, pick).Success? {
      SuccessIsConsistent(order, previous, pick);
    }
  }

  /** No employee listed in last year's draw is given last year's child again. */
  lemma AssignAvoidsPrevious(order: seq<Employee>, previous: map<string, string>, pick: Chooser)
    requires ValidChooser(pick)
    ensures Assign(order, previous, pick).Success? ==>
      AvoidsPreviousChildren(Assign(order, previous, pick).assignments, previous)
  {
    if Assign(order, previous, pick).Success? {
      SuccessIsConsistent(order, previous, pick);
    }
  }

  /** No child is drawn twice. */
  lemma AssignInjective(order: seq<Employee>, previous: map<string, string>, pick: Chooser)
    requires ValidChooser(pick)
    ensures Assign(order, previous, pick).Success? ==> Injective(Assign(order, previous, pick).assignments)
  {
    if Assign(order, previous, pick).Success? {
      SuccessIsConsistent(order, previous, pick);
    }
  }

  /** Every child is the email of an employee in the list. */
  lemma AssignChildrenAreEmployees(order: seq<Employee>, previous: map<string, string>, pick: Chooser)
    requires ValidChooser(pick)
    ensures Assign(order, previous, pick).Success? ==>
      Assign(order, previous, pick).assignments.Values <= EmailSet(order)
  {
    if Assign(order, previous, pick).Success? {
      SuccessIsConsistent(order, previous, pick);
    }
  }

  /**
   * Once every employee has had a turn, the emails were distinct, the pool is
   * empty and the assignments form a complete draw.
   */
  lemma CompletedPassIsDraw(order: seq<Employee>, previous: map<string, string>, st: Progress)
    requires Consistent(order, previous, |order|, st)
    ensures EmailsDistinct(order) && st.pool == {}
    ensures IsSecretSantaDraw(st.assignments, EmailSet(order), previous)
  {
    var emails, m := EmailSet(order), st.assignments;
    assert order[..|order|] == order;
    assert m.Keys == emails && |st.pool| + |order| == |emails| && m.Values <= emails;
    assert EmailsDistinct(order) ==> st.pool == emails - m.Values;
    DrainedPool(order, emails, st.pool, m.Values);
  }

  /**
   * The cardinality argument: a pool that lost one email per employee is empty
   * once all employees are served, which forces distinct emails and leaves no
   * email undrawn.
   */
  lemma DrainedPool(order: seq<Employee>, emails: set<string>, pool: set<string>, values: set<string>)
    requires emails == EmailSet(order)
    requires |pool| + |order| == |emails| && values <= emails
    requires EmailsDistinct(order) ==> pool == emails - values
    ensures EmailsDistinct(order) && pool == {} && values == emails
  {
    EmailSetSize(order);
  }

  /**
   * A run that succeeds had distinct emails, and its result is a complete draw:
   * a bijection of the employee emails onto themselves with no self-assignment
   * and no repeat of last year's child.
   */
  lemma AssignSuccessIsDraw(order: seq<Employee>, previous: map<string, string>, pick: Chooser)
    requires ValidChooser(pick)
    ensures Assign(order, previous, pick).Success? ==>
      && EmailsDistinct(order)
      && IsSecretSantaDraw(Assign(order, previous, pick).assignments, EmailSet(order), previous)
  {
    if Assign(order, previous, pick).Success? {
      SuccessIsConsistent(order, previous, pick);
      CompletedPassIsDraw(order, previous, RunTurns(order, previous, pick, |order|).value);
    }
  }

  /** With a repeated email the pool runs dry one turn early, so the run always fails. */
  lemma DuplicateEmailsFail(order: seq<Employee>, previous: map<string, string>, pick: Chooser)
    requires ValidChooser(pick)
    requires !EmailsDistinct(order)
    ensures Assign(order, previous, pick) == NoValidAssignment
  {
    AssignSuccessIsDraw(order, previous, pick);
  }

  /** The first `k` turns fail exactly when one of them found no candidate. */
  lemma {:induction false} NoneIffStuck(order: seq<Employee>, previous: map<string, string>, pick: Chooser, k: nat)
    requires k <= |order|
    ensures RunTurns(order, previous, pick, k).None? <==>
      exists j :: 0 <= j < k && StuckAt(order, previous, pick, j)
  {
    if k > 0 {
      NoneIffStuck(order, previous, pick, k - 1);
      if RunTurns(order, previous, pick, k - 1).None? {
        var j :| 0 <= j < k - 1 && StuckAt(order, previous, pick, j);
        assert 0 <= j < k && StuckAt(order, previous, pick, j);
      } else {
        if RunTurns(order, previous, pick, k).None? {
          assert StuckAt(order, previous, pick, k - 1);
        }
        if exists j :: 0 <= j < k && StuckAt(order, previous, pick, j) {
          var j :| 0 <= j < k && StuckAt(order, previous, pick, j);
          assert j == k - 1;
        }
      }
    }
  }

  /** The run fails exactly when some employee finds no candidate on their turn. */
  lemma AssignFailsIffStuck(order: seq<Employee>, previous: map<string, string>, pick: Chooser)
    ensures Assign(order, previous, pick) == NoValidAssignment <==>
      exists k :: 0 <= k < |order| && StuckAt(order, previous, pick, k)
  {
    NoneIffStuck(order, previous, pick, |order|);
  }

  // ---------------------------------------------------------------------------
  // Small cases
  // ---------------------------------------------------------------------------

  /** No input check: an empty list yields an empty assignment. */
  lemma EmptyListYieldsEmptyMap(previous: map<string, string>, pick: Chooser)
    ensures Assign([], previous, pick) == Success(map[])
  {
    assert EmailSet([]) == {};
  }

  /** No input check: a single employee has only themselves left, so the run fails. */
  lemma LoneEmployeeFails(e: Employee, previous: map<string, string>, pick: Chooser)
    ensures Assign([e], previous, pick) == NoValidAssignment
  {
    var order := [e];
    assert EmailSet(order) == {e.email} by {
      assert order[0].email == e.email;
    }
    assert RunTurns(order, previous, pick, 0) == Some(Progress({e.email}, map[]));
    assert Candidates({e.email}, e.email, previous) == {};
  }

  /** Two employees without history always swap. */
  lemma TwoEmployeesSwap(a: Employee, b: Employee, pick: Chooser)
    requires ValidChooser(pick)
    requires a.email != b.email
    ensures Assign([a, b], map[], pick) == Success(map[a.email := b.email, b.email := a.email])
  {
    var order := [a, b];
    assert EmailSet(order) == {a.email, b.email} by {
      assert order[0].email == a.email && order[1].email == b.email;
    }
    var st0 := Progress({a.email, b.email}, map[]);
    assert RunTurns(order, map[], pick, 0) == Some(st0);
    assert Candidates(st0.pool, a.email, map[]) == {b.email};
    assert pick(0, {b.email}) == b.email;
    assert {a.email, b.email} - {b.email} == {a.email};
    var st1 := Progress({a.email}, map[a.email := b.email]);
    assert RunTurns(order, map[], pick, 1) == Step(st0, a, map[], pick, 0) == Some(st1);
    assert Candidates(st1.pool, b.email, map[]) == {a.email};
    assert pick(1, {a.email}) in {a.email};
    assert RunTurns(order, map[], pick, 2) == Step(st1, b, map[], pick, 1);
  }

  /**
   * Last year's child is removed even when it is the only candidate left: two
   * employees where the first visited drew the other last year always fail.
   */
  lemma PreviousChildNeverKept(a: Employee, b: Employee, previous: map<string, string>, pick: Chooser)
    requires a.email != b.email
    requires a.email in previous && previous[a.email] == b.email
    ensures Assign([a, b], previous, pick) == NoValidAssignment
  {
    var order := [a, b];
    assert EmailSet(order) == {a.email, b.email} by {
      assert order[0].email == a.email && order[1].email == b.email;
    }
    var st0 := Progress({a.email, b.email}, map[]);
    assert RunTurns(order, previous, pick, 0) == Some(st0);
    assert Candidates(st0.pool, a.email, previous) == {};
    assert RunTurns(order, previous, pick, 1) == None;
  }

  /**
   * The pass does not backtrack: three employees without history can dead-end
   * when the first two draw each other, although a three-cycle draw exists.
   */
  lemma GreedyCanDeadEnd(a: Employee, b: Employee, c: Employee, pick: Chooser)
    requires ValidChooser(pick)
    requires a.email != b.email && b.email != c.email && a.email != c.email
    requires pick(0, {b.email, c.email}) == b.email && pick(1, {a.email, c.email}) == a.email
    ensures Assign([a, b, c], map[], pick) == NoValidAssignment
    ensures IsSecretSantaDraw(map[a.email := b.email, b.email := c.email, c.email := a.email],
                              EmailSet([a, b, c]), map[])
  {
    var order := [a, b, c];
    var emails := {a.email, b.email, c.email};
    assert EmailSet(order) == emails by {
      assert order[0].email == a.email && order[1].email == b.email && order[2].email == c.email;
    }
    var st0 := Progress(emails, map[]);
    assert RunTurns(order, map[], pick, 0) == Some(st0);
    assert Candidates(emails, a.email, map[]) == {b.email, c.email};
    assert emails - {b.email} == {a.email, c.email};
    var st1 := Progress({a.email, c.email}, map[a.email := b.email]);
    assert RunTurns(order, map[], pick, 1) == Step(st0, a, map[], pick, 0) == Some(st1);
    assert Candidates(st1.pool, b.email, map[]) == {a.email, c.email};
    assert st1.pool - {a.email} == {c.email};
    var st2 := Progress({c.email}, map[a.email := b.email, b.email := a.email]);
    assert RunTurns(order, map[], pick, 2) == Step(st1, b, map[], pick, 1) == Some(st2);
    assert Candidates(st2.pool, c.email, map[]) == {};
    assert RunTurns(order, map[], pick, 3) == None;
    ThreeCycleIsDraw(a.email, b.email, c.email);
  }

  /** Three distinct emails drawing in a cycle x -> y -> z -> x form a complete draw. */
  lemma ThreeCycleIsDraw(x: string, y: string, z: string)
    requires x != y && y != z && x != z
    ensures IsSecretSantaDraw(map[x := y, y := z, z := x], {x, y, z}, map[])
  {
    var draw := map[x := y, y := z, z := x];
    assert draw[x] == y && draw[y] == z && draw[z] == x;
  }

  /** Shuffling reorders the employees and so leaves the set of emails, the initial pool, as it was. */
  lemma ShuffleKeepsEmails(s: seq<Employee>, perm: seq<nat>)
    requires IsPermutation(perm, |s|)
    ensures multiset(Permute(s, perm)) == multiset(s)
    ensures EmailSet(Permute(s, perm)) == EmailSet(s)
  {
    var t := Permute(s, perm);
    PermutePreservesMultiset(s, perm);
    forall i | 0 <= i < |s| ensures s[i].email in EmailSet(t) {
      assert s[i] in multiset(t);
      var j :| 0 <= j < |t| && t[j] == s[i];
    }
    forall j | 0 <= j < |t| ensures t[j].email in EmailSet(s) {
      assert t[j] in multiset(s);
      var i :| 0 <= i < |s| && s[i] == t[j];
    }
  }

  // ---------------------------------------------------------------------------
  // The assigner object
  // ---------------------------------------------------------------------------

  /** The assigner: the employee list (shuffled in place) and last year's draw. */
  class SecretSantaAssigner {
    var employees: seq<Employee>
    var previousAssignments: map<string, string>

    /** The fields once the two tables have been read. */
    constructor (employees: seq<Employee>, previousAssignments: map<string, string>)
      ensures this.employees == employees && this.previousAssignments == previousAssignments
    {
      this.employees := employees;
      this.previousAssignments := previousAssignments;
    }

    /**
     * Shuffle the employees in place by `perm`, then give each, in the new
     * order, a child drawn by `pick` from the pool; fail when an employee has
     * no candidate left.
     */
    method AssignSecretSanta(perm: seq<nat>, pick: Chooser) returns (r: Outcome)
      requires IsPermutation(perm, |employees|)
      requires ValidChooser(pick)
      modifies this`employees
      ensures employees == Permute(old(employees), perm)
      ensures multiset(employees) == multiset(old(employees))
      ensures r == Assign(employees, previousAssignments, pick)
      ensures r.Success? ==> IsSecretSantaDraw(r.assignments, EmailSet(old(employees)), previousAssignments)
    {
      var availableChildren := EmailSet(employees);
      ghost var original := employees;
      employees := Permute(employees, perm);
      ShuffleKeepsEmails(original, perm);
      var assignments: map<string, string> := map[];

      for i := 0 to |employees|
        invariant RunTurns(employees, previousAssignments, pick, i) == Some(Progress(availableChildren, assignments))
      {
        var email := employees[i].email;
        var possibleChildren := availableChildren - {email};
        if email in previousAssignments {
          var previousChild := previousAssignments[email];
          if previousChild in possibleChildren {
            possibleChildren := possibleChildren - {previousChild};
          }
        }

        assert RunTurns(employees, previousAssignments, pick, i + 1)
            == Step(Progress(availableChildren, assignments), employees[i], previousAssignments, pick, i);
        if possibleChildren == {} {
          FailurePersists(employees, previousAssignments, pick, i + 1, |employees|);
          return NoValidAssignment;
        }

        assert possibleChildren == Candidates(availableChildren, email, previousAssignments);
        var chosenChild := pick(i, possibleChildren);
        assert chosenChild in availableChildren;
        assignments := assignments[email := chosenChild];
        availableChildren := availableChildren - {chosenChild};
      }

      r := Success(assignments);
      AssignSuccessIsDraw(employees, previousAssignments, pick);
    }
  }
}
