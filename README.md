# Secret Santa matcher, modelled in Dafny

This project models the matcher of `SecretSantaAssigner` in `Secret_santa/main.py`.
Every employee is keyed by an email address. The matcher receives last year's draw as
a map from employee email to child email. It starts with a pool holding every employee
email and shuffles the employee list in place. Then it visits the employees in that
order. On each turn the candidates are the pool minus the employee's own email. If the
employee drew someone last year, that child is removed from the candidates too. With no
candidate left the whole run fails. Otherwise one candidate is picked, recorded as the
employee's child and removed from the pool.

Two files:

- `shuffle.dfy` (module `Shuffle`): the reordering done by `random.shuffle`. The model
  takes a permutation of positions and proves that reading the list through it only
  reorders it.
- `secret_santa.dfy` (module `SecretSanta`):
  - the class `SecretSantaAssigner`, whose fields `employees` and `previousAssignments`
    mirror the source object;
  - the method `AssignSecretSanta`, which shuffles `employees` in place and then runs
    the source's loop over a local pool (a `set`) and a local assignment (a `map`);
  - the specification of that loop: `Step` is one turn, `RunTurns` the first `k`
    turns, and `Assign` the whole pass;
  - the lemmas stating what the source promises about `Assign`.

Randomness becomes input:

- The shuffle is a parameter `perm`, a permutation of the list positions.
- `random.choice` is an oracle `pick(turn, candidates)`. `ValidChooser` says it always
  returns a member of the non-empty set it is given. Candidate sets never repeat from
  one turn to the next, since each turn removes the child it picks from the pool. So an
  oracle on (turn, set) can reproduce any sequence of random choices.
- `exit(1)` on an empty candidate list becomes the result `NoValidAssignment`.

What the code does and a softer reading does not:

- Last year's child is removed whenever it is still in the pool, even when it is the
  employee's only candidate. A "soft" no-repeat rule, which keeps that child when
  nothing else is left, is sometimes described for this matcher. The code does not do
  that, and this model follows the code (`PreviousChildNeverKept`).
- There is no input check. An empty list yields an empty assignment
  (`EmptyListYieldsEmptyMap`), and a single employee makes the run fail
  (`LoneEmployeeFails`). Neither is reported as a separate invalid-input error.
- There is no retry loop around the pass. One dead end ends the run, even when a
  complete draw exists (`GreedyCanDeadEnd`).
- A repeated email is not rejected up front. The run then always fails: the pool holds
  fewer emails than there are turns (`DuplicateEmailsFail`). So every successful run
  is a bijection on the employee emails (`AssignSuccessIsDraw`).

## Model

| member | source | states |
|---|---|---|
| `SecretSanta.SecretSantaAssigner.constructor` | Secret_santa/main.py:6-11 | the assigner holds the employee list and last year's draw it is given |
| `SecretSanta.SecretSantaAssigner.AssignSecretSanta` | Secret_santa/main.py:33-55 | shuffles `employees` in place by `perm` (same multiset), then returns exactly `Assign` of the shuffled list; a success is a complete draw over the original emails |
| `SecretSanta.Candidates` | Secret_santa/main.py:41-45 | an employee's candidates lie in the pool, never include the employee, and never include last year's child |
| `SecretSanta.StepShrinksPool` | Secret_santa/main.py:51-53 | a successful turn records for the employee one of their candidates and removes exactly that child from the pool, which shrinks by one |
| `SecretSanta.InitialConsistent` | Secret_santa/main.py:35-37 | before the first turn the pool is every employee email and the assignment is empty, which satisfies the loop invariant |
| `SecretSanta.StepKeepsConsistent` | Secret_santa/main.py:39-53 | one successful turn preserves the loop invariant |
| `SecretSanta.RunTurnsConsistent` | Secret_santa/main.py:35-53 | after every turn the run survives: the visited employees are the keys; pool and children are disjoint employee emails; the pool lost one email per turn; while emails are distinct the pool is the emails minus the children; every pair obeys both rules |
| `SecretSanta.FailurePersists` | Secret_santa/main.py:47-49 | once a turn fails, no later state exists (the run is over) |
| `SecretSanta.AssignNoSelf` | Secret_santa/main.py:41-52 | in a successful result no employee is their own child |
| `SecretSanta.AssignAvoidsPrevious` | Secret_santa/main.py:42-52 | in a successful result no employee listed in last year's draw gets last year's child, whatever the other options were |
| `SecretSanta.AssignInjective` | Secret_santa/main.py:51-53 | in a successful result no child is assigned to two employees |
| `SecretSanta.AssignChildrenAreEmployees` | Secret_santa/main.py:35-53 | every child in a successful result is the email of an input employee |
| `SecretSanta.CompletedPassIsDraw` | Secret_santa/main.py:39-55 | a state that satisfies the invariant after all turns has an empty pool, comes from distinct emails, and is a complete draw |
| `SecretSanta.AssignSuccessIsDraw` | Secret_santa/main.py:35-55 | a successful run had distinct emails, and its result maps the employee email set one-to-one onto itself with no self-assignment and no repeat of last year's child |
| `SecretSanta.DuplicateEmailsFail` | Secret_santa/main.py:35-53 | a list with a repeated email always ends in failure |
| `SecretSanta.NoneIffStuck` | Secret_santa/main.py:39-49 | the first `k` turns fail exactly when one of them had an empty candidate set |
| `SecretSanta.AssignFailsIffStuck` | Secret_santa/main.py:47-49 | the run fails, with no result, exactly when some employee has no candidate on their turn |
| `SecretSanta.EmptyListYieldsEmptyMap` | Secret_santa/main.py:35-55 | an empty employee list yields an empty assignment, not an error |
| `SecretSanta.LoneEmployeeFails` | Secret_santa/main.py:41-49 | a single employee always makes the run fail |
| `SecretSanta.TwoEmployeesSwap` | Secret_santa/main.py:39-55 | two employees with no history always draw each other, whatever the random choices |
| `SecretSanta.PreviousChildNeverKept` | Secret_santa/main.py:42-49 | when the first of two employees drew the other last year, the run fails: last year's child is not kept as a last resort |
| `SecretSanta.GreedyCanDeadEnd` | Secret_santa/main.py:39-53 | three employees with no history can fail when the first two draw each other, although a complete three-cycle draw exists |
| `SecretSanta.ShuffleKeepsEmails` | Secret_santa/main.py:35-36 | shuffling keeps the multiset of employees, and so the email set that forms the initial pool |
| `Shuffle.PermutePreservesMultiset` | Secret_santa/main.py:36 | reading a list through a permutation of its positions keeps each element as often as before |

## Left out

- CSV reading and writing (`read_employees`, `read_previous_assignments`, `write_output`, main.py:13-31 and 57-72) are file I/O. The employee list and last year's map are constructor arguments; the result is returned, not written.
- The missing-file handling of the readers (print and `exit(1)`, or a warning and an empty map) is file I/O and is not modelled.
- `print` and `exit(1)` in the matcher become the result `NoValidAssignment`. The message text is not modelled.
- `run` and the module-level script (main.py:74-84) only sequence the I/O steps.
- The name lookup in `write_output` (main.py:66) is presentation of the result.
- The probability distributions of `random.shuffle` and `random.choice` are not modelled. Both become explicit inputs (`perm` and `pick`), so every statement holds for every possible random outcome.
- `possible_children` is a Python list built from a set, so its order depends on set iteration. The model keeps the candidates as a set; the order only affects which element `random.choice` returns, and `pick` covers every such choice.
- Employee rows are modelled by name and email. Other CSV columns the rows may carry are not read by the matcher.
