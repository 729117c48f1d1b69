# quadricSolver — command history ring and root classification

This project models the two computational parts of the terminal quadratic
equation solver `quadricSolver` and proves what they guarantee.

- **The command-history ring** (`CommandHistory`, `history.dfy`). Each line
  the user types is copied into one of 64 fixed slots of 128 bytes. A write
  cursor `end` moves forward modulo 64 after each copy. Entries are read back
  by recency offset, where 1 is the most recent line, and can be listed most
  recent first. The ring is a `History` class with an `array<string>` of
  slots, the cursor and the `isActive` flag. A ghost field `Puts` records
  every line put so far. The object invariant `Valid()` states the ring
  property: the slot selected by offset `n` holds the line put `n` calls ago,
  or `""` if there is none. Every method is proved against the functions
  `Recall` and `ListFrom` over `Puts`.
- **The solver** (`QuadricSolver`, `solver.dfy`). `quadricSolver(a, b, c,
  &r1, &r2)` classifies the equation with the tolerance `TOL = 0.001`. It
  writes the linear "root" when abs(a) < TOL. Otherwise it writes a repeated
  root when abs(D) < TOL, two roots when D > 0, and nothing when D ≤ -TOL. Here
  it is a pure function `Solve` over reals. Each output location is
  `Untouched`, `Finite(x)` or `NonFinite`. The square root of the
  discriminant is a parameter `s`. Lemmas prove that the two-root branch
  writes two roots and that every root is one of them. The repeated-root
  value −b/2a leaves the residual −D/4a, which is zero exactly when D = 0.
  Other lemmas show how far the linear branch's value is from a root.
- **Scenarios** (`scenarios.dfy`). The repository's tests and a few direct
  consequences, written as verified methods and lemmas with their expected
  outcomes.

`wrappers.dfy` holds `Option`, where `None` stands for a returned NULL.

## Model

| member | source | states |
|---|---|---|
| CommandHistory.History.constructor | quadricSolver.h:68-85 | The cursor starts at 0 and the ring holds nothing. Every slot whose allocation succeeded is the empty string. The ring is active exactly when no slot allocation failed. |
| CommandHistory.History.Put | quadricSolver.h:95-99 | Copies the line into slot `end`, leaves every other slot unchanged and advances `end` modulo 64. It keeps the ring invariant with the line appended to the record of puts. |
| CommandHistory.History.Get | quadricSolver.h:101-110 | Returns NULL when the ring is inactive or n > 64. Otherwise it returns what slot (end − n) mod 64 holds, NULL if that slot is empty. For 1 ≤ n ≤ 64 that is the line put n calls ago (`Recall`), and offset 0 answers like offset 64. |
| CommandHistory.History.List | quadricSolver.h:112-122 | An inactive ring lists nothing. An active one lists exactly `ListFrom(Puts, 1)`: offsets 1, 2, … with their lines, up to the first offset that recalls nothing. `unbounded` is set exactly when 64 entries are listed, which is where the C loop never stops. |
| CommandHistory.History.ListingNeverEnds | quadricSolver.h:117-121 | Whenever the listing reaches 64 entries, which is exactly when `List` sets `unbounded`, the slot tested by the C listing loop is non-empty for every i ≥ 1. So the loop never exits, whatever was put before the last 64 lines. |
| CommandHistory.Recall | quadricSolver.h:101-110 | Offset n recalls a line exactly when 1 ≤ n ≤ 64, at least n lines were put and the n-th most recent is non-empty. The line recalled is the n-th most recent. |
| CommandHistory.ListFrom | quadricSolver.h:112-122 | The reference for what `history_list` prints, from offset i on. It has at most 65 − i entries, and its k-th entry is offset i + k paired with the line that offset recalls. Further properties are stated by `ListFromRecent`, `ListFromMatches`, `ListFromFull` and `ListFromLastFull`. |
| CommandHistory.RecallIsRecent | quadricSolver.h:95-110 | When every put line is non-empty, offsets 1..min(64, puts) recall the puts in reverse order. `Recall` gives nothing for offset 0, for offsets above 64 and for offsets beyond the number of puts; `Get` answers offset 0 like offset 64. |
| CommandHistory.RecallAfterPut | quadricSolver.h:95-99 | After one more put, offset 1 recalls the new line and offset n + 1 recalls what offset n did before, for every n < 64. |
| CommandHistory.SlotShift | quadricSolver.h:98 | Advancing the cursor moves every offset by one slot. Offset 1 selects the slot just written, and offset n > 1 selects the slot offset n − 1 selected before, which is a different slot. |
| CommandHistory.SlotPeriodic | quadricSolver.h:118 | Offset i ≥ 1 selects the same slot as the offset in 1..64 congruent to it modulo 64. |
| CommandHistory.ListFromRecent | quadricSolver.h:112-122 | When every put line is non-empty, the listing has min(puts, 64) entries: (k, the k-th most recent line) for k = 1, 2, …. |
| CommandHistory.ListFromLastFull | quadricSolver.h:117-121 | When the last 64 puts are all non-empty, the listing has 64 entries, whatever was put before them (empty lines included). With `ListingNeverEnds`, the C listing loop then never ends. |
| CommandHistory.ListFromFull | quadricSolver.h:117-121 | If the listing from offset i has an entry for every offset i..64, then each of those offsets recalls a line. |
| CommandHistory.ListFromMatches | quadricSolver.h:117-121 | A sequence that pairs offsets 1, 2, … with what they recall, and stops at the first offset recalling nothing or at 64, is the listing. |
| QuadricSolver.Solve | quadricSolver.h:194-213 | Writes result_1 exactly unless abs(a) ≥ TOL and D ≤ −TOL. Writes result_2 exactly when abs(a) ≥ TOL and D > −TOL. result_1 is non-finite exactly when a = 0, and result_2 is never non-finite. |
| QuadricSolver.LinearBranch | quadricSolver.h:196-200 | With 0 < abs(a) < TOL only result_1 is written, with x = −b/a. Then a·x + b = 0, so x leaves the residual c in a·x² + b·x + c. |
| QuadricSolver.LinearBranchZero | quadricSolver.h:196-197 | With a = 0, result_1 receives the non-finite −b/0 and result_2 is untouched. |
| QuadricSolver.RepeatedRootBranch | quadricSolver.h:203-207 | With abs(a) ≥ TOL and abs(D) < TOL, both outputs are −b/2a with residual −D/4a. This is an exact root when D = 0. |
| QuadricSolver.TwoRootsBranch | quadricSolver.h:208-211 | With abs(a) ≥ TOL and D ≥ TOL, the outputs (−b − √D)/2a and (−b + √D)/2a are both roots. They are ascending for a > 0 and descending for a < 0, and every root of the equation is one of them. |
| QuadricSolver.NoRootsBranch | quadricSolver.h:202-212 | With abs(a) ≥ TOL and D ≤ −TOL neither output is written, and the equation has no real root. |
| QuadricSolver.QuotientIsRoot | quadricSolver.h:209-210 | (−b ± √D)/2a solves a·x² + b·x + c = 0 whenever a ≠ 0. |
| QuadricSolver.RootIsQuotient | quadricSolver.h:208-211 | Every root of a·x² + b·x + c = 0 with a ≠ 0 is (−b − √D)/2a or (−b + √D)/2a. |
| QuadricSolver.QuotientsOrdered | quadricSolver.h:209-210 | For √D > 0, result_1 < result_2 when a > 0 and result_2 < result_1 when a < 0. |
| QuadricSolver.SolveCorrected | quadricSolver.h:196-197 | In the linear case it writes −c/b, which satisfies b·x + c = 0, and it is non-finite exactly when b = 0. Otherwise it agrees with `Solve`. |
| QuadricSolver.LinearBranchMissesRoot | quadricSolver.h:196-197 | For a = 1/2000, b = 1, c = 1 the code writes −2000, which leaves residual 1, while the corrected branch writes the root −1 of b·x + c = 0. |
| Scenarios.FreshRingRecallsNothing | quadricSolver.h:68-110 | A freshly constructed ring returns NULL for every offset. |
| Scenarios.PutThenGet | quadricSolver.h:95-110 | A non-empty line put into a fresh ring comes back at offset 1. |
| Scenarios.ManualHistory | test-qs.cpp:7-35 | After the five puts of the manual test, the listing is the five lines most recent first, numbered 1 to 5, and it ends. |
| Scenarios.ManualListing | test-qs.cpp:16-28 | The listing after the five puts of the manual test is (1, "sixth line"), (2, "fifth line"), (3, "third line"), (4, "second line"), (5, "first line"). |
| Scenarios.RangesHistory | test-qs.cpp:38-68 | After four distinct puts and 100 puts of one line, all 64 offsets list that line. This is the case where the C listing loop never ends. |
| Scenarios.SolveRepeatedRootExample | test-qs.cpp:75-77 | (1, 2, 1) writes −1 to both outputs. |
| Scenarios.SolveZeroRootExample | test-qs.cpp:83-85 | (1, 0, 0) writes 0 to both outputs. |
| Scenarios.SolveTwoRootsExample | test-qs.cpp:91-93 | (14, −97, 113) writes values within TOL of 1.4819 and 5.4467. |
| Scenarios.SolveNoRootsExample | test-qs.cpp:99-101 | (1400, −97, 113) leaves both outputs untouched (NaN). |
| Scenarios.SolveLinearExample | test-qs.cpp:107-109 | (0, −97, 113) makes the code write a non-finite result_1. The corrected branch writes 113/97, which is within TOL of the expected 1.1649. |
| Scenarios.SolveConstantExample | test-qs.cpp:115-117 | (0, 0, 113) writes a non-finite result_1 (−0/0 is NaN) and leaves result_2 untouched. |

## Left out

- The ncurses user interface is left out: `create_newwin`/`destroy_win`, `printGraph` and `main`'s input loop. They are terminal I/O.
- `history_destruct` is left out. It only frees memory, and the model has no manual memory management.
- `doubleCheck` is left out. It tests C doubles for NaN, and the model has no NaN.
- Failed allocation: a failed `malloc` of the slot array itself is not modelled. For a slot whose allocation failed, the model leaves the slot's content unspecified instead of NULL. Such a ring is inactive, and `Get` and `List` never read it.
- `cur` and `isEmpty` are written by `history_construct` but never read, so the model does not carry them.
- History.Put: requires an active ring, a line shorter than 128 characters and a line without a NUL character. The C code checks none of these. On an inactive ring it may write through NULL, and a longer line overflows the slot through `strcpy`. Both are undefined behaviour that the model does not represent.
- Strings are sequences of characters, not NUL-terminated byte arrays. The 128-byte bound is counted in characters, so a line whose UTF-8 encoding is longer than its character count is not bounded in bytes. `Put` excludes NUL characters because a C string cannot hold one.
- History.Get: returns a copy of the slot's content. `history_get` returns a pointer into the slot, which a later put overwrites; that aliasing is not modelled.
- History.List: returns the entries `history_list` prints instead of formatting them with `printw`. It stops after 64 entries where the C loop would go on forever; the `unbounded` flag marks that case.
- Solve: real arithmetic replaces IEEE-754 doubles, so rounding is not modelled. Both infinity and NaN from a division by zero become `NonFinite`. `sqrt` is the parameter `s`, constrained to be the non-negative square root of the discriminant where the discriminant is non-negative.
- Solve: the statement `result_1 = 0` at quadricSolver.h:198-199 assigns the local pointer. It has no effect on the caller and is modelled as such.
- The later six-argument solver with the `result_eq_inf` flag, which test-qs.cpp:75-118 calls, is not part of this model (quadricSolver.h has only the five-argument form). The flag expectations of the tests are therefore not stated. The same holds for the two-argument `history_construct` the tests call.
- The scenario `RangesHistory` puts the line "same line" 100 times instead of the test's own literal. The content of the repeated line does not affect the outcome.

## Findings

| source | as written | input that shows it | evidently intended | confidence | as-written member | corrected member |
|---|---|---|---|---|---|---|
| quadricSolver.h:196-197 | The linear case (abs(a) < TOL) writes −b/a, the non-zero root of a·x² + b·x. | a = 0.0005, b = 1, c = 1 gives −2000, with residual 1. The test at test-qs.cpp:107-108 expects 1.1649 for (0, −97, 113), while the code writes the non-finite 97/0. | The root −c/b of b·x + c = 0. | high; not executed | QuadricSolver.LinearBranchMissesRoot | QuadricSolver.SolveCorrected |
| quadricSolver.h:117-121 | The listing loop has no bound on `i` and stops only at an empty slot. | The last 64 puts are all non-empty, as after test-qs.cpp:57-59. This holds whatever was put before them. Every offset i ≥ 1 then selects a non-empty slot, so the loop prints forever. | Stop after at most 64 entries. | high; not executed | CommandHistory.History.ListingNeverEnds | CommandHistory.History.List |
