# fractype — a Dafny model of the fraction-type drill

fractype is a small desktop drill. It shows a fraction `num/den` and asks the
user to say whether the fraction is *proper* (numerator below the denominator),
*improper* (numerator above the denominator, not a whole number), or
*apparent* (the denominator divides the numerator, so the fraction is really a
whole number). After twenty answers the drill offers a summary of right and
wrong answers.

This project models the core of `src/main.rs`:

- `categories.dfy` (module `Categories`). The three categories as predicates
  on a fraction, `Classify` (proved to agree with those predicates), and the
  uniform pick of a category (`Distribution<Ftype>`).
- `generator.dfy` (module `Generator`). The fraction generator
  `get_new_numbers`. Random draws are explicit inputs: a `Randomness` value
  holds the category index, the proper draw, and the sequences of draws that
  the two rejection loops consume.
  - The two rejection loops are methods (`DrawImproper`, `DrawApparent`), and
    so is the divisor-collecting `for` loop (`CollectDivisors`).
  - Each is proved equal to a pure specification: `FirstSome` of the
    per-draw attempts, and `DivisorList`.
  - The properties are proved about those specifications: the divisor list
    detects exactly the composite numbers, and every accepted fraction
    belongs to its category.
  - `Generate` is the whole of `get_new_numbers` as a function. Its
    postcondition states that the fraction has parts in [1,120] and belongs
    to the category drawn.
- `drill.dfy` (module `Drill`). The session state machine.
  - The `State` class has the same fields as the Rust struct. Its methods
    `GetNewNumbers`, `Start`, `ReadInput`, `Evaluate`, `Next`, `Finish`,
    `Restart` and `Update` mutate the fields in place.
  - Each method is proved to move the state exactly as a pure transition
    function on `Session` values does (`WithNewNumbers`, `Started`,
    `Evaluated`, `Advanced`, `Restarted`, `Step`).
  - Lemmas over runs of several actions prove the following:
    - the session invariant holds after any run;
    - a run that only presses Check while the button is enabled never panics;
    - each Check counts one exercise;
    - Finish is offered once twenty Checks are done.
  - The integer parts of the view are modelled too: whether Check is enabled,
    the correct-answer count, and the Next/Finish choice.

Two module-level methods, `CorrectAnswerScenario` and `WrongAnswerScenario`,
walk a `State` object through Start, ReadInput, Check and Next. After Check
and again after Next they assert the phase, the error flag and both counters,
and after Next also that the answer is cleared.

Behaviours of `src/main.rs` that the model keeps:

- **Divisor list of an apparent fraction.** The loop at `src/main.rs:189-191`
  pushes only the small divisor `i`, not its cofactor `num / i`. So the
  denominators it can produce are `num / d` for `d = 1`, `d = num`, and each
  divisor `d` in `[2, isqrt(num)]`. For `num = 12` these are 12, 1, 6 and 4;
  3 and 2 are never produced (`Generator.ApparentDenominatorsOfTwelve`).
- **Check with no answer.** The code counts the exercise and then panics (`src/main.rs:215`, `235-236`).
  The view only enables the button once an answer is chosen
  (`src/main.rs:315`). `Drill.GatedRunNeverPanics` proves that this gating
  is enough.
- **Start.** `start` does not reset the answer or the error flag.
- **Evaluate.** `evaluate` never clears the error flag; only `next` and
  `restart` do.

## Model

| member | source | states |
|---|---|---|
| Categories.Classify | src/main.rs:69-72 | On fractions with positive parts, exactly one of proper (num < den), improper (num > den, den does not divide num) and apparent (den divides num) holds, and Classify returns that one |
| Categories.Matches | src/main.rs:216-234 | An answer is right exactly when it names the fraction's category; Unselected names none |
| Categories.SampleFtype | src/main.rs:88-96 | Index 0 gives Proper, 1 gives Improper, and every other index gives Apparent (each in both directions) |
| Categories.SampleCoversEveryCategory | src/main.rs:90-94 | Every category is reached by some index in the sampled range [0,2] |
| Generator.Isqrt | src/main.rs:189 | The upper bound of the divisor loop, computed by recursion on n; IsqrtIsRoot states that it is the integer square root |
| Generator.IsqrtIsRoot | src/main.rs:189 | The loop bound is the integer square root: its square is at most n, and the next square exceeds n |
| Generator.DivisorsFrom | src/main.rs:189-191 | Every pushed value is a divisor of n in [lo,hi], and every divisor of n in [lo,hi] is pushed |
| Generator.DivisorsFromIncreasing | src/main.rs:189-191 | The divisors are pushed in the order the loop visits them, so the list is strictly increasing |
| Generator.DivisorList | src/main.rs:186-191 | The vector the Apparent branch builds: 1, then n, then the divisors in [2,isqrt n]; its properties are DivisorListFacts |
| Generator.DivisorListFacts | src/main.rs:186-191 | The divisor vector starts with 1 and n, every entry divides n and lies in [1,n], the remaining entries are in [2,isqrt n], and every divisor of n in that range is among them |
| Generator.CofactorDivides | src/main.rs:193 | For a divisor d of n, n / d is itself a divisor of n in [1,n], and n / (n / d) == d |
| Generator.DivisorListDetectsComposite | src/main.rs:186-192 | The vector has more than two entries if and only if n is composite |
| Generator.CollectDivisors | src/main.rs:186-191 | The loop builds exactly the divisor list: 1, n, then every divisor in [2,isqrt n] |
| Generator.ImproperAttempt | src/main.rs:169-173 | A draw is rejected if and only if den divides num; an accepted draw is improper, with 2 <= den < num <= 120 |
| Generator.ApparentAttempt | src/main.rs:185-195 | One attempt of the Apparent loop keeps the drawn numerator and is accepted exactly when the divisor vector has more than its two trivial entries |
| Generator.ApparentAttemptAccepts | src/main.rs:185-198 | A draw is accepted if and only if num is composite; the accepted fraction has den == num / d for an entry d of the divisor list, is apparent, and has 1 <= den <= num <= 119, so the zero check at line 198 never fires |
| Generator.FirstSomeIsFirst | src/main.rs:168-175 | A rejection loop yields nothing if and only if every attempt is rejected; otherwise it yields the first accepted attempt, and every earlier attempt is rejected |
| Generator.DrawImproper | src/main.rs:164-177 | The improper loop returns the first accepted draw and the number of attempts it made; all earlier draws were rejected |
| Generator.DrawApparent | src/main.rs:180-200 | The apparent loop returns the first accepted draw and the number of attempts it made; all earlier draws were rejected |
| Generator.Generate | src/main.rs:154-206 | The category is the sampled one, and the fraction belongs to it with both parts in [1,120], within the ranges each branch draws from; an apparent fraction has a composite numerator |
| Generator.DivisorListOfTwelve | src/main.rs:186-191 | For 12 the vector is [1, 12, 2, 3] |
| Generator.ApparentDenominatorsOfTwelve | src/main.rs:192-193 | For numerator 12 the possible denominators are 12, 1, 6 and 4 |
| Drill.InitialInvariant | src/main.rs:132-145 | The default state satisfies the session invariant |
| Drill.WithNewNumbers | src/main.rs:154-206 | Only the category and the fraction change; the category is the sampled one and the fraction is correctly labelled with parts in [1,120] |
| Drill.Started | src/main.rs:207-210 | Start draws a correctly labelled fraction of the sampled category and enters Exercising; nothing else changes |
| Drill.Evaluated | src/main.rs:214-240 | Check counts one exercise; a wrong answer sets the error flag and counts one error; a right one leaves both; the phase becomes Result; nothing else changes |
| Drill.Advanced | src/main.rs:241-246 | Next draws a correctly labelled fraction of the sampled category, clears the answer and the error flag, enters Exercising and keeps both counters |
| Drill.Restarted | src/main.rs:250-257 | Restart draws a correctly labelled fraction of the sampled category, clears the answer and the error flag, enters Exercising, and resets both counters to 0 |
| Drill.Step | src/main.rs:272-309 | Dispatch panics if and only if Check arrives with no answer; it closes the window if and only if the action is Quit; every action preserves the session invariant |
| Drill.CheckEnabled | src/main.rs:315 | The Check button takes presses only once an answer is chosen; CheckEnabledIffNoPanic ties it to the panic |
| Drill.CheckEnabledIffNoPanic | src/main.rs:315 | Check is enabled exactly when pressing it continues rather than panics |
| Drill.ResultAction | src/main.rs:468 | The result screen offers Finish if and only if at least 20 exercises are counted, and Next otherwise |
| Drill.CorrectCount | src/main.rs:328 | The unsigned subtraction for right answers cannot underflow: right answers plus errors equal exercises |
| Drill.RunKeepsInvariant | src/main.rs:272-309 | The session invariant (errors <= exercises, correctly labelled fraction while exercising) holds after any sequence of actions |
| Drill.GatedRunNeverPanics | src/main.rs:315 | If Check is sent only while the button is enabled, no run reaches the panic at line 236 |
| Drill.RunCountsChecks | src/main.rs:215 | Without a Restart, a run that was not cut short raises the exercise count by exactly its number of Checks |
| Drill.FinishOfferedAfterTwentyChecks | src/main.rs:468 | From the initial state, after twenty Checks without a Restart the result screen offers Finish |
| Drill.State.constructor | src/main.rs:132-145 | The new object holds the default session, which satisfies the invariant |
| Drill.State.GetNewNumbers | src/main.rs:154-206 | The fields change as WithNewNumbers says: only the category and the fraction change, and the new fraction is correctly labelled |
| Drill.State.Start | src/main.rs:207-210 | The fields change as Started says; the invariant is kept |
| Drill.State.ReadInput | src/main.rs:211-213 | Only the answer changes |
| Drill.State.Evaluate | src/main.rs:214-240 | With an answer chosen, the fields change as Evaluated says; the invariant is kept |
| Drill.State.Next | src/main.rs:241-246 | The fields change as Advanced says; the invariant is kept |
| Drill.State.Finish | src/main.rs:247-249 | Only the phase changes, to FinalEvaluation |
| Drill.State.Restart | src/main.rs:250-257 | The fields change as Restarted says; the invariant is kept |
| Drill.State.Update | src/main.rs:272-309 | The new fields and the outcome are exactly those of Step, so the invariant is kept and a panic happens only on Check with no answer |

## Left out

- The iced `Application` plumbing is not modelled: `new`, `title`, `theme`, the returned `Command` values, and `main` with its window and icon settings. Quit is modelled only as the `CloseMainWindow` outcome.
- The layout and colours built by `view` are not modelled, and nor are the `styles` and `buttons` modules. Only the integer facts the view reads are modelled (lines 315, 328 and 468).
- The accuracy percentage on line 330 is floating point and is left out; the correct count beside it is modelled.
- The `Display` implementations and the `println!` of the attempt counts (lines 176 and 199) are I/O. The count is still returned by `DrawImproper` and `DrawApparent`.
- The `rand` generator is replaced by explicit draws in a `Randomness` value. Each draw is constrained to the range the code asks for. Uniformity is not modelled.
- Generator.WellFormed: the model takes a finite sequence of draws for each rejection loop. It requires that some draw is accepted. With no accepted draw the Rust loop never ends, and the model does not represent that.
- Generator.Isqrt: the bound `(num as f32).sqrt() as u32` is modelled as the exact integer square root. For numerators up to 119 the float result truncates to the same value, but this is not proved about f32 arithmetic.
- Drill.Evaluated: the counters are unbounded naturals. The u32 overflow of `exercise_count += 1` and `errors_count += 1` is not modelled; the drill caps the counts at a few dozen in practice.
- Drill.Step: on Check with no answer, the model records the incremented exercise count and the `Panicked` outcome. What happens after a panic (the process ends) is not modelled further.
