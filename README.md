# Secure-Coding kernels in Dafny

This project models the two computational kernels of the Secure-Coding
exercises and proves their properties.

- **Checked iterative arithmetic** (`M1.NumericOverflows.cpp`, module
  `NumericOverflows`). `add_numbers` computes `start + increment * steps` one
  step at a time. Before each step it compares the increment with the
  headroom `max - result`, and it stops with `overflow_flag` set at the first
  step that would pass the type's maximum. `subtract_numbers` does the same
  against the minimum. Its headroom is `|min - result|` for a signed type and
  `result` itself for an unsigned one. A C++ integer type is a `Bounds(lo, hi)`
  value holding `numeric_limits<T>::min()` and `max()`. All arithmetic uses
  unbounded integers. When the loop runs at all (`steps > 0`), the requires
  clauses are sufficient to keep every value the C++ code computes inside
  `[lo, hi]`, and assertions in the loop bodies check this at each headroom
  computation. They also exclude a negative step, because the guard
  protects only one bound. With zero steps nothing is computed, and any
  start and step of T are admitted. The global
  `overflow_flag` / `underflow_flag` become the `failed` field of the returned
  `Outcome`. So a call's flag depends only on that call's inputs, which is
  what the reset at the top of each function achieves. `AddNumbers` and
  `SubtractNumbers` are loops proved equal to the closed-form reference
  functions `AddSpec` and `SubSpec`. The properties are proved about those
  functions: exactness, staying in range, stopping at the first crossing,
  monotonic failure, and the test harness's own scenarios.
- **XOR cipher and header** (`M5.Encryption.cpp`, module `Encryption`). Strings
  are byte sequences (`seq<bv8>`). `EncryptDecrypt` is the in-place loop of
  `encrypt_decrypt`, proved equal to the recursive stream definition
  `XorStream`. `XorStream` is an involution, which gives the program's
  encrypt-then-decrypt round trip. `GetStudentName` returns the bytes before
  the first newline, found by `FindByte`, the model of `std::string::find`.

## Model

| member | source | states |
|---|---|---|
| NumericOverflows.StepsThatFit | M1.NumericOverflows.cpp:27-38 | the number of guarded steps that fit in the headroom: at most `steps`, their total fits, and when fewer than `steps` fit, one more would not |
| NumericOverflows.AddSpec | M1.NumericOverflows.cpp:13-42 | the result stays in `[start, max]`; the flag is raised exactly when `start + increment*steps > max`; without the flag the result is exactly `start + increment*steps`; with it, one more increment would pass `max` |
| NumericOverflows.AddNumbers | M1.NumericOverflows.cpp:20-42 | the step-by-step loop with its `max - result` guard and early break returns the reference outcome `AddSpec`; the body asserts that every headroom value it computes is representable in T |
| NumericOverflows.AddZeroSteps | M1.NumericOverflows.cpp:23-27 | zero steps return `start` with the flag clear, for every start and increment of T |
| NumericOverflows.AddZeroIncrement | M1.NumericOverflows.cpp:27-34 | a zero increment never overflows and returns `start` for any step count |
| NumericOverflows.AddStopsAtFirstCrossing | M1.NumericOverflows.cpp:35-37 | if `k` steps succeed and `k+1` fail, every run of more than `k` steps fails with the `k`-step value `start + increment*k` |
| NumericOverflows.AddFailureIsMonotonic | M1.NumericOverflows.cpp:27-38 | if `n` steps overflow, then `n+j` steps overflow too and leave the same value |
| NumericOverflows.SubSpec | M1.NumericOverflows.cpp:45-90 | the result stays in `[min, start]`; the flag is raised exactly when `start - decrement*steps < min`; without it the result is exactly `start - decrement*steps`; with it, one more decrement would pass `min` |
| NumericOverflows.SubtractNumbers | M1.NumericOverflows.cpp:54-90 | the loop's signed/unsigned headroom branch and the negation of a negative headroom both give the distance `result - min`; the loop returns the reference outcome `SubSpec`; the body asserts that `min - result` and its negation are representable in T |
| NumericOverflows.SubZeroSteps | M1.NumericOverflows.cpp:57-61 | zero steps return `start` with the flag clear, for every start and decrement of T |
| NumericOverflows.SubStopsAtFirstCrossing | M1.NumericOverflows.cpp:83-86 | if `k` steps succeed and `k+1` fail, every longer run fails with the `k`-step value `start - decrement*k` |
| NumericOverflows.SubFailureIsMonotonic | M1.NumericOverflows.cpp:61-87 | if `n` steps underflow, then `n+j` steps underflow too and leave the same value |
| NumericOverflows.OverflowTestScenario | M1.NumericOverflows.cpp:120-146 | for any type: start 0 with increment `max/5` gives `5*(max/5)` after 5 steps; the sixth step overflows exactly when `max/5 > max%5`, and then the value stays at the 5-step value |
| NumericOverflows.UnderflowTestScenario | M1.NumericOverflows.cpp:172-203 | for any two's-complement or unsigned type: start `min+max` with decrement `max/5` succeeds for 5 steps; the sixth underflows exactly when `max/5 > max%5`, and then the value stays at the 5-step value |
| NumericOverflows.IntegerTypesScenarios | M1.NumericOverflows.cpp:212-254 | for each of the eleven integer types exercised, both tests' first call succeeds and their second call (one extra step) fails |
| NumericOverflows.UnsignedCharOverflow | M1.NumericOverflows.cpp:120-124 | unsigned char, start 0, increment 51: 5 steps give 255 with no overflow; 6 steps overflow and leave 255 |
| NumericOverflows.CharUnderflow | M1.NumericOverflows.cpp:172-178 | char, start -1, decrement 25: 5 steps give -126 with no underflow; 6 steps underflow and leave -126 |
| Encryption.XorStream | M5.Encryption.cpp:28-38 | the transformed text has the length of the source |
| Encryption.XorStreamAt | M5.Encryption.cpp:31-34 | byte `j` of the output is `source[j] ^ key[j mod key length]`, the key index always in bounds |
| Encryption.XorStreamInvolution | M5.Encryption.cpp:17-42 | applying the cipher twice with the same key gives back the source |
| Encryption.EncryptDecrypt | M5.Encryption.cpp:17-42 | for non-empty key and source, the loop's output has the source's length, each byte is `source[i] ^ key[i mod key length]`, and it equals the stream definition |
| Encryption.EncryptThenDecrypt | M5.Encryption.cpp:120-132 | encrypting and then decrypting with the same key returns the source |
| Encryption.FindByte | M5.Encryption.cpp:66-68 | returns the first position of the byte, or none (npos) exactly when it does not occur |
| Encryption.GetStudentName | M5.Encryption.cpp:61-74 | the name is a prefix of the data with no newline; when the data has a newline the name ends just before the first one; otherwise the name is empty |

## Left out

- Floating-point instantiations (`float`, `double`, `long double`): the model covers integer bounds only; floating-point rounding is not modelled.
- AddNumbers: when `steps > 0`, requires `increment >= 0`, because the source's guard only protects the maximum. A negative increment always passes the guard and can go below `min` undetected. A negative increment that stays in range (`char`, start 10, increment -1, 5 steps gives 5) is therefore outside the model.
- AddNumbers: when `steps > 0`, requires `start >= 0`, because for a signed type `max - result` is not representable when `result < 0`. For example, `add_numbers<char>(-1, 0, 1)` computes 127 + 1 = 128, which narrows to -128, so a zero increment reports overflow. For `int` the same subtraction is signed overflow. The program's callers always start at 0.
- SubtractNumbers: when `steps > 0`, requires `decrement >= 0`. For a signed type it also requires `start <= 0` and `start - min <= max`, so that `min - result` and its negation are representable. Outside that range the source misbehaves. `subtract_numbers<int>(0, d, n)` with `n >= 1` sets the headroom to `INT_MIN` and then negates it, which is signed overflow. `subtract_numbers<char>(0, 1, 1)` narrows 128 back to -128 and reports underflow, although -1 fits. The program starts at `min + max`, which is -1 for every signed type it uses.
- C++ integer promotion and narrowing for `char` and `short` are not modelled. Under the preconditions above they do not change any value.
- The `unsigned long` step counter is an unbounded `nat`. It never exceeds `steps`, so its width does not matter.
- The bounds of `char`, `wchar_t` and `long` depend on the platform. The catalog uses the MSVC data model: `char` signed 8-bit, `wchar_t` unsigned 16-bit, `long` 32-bit.
- Console output and `typeid` names of `test_overflow`, `test_underflow`, `do_overflow_tests`, `do_underflow_tests` and `main` are not modelled. Their inputs appear as the scenario lemmas.
- `read_file`, `save_data_file` and the I/O of the encryption `main` (file streams, `exit`, the `gmtime_s`/`strftime` timestamp) are not modelled.
- `assert` failures in `encrypt_decrypt` (empty key or source) become the method's precondition. The abort is not modelled.
- M4.Exceptions.cpp (exception propagation, floating-point division), M4.UnitTesting.cpp (tests of `std::vector`) and M2.BufferOverflow.cpp (console input) have no logic to model here.
