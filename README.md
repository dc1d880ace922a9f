# Opaque predicates, modelled in Dafny

This project models the opaque predicate library of the repository: class
`OpaquePredicates`. That class holds boolean functions that look as if they
depend on their input but return the same value for every input. It also
holds a private 32-bit FNV-1a string hash behind one of those predicates, and
two generic loop drivers that keep calling a caller-supplied `body` while
`opaque_true_arith(cursor)` holds.

Three modules:

- `MachineInt` (`machine_int.dfy`) covers C++ integer arithmetic. `Int32` is the range
  of a 32-bit `int`. `Add32` and `Mul32` wrap modulo 2^32: signed overflow
  is undefined behaviour in C++, and this model gives it the
  two's-complement meaning. The lemmas about congruence modulo 2^32 are used
  by the proofs. `CRem` is C++'s truncating `%`.
- `OpaquePredicates` (`opaque_predicates.dfy`) covers the predicates and `simple_hash`.
  `unsigned` and `uint32_t` are `bv32`, and the bytes of a C string are
  `bv8`, which is the value `static_cast<unsigned char>` yields.
  `SimpleHash` is the hashing loop. It is proved to compute `Fnv1a` (a left
  fold of one FNV-1a round, XOR then multiply by 16777619 from offset basis
  2166136261) of `CString(s)`, the bytes before the first NUL. The
  properties of the hash are then proved as lemmas about those functions.
- `LoopDrivers` (`loop_drivers.dfy`) covers both loop drivers. The C++ drivers return
  nothing: what a caller sees is the list of cursors passed to `body`, one
  per call. So each driver method returns that list as `calls`, and its
  contract says what the list is. `body` is a Dafny function
  `Int32 -> bool`, or `Int32 -> R` for the driver that ignores the result.
  The loops keep the source's guard `opaque_true_arith(ii)`. The proofs
  show that this guard never fails, using `ArithAlwaysTrue`.

## Model

| member | source | states |
|---|---|---|
| `OpaquePredicates.OpaqueTrueArith` | C++/src/OpaquePredicates/OpaquePredicates.cpp:13-16 | Its definition is the source expression with C++'s grouping, `((x*x) + (2*x)) + 1 == (x+1)*(x+1)`, where each `*` is `Mul32` and each `+` is `Add32`. It is also the guard of both driver loops. It has no `ensures`; `ArithAlwaysTrue` proves that it is always true. |
| `MachineInt.Wrap32` | C++/src/OpaquePredicates/OpaquePredicates.cpp:15 | Maps a mathematical integer to the 32-bit `int` with the same bit pattern: the result is in `[INT_MIN, INT_MAX]` and congruent to the input modulo 2^32, and a value already in range is unchanged. |
| `MachineInt.Add32` | C++/src/OpaquePredicates/OpaquePredicates.cpp:15 | Signed `int` addition, also used for `++ii` in the drivers (OpaquePredicates.hpp:111,142). The result is congruent to the true sum modulo 2^32, and equals it when there is no overflow. |
| `MachineInt.Mul32` | C++/src/OpaquePredicates/OpaquePredicates.cpp:15 | Signed `int` multiplication. The result is congruent to the true product modulo 2^32, and equals it when there is no overflow. |
| `OpaquePredicates.Step` | C++/src/OpaquePredicates/OpaquePredicates.cpp:6-7 | One round of the hashing loop: XOR the byte, zero-extended as `static_cast<unsigned char>` gives, into the `uint32_t` accumulator, then multiply by 16777619 modulo 2^32. It has no `ensures`; `Fnv1aSnoc` and `SimpleHash` state what folding it computes. |
| `OpaquePredicates.ArithAlwaysTrue` | C++/src/OpaquePredicates/OpaquePredicates.cpp:13-16 | `(x*x + 2*x + 1) == (x+1)*(x+1)` is true for every 32-bit `x` when `+` and `*` wrap modulo 2^32. This includes `INT_MIN`, `INT_MAX` and every `x` at which `x*x` or `x+1` overflows. |
| `OpaquePredicates.OpaqueFalseBits` | C++/src/OpaquePredicates/OpaquePredicates.cpp:19-22 | `opaque_false_bits(n)` returns false for every 32-bit unsigned `n`. |
| `OpaquePredicates.ComplementLaws` | C++/src/OpaquePredicates/OpaquePredicates.cpp:21 | The reason it is false: the bitwise OR of `n` and `~n` is always 0xFFFFFFFF and their bitwise AND is always 0, never 1. |
| `OpaquePredicates.Terminator` | C++/src/OpaquePredicates/OpaquePredicates.cpp:5 | Gives the index where `while (*s)` stops: every byte before it is non-NUL, and the byte there is NUL (or the buffer has ended). |
| `OpaquePredicates.SimpleHash` | C++/src/OpaquePredicates/OpaquePredicates.cpp:3-10 | Given a buffer that holds a NUL, the hashing loop returns the FNV-1a hash of exactly the bytes before the first NUL. For the empty string (first byte NUL) it returns the offset basis 2166136261. |
| `OpaquePredicates.Fnv1aSnoc` | C++/src/OpaquePredicates/OpaquePredicates.cpp:5-8 | The hash is a left fold: hashing one more byte `c` is `(h ^ c) * 16777619` modulo 2^32 applied to the previous hash. |
| `OpaquePredicates.HashOfEmptyString` | C++/src/OpaquePredicates/OpaquePredicates.cpp:4-9 | A string whose first byte is NUL hashes to 2166136261. |
| `OpaquePredicates.HashAppendByte` | C++/src/OpaquePredicates/OpaquePredicates.cpp:5-8 | Take a NUL-free string `s` and a non-NUL byte `c`. The hash of `s` followed by `c` is one more FNV-1a round, with `c` read as an unsigned byte, on the hash of `s`. |
| `OpaquePredicates.HashIgnoresAfterNul` | C++/src/OpaquePredicates/OpaquePredicates.cpp:5 | Bytes after a NUL never change the hash: the same prefix with any two different tails hashes the same, and that also equals the hash of the prefix alone. |
| `OpaquePredicates.HelloHash` | C++/src/OpaquePredicates/OpaquePredicates.cpp:27 | The FNV-1a hash of the C string `"hello"` (bytes 104, 101, 108, 108, 111) is 1335831723. |
| `OpaquePredicates.OpaqueTrueHash` | C++/src/OpaquePredicates/OpaquePredicates.cpp:25-28 | `opaque_true_hash()` runs the hashing loop on `"hello"` and returns true. |
| `OpaquePredicates.OpaqueTrueLoop` | C++/src/OpaquePredicates/OpaquePredicates.cpp:37-41 | `opaque_true_loop(n)` returns true for every 32-bit `n`. The ghost output `sums` holds the accumulator after each pass: there are `n` of them for positive `n` and none for `n <= 0`, and each one is 0. No signed operation in the loop overflows. |
| `OpaquePredicates.OpaqueEnvTime` | C++/src/OpaquePredicates/OpaquePredicates.cpp:44-48 | `(t % 1) == 0`, with C++'s truncating `%`, holds for every integer time value `t`. |
| `MachineInt.CRem` | C++/src/OpaquePredicates/OpaquePredicates.cpp:47 | C++'s `a % b`: `a` equals `b` times the quotient truncated toward zero, plus the remainder. The remainder has the sign of `a` and is smaller in magnitude than `b`. |
| `LoopDrivers.NextCursor` | C++/src/OpaquePredicates/OpaquePredicates.hpp:111 | `++ii` moves the cursor from its `i`-th value to its `(i+1)`-th, wrapping at `INT_MAX`. |
| `LoopDrivers.Cursors` | C++/src/OpaquePredicates/OpaquePredicates.hpp:111 | The first `n` cursor values, in order: element `i` is `start` advanced by `i` increments. |
| `LoopDrivers.CursorsIncreasing` | C++/src/OpaquePredicates/OpaquePredicates.hpp:111 | If the cursor does not pass `INT_MAX`, the cursors are `start, start+1, …` and strictly increasing. |
| `LoopDrivers.CursorsUnique` | C++/src/OpaquePredicates/OpaquePredicates.hpp:111 | Any run of at most 2^32 cursors has no value twice. |
| `LoopDrivers.ForeverArithLoopUntil` | C++/src/OpaquePredicates/OpaquePredicates.hpp:141-146 | `body` is called on `start, start+1, …`, once per cursor, with none skipped or repeated. The driver stops right after the first call that returns false: if that call is at offset `k`, there are exactly `k + 1` calls. If `body(start)` is false, the only call is `body(start)`. The guard `opaque_true_arith(ii)` never stops the loop. |
| `LoopDrivers.UntilTraceUnique` | C++/src/OpaquePredicates/OpaquePredicates.hpp:141-146 | The cursors passed to `body` are fully determined by `start` and `body`. |
| `LoopDrivers.ForeverArithLoopUntilFromZero` | C++/src/OpaquePredicates/OpaquePredicates.hpp:151-153 | The one-argument `_until` overload makes the same calls as the two-argument form with `start = 0`. |
| `LoopDrivers.ForeverArithLoopIgnoreReturn` | C++/src/OpaquePredicates/OpaquePredicates.hpp:110-115 | For every `k`, the first `k` calls receive the first `k` cursors from `start`, whatever `body` returns. The guard `opaque_true_arith(ii)` never ends the loop. |
| `LoopDrivers.ForeverArithLoopIgnoreReturnFromZero` | C++/src/OpaquePredicates/OpaquePredicates.hpp:120-122 | The one-argument `_ignore_return` overload makes the same first `k` calls as the two-argument form with `start = 0`. |

## Left out

- `opaque_true_fp`: it is about IEEE-754 `double`, `std::isfinite` and floating-point subtraction. Dafny has no model of those.
- The clock read in `opaque_env_time` (`std::time(nullptr)`): the time is a parameter `t` of `OpaqueEnvTime`, so any integer value is covered.
- `volatile` on the accumulator of `opaque_true_loop`: it only limits compiler optimisation and does not change values.
- C++ widths and undefined behaviour: `int` is 32-bit two's complement, and `unsigned` is 32 bits. Signed overflow in `x*x`, `2*x`, `x+1` and `++ii` is given wrapping semantics. C++ itself leaves such overflow undefined.
- `std::forward`: perfect forwarding of the callable is not modelled. Neither is a `body` with side effects, or a `body` that leaves the loop by a throw or a non-local exit: `body` is a pure function of the cursor.
- ForeverArithLoopIgnoreReturn: the C++ loop never ends, so the model states only its first `observed` calls, for an arbitrary `observed`. The model keeps every method terminating, so the method leaves the loop after those `observed` calls.
- ForeverArithLoopUntil: its `requires` asks that `body` return false for some 32-bit value. Without such a value the C++ loop runs forever, and that case is not modelled. Because the cursor wraps, any such value is reached within 2^32 calls.
- SimpleHash: the two statements `h ^= c; h *= 16777619;` are one call of `Step`, which does exactly those two operations in that order. The buffer must contain a NUL, as every C string does. What `simple_hash` reads past the end of a buffer without one is not modelled.
- `C++/src/main.cpp`, `C++/src/CWE/1045.cpp` and `C++/src/CWE/416.cpp`: the first is an interactive stdin/stdout loop, and the CWE files demonstrate memory-safety bugs. None of them has a functional contract to model.
