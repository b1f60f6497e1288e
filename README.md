# GameSpy key/value extraction

This project models `GamespyProtocol::ValueForKey` from Thyme. It reads a
GameSpy query string. That is a legacy backslash-delimited list of
alternating keys and values, for example
`\lc\1\challenge\DFDMXJLXJL\id\1\final\`.

Given a packet and a key such as `\challenge\`, the routine does four things:

- It finds the leftmost literal occurrence of the key. The search is plain
  `std::string::find` and is not anchored to delimiters.
- It takes the value slot. That is the text after the match up to the next
  backslash, or up to the end of the packet.
- It copies at most `len - 1` characters of the slot into the caller's
  buffer, followed by a NUL.
- It returns 1. When the key does not occur it returns 0 and leaves the
  buffer untouched.

Layout:

- `gamespy.dfy`, module `GamespyProtocol`. The pure part (lines 38-54 of the
  source) is the functions `Find` (the model of `std::string::find`),
  `ValueSlot` and `LookUp`. Each is characterised by an independent
  predicate: `MatchAt`/`LeftmostMatch` for the search, and `IsSlot` for the
  value slot. The output step (lines 56-59) is the method `ValueForKey`. It
  writes `dest: array<char>` in a `for` loop under `modifies dest`. `CStr`
  is what a C reader of the buffer sees (the characters before the first
  NUL).
- `gamespy_tests.dfy`, module `GamespyScenarios`. It holds the unit test's
  challenge lookup, an absent key, and truncation to a capacity of 3. Each
  is proved from the contracts.

Packets and keys are `seq<char>` without NUL, because they are C strings
that the source turns into `std::string`. The return value stays the
source's `int` (0 or 1).

The capacity `len` is bound only when the key occurs. The not-found path
(lines 40-41) returns before `len` is used, so it is well defined for any
`len`. When the key occurs and `len <= 0`, `len - 1` converts to a huge
`size_t` at lines 56 and 58. The source then writes the whole value and a
NUL past a `len`-cell buffer. The model therefore requires
`1 <= len <= dest.Length` whenever the key occurs. A hardened variant that
writes nothing when `len <= 0` is not modelled.

A message containing `\k\v\` yields `v` only when `\k\` does not occur
earlier, because the search takes the leftmost occurrence
(`WellFormedPair`).

## Model

| member | source | states |
|---|---|---|
| `GamespyProtocol.Find` | src/game/network/gamespy.cpp:38-41 | A result is a position at or after `from` where the pattern occurs, with no occurrence between `from` and it. None means the pattern occurs nowhere at or after `from`. This is the npos case. |
| `GamespyProtocol.ValueSlot` | src/game/network/gamespy.cpp:44-54 | The slot taken after the key is a backslash-free substring starting right after the key. It ends at a backslash or at the end of the packet. |
| `GamespyProtocol.SlotUnique` | src/game/network/gamespy.cpp:49-54 | A start position has exactly one value slot, so the characterisation pins down the extracted text. |
| `GamespyProtocol.LookUp` | src/game/network/gamespy.cpp:38-54 | The result is None exactly when the key does not occur as a substring. Otherwise it is the value slot after the key's leftmost occurrence. An empty key matches at 0. |
| `GamespyProtocol.LookUpSpec` | src/game/network/gamespy.cpp:38-54 | The converse: a leftmost occurrence at `p` and a slot `v` right after that occurrence force the result to be `v`. |
| `GamespyProtocol.EmptyValue` | src/game/network/gamespy.cpp:49-54 | A key match directly followed by a backslash, or ending at the end of the packet, yields the empty value. |
| `GamespyProtocol.WellFormedPair` | src/game/network/gamespy.cpp:38-54 | A packet of the form `pre + key + v + tail` yields `v` when three things hold: `v` has no backslash, `tail` is empty or starts with a backslash, and the key does not occur earlier. |
| `GamespyProtocol.CStr` | src/game/network/gamespy.cpp:57-59 | What a C reader sees in a buffer, as `EXPECT_STREQ` reads it at tests/test_gamespy.cpp:29, is a NUL-free prefix of it. That prefix ends at a NUL or at the end of the buffer. |
| `GamespyProtocol.TerminatedReadsBack` | src/game/network/gamespy.cpp:56-59 | A buffer whose first cells hold NUL-free text `t` followed by a NUL reads back as exactly `t`. |
| `GamespyProtocol.ValueForKey` | src/game/network/gamespy.cpp:32-62 | It returns 1 exactly when the key occurs, and otherwise returns 0 with `dest` unchanged. On 1, with `n` the smaller of `len - 1` and the value's length, `dest[..n]` is the first `n` characters of the value and `dest[n]` is NUL. Cells after `n`, and so every cell from `len` on, keep their old contents. `dest` reads back as the truncated value. |
| `GamespyScenarios.ChallengeValue` | tests/test_gamespy.cpp:21-22 | In the sample packet, the value of `\challenge\` is `DFDMXJLXJL`. |
| `GamespyScenarios.ChallengeScenario` | tests/test_gamespy.cpp:24-29 | Extracting `\challenge\` into a 128-cell buffer returns 1. The buffer then reads `DFDMXJLXJL`. |
| `GamespyScenarios.AbsentKeyMissing` | src/game/network/gamespy.cpp:38-41 | `\notakey\` occurs nowhere in the sample packet. |
| `GamespyScenarios.AbsentKeyScenario` | src/game/network/gamespy.cpp:38-42 | Looking up `\notakey\` returns 0 and leaves the buffer unchanged, with `len = 128` and with `len = 0`. |
| `GamespyScenarios.TruncationScenario` | src/game/network/gamespy.cpp:56-59 | With `len = 3`, the value `1` is copied whole. The value `123` is cut to `12`. |

## Left out

- The `captainslog_debug` call at line 33: it only logs and does not affect the result.
- GamespyProtocol.ValueForKey: calls with `len <= 0` for a key that occurs are excluded by its requires. There the source writes the whole value and a NUL past a `len`-cell buffer. Not-found calls are modelled for any `len`.
- `CrateTemplate` and `CrateSystem` (src/game/logic/system/cratesystem.h): they are declarations only, with no algorithm. `gamespy.h` is not part of this model.
- The disabled not-found test (tests/test_gamespy.cpp:31-32): it checks the wrong variable. The not-found behaviour is modelled from the code instead.
- Network transport and the GameSpy session logic that calls this routine: they lie outside it.
- Character width: `char` is modelled as Dafny's `char`. Byte encoding is not modelled.
