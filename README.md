# nn::TimeSpanType and nn::TimeSpan in Dafny

This project models the duration types of the `nn` SDK headers: `nn::TimeSpanType`,
a struct holding a signed 64-bit nanosecond count (`_ns`), and `nn::TimeSpan`, a class
that holds one `TimeSpanType` (`m_ts`) and delegates every operation to it.

- `int64.dfy`, module `Int64`: the `s64` range and `TDiv`, the C++ integer division
  for a positive divisor (it truncates toward zero, unlike Dafny's Euclidean `/`),
  with its characterisation and the lemmas the getters need.
- `time.dfy`, module `Time`: both types as classes. The factories and the copying
  `+`/`-` are static methods that allocate a fresh object. The getters and the six
  comparisons are functions that read the object. `+=`/`-=` are methods that modify it.
  A factory calls the next finer factory, as the header chains them, so
  `FromDays` goes through `FromHours`, `FromMinutes`, `FromSeconds`, `FromMilliSeconds`
  and `FromMicroSeconds` down to `FromNanoSeconds`.

Signed overflow is undefined behaviour in C++, so every operation that multiplies,
adds or subtracts requires its exact result to lie in the `s64` range. A factory
requires `ChainFits`: no product along its chain of factories overflows.
`ChainFitsExactly` proves that this holds exactly when the final nanosecond count fits.

`+=` and `-=` change `_ns` (and, in the wrapper, `m_ts`) in place; `+` and `-` work on a
copy. The round trips proved about these operations, such as `(a + b) - b == a`, hold
whenever no step overflows.

`m_ts` is held by value, so two distinct wrappers never share it. The model holds it as
a reference that each wrapper allocates afresh; the wrapper's `+=` and `-=` require that
their two operands do not share it unless they are the same wrapper.

## Model

| member | source | states |
|---|---|---|
| `Int64.TDiv` | include/nn/time.h:32-52 | the C++ quotient by a positive divisor: the remainder has the dividend's sign and is smaller than the divisor; the quotient is no larger in magnitude than the dividend, so it stays in `s64` |
| `Int64.TruncQuotientUnique` | include/nn/time.h:32-52 | the truncating-division characterisation determines the quotient uniquely |
| `Int64.TDivExact` | include/nn/time.h:18-52 | dividing `v * d` by `d` gives back `v` for every sign of `v` |
| `Int64.TDivNegate` | include/nn/time.h:32-52 | truncating division commutes with negation (flooring would not) |
| `Int64.TDivMonotone` | include/nn/time.h:32-52 | truncating division preserves `<=` |
| `Int64.TDivNested` | include/nn/time.h:32-52 | dividing by `d1` and then by `d2` is dividing by `d1 * d2` |
| `Time.NsPerUnit` | include/nn/time.h:18-29 | nanoseconds per unit, the product of the factors down the factory chain, is positive and at least the unit's own factor |
| `Time.ChainFitsExactly` | include/nn/time.h:18-29 | no multiplication in a factory's chain overflows `s64` exactly when the argument times the unit's nanosecond count fits |
| `Time.UnitScales` | include/nn/time.h:18-52 | the getters' divisors are the products of the factories' factors (1000, 10^6, 10^9, 60 * 10^9, 3600 * 10^9, 86400 * 10^9) |
| `Time.TimeSpanType.constructor` | include/nn/time.h:17 | the aggregate initialiser `{ ns }` stores its argument as `_ns` |
| `Time.TimeSpanType.FromNanoSeconds` | include/nn/time.h:17 | a fresh span holding `ns`, and `GetNanoSeconds` gives `ns` back |
| `Time.TimeSpanType.FromMicroSeconds` | include/nn/time.h:18-21 | requires no overflow in its chain (`us * 1000` fits in `s64`); the span holds exactly `us * 1000` ns and `GetMicroSeconds` gives `us` back |
| `Time.TimeSpanType.FromMilliSeconds` | include/nn/time.h:22-25 | requires no overflow in its chain (`ms * 1000` and `ms * 10^6` fit); holds exactly `ms * 10^6` ns; reads back as `ms` ms and `ms * 1000` us |
| `Time.TimeSpanType.FromSeconds` | include/nn/time.h:26 | requires no overflow in its chain (equivalently `s * 10^9` fits); holds exactly `s * 10^9` ns; reads back as `s` s, `s * 1000` ms and `s * 10^6` us |
| `Time.TimeSpanType.FromMinutes` | include/nn/time.h:27 | requires no overflow in its chain (equivalently `m * 60 * 10^9` fits); holds exactly that many ns; reads back as `m` min, `60 m` s and the matching ms and us |
| `Time.TimeSpanType.FromHours` | include/nn/time.h:28 | requires no overflow in its chain (equivalently `h * 3600 * 10^9` fits); holds exactly that many ns; reads back as `h` h, `60 h` min, `3600 h` s and the matching ms and us |
| `Time.TimeSpanType.FromDays` | include/nn/time.h:29 | requires no overflow in its chain (equivalently `d * 86400 * 10^9` fits); holds exactly that many ns; reads back as `d` days, `24 d` h, `1440 d` min, `86400 d` s and the matching ms and us |
| `Time.TimeSpanType.GetMicroSeconds` | include/nn/time.h:32 | the nanosecond count divided by 1000, truncated toward zero |
| `Time.TimeSpanType.GetMilliSeconds` | include/nn/time.h:33-36 | the nanosecond count divided by 10^6, truncated toward zero |
| `Time.TimeSpanType.GetSeconds` | include/nn/time.h:37-40 | the nanosecond count divided by 10^9, truncated toward zero |
| `Time.TimeSpanType.GetMinutes` | include/nn/time.h:41-44 | the nanosecond count divided by 60 * 10^9, truncated toward zero |
| `Time.TimeSpanType.GetHours` | include/nn/time.h:45-48 | the nanosecond count divided by 3600 * 10^9, truncated toward zero |
| `Time.TimeSpanType.GetDays` | include/nn/time.h:49-52 | the nanosecond count divided by 86400 * 10^9, truncated toward zero |
| `Time.TimeSpanType.Ne` | include/nn/time.h:58-61 | `!=` is the complement of `==` |
| `Time.TimeSpanType.Ge` | include/nn/time.h:66-69 | `>=` is the complement of `<` |
| `Time.TimeSpanType.Gt` | include/nn/time.h:74-77 | `>` is the complement of `<=` |
| `Time.ComparisonsMirrorNanoSeconds` | include/nn/time.h:54-77 | `==`, `<` and `<=` are integer comparison of the nanosecond counts; `!=` is the complement of `==`, `<` of `>=` and `<=` of `>`; `>`/`>=` are `<`/`<=` with the operands swapped |
| `Time.TimeSpanType.AddAssign` | include/nn/time.h:79-83 | requires the sum to fit; sets `_ns` to the old `_ns` plus the old `rhs._ns` (so `a += a` doubles), returns this object, leaves a distinct `rhs` unchanged |
| `Time.TimeSpanType.SubtractAssign` | include/nn/time.h:84-88 | requires the difference to fit; sets `_ns` to the old `_ns` minus the old `rhs._ns` (so `a -= a` zeroes), returns this object, leaves a distinct `rhs` unchanged |
| `Time.TimeSpanType.Add` | include/nn/time.h:90-94 | a fresh span holding the sum; both operands unchanged |
| `Time.TimeSpanType.Subtract` | include/nn/time.h:95-99 | a fresh span holding the difference; both operands unchanged |
| `Time.GettersChain` | include/nn/time.h:31-52 | each getter equals the next finer getter truncated once more (us from ns by 1000, ..., days from hours by 24) |
| `Time.GettersMonotone` | include/nn/time.h:31-77 | if `a <= b` then every getter of `a` is at most the same getter of `b` |
| `Time.GettersOdd` | include/nn/time.h:32-52 | opposite spans read as opposite amounts in every unit (truncation, not flooring) |
| `Time.TruncationExamples` | include/nn/time.h:22-25 | `FromMilliSeconds(1500).GetSeconds()` is 1 and `FromMilliSeconds(-1500).GetSeconds()` is -1 |
| `Time.AddSubtractRoundTrip` | include/nn/time.h:90-99 | `(a + b) - b` equals `a` whenever `a + b` fits |
| `Time.AddCommutative` | include/nn/time.h:90-94 | `a + b` equals `b + a` whenever the sum fits |
| `Time.TimeSpan.constructor` | include/nn/time.h:108-111 | the wrapper holds a fresh copy of the given `TimeSpanType` |
| `Time.TimeSpan.FromNanoSeconds` | include/nn/time.h:113 | holds the same nanosecond count as `TimeSpanType::FromNanoSeconds`; reads back as `ns` |
| `Time.TimeSpan.FromMicroSeconds` | include/nn/time.h:114 | same count as `TimeSpanType::FromMicroSeconds` under the same overflow requirement; reads back as `us` |
| `Time.TimeSpan.FromMilliSeconds` | include/nn/time.h:115 | same count as `TimeSpanType::FromMilliSeconds`; reads back as `ms` |
| `Time.TimeSpan.FromSeconds` | include/nn/time.h:116 | same count as `TimeSpanType::FromSeconds`; reads back as `s` |
| `Time.TimeSpan.FromMinutes` | include/nn/time.h:117 | same count as `TimeSpanType::FromMinutes`; reads back as `m` |
| `Time.TimeSpan.FromHours` | include/nn/time.h:118 | same count as `TimeSpanType::FromHours`; reads back as `h` |
| `Time.TimeSpan.FromDays` | include/nn/time.h:119 | same count as `TimeSpanType::FromDays`; reads back as `d` |
| `Time.TimeSpan.GetMicroSeconds` | include/nn/time.h:122 | the held count divided by 1000, truncated toward zero |
| `Time.TimeSpan.GetMilliSeconds` | include/nn/time.h:123 | the held count divided by 10^6, truncated toward zero |
| `Time.TimeSpan.GetSeconds` | include/nn/time.h:124 | the held count divided by 10^9, truncated toward zero |
| `Time.TimeSpan.GetMinutes` | include/nn/time.h:125 | the held count divided by 60 * 10^9, truncated toward zero |
| `Time.TimeSpan.GetHours` | include/nn/time.h:126 | the held count divided by 3600 * 10^9, truncated toward zero |
| `Time.TimeSpan.GetDays` | include/nn/time.h:127 | the held count divided by 86400 * 10^9, truncated toward zero |
| `Time.TimeSpan.Eq` | include/nn/time.h:129-132 | the wrapper's `==` holds exactly when the held nanosecond counts compare with `==` |
| `Time.TimeSpan.Ne` | include/nn/time.h:133-136 | the wrapper's `!=` holds exactly when the held nanosecond counts compare with `!=` |
| `Time.TimeSpan.Le` | include/nn/time.h:137-140 | the wrapper's `<=` holds exactly when the held nanosecond counts compare with `<=` |
| `Time.TimeSpan.Ge` | include/nn/time.h:141-144 | the wrapper's `>=` holds exactly when the held nanosecond counts compare with `>=` |
| `Time.TimeSpan.Lt` | include/nn/time.h:145-148 | the wrapper's `<` holds exactly when the held nanosecond counts compare with `<` |
| `Time.TimeSpan.Gt` | include/nn/time.h:149-152 | the wrapper's `>` holds exactly when the held nanosecond counts compare with `>` |
| `Time.WrapperTransparent` | include/nn/time.h:121-152 | every getter and comparison of the wrapper gives what the held `TimeSpanType` gives |
| `Time.TimeSpan.AddAssign` | include/nn/time.h:154-158 | requires the result to fit and the operands not to share a held value unless they are one wrapper (always so in C++); adds the held values in place, returns this wrapper, leaves a distinct `rhs` unchanged |
| `Time.TimeSpan.SubtractAssign` | include/nn/time.h:159-163 | requires the result to fit and the operands not to share a held value unless they are one wrapper (always so in C++); subtracts the held values in place, returns this wrapper, leaves a distinct `rhs` unchanged |
| `Time.TimeSpan.Add` | include/nn/time.h:165-169 | a fresh wrapper holding the sum; both operands unchanged |
| `Time.TimeSpan.Subtract` | include/nn/time.h:170-174 | a fresh wrapper holding the difference; both operands unchanged |
| `Time.TimeSpan.ToTimeSpanType` | include/nn/time.h:176 | a fresh `TimeSpanType` with the held nanosecond count |
| `Time.WrapThenConvert` | include/nn/time.h:108-111 | wrapping a `TimeSpanType` and converting back gives an equal value |
| `Time.WrapperAddSubtractRoundTrip` | include/nn/time.h:165-174 | the wrapper's `(a + b) - b` equals `a` whenever `a + b` fits |

`GetNanoSeconds` (include/nn/time.h:31 and 121) returns the stored count; its round trip
with `FromNanoSeconds` is stated by that factory. `TimeSpanType`'s `==`, `<=` and `<`
(include/nn/time.h:54-57, 62-65, 70-73) have no contract of their own; what they mean
is stated by `ComparisonsMirrorNanoSeconds`.

## Left out

- The `nn::time` namespace (include/nn/time.h:179-231): `Initialize`, `IsInitialized`,
  `StandardUserSystemClock::GetCurrentTime`, `ToCalendarTime`, `ToPosixTime`,
  `ToCalendarTimeInUtc` and `ToPosixTimeFromUtc` are declared without bodies, and the
  calendar records are passive layouts; their behaviour lives in the vendor runtime.
- include/nn/hid.h, include/nn/socket.h, include/nn/swkbd/swkbd.h, include/nn/settings.h
  and include/nn/init.h: enumerations, struct layouts and bodiless prototypes
  (input polling, vibration, sockets including the byte-order helpers, the on-screen
  keyboard, settings queries, allocator hooks). None of them is part of this model.
- Overflow is not given a value: where C++ has undefined behaviour the model has a
  precondition, so nothing is said about what an overflowing factory or `+=` produces.
- The implicit copy constructors and copy assignments of both types are modelled only
  where the source uses them (the copies inside `+`, `-` and the wrapper's constructor).
- `constexpr` evaluation at compile time is not modelled; the operations are modelled
  as run-time operations with the same results.
