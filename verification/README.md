# Racmacs titer core in Dafny

This project models the titer handling of Racmacs, an antigenic-cartography
toolkit. A titer is one reactivity measurement between an antigen and a
serum. It is written as text: `*` for a missing value, or an optional
censoring mark (`<` for "below", `>` for "above") followed by a positive
decimal magnitude.

The model has four modules:

- `Wrappers` (`wrappers.dfy`): `Option` and `Outcome`. `None` stands for the NaN the source stores for a missing titer.
- `Decimal` (`decimal.dfy`): digit strings, their value, and the canonical decimal rendering of a natural number. It proves that numerals and positive numbers correspond one to one.
- `TiterCheck` (`titer_check.dfy`): the titer-string validator `CheckValidTiter`, written the way the source does it. It strips at most one censoring mark, tests for a leading zero, and searches for the first non-digit (`FindFirstNotOf`). A separately stated grammar `WellFormed` sits beside it: `*`, or a censoring mark (possibly empty) followed by the rendering of some `n >= 1`. A lemma proves that the validator accepts exactly the grammar.
- `TiterVectors` (`titer_vectors.dfy`): the three element-wise projections over a vector of parsed titers. Each builds its output in a loop, as the source does.

Errors are values. The validator returns `Fail(InvalidTiter(message))` where the
source raises its "Invalid titer" error. It returns `Fail(OutOfRange)` where the
source reads the first character of an empty string and the C++ library throws
an out-of-range exception. That happens for the empty input and for a bare `<`
or `>`, and the model keeps this case apart from the validator's own error.
The empty string is therefore reported as the out-of-range exception, not with
the invalid-titer message. The message the model carries is the string the
validator builds before raising its error, not the text the R runtime
finally reports.

## Model

| member | source | states |
|---|---|---|
| TiterCheck.CheckValidTiter | src/ac_titers.cpp:6-31 | The empty string and a bare `<` or `>` are refused with the out-of-range error, and these are the only inputs refused that way. Every invalid-titer error carries the message string built at line 24, which quotes the input after its censoring mark has been stripped. Any string longer than one character that starts with `*` is refused, because the `*` exemption applies only to `*` alone. |
| TiterCheck.FindFirstNotOf | src/ac_titers.cpp:21 | The search returns no position exactly when every character is in the given set. A returned position holds a character outside the set, and every earlier character is in the set. |
| TiterCheck.AcceptedIsWellFormed | src/ac_titers.cpp:11-27 | Every accepted string is `*`, or an optional `<`/`>` followed by the canonical decimal rendering of some magnitude `n >= 1`. |
| TiterCheck.WellFormedIsAccepted | src/ac_titers.cpp:11-27 | Every string of that grammar is accepted. |
| TiterCheck.CheckAcceptsExactlyWellFormed | src/ac_titers.cpp:6-31 | The validator accepts a string if and only if it belongs to the titer grammar. |
| TiterCheck.RenderUnique | src/ac_titers.cpp:14-21 | A string of the titer grammar fixes its censoring mark and its magnitude: two renderings of positive magnitudes are equal only when both the mark and the magnitude are equal. |
| TiterCheck.CensorMarkTransparent | src/ac_titers.cpp:14-21 | Exactly one censoring mark is stripped. After one mark, a string gets the verdict it would get on its own, unless it is `*` or starts with a second mark. `<*` is refused with message `'*'`. A doubled mark such as `<<10` is refused with a message that quotes the remainder `<10`. |
| TiterCheck.AcceptedExamples | src/ac_titers.cpp:11-21 | `*`, `40`, `<10` and `>80` are accepted. |
| TiterCheck.RefusedExamples | src/ac_titers.cpp:11-25 | `""` and `<` are refused with the out-of-range error. `0` and `<0` are both refused with the message `Invalid titer '0'`. `abc` is refused with a message that quotes it. |
| TiterCheck.MisplacedMarkExamples | src/ac_titers.cpp:11-25 | `<<10`, `<>10`, `<*`, `**` and `*1` are refused, each with a message that quotes the stripped remainder. |
| TiterVectors.NumericTiters | src/ac_titers.cpp:35-49 | The output has the input's length. Element `i` is absent (NaN) exactly when titer `i` has type code 0. Otherwise element `i` is that titer's magnitude. |
| TiterVectors.LogTiters | src/ac_titers.cpp:53-63 | The output has the input's length. Element `i` is the log conversion applied to titer `i`, and nothing else affects it. The element type is generic, so the conversion may return NaN for a missing titer. |
| TiterVectors.TiterTypesInt | src/ac_titers.cpp:67-77 | The output has the input's length. Element `i` is the type code of titer `i`. |

## Left out

- The titer class (`acmap_titers.h`) is not part of this model. It holds the string-to-titer constructor, `toString`, the log conversion and the meaning of type codes other than 0. A titer is therefore modelled as a type code plus a magnitude. The log conversion is a function parameter of `LogTiters`, and no round trip through the titer class's own parse and print is stated.
- TiterVectors.NumericTiters: the source stores magnitudes as floating-point numbers and NaN as a floating-point value. The model uses natural numbers and `None`.
- TiterCheck.CheckValidTiter: the modelled message is the string built at src/ac_titers.cpp:24, not the text `Rf_error` reports. `Rf_error` treats that string as a printf format, so a `%` in the titer changes the reported text (`%%` is reported as `%`), and `%d` or `%s` read arguments that were never passed. R also truncates long error messages. None of this is modelled.
- Raising the error aborts the host call by a non-local exit. The model returns the error as a value instead.
- The conversion between host-language values and titers (`src/Racmacs_types.h`) is left out. It is glue over the R runtime and only copies values in and out.
- The browser viewer scripts (bootstrap display, diagnostics panels, plotting) are left out. They are rendering and user interface.
- Titer tables and layer merging, the stress engine, the optimizer, Procrustes alignment, dimension testing, the noisy bootstrap and stress blobs are left out. Their implementations are not among the modelled source files, and the optimizer is a floating-point numerical search.
