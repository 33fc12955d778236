# GPU Game of Life: shader placeholder substitution and the tick/draw scheduler

This project models the two sequential parts of `src/main.cpp`:

- **Placeholder substitution in shader sources.** Before the programs are compiled, `replace_buffer_size` rewrites `BUFFER_WIDTH` and `BUFFER_HEIGHT` in each shader source into the grid dimensions `1504` and `1024`. It calls `replace_substring` once per placeholder. That function repeatedly finds the pattern from a moving `index`, splices in the replacement, and resumes the search at `index + substring_length` in the modified string. Module `ShaderSource` models `std::string::find` as `Find` (`None` plays `npos`) and `std::string::replace` as `Splice`. The loop as written is the function `ReplaceFrom` and the method `ReplaceSubstring` (a `while true` loop with the same early return). `ReplaceBufferSize` runs the two passes in the source's order. `std::to_string` is `Decimal`.
- **The loop-carried state of the main loop.** Module `Scheduler` has a class `MainLoop` whose fields are `input_world_unit`, `output_world_unit`, `ticks_in_current_frame`, `draw_count` and `tick_count`. `Iterate` is one pass of the `do … while` body. It binds the two units for the compute dispatch, pre-increments the counter and draws (sampling the output unit) when the counter exceeds `TICKS_PER_FRAME`. It then swaps the units, counts the tick, and prints and zeroes both counters when the one-second window has elapsed. Two ghost fields make the invariant exact: `iterations`, the number of passes so far, and `windowStart`, the pass at which the report window began. The invariant says that the input unit is `iterations % 2`, the counter is `iterations % 31`, and the two per-second counters equal the ticks and draws since `windowStart`. `Run` is the whole loop for a given number of passes. It returns the units the draws sampled and the lines printed at each elapsed window, and is specified by the functions `DrawnUnits`, `Reports` and `WindowStartAfter`.

A frame is drawn once every `TICKS_PER_FRAME + 1` = 31 passes, not every 30: the counter is pre-incremented and compared with `>`, so it takes the values 1 … 31 before the reset. The draw samples `output_world_unit` before the swap, which is the unit the compute pass of the same pass wrote (and the input unit after the swap).

The GPU work is opaque: the compute dispatch, the barrier, the draw calls and the buffer swap to the screen. The one-second clock test is a boolean input to `Iterate`. The escape/close test is modelled by the length of the input to `Run`.

## Model

| member | source | states |
|---|---|---|
| `ShaderSource.Find` | src/main.cpp:68-70 | `std::string::find`: a found position is at or after `from` and the pattern occurs there |
| `ShaderSource.FindIsLeast` | src/main.cpp:68-70 | the position `find` returns is the least occurrence at or after `from`, and it returns npos (`None`) only when there is no occurrence at or after `from`, including when `from` is past the end |
| `ShaderSource.Splice` | src/main.cpp:72 | `std::string::replace(index, substring_length, replacement)`: the length changes by the replacement's length minus the replaced length |
| `ShaderSource.SpliceParts` | src/main.cpp:72 | after the replace, the text before `index` is unchanged, the replacement follows it, and the text after the replaced range follows that |
| `ShaderSource.ReplaceSubstring` | src/main.cpp:63-76 | the `while(true)` loop computes `ReplaceFrom(input, substring, replacement, 0)`: find from `index`, return when npos, splice, resume at the found index plus the pattern length; it terminates when the pattern is non-empty and the replacement is shorter than twice the pattern |
| `ShaderSource.ReplaceKeepsPrefix` | src/main.cpp:67-75 | the text before the current search position is never modified by the rest of the loop |
| `ShaderSource.ReplaceLength` | src/main.cpp:72-74 | a replacement no longer (no shorter) than the pattern never lengthens (never shortens) the string, and once an occurrence is found it strictly shortens (lengthens) it |
| `ShaderSource.FirstReplacementKept` | src/main.cpp:72-74 | when the replacement is not longer than the pattern, the result starts with the text before the first occurrence followed by the replacement |
| `ShaderSource.UnchangedIffNoOccurrence` | src/main.cpp:67-70 | for a replacement different from the pattern, the string is left unchanged if and only if the pattern does not occur in it |
| `ShaderSource.SpliceKeepsClean` | src/main.cpp:68-74 | when the replacement shares no character with the pattern, a splice at the first occurrence leaves no occurrence starting before any position up to the end of the inserted text |
| `ShaderSource.SpliceIntroducesNoOccurrence` | src/main.cpp:72 | a splice of non-empty text sharing no character with a pattern `q` creates no occurrence of `q`: each occurrence afterwards lies wholly before or wholly after the inserted text and was already in the string |
| `ShaderSource.CountPositiveIff` | src/main.cpp:68-70 | the number of occurrences of a pattern (overlapping ones included) is positive exactly when `find` from 0 can succeed, that is when the pattern occurs |
| `ShaderSource.SpliceCount` | src/main.cpp:72 | a splice of non-empty text sharing no character with a pattern `q` never increases the number of occurrences of `q` |
| `ShaderSource.ReplaceFromIntroducesNoOccurrence` | src/main.cpp:67-75 | `replace_substring` as written never increases the number of occurrences of any pattern that shares no character with the (non-empty) replacement, so a pattern that occurs afterwards occurred before |
| `ShaderSource.ReplaceFromLeavesNoOccurrence` | src/main.cpp:67-75 | the loop as written leaves no occurrence when the replacement is at least as long as the pattern and shares no character with it (the search then resumes inside the inserted text) |
| `ShaderSource.LongReplacementIsComplete` | src/main.cpp:63-76 | a full `replace_substring` call with such a replacement removes every occurrence of the pattern |
| `ShaderSource.AdjacentPlaceholderSurvives` | src/main.cpp:74 | with the real width pass, `BUFFER_WIDTHBUFFER_WIDTH` becomes `1504BUFFER_WIDTH`: a placeholder that starts less than 8 characters after an inserted `1504` is never searched |
| `ShaderSource.ReplaceAllFromLeavesNoOccurrence` | src/main.cpp:67-75 | the loop with the search resumed after the replacement leaves no occurrence, for any non-empty replacement that shares no character with the pattern |
| `ShaderSource.ReplaceAllFromIntroducesNoOccurrence` | src/main.cpp:67-75 | the corrected loop never increases the number of occurrences of any pattern that shares no character with the (non-empty) replacement, so a pattern that occurs afterwards occurred before |
| `ShaderSource.ReplaceAllIsComplete` | src/main.cpp:63-76 | the corrected `replace_substring` removes every occurrence of the pattern, whatever the replacement's length |
| `ShaderSource.AdjacentPlaceholdersReplacedWhenCorrected` | src/main.cpp:74 | the corrected loop turns `BUFFER_WIDTHBUFFER_WIDTH` into `15041504` |
| `ShaderSource.Decimal` | src/main.cpp:79-80 | `std::to_string` of a non-negative number is non-empty and made of decimal digits only |
| `ShaderSource.DecimalDenotes` | src/main.cpp:79-80 | the digits `std::to_string(n)` produces denote `n`, with no leading zero except for `n = 0`, which gives `0` |
| `ShaderSource.ReplacementTexts` | src/main.cpp:79-80 | `std::to_string(BUFFER_WIDTH)` is `1504` and `std::to_string(BUFFER_HEIGHT)` is `1024` |
| `ShaderSource.DecimalDisjointFromPlaceholders` | src/main.cpp:79-80 | no digit of an inserted number occurs in either placeholder, so inserted text can never form or complete a placeholder |
| `ShaderSource.ReplaceBufferSize` | src/main.cpp:78-81 | the width pass runs first and the height pass runs on its output; the source is returned unchanged if and only if it contains neither placeholder |
| `ShaderSource.BufferSizeUnchangedIff` | src/main.cpp:78-81 | the two passes are the identity exactly on sources that contain neither `BUFFER_WIDTH` nor `BUFFER_HEIGHT` |
| `ShaderSource.PassesDoNotInteract` | src/main.cpp:78-81 | the width pass never increases the number of `BUFFER_HEIGHT` placeholders, so the height pass sees at most as many as the original source holds, and the height pass never increases the number of `BUFFER_WIDTH` placeholders the width pass left: neither `1504` nor `1024` can form or complete a placeholder |
| `ShaderSource.IntendedBufferSizeIsComplete` | src/main.cpp:78-81 | with the corrected loop, the two passes leave neither `BUFFER_WIDTH` nor `BUFFER_HEIGHT` in any source |
| `Scheduler.DrawsBetween` | src/main.cpp:342-349 | the number of drawing passes among passes `lo+1 … hi` is at most `hi - lo` |
| `Scheduler.DrawsBetweenClosedForm` | src/main.cpp:342-349 | passes `lo+1 … hi` draw exactly `hi / 31 - lo / 31` times, so `n` passes from the start draw `n / (TICKS_PER_FRAME + 1)` frames |
| `Scheduler.OneDrawPerPeriod` | src/main.cpp:342-343 | exactly one draw happens in every `TICKS_PER_FRAME + 1` = 31 consecutive passes (the period is 31, not 30) |
| `Scheduler.PeriodMultipleParity` | src/main.cpp:381-383 | because the period 31 is odd, the pass that draws the q-th frame has the parity of q, which decides the sampled unit |
| `Scheduler.FrameParity` | src/main.cpp:364 | the pass that draws the next frame samples the unit whose parity is the number of frames drawn so far plus one, counted from the start of the loop |
| `Scheduler.DrawsBetweenAdd` | src/main.cpp:342-349 | draw counts over consecutive ranges of passes add up |
| `Scheduler.DrawnUnits` | src/main.cpp:342-364 | the list of units sampled by the draws among passes `lo+1 … hi` has one entry per drawing pass |
| `Scheduler.DrawnUnitsAlternate` | src/main.cpp:364-383 | the j-th frame drawn after pass `lo` samples the unit of parity `lo / 31 + j + 1`, so the drawn units alternate between the two world buffers |
| `Scheduler.WindowStartAfter` | src/main.cpp:385-391 | the pass that began the report window in force after a run lies between the window in force before it and the last pass of the run |
| `Scheduler.LastElapsed` | src/main.cpp:385 | the index found is an elapsed entry with no elapsed entry after it, and none is found exactly when no entry elapsed |
| `Scheduler.WindowStartIsLastElapsed` | src/main.cpp:385-391 | after a run, the report window began right after the pass at which the window last elapsed, or is the window in force before the run when none elapsed |
| `Scheduler.ReportsAccountForEveryPass` | src/main.cpp:344-391 | the tick counts printed on the report lines plus the current `tick_count` add up to every pass since the window in force before the run began, and the printed frame counts plus the current `draw_count` add up to every draw in that span |
| `Scheduler.CounterStep` | src/main.cpp:342-343 | pre-incrementing the counter and resetting it when it exceeds 30 is counting passes modulo 31; a draw happens exactly on a pass whose number is a multiple of 31 |
| `Scheduler.MainLoop.constructor` | src/main.cpp:300-324 | the units start as 0 (input) and 1 (output), and `ticks_in_current_frame`, `draw_count` and `tick_count` start at 0 |
| `Scheduler.MainLoop.Iterate` | src/main.cpp:326-392 | the dispatch uses the current (input, output) units; a draw happens if and only if the pre-incremented counter exceeds 30, and then it samples the old output unit and resets the counter to 0; afterwards `0 <= ticks_in_current_frame <= 30`, the units are exchanged, distinct and in {0,1}; when the window elapses the report holds the window's draws and ticks and both counters become 0, otherwise `tick_count` grows by 1 and `draw_count` by 1 exactly on a draw |
| `Scheduler.MainLoop.Run` | src/main.cpp:326-394 | running the loop for n passes returns the sampled units `DrawnUnits(before, before + n)`, so it draws exactly `DrawsBetween(before, before + n)` frames, and the sampled units alternate 1, 0, 1, … counted from the start of the loop; it returns the printed lines `Reports(…)`, each holding the draws and passes of its window; afterwards the window began at `WindowStartAfter(…)` (the pass after the last elapsed entry), `tick_count` is the number of passes since then and `draw_count` the number of draws since then; with no elapsed window, `tick_count` grows by n and `draw_count` by the number of frames |
| `Scheduler.RunFromStart` | src/main.cpp:321-394 | from the start of the loop, with no report window elapsing, n passes give `tick_count = n`, `draw_count = n / 31`, and the k-th frame (from 0) samples unit `(k + 1) % 2` |

## Left out

- ShaderSource.ReplaceSubstring: the model requires a replacement shorter than twice the pattern, which also makes the pattern non-empty. With an empty pattern the source never stops: `find` keeps returning `index`. With a longer replacement it may never stop either. Both calls in `replace_buffer_size` meet the requirement (12 → 4 and 13 → 4 characters).
- ShaderSource.ReplaceSubstring: `index` is a C++ `int` that receives a `size_t` from `find`. Overflow for strings longer than 2^31 characters is not modelled. The source's pointer mutation is modelled as a returned string.
- ShaderSource.PassesDoNotInteract: states that the width pass does not increase the number of `BUFFER_HEIGHT` placeholders, not that it keeps every one of them. The two placeholders cannot overlap, so none is lost, but that direction is not proved.
- Scheduler.MainLoop.Iterate: `draw_count` and `tick_count` are unbounded integers. The source's 32-bit `int` could wrap only if no report window elapsed for 2^31 passes.
- The report window test (`elapsed_microseconds` against the steady clock) is the boolean input of `Iterate`. Wall-clock time is not modelled.
- The escape key and window-close test is modelled by the number of passes given to `Run`. The event polling is not modelled.
- Everything that calls OpenGL, GLFW or GLEW is left out as foreign calls: shader compilation and linking (`compile_shader`, `CreateProgram`, `create_compute_program` and its `exit(41)`), texture creation (`gen_empty_texture`), `CheckGLError` and `GetGLErrorStr`, window and context set-up, vertex buffers, the compute dispatches, the barriers and the draw calls.
- The Game of Life transition rule and the random fill live in shader files that are not part of this model.
- `on_resize` and `aspect_ratio` are float arithmetic that only feeds rendering.
- Reading the shader source files is I/O and is not modelled.

## Findings

| source | as written | input that shows it | evidently intended | confidence | as-written member | corrected member |
|---|---|---|---|---|---|---|
| src/main.cpp:74 | after a splice the search resumes at `index + substring_length`, so when the replacement is shorter than the pattern, the first `substring_length - replacement.length()` characters after the inserted text are never searched | `BUFFER_WIDTHBUFFER_WIDTH` → `1504BUFFER_WIDTH` (any second width placeholder starting less than 8 characters after the first one's replacement survives) | resume at `index + replacement.length()`, which removes every placeholder | medium, not executed | `ShaderSource.AdjacentPlaceholderSurvives` | `ShaderSource.ReplaceAllIsComplete` |

`ReplaceSubstring` and `ReplaceBufferSize` keep the code as written, because they model what the program does to its shader sources. The corrected loop is `ReplaceAllFrom`, and `ReplaceBufferSizeIntended` composes it the way `replace_buffer_size` does. `IntendedBufferSizeIsComplete` proves that this composition leaves no placeholder. The as-written loop is already complete when the replacement is at least as long as the pattern and shares no character with it (`LongReplacementIsComplete`). So the defect only shows with shorter replacements, and both real passes use shorter ones.
