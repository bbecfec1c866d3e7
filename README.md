# Keypad switcher, indicator, edge flash and hotkeys — a Dafny model

This project models the core of a small Windows utility. It has four parts.

- **Window switcher.** A layered panel of "chips", one per top-level window, shown beside the keypad indicator. The panel has a session state machine (IDLE, INTRO, VISIBLE, FADEOUT), a cursor over the chips, and a staggered fade-in of the chips. The chips' labels are disambiguated and truncated, their layout is computed, and each frame is composited with an integer blend.
- **Keypad indicator.** A 32 × 32 layered window in the bottom-left corner of the work area. It spins when clicked, can be dragged, fades out on hide, and gives its rectangle to the switcher's layout.
- **Edge flash.** A full-screen glow band around the screen edges, shown after a window is focused. It fades out after 500 ms.
- **Hotkey table.** Registering, unregistering and dispatching hotkey bindings.

Code that computes values is modelled as functions over datatypes. This covers labels, layout, easing curves, texel arithmetic and the glow pattern. Code that updates globals step by step is modelled as classes:

- `Switcher.Session`, `Indicator.Indicator` and `EdgeFlash.Flasher` have fields for the source's `g_…` variables and methods for its entry points.
- `modifies` clauses frame each method.
- The in-place pixel loops keep their `array<Texel>` and their loops.

Win32 is not modelled. Every value the source asks the OS for becomes a parameter:

- the enumerated windows and the foreground window;
- `GetTickCount64` readings and text extents;
- the work area and the screen size;
- whether `CreateWindowExW`, `CreateDIBSection` and `RegisterHotKey` succeed;
- `IsWindow`, and what `FillRect` and `DrawTextW` paint.

Every `UpdateLayeredWindow` call is recorded in a log field: `presented`, `frames` or `updates`.

Some behaviour of the code is easy to misread as something else:

- **Truncation order.** One might expect titles to be truncated before they are disambiguated. The code adds the " (k)" suffixes first (src/switcher.cpp:205-215) and truncates afterwards, while measuring (257-259). Two equal titles of 24 or more characters therefore end up with the same label; `Labels.LongDuplicatesCollide` proves this.
- **Intro timing.** Chip i's local time is (g − i·100/total)/(400/total). For three chips at 500 ms this gives 1.0 for chip 0 and 0.75, not 0.5, for chip 2 (src/switcher.cpp:326-328). `Animation.IntroAt500ms` proves both values.
- **Empty window list.** `toggle` with an empty list calls `hide` (src/switcher.cpp:519-521). With no panel window the session stays IDLE. With a window, including one whose fade-out `toggle` has just cancelled, `hide` draws the full frame and starts a FADEOUT.
- **Buffer and state.** An IDLE session never holds a buffer, and `Switcher.Session.Valid` states this. `toggle` breaks it only briefly: cancelling a fade leaves a buffer in IDLE until `hide` resumes the fade or `create_bitmap` frees the buffer (src/switcher.cpp:224-225). The converse does not hold. After a `CreateDIBSection` failure, a session that was in INTRO or VISIBLE stays there without a buffer (src/switcher.cpp:536-537).

## Model

| member | source | states |
|---|---|---|
| Animation.Elapsed | src/switcher.cpp:457-458 | unsigned 64-bit `now - start`: the plain difference when `start <= now`, otherwise wrapped modulo 2^64 |
| Animation.IntroMs | src/switcher.cpp:322 | the intro lasts at least one chip's 400 ms, plus 100 ms for every chip after the first |
| Animation.Clamp01 | src/switcher.cpp:328 | the clamp lies in [0, 1] and is the identity on [0, 1] |
| Animation.EaseOutRange | src/switcher.cpp:330 | ease-out quadratic maps [0, 1] into [0, 1] and never lags behind its input |
| Animation.EaseOutMonotone | src/switcher.cpp:330 | ease-out quadratic is monotone on [0, 1] |
| Animation.ChipTimeClosedForm | src/switcher.cpp:326-328 | a chip's local time is clamp((g·total − i·100)/400), the per-chip delay/duration formula written over a common denominator |
| Animation.RevealOf | src/switcher.cpp:332-362 | progress ≤ 0.001 skips the chip, ≥ 0.999 is fully opaque, otherwise the chip is blended at `p8 = ⌊progress·255⌋`, which is then below 255 |
| Animation.Schedule | src/switcher.cpp:324-332 | one reveal per chip |
| Animation.AllChipsShownAtEnd | src/switcher.cpp:324-356 | at global progress 1.0 every chip is fully shown |
| Animation.NoChipShownAtStart | src/switcher.cpp:324-332 | at global progress ≤ 0 every chip is skipped |
| Animation.LaterChipsLag | src/switcher.cpp:326-328 | a later chip's local time never exceeds an earlier chip's |
| Animation.IntroAt500ms | src/switcher.cpp:322-332 | with three chips the intro is 600 ms; at 500 ms chip 0 is complete and chip 2's local time is 0.75 |
| Animation.SlideOffset | src/switcher.cpp:388-390 | the slide-up offset truncates to an integer between 0 and 8 |
| Animation.SlideEnds | src/switcher.cpp:388-390 | the offset is 8 at the start and 0 from half-way through the intro |
| Animation.IntroProgressDone | src/switcher.cpp:458-465 | `elapsed / totalMs >= 1` holds exactly when `elapsed >= totalMs`; the progress is never negative |
| Animation.FadeAlpha | src/switcher.cpp:473-479 | the fade-out alpha `⌊(1 − t²)·230⌋` never exceeds the panel alpha 230 |
| Animation.FadeAlphaDecreases | src/switcher.cpp:473-479 | the fade-out starts at 230 and never increases |
| Texels.ToWord | src/switcher.cpp:369-378 | a texel's top byte is its alpha |
| Texels.UnpackPacked | src/switcher.cpp:369-378 | unpacking a packed texel gives the texel back |
| Texels.PackUnpacked | src/switcher.cpp:369-378 | packing the unpacked bytes of a word gives the word back |
| Texels.OpaqueSetsTopByte | src/switcher.cpp:313 | OR-ing in 0xFF000000 keeps the low 24 bits and sets the top byte; an already opaque texel is unchanged |
| Texels.OpaqueIdempotent | src/switcher.cpp:356-360 | forcing the alpha twice is the same as once |
| Texels.WeightedClosedForm | src/switcher.cpp:363-377 | the weighted sum is `bg·(255 − p8) + chip·p8` |
| Texels.BlendChannel | src/switcher.cpp:375-377 | the blended channel lies between the background and chip channels; p8 = 0 gives the background and p8 = 255 gives the chip |
| Texels.BlendEndpoints | src/switcher.cpp:375-378 | blending at 0 gives the opaque background texel and at 255 the opaque chip texel |
| Texels.BlendSame | src/switcher.cpp:375-378 | blending a texel with itself only forces its alpha |
| Texels.Min | src/edge_flash.cpp:60-75 | `std::min` returns one of its arguments and is below both |
| Geometry.IdxRowCol | src/switcher.cpp:342-345 | row-major index `y·w + x` with `x < w` gives back row y and column x |
| Geometry.IdxOfRowCol | src/switcher.cpp:312 | every buffer index is the row-major index of its row and column |
| Geometry.IdxBelow | src/edge_flash.cpp:68-77 | a pixel inside a w × h surface has its index below w·h |
| Geometry.RowBelow | src/switcher.cpp:312 | an index below w·h lies in one of the h rows |
| Geometry.SameCoordinates | src/switcher.cpp:342-345 | no two indices share a row and a column |
| Compose.LocalIdx | src/switcher.cpp:342-345 | every panel texel inside a chip has a slot in the chip-sized save buffer |
| Compose.ForceOpaque | src/switcher.cpp:312-313 | every texel of the background gets alpha 0xFF and keeps its colour |
| Compose.SaveArea | src/switcher.cpp:339-345 | the saved buffer has cw·ch entries, each holding the panel texel it was copied from |
| Compose.SaveRow | src/switcher.cpp:343-345 | one more row of the chip is appended to the saved prefix |
| Compose.SavedEntry | src/switcher.cpp:344-368 | the slot a panel texel was saved to maps back to that texel |
| Compose.AreaIdx | src/switcher.cpp:342-345 | every slot of the chip maps to a texel inside the panel |
| Compose.BlendArea | src/switcher.cpp:362-380 | inside the chip each texel becomes the blend of its saved background and the drawn chip at `p8`; outside it nothing changes |
| Compose.OpaqueArea | src/switcher.cpp:356-360 | inside the chip each texel has its alpha forced; outside it nothing changes |
| Compose.PaintArea | src/switcher.cpp:348-353 | inside the chip each texel becomes what the chip fill and text paint there; outside it nothing changes |
| PanelFrame.ChipFits | src/switcher.cpp:335-336 | every chip rectangle lies inside the panel buffer |
| PanelFrame.ComposeFrame | src/switcher.cpp:305-382 | after the background pass and every chip pass, each texel equals the layered reference frame at that panel coordinate |
| PanelFrame.DrawChip | src/switcher.cpp:324-382 | one pass of the chip loop adds chip i to the layered frame; a skipped chip leaves the buffer as it was |
| PanelFrame.DrawShownChip | src/switcher.cpp:334-381 | saving, painting and then blending or forcing the alpha adds chip i's reveal to the layered frame |
| PanelFrame.ChipPassTexel | src/switcher.cpp:356-380 | one texel after the chip pass is the layered frame with chip i included |
| PanelFrame.RevealArea | src/switcher.cpp:339-381 | a shown chip's area holds the treated chip texel over the saved background; elsewhere nothing changes |
| PanelFrame.LayeredOpaque | src/switcher.cpp:313-378 | every texel of a composed frame is opaque |
| PanelFrame.ChipsDisjoint | src/switcher.cpp:281-285 | side-by-side chips never overlap |
| PanelFrame.LayeredOwner | src/switcher.cpp:324-382 | a texel inside chip j shows only chip j's reveal over the background; a texel in no chip shows the opaque background |
| PanelFrame.FrameAtRest | src/switcher.cpp:324-382 | at progress 1 each chip texel is the chip's painted colour made opaque and every other texel is the opaque background |
| PanelFrame.FrameAtStart | src/switcher.cpp:324-332 | at progress 0 every texel of the frame is the opaque background |
| PanelFrame.FirstFrameBlank | src/switcher.cpp:548 | the intro's first frame is the blank panel |
| Labels.DigitChar | src/switcher.cpp:213 | each digit maps to its character |
| Labels.Decimal | src/switcher.cpp:213 | `to_wstring` of a non-negative index is a non-empty string of digits |
| Labels.DecimalRoundTrip | src/switcher.cpp:213 | reading the decimal string back gives the number |
| Labels.DecimalInjective | src/switcher.cpp:213 | different indices give different decimal strings |
| Labels.OccurrencesStep | src/switcher.cpp:207 | counting one more title adds one exactly when it matches |
| Labels.Disambiguated | src/switcher.cpp:205-215 | one label per title, each the title's `Label` |
| Labels.Disambiguate | src/switcher.cpp:205-215 | the two passes keep every window handle and turn the titles into their disambiguated labels |
| Labels.CountTitles | src/switcher.cpp:206-207 | the count map gives each title's number of occurrences, and 0 for every title not present |
| Labels.AppendSuffixes | src/switcher.cpp:209-215 | the suffix pass appends " (k)" to every title that occurs more than once, with k its 1-based rank among equal titles |
| Labels.RelabelledAll | src/switcher.cpp:210-215 | relabelling every position yields exactly the disambiguated titles, handles unchanged |
| Labels.SeenEntry | src/switcher.cpp:211-212 | after position i the `seen` map counts the earlier occurrences of each repeated title |
| Labels.SeenStep | src/switcher.cpp:211-213 | the label assigned at position i is the title plus `seen + 1`, and the `seen` invariant moves on to i + 1 |
| Labels.Titles | src/switcher.cpp:45-48 | the titles of a window list, position by position |
| Labels.DisambiguatedKeepsTitle | src/switcher.cpp:211-213 | a label starts with its title, and a unique title is left unchanged |
| Labels.RepeatedTitlesSeparated | src/switcher.cpp:205-215 | two windows with equal titles get different labels |
| Labels.SuffixInjective | src/switcher.cpp:213 | different indices give different " (k)" suffixes |
| Labels.OccurrencesPrefixGrows | src/switcher.cpp:212 | a later copy of a title has a strictly higher rank than an earlier copy |
| Labels.OccurrencesMonotone | src/switcher.cpp:207-212 | a longer prefix holds at least as many copies of a title |
| Labels.OccurrencesPrefixAtMost | src/switcher.cpp:207-212 | a prefix never holds more copies than the whole list |
| Labels.ChromeExample | src/switcher.cpp:205-215 | "Chrome", "Chrome", "Terminal" become "Chrome (1)", "Chrome (2)", "Terminal" |
| Labels.Truncate | src/switcher.cpp:257-259 | a label is at most 24 characters long; a short one is unchanged |
| Labels.TruncateShape | src/switcher.cpp:257-259 | a long title keeps its first 21 characters, followed by "..." |
| Labels.TruncateIdempotent | src/switcher.cpp:257-259 | truncating twice is the same as once |
| Labels.LongDuplicatesCollide | src/switcher.cpp:205-259 | two equal titles of 24 or more characters end up with the same displayed text |
| Labels.LastIndexOf | src/switcher.cpp:131-135 | `find_last_of` finds the last occurrence, or reports that there is none |
| Labels.BaseName | src/switcher.cpp:130-133 | the file name is the suffix of the path after its last backslash, or the whole path when it has none |
| Labels.Stem | src/switcher.cpp:135-138 | the stem is a prefix of the name; anything removed starts at its last dot |
| Labels.LowerChar | src/switcher.cpp:141 | ASCII upper case maps to the lower-case letter 32 code points up; every other character is unchanged |
| Labels.LookupName | src/switcher.cpp:98-147 | a friendly name is found exactly when the key is in the table, and it is the first such entry's display name |
| Labels.StemHasNoDirectory | src/switcher.cpp:130-138 | the stem carries no directory part |
| Labels.LookupSkip | src/switcher.cpp:143-147 | an entry with another key does not affect the lookup |
| Labels.DisplayName | src/switcher.cpp:115-150 | "" without an image path; otherwise the file name without directory and extension, replaced by its friendly name when its lower-cased form is in the table |
| Labels.LowerAll | src/switcher.cpp:140-141 | the lowered name, character by character |
| Labels.Lookup | src/switcher.cpp:143-147 | the table scan returns the lookup's answer |
| ChipLayout.MaxTextHeightIsMax | src/switcher.cpp:253-263 | the text height is at least every measured height and equal to one of them |
| ChipLayout.HalfTowardZero | src/switcher.cpp:289-290 | C's `/ 2` truncates toward zero, also for negative sums |
| ChipLayout.PositionWithoutIndicator | src/switcher.cpp:292-296 | with the all-zero indicator rectangle the panel is placed at (left + 40, bottom − panelH − 8) |
| ChipLayout.PositionBesideIndicator | src/switcher.cpp:288-291 | otherwise the panel sits 6 px right of the indicator, vertically centred on it |
| ChipLayout.ComputeLayout | src/switcher.cpp:246-297 | the layout of the given titles: measured chips side by side, item and panel sizes, panel position |
| ChipLayout.MeasureChips | src/switcher.cpp:252-267 | one measured chip per title; total width 8 plus the chip widths; height the tallest text |
| ChipLayout.PlaceChips | src/switcher.cpp:280-285 | the chips keep their texts and widths and are placed side by side from x = 4 with 2 px gaps |
| ChipLayout.ItemHeightCoversTexts | src/switcher.cpp:263-276 | every chip's text fits its item height with the vertical padding |
| ChipLayout.OffsetClosedForm | src/switcher.cpp:281-285 | chip i starts at 4 + (widths of the chips before it) + 2·i |
| ChipLayout.OffsetsIncrease | src/switcher.cpp:281-285 | each chip ends at least 2 px before any later chip starts |
| ChipLayout.LastChipEnds | src/switcher.cpp:268-278 | the last chip ends exactly 4 px before the panel's right edge |
| ChipLayout.ChipsInsidePanel | src/switcher.cpp:252-285 | every chip lies within the panel's horizontal padding |
| Switcher.PresentationPlacement | src/switcher.cpp:387-400 | a drawn frame is placed 8 px low at progress 0 and at the panel position from progress 0.5 on, with alpha 230; a fade step leaves the position alone |
| Switcher.NextCursor | src/switcher.cpp:586-587 | moving right from the last chip wraps to 0, otherwise goes up by one; from no selection it selects chip 0 |
| Switcher.PrevCursor | src/switcher.cpp:568-570 | moving left from chip 0 or from no selection wraps to the last chip, otherwise goes down by one |
| Switcher.CursorMovesInverse | src/switcher.cpp:556-592 | a move right followed by a move left (or the reverse) returns to the same chip |
| Switcher.RightCycles | src/switcher.cpp:577-592 | n moves right return to the starting chip; fewer move forward modulo n |
| Switcher.IndexOfHandle | src/switcher.cpp:537-540 | the index of the first window with the handle, or −1 when none has it |
| Switcher.FindForeground | src/switcher.cpp:537-540 | the search loop returns the first matching index, or −1 |
| Switcher.Session.constructor | src/switcher.cpp:56-74 | a new session is IDLE with no window, buffer, windows, chips, timers or selection |
| Switcher.Session.RenderFrame | src/switcher.cpp:300-401 | with window, buffer and chips the buffer becomes the reference frame for the progress and a frame is presented at the panel position; otherwise nothing happens |
| Switcher.Session.DoHide | src/switcher.cpp:403-415 | timers stopped, window and buffer released, list, chips and cursor cleared, state IDLE |
| Switcher.Session.Hide | src/switcher.cpp:594-607 | without a window or while fading, nothing changes; otherwise the focus timer stops, the full frame is drawn and the fade-out starts at `now`; a path that presents nothing leaves the buffer's texels untouched |
| Switcher.Session.Shutdown | src/switcher.cpp:609-613 | straight to IDLE with everything released, the chips cleared and the cursor at −1; nothing is presented |
| Switcher.Session.FocusCurrent | src/switcher.cpp:417-425 | a window to bring forward exactly when the cursor is on a chip whose window still exists |
| Switcher.Session.CancelFade | src/switcher.cpp:560-564 | a fade-out goes back to VISIBLE with the animation timer stopped and the focus timer running; any other state is kept |
| Switcher.Session.MoveTo | src/switcher.cpp:560-575 | cancel a fade back to VISIBLE, set the cursor, draw and present the full frame when VISIBLE and there is a buffer, and focus the chip's window if it still exists; window, buffer and animation start unchanged, and the buffer's texels untouched when nothing is drawn |
| Switcher.Session.MoveLeft | src/switcher.cpp:556-575 | with a window and windows, the cursor moves to `PrevCursor` as in MoveTo; otherwise cursor, state and presentations are unchanged; window, buffer reference and animation start are always kept, and the texels too when nothing is drawn |
| Switcher.Session.MoveRight | src/switcher.cpp:577-592 | with a window and windows, the cursor moves to `NextCursor` as in MoveTo; otherwise cursor, state and presentations are unchanged; window, buffer reference and animation start are always kept, and the texels too when nothing is drawn |
| Switcher.Session.SyncCursor | src/switcher.cpp:427-448 | outside FADEOUT the cursor follows the foreground window if it is listed, and −1 otherwise; a change redraws and presents the full frame while VISIBLE; list, layout, state, window, buffer and animation start are kept, and the texels too when nothing is drawn |
| Switcher.Session.AnimTick | src/switcher.cpp:456-489 | INTRO past its time: VISIBLE and the full frame drawn and presented; INTRO before that: the frame for `elapsed / totalMs` drawn and presented; FADEOUT past 300 ms: everything released; FADEOUT before that: one faded-alpha step with everything else kept; IDLE and VISIBLE: nothing |
| Switcher.Session.EnumerateWindows | src/switcher.cpp:199-216 | the list becomes the listed windows with disambiguated titles, and the cursor is cleared |
| Switcher.Session.Toggle | src/switcher.cpp:511-554 | cancel a fade, re-list; an empty list with a window draws the full frame and starts the fade-out at `now`, and without one leaves the session idle; otherwise the window, layout, buffer and intro as `Opened` describes |
| Switcher.Session.Open | src/switcher.cpp:523-553 | a failed window creation leaves the session idle; a failed allocation leaves no buffer; otherwise the intro starts at `now` on a fresh blank frame, with the foreground window selected |
| Switcher.Session.Relayout | src/switcher.cpp:535-536 | the layout becomes that of the current titles and the old buffer is released |
| Switcher.Session.StartIntro | src/switcher.cpp:538-553 | cursor on the foreground window, state INTRO from `now`, both timers on, and the blank first frame presented |
| Indicator.DraggedSnoc | src/indicator.cpp:217-220 | a press became a drag exactly when some move went more than 5 px from the press on either axis |
| Indicator.SpinEaseRange | src/indicator.cpp:105 | ease-out cubic maps [0, 1] into [0, 1], from 0 to 1 |
| Indicator.PowerUnitBounds | src/indicator.cpp:105 | powers of a value in [0, 1] stay in [0, 1] |
| Indicator.SpinTurn | src/indicator.cpp:99-108 | no spin, or a spin whose 1200 ms are up, gives angle 0; a running spin gives its eased fraction, in [0, 1) |
| Indicator.SpinEaseBelowOne | src/indicator.cpp:102-105 | before the spin ends its eased fraction stays below a full half turn |
| Indicator.FadeOpacity | src/indicator.cpp:110-119 | the fading constant alpha `⌊(1 − t²)·255⌋` is at most 255 |
| Indicator.FadeOpacityDecreases | src/indicator.cpp:110-119 | the fade starts at 255 and never increases |
| Indicator.HomePosition | src/indicator.cpp:264-268 | the indicator's corner is 8 px from the work area's left and bottom edges |
| Indicator.Indicator.constructor | src/indicator.cpp:28-50 | a new indicator has no window, no fade, no press and no spin |
| Indicator.Indicator.Bounds | src/indicator.cpp:321-325 | the all-zero rectangle without a window, otherwise the 32 × 32 rectangle at the window's position |
| Indicator.Indicator.DoHide | src/indicator.cpp:76-85 | with a window: fade cleared, timer, window and pixels released; without one nothing changes |
| Indicator.Indicator.StartSpin | src/indicator.cpp:87-89 | the spin restarts at `now` |
| Indicator.Indicator.RenderFrame | src/indicator.cpp:91-195 | a finished spin is reset; a finished fade hides the window; otherwise one frame is presented with the spin angle and the fade or full opacity |
| Indicator.Indicator.Show | src/indicator.cpp:255-306 | a fade in progress is cancelled and the spin restarts; an existing window is kept; otherwise a window at the corner, a spin from `now`, the timer and (with pixels) one opaque frame |
| Indicator.Indicator.Hide | src/indicator.cpp:308-313 | with a window and no fade, the fade starts at `now`; otherwise nothing changes |
| Indicator.Indicator.Shutdown | src/indicator.cpp:315-319 | no fade, no window, no timer, no pixels; the spin, the press and drag state, the window position, the moves and the fade start are untouched |
| Indicator.Indicator.MouseDown | src/indicator.cpp:202-211 | a press starts at the cursor, not yet a drag, remembering the window position; the fade and the spin are untouched |
| Indicator.Indicator.MouseMove | src/indicator.cpp:212-227 | while pressed, the press becomes a drag once beyond 5 px, and a drag moves the window by the cursor's offset; the press point and the fade are untouched |
| Indicator.Indicator.MouseUp | src/indicator.cpp:228-236 | releasing a press that never became a drag restarts the spin; a drag does not; the press state is cleared, and the press point, the moves and the fade are untouched |
| Indicator.HiddenIndicatorPlacesPanelInCorner | src/indicator.cpp:321-325 | with no indicator window the switcher panel takes its fallback corner position |
| EdgeFlash.GlowBand | src/edge_flash.cpp:60 | the band width is the least of 40, half the width and half the height |
| EdgeFlash.GlowMirrored | src/edge_flash.cpp:62-79 | the glow pattern is symmetric left to right and top to bottom |
| EdgeFlash.GlowCentreClear | src/edge_flash.cpp:58-79 | pixels beyond the band on all four sides stay zero |
| EdgeFlash.GlowOnEdge | src/edge_flash.cpp:62-79 | every pixel on the screen border gets the full-strength glow |
| EdgeFlash.RenderGlow | src/edge_flash.cpp:57-81 | after zeroing and the row loop, every pixel holds the glow for its distance to the nearest edge inside the band, and zero elsewhere |
| EdgeFlash.GlowCentreRow | src/edge_flash.cpp:63-70 | a centre row gets the band on its left and right ends only |
| EdgeFlash.GlowEdgeRow | src/edge_flash.cpp:71-78 | an edge row gets the glow at every pixel within the band |
| EdgeFlash.Flasher.constructor | src/edge_flash.cpp:20-27 | a new flasher holds no window, buffer or timer, with size 0 × 0 |
| EdgeFlash.Flasher.Cleanup | src/edge_flash.cpp:29-40 | timer, window and buffer released; size reset to 0 × 0 |
| EdgeFlash.Flasher.Flash | src/edge_flash.cpp:129-184 | any earlier flash is cleaned up; a failed window or bitmap leaves nothing; otherwise a screen-sized glow buffer, a start at `now` and one zero-alpha update |
| EdgeFlash.Flasher.TimerTick | src/edge_flash.cpp:84-110 | after 500 ms everything is cleaned up; before that one update at the elapsed time |
| EdgeFlash.Flasher.Shutdown | src/edge_flash.cpp:186-189 | everything is cleaned up |
| Hotkey.ToInt32 | src/hotkey.cpp:22 | `static_cast<int>` of a WPARAM is the 32-bit two's-complement value congruent to it |
| Hotkey.FirstMatch | src/hotkey.cpp:21-22 | the first binding with the id, or none exactly when no binding has it |
| Hotkey.Dispatch | src/hotkey.cpp:20-27 | exactly the first matching binding's action is invoked, and nothing when no binding matches |
| Hotkey.FirstRefusal | src/hotkey.cpp:6-9 | the first binding the OS refuses, or none exactly when it accepts them all |
| Hotkey.RegisterAll | src/hotkey.cpp:5-12 | registration succeeds exactly when every binding is accepted; the calls are made in order and stop at the first refusal |
| Hotkey.UnregisterAll | src/hotkey.cpp:14-18 | one unregistration per binding, in order |

## Left out

- Win32 effects are not modelled. Windows, DCs, brushes, fonts, capture, `ShowWindow` and `UnregisterClassW` exist only as booleans and log entries, or not at all.
- `enum_callback` and its filters (src/switcher.cpp:163-198) are left out. They depend on `IsWindowVisible`, `IsIconic`, window styles, class names and process queries. The model takes the already filtered list as a parameter.
- `get_display_name`'s process queries (src/switcher.cpp:115-128) are left out. The model starts from the image path, or its absence.
- Labels.Truncate: counts Unicode scalar values, where `std::wstring::size` and `substr` count UTF-16 code units. A title with characters outside the Basic Multilingual Plane is cut at a different place than the source's 24 units, and the source may split a surrogate pair.
- Labels.LowerChar: folds ASCII only. `towlower` also folds other letters of the locale.
- Floating point is modelled as exact reals. Conversions to bytes are modelled as floors. Float rounding of the easing curves is not modelled.
- The indicator's SDF shading, breathing glow and per-pixel compositing (src/indicator.cpp:121-184) are left out. Indicator.Indicator.RenderFrame records the spin fraction and constant alpha of each frame, not its texels. The angle is that fraction times π.
- `glow_pixel` (src/edge_flash.cpp:43-55) is the `glow` parameter. Its cubic falloff is floating point.
- EdgeFlash.Flasher.TimerTick: records the elapsed time of each update, not the rise-and-fall alpha envelope (src/edge_flash.cpp:91-101), which is floating point.
- Text measurement and drawing are parameters: `measure` stands for `GetTextExtentPoint32W`. `ink` stands for `FillRect` and `DrawTextW`.
- Fonts are left out.
- The indicator's window position stands for `GetWindowRect`. The cursor position is passed to the mouse handlers.
- Each entry point reads `GetTickCount64` once. Where the source reads it twice in one call (`show` then `render_frame`), both readings are collapsed into one `now`.
- 32-bit overflow of screen coordinates and of `sw * sh` is not modelled. Integers are unbounded there.
- The 64-bit tick, by contrast, wraps as the source's does.
- Timers fire only when a method is called. Message ordering and reentrancy are not modelled.
- `overlay.cpp`, `main.cpp` and the other hosts of these modules are not part of this model.
