# Click ripple, timers and section stepping of the single-page site

The site has one React component, `App` (`src/App.jsx`). It draws an animated
grid of cells behind a stack of page sections. A click on the grid sends a
ripple of flashes outward from the clicked cell. Every cell belongs to the
"ring" given by the floor of its Euclidean distance to the clicked cell.
Ring 0 flashes at once, ring 1 after `BASE_DELAY` (50 ms), and each further
ring `RING_BEAT` (70 ms) later. Each flash lasts `FLASH_DURATION` (200 ms).
Under a reduced-motion preference only the clicked cell flashes.

Two buttons step to the previous or next of the five sections. Each button
is disabled at its end of the list. With reduced motion the active section
follows the scroll position.

The Dafny project models:

- `Text`: the decimal rendering `${n}`, and a proof that it is lossless.
- `Grid`: the grid cells and their `${row}-${col}` keys (proved injective).
  Also the row-major order of the click handler's loops, the index -> cell
  mapping of the renderer, and the grid size derived from the viewport.
- `Colour`: `hexToRgba`. This covers JavaScript's `parseInt(…, 16)`
  (white space, sign, `0x` prefix, longest digit run, NaN). It also covers
  ToInt32 with `>>` and `& 255`, and the CSS text.
- `Ripple`:
  - the ring of a cell, as the integer square root of its squared distance;
  - the ring delays;
  - the insertion-ordered `rings` Map and the `colorMap`, as folds over the
    visiting order, plus the loop that builds them (`BuildRings`);
  - the timers one click arms;
  - the two updaters that switch a ring's flashes on and off.
- `Sections`: `SECTIONS.indexOf`, `scrollToSection`, the two disable rules
  and `updateActive`.
- `AppState`: the class `App`. It holds the state that lives between events:
  grid size, reduced-motion flag, `timeoutsRef.current`, `flashes`, and the
  browser's armed timers. Its methods are `schedule`, `clearTimers`,
  `triggerRing`, the firing of a timer, and `handleClick`.

The browser's timers are a map from handle to timer, holding the timers
armed and not yet fired or cleared. The handles come from a counter. `Fire(h)`
is the browser running any one armed timer. Nothing is assumed about which
timer runs first.

`src/App.jsx` has no section-transition lock, no two-phase out/in animation
and no wheel, touch or keyboard handling. Besides the menu's anchor links and
ordinary scrolling, the only navigation is `scrollToSection`. The active
section is set by the ScrollTrigger callbacks or, under reduced motion, by
`updateActive`. The ripple uses only the index-based ring distance.

## Model

| member | source | states |
|---|---|---|
| Text.NatToString | src/App.jsx:216 | `${n}` of a non-negative integer is a non-empty string of decimal digits with no leading zero (only 0 itself starts with '0') |
| Text.DecimalRoundTrip | src/App.jsx:216 | reading the decimal rendering back gives the number, so the rendering loses nothing |
| Text.NatToStringInjective | src/App.jsx:216 | distinct numbers render as distinct strings |
| Grid.KeyInjective | src/App.jsx:216 | two cells have the same `${r}-${c}` key only if they are the same cell |
| Grid.Key | src/App.jsx:216 | `${r}-${c}`: at least three characters; KeyInjective gives it its meaning |
| Grid.KeysDistinct | src/App.jsx:216-219 | distinct cells give distinct keys |
| Grid.KeySetSize | src/App.jsx:216 | n distinct cells have exactly n distinct keys |
| Grid.RowMajor | src/App.jsx:210-211 | the nested loops have visited r·cols + c cells on reaching (r, c) |
| Grid.RowMajorCells | src/App.jsx:210-211 | the loops visit exactly the cells before (r, c) in row-major order, each once |
| Grid.AllCellsAreGrid | src/App.jsx:210-211 | the loops visit every cell of the rows × cols grid exactly once, rows·cols cells in all |
| Grid.AllCells | src/App.jsx:210-211 | the cells the two loops visit over the whole grid; AllCellsAreGrid states that they are the grid's cells, each once, in row-major order |
| Grid.RenderOrderMatchesVisitOrder | src/App.jsx:257-259 | position i of the rendered grid (row ⌊i/cols⌋, column i mod cols) is the i-th cell the click loops visit |
| Grid.CellAt | src/App.jsx:258-259 | the renderer's row ⌊index/cols⌋ and column index mod cols: the column is below cols and row·cols + column gives back the index |
| Grid.RenderedKeys | src/App.jsx:257-260 | the rendered keys are the click handler's keys in the same order: all in the grid, all distinct, rows·cols of them |
| Grid.GridDimension | src/App.jsx:43-44 | the grid dimension is at least 1, covers the extent with cells of 120 px, and is the smallest such count for a positive extent |
| Colour.RemoveFirstHash | src/App.jsx:149 | `replace('#', '')` removes exactly the first '#' (the text before it and after it is kept, one character shorter), and leaves a string without '#' unchanged |
| Colour.FirstIndexOf | src/App.jsx:149 | the position `replace` acts on: an occurrence of the character with none before it |
| Colour.StripLeadingHash | src/App.jsx:149 | for every string w, `replace('#', '')` of '#' followed by w gives w |
| Colour.TrimStart | src/App.jsx:150 | parseInt's leading-white-space skip removes a prefix made only of JavaScript white space and stops at the first other character |
| Colour.HexRun | src/App.jsx:150 | parseInt reads the longest prefix of hexadecimal digits: all of it is digits and the next character is not |
| Colour.DigitsPart | src/App.jsx:150 | the text parseInt reads digits from, after the white space, one sign and a `0x`/`0X` prefix; it is never longer than the input, and ParseHexNaN and DigitsPartOfDigits state what it keeps |
| Colour.Negative | src/App.jsx:150 | whether parseInt reads a minus sign after the white space; DigitsPartOfDigits states that a string of digits is not negative |
| Colour.HexValue | src/App.jsx:150 | the value of a run of hexadecimal digits, most significant first; ParseHexOfDigits and AccentDigits state it for the colour text |
| Colour.ParseHex | src/App.jsx:150 | `parseInt(s, 16)`; ParseHexNaN and ParseHexOfDigits state when it is NaN and what it reads |
| Colour.ParseHexNaN | src/App.jsx:150 | `parseInt(s, 16)` is NaN exactly when no hexadecimal digit follows the white space, the sign and the `0x` prefix |
| Colour.ParseHexOfDigits | src/App.jsx:149-150 | a string of hexadecimal digits, such as a colour without its '#', parses to its value |
| Colour.ToInt32 | src/App.jsx:151-153 | the ToInt32 conversion that `>>` and `&` apply yields a signed 32-bit value congruent to the input modulo 2^32, and 0 for NaN |
| Colour.ChannelsOfInt32 | src/App.jsx:151-153 | shifting and masking any 32-bit value congruent to v gives bytes equal to bits 16–23, 8–15 and 0–7 of v |
| Colour.ShiftRight | src/App.jsx:151-152 | `>>` by k bits as floor division by 2^k; ChannelsOfInt32 states which bits it brings down |
| Colour.LowByte | src/App.jsx:151-153 | `& 255` as the remainder modulo 256; ChannelsOfInt32 states that it yields bytes |
| Colour.ChannelsAreBytes | src/App.jsx:148-154 | each of r, g, b is in 0..255 and equals bits 16–23, 8–15 and 0–7 of the parsed value; together they give its low 24 bits |
| Colour.Channels | src/App.jsx:149-153 | the r, g, b of `hexToRgba`; ChannelsAreBytes states that they are the three low bytes of the parsed value |
| Colour.HexToRgba | src/App.jsx:148-154 | the rgba text of those channels; AccentChannels gives the accent colour's text |
| Colour.HashColourChannels | src/App.jsx:148-153 | for every colour written '#' followed by hexadecimal digits, the parsed value is the digits' value and r, g, b are its bytes 2, 1 and 0 |
| Colour.AccentChannels | src/App.jsx:10 | the accent `#ff2aa1` yields 255, 42, 161, and `hexToRgba` renders `rgba(255, 42, 161, alpha)` |
| Colour.RgbaText | src/App.jsx:154 | the template `rgba(${r}, ${g}, ${b}, ${alpha})`: the text starts with `rgba(` and ends with the alpha and `)`; AccentChannels gives a complete instance |
| Ripple.Isqrt | src/App.jsx:212-213 | the ring k of squared distance n satisfies k² ≤ n < (k+1)², i.e. k = ⌊√n⌋ |
| Ripple.IsqrtUnique | src/App.jsx:212-213 | ⌊√n⌋ is the only k with k² ≤ n < (k+1)² |
| Ripple.IsqrtMonotone | src/App.jsx:212-213 | a larger distance never gives a smaller ring |
| Ripple.SqDist | src/App.jsx:212 | the squared distance is 0 exactly at the clicked cell |
| Ripple.Ring | src/App.jsx:212-213 | the ring is the floor of the Euclidean distance to the clicked cell, and is 0 exactly for the clicked cell |
| Ripple.Kept | src/App.jsx:217 | the reduced-motion skip: a cell outside ring 0 is filed only without reduced motion; ReducedKeepsRingZero and ReducedRingsOnlyClickedCell state what it leaves |
| Ripple.RingMonotone | src/App.jsx:212-213 | a cell nearer the click is never in a later ring |
| Ripple.RingDelaySteps | src/App.jsx:224 | ring 0 has delay 0, ring 1 has delay 50, and each further ring is 70 ms later (delay 50 + (k−1)·70) |
| Ripple.RingDelay | src/App.jsx:224 | the ring's delay; RingDelaySteps and RingDelayIncreasing state its values and order |
| Ripple.RingDelayIncreasing | src/App.jsx:224 | delays strictly increase with the ring |
| Ripple.NearerFlashesNoLater | src/App.jsx:212-224 | a cell nearer the click never flashes later than a farther one |
| Ripple.RingMap.Push | src/App.jsx:218-219 | `has`/`set`/`push` makes the ring's list its old list (or `[]` on first use) followed by the key, appends the ring to the iteration order on first use, and leaves the other rings alone |
| Ripple.Rings | src/App.jsx:207-221 | the rings Map built over any visiting order is well formed: iteration order without repeats, matching the Map's keys |
| Ripple.RingsHoldRingCells | src/App.jsx:217-219 | a ring has an entry exactly when some visited cell was filed under it, and the entry lists the keys of those cells in visiting order |
| Ripple.RingCellsMembers | src/App.jsx:213-219 | a cell is filed under ring k exactly when it was visited, is kept under the motion preference, and lies in ring k |
| Ripple.RingCellsDistinct | src/App.jsx:210-219 | no cell is filed twice |
| Ripple.RingZeroCells | src/App.jsx:213-219 | ring 0 holds the clicked cell if it was visited, and nothing else |
| Ripple.ReducedKeepsRingZero | src/App.jsx:217 | under reduced motion no cell is filed under a ring other than 0 |
| Ripple.ClickRings | src/App.jsx:207-221 | the rings Map of a click is well formed |
| Ripple.RingsPartitionGrid | src/App.jsx:210-220 | each grid cell's key is in ring k's list exactly when the cell is kept and its ring is k; every kept cell's ring has a list; every listed key is such a cell; lists are non-empty and repeat no key |
| Ripple.RingZeroIsClickedCell | src/App.jsx:210-220 | ring 0's list is exactly the clicked cell's key |
| Ripple.ReducedRingsOnlyClickedCell | src/App.jsx:217 | under reduced motion the Map holds only ring 0 with only the clicked cell |
| Ripple.ColourMapKeys | src/App.jsx:216 | the colour map's keys are exactly the keys of the visited cells |
| Ripple.ColourMap | src/App.jsx:208-216 | `colorMap[key] = …` over the visited cells; ColourMapKeys and ColourMapValues state its keys and values |
| Ripple.ClickColours | src/App.jsx:208-216 | the colour map of a whole click; ColoursCoverGrid states its size and that it covers every ring key |
| Ripple.CellColour | src/App.jsx:215-216 | the colour a visited cell gets: `hexToRgba(ACCENT_COLOR, alpha)`; ColourMapValues states that each key holds it |
| Ripple.ColourMapValues | src/App.jsx:215-216 | each visited cell's key holds that cell's colour |
| Ripple.ColoursCoverGrid | src/App.jsx:216-217 | under either motion preference the colour map has rows·cols entries, one per grid cell with its colour, no other keys, and a colour for every key in any ring |
| Ripple.VisitStep | src/App.jsx:212-219 | visiting one more cell files it under its ring (unless reduced motion skips it) and records its colour |
| Ripple.BuildRings | src/App.jsx:207-221 | the nested loops build the click's rings Map and colour map; every key in a ring has a colour |
| Ripple.ClickTimerAt | src/App.jsx:223-225 | the i-th timer of a click switches on the i-th ring in Map order, at that ring's delay, with the click's colour map, naming exactly the kept grid cells of that ring |
| Ripple.RingTimers | src/App.jsx:223-225 | one switch-on timer per ring of the Map, in Map order: as many timers as rings; ClickTimerAt states what each one is |
| Ripple.ClickTimers | src/App.jsx:223-225 | the timers one click arms, one per ring of its Map; ClickTimerAt and ClickFlashesEachCellOnce state what they switch on and when |
| Ripple.ClickFlashesEachCellOnce | src/App.jsx:210-226 | a click switches every kept grid cell on in exactly one timer, at its ring's delay, with a colour; no other grid cell is switched on |
| Ripple.ClickStartsAtClickedCell | src/App.jsx:217-225 | a click switches the clicked cell on at delay 0; under reduced motion that is its only timer |
| Ripple.LightRing | src/App.jsx:159-165 | switching a ring on sets exactly its keys to their colour-map values and leaves every other entry unchanged |
| Ripple.DimRing | src/App.jsx:168-174 | switching a ring off removes exactly its keys and leaves every other entry unchanged |
| Ripple.OnThenOffRestoresOthers | src/App.jsx:157-177 | switching a ring on and then off leaves the flash map as before, minus that ring's keys |
| Sections.IndexIn | src/App.jsx:230 | `indexOf` gives the first position of the id, or −1 exactly when the id is absent |
| Sections.CurrentIndex | src/App.jsx:230 | `SECTIONS.indexOf(activeSection)`: −1 exactly for an id that is not a section, otherwise the position holding the id |
| Sections.SectionIndex | src/App.jsx:11 | the section names are distinct: each is found at its own position |
| Sections.UpDisabled | src/App.jsx:309 | the previous-section button is disabled at index ≤ 0; ScrollTarget states that it is exactly when the up step does nothing |
| Sections.DownDisabled | src/App.jsx:318 | the next-section button is disabled at index ≥ 4; ScrollTarget states that it is exactly when the down step does nothing |
| Sections.ScrollTarget | src/App.jsx:232-240 | there is no target exactly when the step's button is disabled (up at index ≤ 0, down at index ≥ 4); otherwise the target is the section at index ∓1 |
| Sections.StepStaysInRange | src/App.jsx:232-240 | stepping up from index 0 or down from index 4 does nothing; otherwise the target is the section at index−1 or index+1 |
| Sections.UpdateActive | src/App.jsx:57-66 | the result is the last section whose element starts at or above the viewport centre, or the first section when none does |
| Sections.Reached | src/App.jsx:61-63 | a section counts as reached when its element exists and its top is at or above the centre; UpdateActive states the pick it drives |
| AppState.HandlesAt | src/App.jsx:138-141 | the handles pushed by successive schedules from `base` on are base, base+1, … |
| AppState.ArmedHandles | src/App.jsx:138-141 | arming a sequence of timers from `base` on gives handle base+i to the i-th timer and no other handle |
| AppState.ReducedClickArmsOne | src/App.jsx:217-225 | under reduced motion a click arms a single timer: the clicked cell, at delay 0 |
| AppState.App.constructor | src/App.jsx:14-28 | the first render has an empty 0 × 0 grid, no timers and no flashes |
| AppState.App.UpdateGrid | src/App.jsx:42-48 | the grid becomes ⌈width/120⌉ × ⌈height/120⌉ cells, at least 1 × 1; nothing else changes |
| AppState.App.UpdateMotionPreference | src/App.jsx:32-35 | the reduced-motion flag takes the media query's value; nothing else changes |
| AppState.App.Schedule | src/App.jsx:138-141 | `schedule` arms one timer under a fresh handle and appends exactly that handle to the list; nothing else changes |
| AppState.App.ClearTimers | src/App.jsx:143-146 | `clearTimers` (and the unmount cleanup at lines 131-136) leaves the list empty and no timer armed; on an empty list it changes nothing |
| AppState.App.TriggerRing | src/App.jsx:157-177 | `triggerRing` arms one timer that will switch the ring on at the given delay with the given colour map |
| AppState.App.Fire | src/App.jsx:158-176 | a firing switch-on timer lights exactly its keys and arms a switch-off timer for FLASH_DURATION; a firing switch-off timer removes exactly its keys; the fired timer is disarmed |
| AppState.App.ArmRings | src/App.jsx:223-226 | `rings.forEach` arms the ring timers in Map order under consecutive fresh handles |
| AppState.App.Misses | src/App.jsx:196-202 | the early returns of `handleClick`: a content block, an empty grid, or a cell outside it; HandleClick states that a miss changes nothing |
| AppState.App.HandleClick | src/App.jsx:195-227 | a click on a content block, on an empty grid or outside the grid changes nothing; otherwise the flashes are cleared, no earlier timer stays armed, and exactly the click's ring timers are armed, in order; under reduced motion that is the clicked cell alone at delay 0 |

## Left out

- Text.NatToString: models `${n}` in plain decimal only. JavaScript switches to exponent form ("1e+21") from 10^21 on; the only values rendered here are grid rows and columns and colour bytes, which are far below that.
- The scroll-driven animation timeline (GSAP ScrollTrigger): its pinning,
  refresh and callbacks are a foreign animation library with effects on the
  page, not logic of the component.
- The listeners for `matchMedia`, resize and scroll, `scrollIntoView` and
  `getElementById`. Their inputs become parameters: the media query result,
  the viewport size, the section offsets (`offsetTop` returns None for a
  missing element) and the viewport centre. The step that follows
  `scrollToSection`'s target (scrolling to the element when it exists) is
  left out.
- AppState.Handles: real `setTimeout` handles are arbitrary positive ids that no
  armed timer holds. The counter that hands out consecutive handles is a
  modelling choice, and the exact handle values in `HandleClick`'s contract
  follow from it, not from the browser.
- Real timer timing: delays are recorded on each armed timer, but any armed
  timer may fire next. The model does not claim that the browser runs them in
  delay order.
- React's batching of state updates: `setFlashes` updaters are applied at once,
  in program order.
- Floating point:
  - The alpha formula is a parameter: a function from the cell's offset to its
    alpha text.
  - The pixel-to-cell division `Math.floor(clientX / cellWidth)` is not
    modelled. The clicked row and column arrive as integers, and the
    grid-size division uses the integer viewport size.
  - The ring is the exact integer square root of the squared distance. The
    model takes `Math.floor(Math.hypot(dr, dc))` to agree with it for integer
    offsets. `Math.hypot` may be approximate: with a scale-by-maximum
    algorithm the agreement can fail once an offset reaches 99, so it holds on
    grids under 100 cells a side (about 12,000 px).
  - `updateActive`'s centre arrives as the whole-pixel part of
    `scrollY + innerHeight / 2`.
- Colour.ParseHex: digit runs whose value exceeds 2^53 are read exactly. JavaScript
  would round them to a double before ToInt32.
- Ripple.LightRing: requires every key to have a colour. JavaScript would
  store `undefined` for a missing key. Every timer a click arms meets this
  requirement (`Ripple.ColoursCoverGrid`, `AppState.App.Valid`).
- Pointer hover (`handlePointerMove`, `handlePointerLeave`), the menu toggle,
  `addToRefs` and the JSX markup are presentation only.
- `tailwind.config.js` is static styling configuration with no logic, and is
  not part of this model.
