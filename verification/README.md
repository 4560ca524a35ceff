# Portfolio paint splashes and contact form, in Dafny

This project models the two pieces of pure logic in a personal portfolio
site's client-side scripts and proves properties about them.

1. **The paint-splash engine** (class `PaintSplash` in `script.js`). The page
   keeps an ordered list of *splashes*. Each splash is a burst of 20
   *particles* around an emission point.
   - `createSplash` appends a splash.
   - Each `animate` frame takes 0.01 off every splash's life. It drops the
     splashes whose life reaches 0 or below. For each survivor, every particle
     moves, falls under gravity and decays, and every particle that still has
     life is painted as a dot.

   The model is a state machine over `seq<Splash>`:
   - `PaintSplash.Emit` is `createSplash`.
   - `PaintSplash.Tick` gives the next splash list after one frame.
   - `PaintSplash.FrameOps` gives the canvas operations of one frame.
   - `PaintSplash.Animate` is the source's own reverse-index loop, which
     splices splashes out in place. It is proved to compute exactly `Tick`
     and `FrameOps`.
   - `SplashLifetime` runs frames repeatedly. It proves that a splash
     is in the active list for frames 0 to 99 and is gone at frame 100.
     Its particles time out separately: a particle whose decay draw is near
     0.03 has no life left from about frame 34, so a splash can stay listed
     while painting nothing.
   - The scroll handler's guard is `PaintSplash.OnScroll`.
2. **Contact-form logic** (`connect.js`).
   - `isValidEmail` (the pattern `^[^\s@]+@[^\s@]+\.[^\s@]+$`) has two
     forms: `ContactForm.MatchesEmailRegex` is the pattern's literal
     meaning, and `ContactForm.IsValidEmail` is a first-`@` scanner. They are
     proved equivalent.
   - `validateForm` is `ContactForm.CheckForm`, which reports the first
     failing check, and `ContactForm.ValidateForm`.
   - The payload built by `sendEmail` is `ContactForm.BuildPayload`.
   - The JavaScript string primitives these rely on are in module `Text`:
     `trim`, the `\s` class, and `length` in UTF-16 code units.

Modelling choices:
- **Numbers** are exact `real`s.
- **`Math.random()`** results are parameters in [0, 1). `createSplash`
  takes its 40 draws in the order the source requests them: for particle
  i, the speed draw comes first, then the decay draw.
- **`Math.cos`/`Math.sin`** of each particle's angle are passed in as a
  `Direction` per particle.
- **Canvas drawing** is an output list of `DrawOp`s: one `ClearSurface`,
  then one `FillCircle(x, y, radius, alpha, color)` per painted particle.
- **Draw order:** the `animate` loop at script.js:56 walks the splash list
  from the last index down to 0. The newest splash is therefore painted
  first, not in insertion order, and the model follows this
  (`PaintSplash.DrawsFrom`).
- **String length:** `String.prototype.length` counts UTF-16 code units,
  while a Dafny `char` is a Unicode scalar value. The name and message
  length checks therefore use `Text.Utf16Length`, in which a character above
  U+FFFF counts twice. So a name made of one such character passes the
  2-character check, as it does in a browser. The e-mail pattern has no
  `u` flag and so matches code units. Each of its runs is `+`-quantified and
  its literal characters are in the BMP, so on well-formed UTF-16 text
  matching over scalar values accepts the same strings.
- **Whitespace:** `trim` and `\s` both use the ECMAScript WhiteSpace and
  LineTerminator code points (`Text.IsWhitespace`).
- **Missing form fields:** `FormData.append(key, null)` stores the text
  `"null"`, so a missing name, email or message becomes `"null"` in the
  payload (`ContactForm.FieldText`).

## Model

| member | source | states |
|---|---|---|
| PaintSplash.Speed | script.js:37 | a particle's radial speed `r*3+2` lies in [2, 5) for every random draw r in [0, 1) |
| PaintSplash.Decay | script.js:44 | a particle's decay `r*0.02+0.01` lies in [0.01, 0.03) for every random draw r in [0, 1) |
| PaintSplash.NewParticle | script.js:36-45 | a new particle starts at the emission point with life 1 and a decay in [0.01, 0.03) |
| PaintSplash.CreateSplash | script.js:25-47 | a new splash is at (x, y) with life 1, colour defaulting to `'#000'`, exactly 20 particles; particle i is at (x, y) with life 1, velocity (cos·v, sin·v) for its direction and speed v = `Speed` of draw 2i, and decay `Decay` of draw 2i+1, in [0.01, 0.03); the splash satisfies the engine invariant |
| PaintSplash.CreatedParticleSpeed | script.js:35-46 | when every direction is a unit vector, each particle of a new splash has squared speed vx²+vy² in [4, 25) |
| PaintSplash.Emit | script.js:49 | emission appends exactly one splash at the end, leaves every earlier splash unchanged, and keeps the engine invariant |
| PaintSplash.ParticleSpeedInRange | script.js:36-42 | with a unit direction vector, a fresh particle's squared speed vx²+vy² lies in [4, 25), i.e. its speed lies in [2, 5) |
| PaintSplash.OnScroll | script.js:421-431 | a scroll emits a splash exactly when 0 < scrollY < documentHeight − windowHeight, otherwise the list is unchanged; an emitted splash is exactly `Emit` of a default-coloured `createSplash` at (rx·windowWidth, ry·windowHeight), so it lies inside a positive-sized viewport; the engine invariant is kept |
| PaintSplash.Tick | script.js:56-70 | the splash list after one frame; `TickIsSelect` states it is the surviving splashes, each advanced, in order, and `TickRemovesExactlyExpired`/`TickUpdatesSurvivors` pin every survivor |
| PaintSplash.FrameOps | script.js:52-83 | the operations of one frame open with the clear; `FrameDrawsLiveParticles` and `FrameDotCount` state which dots follow and how many |
| PaintSplash.Animate | script.js:52-86 | the reverse-index splice loop yields exactly the functional next list `Tick` and the frame's operations `FrameOps` |
| PaintSplash.AnimateAt | script.js:56-82 | one pass of the loop at index i either splices the expiring splash out or advances it in place and appends its dots, keeping the processed suffix equal to `Tick`/`DrawsFrom` of it |
| PaintSplash.PositionsSelects | script.js:56-63 | the selected positions (surviving splashes, or live particles) are strictly increasing and include position i exactly when element i is selected |
| PaintSplash.SelectAt | script.js:56-81 | the j-th selected image is the image of the element at the j-th selected position, and there are as many images as selected positions |
| PaintSplash.TickIsSelect | script.js:56-70 | `Tick` is the generic selection of the splashes whose decremented life is positive, each advanced; it is the bridge to `SelectAt` and `PositionsSelects`, which give the in-order, nothing-else meaning |
| PaintSplash.TickRemovesExactlyExpired | script.js:56-63 | one frame removes exactly the splashes whose life after the 0.01 decrement is ≤ 0: the j-th splash of the next list is the j-th surviving splash, advanced, and the surviving positions are increasing, so relative order is kept |
| PaintSplash.TickUpdatesSurvivors | script.js:56-70 | each survivor's life is exactly 0.01 lower; its origin, colour and particle count are unchanged; each particle gets x += vx, y += vy, vy += 0.1, life −= decay, with vx and decay unchanged |
| PaintSplash.TickAppend | script.js:56-83 | splashes are updated independently: a frame over a + b is the frame over a followed by the frame over b |
| PaintSplash.TickPreservesValid | script.js:56-70 | a frame preserves the engine invariant: life in (0, 1], 20 particles, decay in [0.01, 0.03), particle life ≤ 1 |
| PaintSplash.ParticleDrawsSpec | script.js:66-82 | within a surviving splash a dot is painted for a particle exactly when its post-decay life is positive, and nothing else is painted |
| PaintSplash.ParticleDrawsIsSelect | script.js:66-81 | a surviving splash's dots are the generic selection of its live particles, each turned into its dot; it is the bridge to `SelectAt` and `PositionsSelects`, used by `ParticleDrawsInOrder` |
| PaintSplash.ParticleDrawsInOrder | script.js:66-81 | a surviving splash paints exactly one dot per live particle, in particle order: the j-th dot is the dot of the j-th live particle, and the live positions are exactly those with positive life |
| PaintSplash.FrameDrawsLiveParticles | script.js:52-83 | a frame starts with its single clear and then paints a dot (position after the move, alpha = post-decay life, radius 2, splash colour) for a particle iff its splash survives and its life after decay is > 0 |
| PaintSplash.FrameDotCount | script.js:52-83 | a frame has exactly one operation more than the number of live particles (after the move) of surviving splashes: the clear, and one dot each |
| PaintSplash.ExpiredParticleStaysDark | script.js:66-73 | under the engine invariant a particle of a surviving splash whose life is already ≤ 0 is still not live after the next update, so once dark it never paints again |
| PaintSplash.FrameAlphaInRange | script.js:73-75 | under the engine invariant every painted dot has opacity strictly between 0 and 1 and radius 2 |
| PaintSplash.EmptyFrame | script.js:52-56 | with no splashes a frame only clears the canvas and the list stays empty |
| SplashLifetime.Ticks | script.js:52-85 | the splash list after k frames never grows; `TicksAppend`, `TicksSplit` and the lifetime lemmas characterise it |
| SplashLifetime.TicksSplit | script.js:85 | running m frames and then n more is running m + n frames |
| SplashLifetime.TicksAppend | script.js:56-83 | over any number of frames, splashes evolve independently of the splashes around them |
| SplashLifetime.IdleFrames | script.js:52-56 | any number of frames over an empty list leave it empty and paint nothing but a clear |
| SplashLifetime.LoneSplashCountdown | script.js:58-61 | a splash with life (100−j)/100 stays, with life (100−j−k)/100 and its origin and colour, for k frames while j+k < 100, and is removed when j+k reaches 100 |
| SplashLifetime.FreshSplashLifetime | script.js:31-61 | a splash created with life 1 is in the active list after k < 100 frames with life 1 − k/100 and absent from frame 100 on |
| SplashLifetime.EmittedSplashLifetime | script.js:49-63 | a splash emitted into any list stays last with life 1 − k/100 and its colour for k < 100 frames, the others evolve as without it, and from frame 100 it is gone |
| Text.Trim | connect.js:189-191 | `trim` never lengthens its input; `TrimSpec` characterises it exactly |
| Text.TrimStartSpec | connect.js:189 | the leading-trim keeps the longest suffix not starting with whitespace; everything cut is whitespace |
| Text.TrimEndSpec | connect.js:189 | the trailing-trim keeps the longest prefix not ending in whitespace; everything cut is whitespace |
| Text.TrimSpec | connect.js:189-191 | `trim` returns an infix of its input that neither starts nor ends with whitespace, with only whitespace cut on either side |
| Text.TrimIgnoresPadding | connect.js:189-191 | adding whitespace on either side never changes what `trim` returns |
| Text.TrimIdempotent | connect.js:189-191 | trimming twice is trimming once |
| Text.Utf16Length | connect.js:193 | the UTF-16 length of a string is between its character count and twice that; it equals the character count exactly when no character lies above U+FFFF, and exceeds it otherwise |
| Text.Utf16LengthAppend | connect.js:193 | the UTF-16 length of a concatenation is the sum of the lengths |
| Text.Utf16LengthChar | connect.js:193 | one character is one code unit, or two above U+FFFF |
| ContactForm.AstralNamePasses | connect.js:193-196 | a name of one character above U+FFFF has UTF-16 length 2 and passes the name check |
| ContactForm.FieldText | connect.js:83-86 | `FormData.append` stores the text `"null"` for a missing value and the value itself otherwise |
| ContactForm.MatchesEmailRegex | connect.js:211-214 | the literal reading of `^[^\s@]+@[^\s@]+\.[^\s@]+$`: some `@` and later `.` split the string into three non-empty runs free of whitespace and `@` (related to the scanner by `IsValidEmailMatchesRegex`) |
| ContactForm.IsValidEmail | connect.js:211-214 | `isValidEmail` as a first-`@` scanner; `IsValidEmailMatchesRegex` proves it accepts exactly what the pattern matches |
| Text.IsWhitespace | connect.js:189-191 | the ECMAScript WhiteSpace and LineTerminator code points, shared by `trim` and by `\s` at connect.js:212; `TrimSpec` and `ValidEmailHasOneAt` use it |
| ContactForm.IsValidEmailMatchesRegex | connect.js:211-214 | the first-`@` scanner accepts exactly the strings the anchored pattern matches |
| ContactForm.ValidEmailHasOneAt | connect.js:212 | a valid address contains no whitespace and exactly one `@` |
| ContactForm.ValidEmailSplit | connect.js:212-213 | `L + "@" + D` is valid iff L is non-empty, D has a `.` that is neither its first nor its last character, and neither part contains whitespace or `@` |
| ContactForm.CheckForm | connect.js:188-209 | the form is accepted exactly when the trimmed name, e-mail and message all pass their checks |
| ContactForm.ValidateForm | connect.js:188-209 | an accepted form has a trimmed name of at least 2 and message of at least 10 UTF-16 units and a trimmed address the pattern matches |
| ContactForm.FirstFailingCheckReported | connect.js:193-206 | a short name is reported whatever the other fields hold; a bad address only when the name passes; a short message only when name and address pass |
| ContactForm.ValidateFormIffAllChecks | connect.js:188-209 | `validateForm` returns true iff all three checks pass on the trimmed fields, with the e-mail check read as the pattern |
| ContactForm.CheckFormIgnoresPadding | connect.js:189-191 | leading and trailing whitespace on any field never changes the verdict |
| ContactForm.SubjectText | connect.js:73 | the subject is `'Portfolio Contact'` when the field is missing or empty, otherwise the submitted value; it is never empty |
| ContactForm.BuildPayload | connect.js:82-86 | the payload has exactly the four fields name, email, subject, message, in that order, with a non-empty subject |
| ContactForm.PayloadReadBack | connect.js:71-86 | reading the payload back gives the submitted name, e-mail and message unchanged, the text `"null"` for a missing one, and the (defaulted) subject |

## Left out

- Canvas and DOM calls are not modelled: `getContext`, `clearRect`, `save`/`restore`, `arc`/`fill`, and `globalAlpha`/`fillStyle`. The model records them as abstract `DrawOp`s instead.
- `resize` is not modelled. It copies `window.innerWidth`/`innerHeight` into the canvas size and interacts with no other state.
- The `requestAnimationFrame` rescheduling (script.js:85) is not modelled; one frame is one call of `Tick`/`Animate`.
- `Math.cos`/`Math.sin` (script.js:41-42) are not computed. Each particle's direction is a parameter, so the even 2π/20 angular spacing is not stated.
- `Math.random` is not modelled; its results are parameters in [0, 1).
- IEEE-754 rounding is not modelled: positions, velocities and particle lives are exact reals. For the splash life the difference does not matter. Every splash starts at exactly 1. With exact reals, 100 decrements of 0.01 reach exactly 0. In binary64 arithmetic the 99th decrement leaves 0.0099999999999992 and the 100th about −7.5e-16. So both remove the splash at frame 100.
- PaintSplash.ParticleSpeedInRange: states the speed bound as a squared magnitude, and only for unit direction vectors, because the trigonometry is not modelled.
- The unused `this.particles` array of `PaintSplash` is left out. Nothing reads it.
- The page-load emission (script.js:411-414) and the click emission with its modal/button exclusion (script.js:436-441) are left out. They are DOM event wiring; each ends in the `createSplash` call that `Emit` models.
- The scroll debounce `setTimeout`, `clearTimeout` and the `throttle` helper (script.js:418-421, 443-460) are left out; they depend on time. `OnScroll` models the callback body only.
- GSAP/ScrollTrigger animations, the IntersectionObserver, smooth scrolling, the PDF and success modals, Escape-key handlers and input focus styling are left out. They are UI code and third-party libraries.
- `loadCertificates`/`loadProjects` and their card rendering are left out; they fetch from the network and build DOM.
- `sendEmail`'s `fetch` POST, the response check, the thrown errors, and the submit handler with its button-state toggling and `alert`s are left out. They are I/O; only the payload is modelled.
- How the two `submit` listeners interact (connect.js:37 and connect.js:217) is left out. It is browser event dispatch, not pure logic.
- `FormData` values that are files are left out; every field value is text or absent.
- Text.Utf16Length: a JavaScript string can hold an unpaired surrogate code unit, and a Dafny `string` cannot. The length and e-mail-pattern results are stated for well-formed text only.
- Text.IsWhitespace: the space separators are those of the current Unicode category Zs. A browser built on another Unicode version may differ in a few code points.
