# Snow-fall Christmas page — a Dafny model

This project models the two pieces of real logic in a decorative Christmas web page.

- **The snow-flake pool** (`snow_falling.dfy`, module `SnowFalling`). A canvas holds a pool of 150 flake records. Each animation frame updates every flake in place:
  - it falls by `speed * dt/16`;
  - it sways sideways and is carried by the global wind and its own wind;
  - it is pushed away from the pointer when the pointer is between 20 and 100 pixels away;
  - a flake below the bottom margin is recycled as a fresh flake at `y = -10`;
  - it wraps horizontally between `-10` and `width + 10`;
  - it is drawn at a half-pixel-rounded copy of its position.

  The mouse handler sets a clamped global wind and the pointer position. The touch handler moves the pointer only. The pool is a class, `SnowField`, over an `array<Flake>`. `Animate` and `StepPool` are proved against the pure per-flake step `FlakeStep` and its whole-pool lifting `FrameStep`.

- **The countdown and the wish picker** (`christmas_page.dfy`, module `ChristmasPage`). A one-second timer picks this year's or next year's December 25. It splits the millisecond difference into days, hours, minutes and seconds. The gift button picks a random wish that is not among the last five shown and keeps a sliding window of the last five. The page state is a class, `App`. Its handlers are proved against pure functions: `Decompose`, `ChooseWish` and `NextHistory`.

Host facilities are parameters:
- `Math.random` is a draw `u` with `0 <= u < 1`. A fresh flake consumes eight draws, in source order, as a `Draws` record. A recycle takes one more draw for `x`.
- `Math.sin` and `Math.sqrt` are function parameters. The lemmas that need them state the relation they assume: the sine lies in `[-1, 1]`, and `sqrt(v)` is non-negative and squares to `v`.
- `Date` values are integer milliseconds.

Coordinates are mathematical reals.

## Model

| member | source | states |
|---|---|---|
| SnowFalling.Scale | components/SnowFalling.tsx:83-84 | a unit draw times a canvas extent lies in `[0, extent)`, or is 0 when the extent is 0 |
| SnowFalling.CreateFlake | components/SnowFalling.tsx:81-94 | given unit draws, a fresh flake has speed 0.5, r in [0.5,1), opacity in [0.2,1), sway in [0,0.15), swaySpeed in [0.02,0.07), swayOffset in [0,2π), wind in [-0.25,0.25), the fixed colour, x in [0,width) and y in [0,height) |
| SnowFalling.WindFromMovement | components/SnowFalling.tsx:68-69 | the wind always lies in [-0.3, 0.3]; it is `movementX * 0.006` while `-50 <= movementX <= 50` and saturates at ±0.3 beyond |
| SnowFalling.DeltaTime | components/SnowFalling.tsx:134 | with no stored timestamp (0) the frame counts as 16 ms; otherwise the stored time plus dt is the new timestamp |
| SnowFalling.SwayTerm | components/SnowFalling.tsx:148 | with a sine bounded by 1 and a non-negative amplitude, the sway lies in `[-sway, sway]` |
| SnowFalling.Fall | components/SnowFalling.tsx:147 | the fall changes only y, and never moves a flake up while speed and elapsed time are non-negative |
| SnowFalling.Moved | components/SnowFalling.tsx:147-148 | only x and y change; y gains `speed*dt/16`; x lands within ±sway of `x + windForce + wind` |
| SnowFalling.Distance | components/SnowFalling.tsx:150-152 | with a true square root the distance is non-negative and squares to `dx*dx + dy*dy` |
| SnowFalling.AvoidForce | components/SnowFalling.tsx:153-156 | inside the band 20 < d < 100 the push factor lies strictly in (0, 0.8); at d >= 100 it would be non-positive |
| SnowFalling.Pushed | components/SnowFalling.tsx:156-158 | the push changes only x and y, and inside the band it moves each coordinate away from the pointer's (never towards it) |
| SnowFalling.Avoided | components/SnowFalling.tsx:150-159 | only x and y change, and outside the band 20 < d < 100 the flake is untouched, so the division by d happens only with d > 20 |
| SnowFalling.AvoidPushesAway | components/SnowFalling.tsx:150-159 | inside the band, with a true square root, the flake moves along the pointer-to-flake direction by exactly the push factor, so its new distance from the pointer is `d + force` |
| SnowFalling.Recycled | components/SnowFalling.tsx:161-165 | a flake below `height + 10` becomes a fresh flake at y = -10 with x in [0,width) and every field in spawn range; any other flake is unchanged |
| SnowFalling.Wrapped | components/SnowFalling.tsx:167-168 | only x changes; afterwards `-10 <= x <= width + 10`; an x already in that band is kept |
| SnowFalling.FlakeStep | components/SnowFalling.tsx:146-168 | a flake's whole per-frame update leaves x within the wrap band and keeps a flake in spawn ranges in spawn ranges |
| SnowFalling.RecycleRespawnsAtTop | components/SnowFalling.tsx:161-168 | a flake that crossed the bottom margin after moving and avoiding ends the frame at y = -10, x inside the canvas, every field in spawn range |
| SnowFalling.QuietStep | components/SnowFalling.tsx:147-168 | when the moved flake is outside the pointer band, not below the bottom margin and inside the wrap band, a step changes only y, by `speed*dt/16`, and x, by the sway plus both winds |
| SnowFalling.QuietY | components/SnowFalling.tsx:147-168 | a full per-frame step that takes neither the pointer push nor the recycle changes only x and y, and y by the fall alone, whatever the wrap does to x |
| SnowFalling.QuietRunFalls | components/SnowFalling.tsx:146-168 | over any run of full per-frame steps with no push and no recycle, the speed is kept and y grows by `speed * (total elapsed ms)/16` |
| SnowFalling.FrameRateIndependent | components/SnowFalling.tsx:134-168 | any run of n full per-frame steps of equal dt with `n*dt = 960` (60 frames of 16 ms, 30 of 32 ms, …) and no push or recycle moves a flake down by `60*speed` |
| SnowFalling.HalfPixel | components/SnowFalling.tsx:170-171 | the drawn coordinate is a multiple of 0.5 within a quarter pixel of the stored one (ties round up, as `Math.round` does) |
| SnowFalling.DrawPosition | components/SnowFalling.tsx:170-178 | the drawn position lies within a quarter pixel of the stored position on both axes |
| SnowFalling.FrameStep | components/SnowFalling.tsx:146-181 | one frame keeps the pool length, puts every x in the wrap band and keeps every in-range flake in spawn ranges |
| SnowFalling.UpdateFlake | components/SnowFalling.tsx:146-168 | the in-place statement sequence of one forEach callback yields exactly `FlakeStep` of the old flake |
| SnowFalling.SnowField.constructor | components/SnowFalling.tsx:97 | mount sizes the canvas and fills a fresh pool of exactly 150 flakes, each `CreateFlake` of its draws and inside the canvas; pointer, wind and last timestamp start at zero |
| SnowFalling.SnowField.Resize | components/SnowFalling.tsx:41-43 | the canvas takes the window size and no flake changes |
| SnowFalling.SnowField.HandleMouseMove | components/SnowFalling.tsx:65-70 | the pointer becomes the mouse position and the wind becomes `WindFromMovement`, within [-0.3, 0.3] |
| SnowFalling.SnowField.HandleTouchMove | components/SnowFalling.tsx:72-76 | the pointer moves to the first touch when there is one and is otherwise unchanged; nothing else changes |
| SnowFalling.SnowField.Animate | components/SnowFalling.tsx:133-146 | the timestamp is stored, and the pool becomes `FrameStep` of the old pool under that frame's dt, time base, wind and pointer; the pool stays 150 flakes in spawn ranges inside the wrap band |
| SnowFalling.SnowField.StepPool | components/SnowFalling.tsx:146-181 | the forEach rewrites each pool slot in place to its step and returns each flake's half-pixel draw position, leaving the stored positions unrounded |
| ChristmasPage.FloorDiv | app/christmas/page.tsx:51-54 | `Math.floor(a/b)` for b > 0 is the q with `b*q <= a < b*q + b` |
| ChristmasPage.JsRem | app/christmas/page.tsx:52-54 | JavaScript `%` leaves a multiple of b behind; it equals the mathematical remainder on non-negative dividends and lies in (-b, 0] on negative ones |
| ChristmasPage.ChooseTarget | app/christmas/page.tsx:42-46 | the target is one of the two December 25 instants, this year's unless now is strictly after it and next year's when it is, and never before now while now precedes next year's |
| ChristmasPage.Decompose | app/christmas/page.tsx:51-54 | the countdown split of a non-negative difference shows days >= 0, hours < 24, minutes < 60, seconds < 60 |
| ChristmasPage.DecomposeRecombines | app/christmas/page.tsx:51-54 | the shown figures recombine to the difference less its sub-second remainder |
| ChristmasPage.RecombineDecomposes | app/christmas/page.tsx:51-54 | in-range figures plus under a second of milliseconds decompose back to the same figures, so the split is exact |
| ChristmasPage.CountdownInRange | app/christmas/page.tsx:42-54 | for any now before next year's December 25, the difference is non-negative, its figures are in range and recombine to it |
| ChristmasPage.Available | app/christmas/page.tsx:62 | a wish is in the filtered list exactly when it is a wish not in the history |
| ChristmasPage.PickIndex | app/christmas/page.tsx:64-65 | `Math.floor(Math.random() * n)` is a valid index of a non-empty list |
| ChristmasPage.ChooseWish | app/christmas/page.tsx:62-65 | the chosen wish is one of the wishes, and whenever some wish is missing from the history it is not in the history |
| ChristmasPage.SliceLast | app/christmas/page.tsx:68 | `slice(-n)` keeps `min(n, length)` elements, the tail of the list |
| ChristmasPage.NextHistory | app/christmas/page.tsx:68 | the new history holds 1 to 5 entries, ends with the shown wish, and before it keeps the last `min(4, length)` entries of the old history in order |
| ChristmasPage.WishesDistinct | app/christmas/page.tsx:13-34 | the page's twenty wishes are pairwise distinct |
| ChristmasPage.SomeWishLeft | app/christmas/page.tsx:62 | a history shorter than a list of distinct wishes misses one of them |
| ChristmasPage.PickIsFresh | app/christmas/page.tsx:62-65 | while the history is shorter than the distinct wishes list, the filtered list is non-empty and the pick is not in the history |
| ChristmasPage.OpenGifts | app/christmas/page.tsx:61-70 | a run of clicks shows one wish per random draw |
| ChristmasPage.ExtendNoRepeat | app/christmas/page.tsx:68 | a wish outside the history, followed by a run with no repeat against the shortened window, gives a run with no repeat against the full window |
| ChristmasPage.NoRepeatAfter | app/christmas/page.tsx:61-70 | from any history of at most five, with more than five distinct wishes, each shown wish differs from the five entries before it |
| ChristmasPage.NoRepeatWithinSix | app/christmas/page.tsx:61-70 | from the empty starting history, no wish repeats within any six consecutive opens |
| ChristmasPage.App.constructor | app/christmas/page.tsx:7-34 | the state starts at zero figures, no modal, no wish and an empty history, over the twenty distinct wishes |
| ChristmasPage.App.Tick | app/christmas/page.tsx:39-56 | each tick stores the decomposition of target minus now, in range whenever now precedes next year's December 25 |
| ChristmasPage.App.OpenGift | app/christmas/page.tsx:61-70 | the shown wish is `ChooseWish` of the old history, a wish not in it, and the history becomes `NextHistory`, so "N of 20 collected" never exceeds 5; the modal opens |
| ChristmasPage.App.CloseModal | app/christmas/page.tsx:185 | the modal closes |

## Left out

- Canvas drawing is not modelled because it consists only of calls into a 2D context with no state the model needs. This covers the six-armed flake shape, the radial gradient made on resize, the clearing and gradient fill of each frame, the ground-shimmer bars, and the alpha and colour settings.
- Frame scheduling and listener wiring are host plumbing and are not modelled: `requestAnimationFrame`, `addEventListener` and the cleanup. The code re-schedules every frame but keeps only the first frame id, so teardown cancels only that first request. No property about stopping the loop is claimed.
- React and `Date` plumbing is not modelled: `useState` setters, `setInterval`, date-string parsing, JSX, the modal markup and keyframes. The current time and both December 25 instants are inputs in milliseconds.
- `components/TwinkleLights.tsx` is not modelled: it is markup and CSS animation with no logic. `components/SnowFallWrapper.tsx` is not modelled: it wraps an external package whose code is not part of this model.
- IEEE floating point is not modelled: arithmetic is over reals, so rounding and overflow are not captured. `Math.sin` and `Math.sqrt` are parameters, and only the relations the lemmas state are assumed of them.
- SnowFalling.SnowField.Animate: the order in which one shared random stream feeds the recycled flakes is not captured. Each flake receives its own respawn draws, indexed by its slot.
- SnowFalling.DeltaTime: a stored timestamp of exactly 0 counts as "no previous frame", as the code's truthiness test does. The first frame after such a timestamp uses dt = 16.
- ChristmasPage.CountdownInRange: the calendar fact that `now` precedes next year's December 25 is a precondition. The model does not derive it from date parsing.
- ChristmasPage.NoRepeatWithinSix: stated for any list of more than five distinct wishes. The page's own twenty qualify by `WishesDistinct` and the `App` constructor.
- The code has one flake style and a fixed pool of 150, with no selectable intensity, style variants, rotation or sparkle. Opacity is drawn from [0.2, 1).
