# Pendula trail: ring buffer and ribbon layout

A Dafny model of the trail machinery in `pendula/pendula.js`. That program animates double pendulums and draws each one with a fading trail.

- **History.** The trail is a fixed-capacity ring buffer, `history(n)`. It holds a flat array of `2n` numbers (one two-number slot per sample), a write cursor `i` and a fill count `length`.
  - `push` overwrites slot `i`, advances the cursor modulo `n`, and grows `length` until it reaches `n`.
  - `visit` walks adjacent sample pairs from the newest to the oldest. Each callback gets the newer point first.
- **Ribbon.** `polyline` turns that walk into a triangle-strip vertex buffer. It writes four numbers per sample: the two edge points `centre + offset` and `centre - offset`.
- **Step.** A pendulum's `step` advances its state with the integrator and then pushes the trail point of the new angles.

Modules:

- `Geometry` (geometry.dfy) holds plane vectors and JavaScript's truncating `%` (`Rem`).
- `Modular` (modular.dfy) holds helper facts about Euclidean `%` with a symbolic modulus, and `Wrap(a, n)`, the single conditional subtraction that equals `a % n` for `0 <= a < 2n`. The model indexes slots with `Wrap`, and lemmas relate it to the source's `%`.
- `Trail` (trail.dfy) holds the `History` datatype, `Push`, `Visit` and the abstract views:
  - `Contents` lists the valid samples, oldest first.
  - `Recent` lists them newest first.
  - `Segments` is the reference for what `visit` yields.
  - `Keep(s, n)` is the last `n` elements of `s`, the bounded queue that `push` refines.
- `Ribbon` (ribbon.dfy) holds `Polyline`. Offsets are abstract: a parameter `off: Join -> Vec2`, where a `Join` records which points the source's offset computation reads in each branch.
  - `Start(p, next)` is the first vertex.
  - `Miter(prev, p, next)` is an interior vertex.
  - `End(prev, p)` is the last vertex.
- `Pendula` (pendula.dfy) holds the pendulum's state and trail, `Step`, runs of many steps, and the trail branch of `draw3d`. The integrator and the angle-to-point trigonometry are parameters.

The callback of `visit` is modelled by the sequence of argument tuples it would receive, in call order. Writes to the ribbon buffer are modelled on a `seq<real>`, together with a log of the indices written, in write order.

The trail point the code stores is `(sin a1 + sin a2, cos a1 + cos a2)` (pendula/pendula.js:128-129), and the tail vertex shader flips the y axis (pendula/pendula.js:66). The trail point is a parameter here, so its sign does not affect any proof.

## Model

| member | source | states |
|---|---|---|
| Geometry.Rem | pendula/pendula.js:135-137 | JavaScript `%`: for a non-negative dividend the result lies in `[0, n)` and equals the mathematical remainder; for a negative dividend it lies in `(-n, 0]`, so it cannot be used as a slot index |
| Trail.Empty | pendula/pendula.js:122-126 | a new history of capacity `n` is well formed, has its cursor at slot 0 and holds no valid sample |
| Trail.Push | pendula/pendula.js:127-133 | `length` becomes `min(length + 1, n)`, never decreases and stays `n` once full; the cursor moves to the next slot and wraps from `n - 1` back to 0, so it stays in `[0, n)`; slot `i` holds the new sample; every other number in the array is unchanged |
| Trail.PushCursor | pendula/pendula.js:130 | the cursor after a push is `(i + 1) % n`, with the source's modulo |
| Trail.PushNewest | pendula/pendula.js:127-133 | after a push the buffer holds at least one sample, and the newest one is the sample just pushed |
| Trail.ContentsAt | pendula/pendula.js:134-140 | the `t`-th oldest valid sample lives in slot `i + n - length + t`, wrapped once past `n`, which is where `visit` reads it |
| Trail.ContentsSlot | pendula/pendula.js:134-140 | the same slot written with a modulo: the `t`-th oldest valid sample lives in slot `(i - length + t) mod n` |
| Trail.PushContents | pendula/pendula.js:127-133 | push refines a bounded queue: the valid samples afterwards are the old ones plus the new sample, keeping only the last `n` |
| Trail.PushesContents | pendula/pendula.js:127-133 | after any sequence of pushes, the valid samples are the last `n` of the old contents followed by the pushed samples |
| Trail.PushesShape | pendula/pendula.js:130-132 | after `k` pushes, `length` is `min(length + k, n)` and the cursor is `(i + k) mod n` |
| Trail.PushesFromEmpty | pendula/pendula.js:122-133 | from a fresh buffer, `k < n` pushes give `length == k` and more give `length == n`; the valid samples are exactly the last `n` pushed, in push order |
| Trail.Segments | pendula/pendula.js:134-140 | the reference walk has `max(0, length - 1)` segments, and each one starts where the previous one ended |
| Trail.Visit | pendula/pendula.js:134-140 | the loop calls back `max(0, length - 1)` times and only reads in-range slots. The first call gets the samples at `(i - 1) mod n` (the latest push) and `(i - 2) mod n`. Each call's newer point is the previous call's older point. The calls pass through exactly the valid samples, newest first |
| Trail.SegmentAt | pendula/pendula.js:135-138 | the `k`-th callback reads slots `(i - 1 - k) mod n` and `(i - 2 - k) mod n` |
| Trail.SegmentsWalk | pendula/pendula.js:134-140 | the reference walk starts at the latest push, slot `(i - 1) mod n`, then `(i - 2) mod n`, and passes through exactly the valid samples, newest first |
| Trail.CapacityFourExample | pendula/pendula.js:122-140 | with capacity 4 and any five samples `a..e` pushed: `length == 4`, the cursor has wrapped to slot 1, the valid samples are `b, c, d, e` (the first is gone), and `visit` yields `e-d`, `d-c`, `c-b` |
| Ribbon.JoinAt | pendula/pendula.js:167-197 | every vertex is centred on its own sample. Only the first vertex uses the first segment's normal, only the last uses the last segment's normal, and every other vertex uses a miter |
| Ribbon.Polyline | pendula/pendula.js:162-203 | for `length >= 2`, writes indices `0 .. 4*length - 1` exactly once each, in increasing order, and leaves the rest of the buffer alone. Block `b` holds `c + o` and `c - o`, where `c` is the `b`-th newest sample and `o` is the offset of its join. Each block's two edge points are symmetric about `c` |
| Ribbon.Callbacks | pendula/pendula.js:167-195 | the callback `polyline` hands to `visit`, run once per segment in call order: the `++i` counter makes call `k` write block `k`, so blocks `0 .. length - 2` are written in index order and the write log is exactly `0 .. 4*(length - 1) - 1`. Call 0 uses the `Start` join of its own segment and every later call a `Miter` with the previous call's point. Everything from `4*(length - 1)` on is untouched. It returns the last call's two points (`x0` and `xf`), the second-oldest and oldest samples
| Ribbon.WriteVertex | pendula/pendula.js:186-189 | one vertex writes the four numbers of block `b`, `centre + offset` then `centre - offset`, and nothing outside that block |
| Ribbon.CallbackVertex | pendula/pendula.js:167-195 | block `k < length - 1` comes from the `k`-th `visit` callback. It is centred on that callback's newer point. Its offset uses that callback's segment for `k = 0`, and otherwise a miter with the previous callback's point |
| Ribbon.FinalVertex | pendula/pendula.js:196-202 | the last block is centred on the last callback's older point (the oldest sample), with the normal of the last segment |
| Ribbon.RibbonSymmetric | pendula/pendula.js:171-202 | in the built ribbon, each block's two edge points have the block's sample as their midpoint, at equal and opposite offsets |
| Pendula.NewPendulum | pendula/pendula.js:240-248 | a pendulum created from an explicit state keeps that state and has an empty, well-formed trail of capacity 400 |
| Pendula.Step | pendula/pendula.js:270-273 | `step` advances the state, then pushes the trail point of the new angles. The newest trail sample always belongs to the current state, and the trail gains exactly that sample |
| Pendula.RunState | pendula/pendula.js:270-271 | after a run of steps, the state is the last one the integrator produced |
| Pendula.RunTrail | pendula/pendula.js:270-273 | after a run of steps, the trail holds the trail points of the most recent states, oldest first, at most capacity many |
| Pendula.NewPendulumTrail | pendula/pendula.js:245-273 | a new pendulum stepped `k` times has `min(k, 400)` trail samples. They are the trail points of its last states, never of its initial state |
| Pendula.DrawTail | pendula/pendula.js:310-316 | an empty trail is skipped: nothing is written and nothing is drawn. Otherwise `2 * length` strip vertices are drawn, and nothing past the first `4 * length` numbers of the 400*4 buffer changes. With two or more samples, the drawn vertices alternate left and right edge points of the trail samples, newest first. With one sample, only block 0 is written, from undefined points |

## Left out

- `deriviative` and `rk4` (pendula/pendula.js:78-120) are floating-point trigonometry and the RK4 integrator. The integrator is a parameter `rk4` of `Pendula.Step`.
- The trail point `(sin a1 + sin a2, cos a1 + cos a2)` (pendula/pendula.js:128-129) is trigonometry. It is a parameter `trailPoint` of `Pendula.Step`.
- `normalize`, `sub`, `add`, `dot` and the miter length `min(w, w / dot(...))` (pendula/pendula.js:145-160, 169-185, 196-197) need square roots and float geometry. The offset is the abstract parameter `off`, given the points the source reads for it.
- Numbers are exact reals. `Float32Array` rounding on store is not modelled.
- Random initial angles and the momentum perturbation in `clone` (pendula/pendula.js:249-253, 278-288) depend on `Math.random`. Only construction from an explicit state is modelled.
- `positions`, `state` and `draw2d` (pendula/pendula.js:260-269, 274-276, 387-425) are read-only accessors and canvas drawing.
- WebGL shader compilation, buffers and draw calls (pendula/pendula.js:205-238, 289-378) are GPU plumbing. Only the trail branch of `draw3d` is modelled, as `Pendula.DrawTail`.
- The fade cutoff `1 - length*2/v.length` and the alpha table (pendula/pendula.js:314, 366-369) are float render arithmetic.
- The keypress handlers, the DOM counter, the `requestAnimationFrame` loop and the `dt` clamp (pendula/pendula.js:426-518) are event and IO plumbing.
- Trail.Empty: requires `n > 0`. `history(0)` would make the cursor `NaN`, and the only caller passes 400.
- Ribbon.Polyline: requires `length >= 2`. With a single sample, `visit` makes no call, so the final block is built from undefined values and the source writes `NaN` into slots 0..3. It also requires a buffer of at least `4 * length` numbers; JavaScript would silently drop writes past the end of a `Float32Array`.
- Pendula.DrawTail: with a single sample the contents of block 0 are unspecified. The source guards only `length != 0` (pendula/pendula.js:310), so `polyline` builds that block from never-assigned points and writes `NaN` there.
- Ribbon.Polyline: the offset `off` is assumed finite. In the source, `normalize` (pendula/pendula.js:146-147, called at 170, 177, 179, 184 and 197) divides 0 by 0 when two consecutive samples coincide, or when the trail exactly reverses (`add` of opposite unit vectors at 180-181 gives (0, 0)). The source then writes `NaN` blocks. One such input is a pendulum started at rest at angles 0, which `rk4` never moves, so every push stores the same point.
- Ribbon.RibbonSymmetric: holds for finite offsets only. Where the source writes `NaN` (coincident consecutive samples or an exact reversal, as above), the sample is not the midpoint of the block's edge points.
