# Raster primitives and window registries of the ray tracer's GUI layer

This project models two integer-only parts of the `guiAlexandrov` GUI layer of
the ray tracer and proves properties of them in Dafny.

**Raster drawing** (`draw.cpp`) writes into a row-major pixel surface of
`width * height` 32-bit colours.

- `drawPixel` writes one pixel. It clips with an unsigned comparison per
  coordinate.
- `drawLine` is an integer line rasteriser. It steps the major axis one pixel
  per point and carries the minor coordinate in a 16.16 fixed-point
  accumulator.
- `draw_filled_rect` cuts the rectangle's x-range into one column strip per
  worker and fills each strip row by row through `drawPixel`.

The canvas and image overloads are the same code, so they are modelled once.
They share the `Raster.Canvas` surface, whose cells are those that
`Canvas::operator[]` admits.

**Window registries** (`window.cpp`):

- `Arguments` maps a native window handle to the two pointers its message
  callback needs. It is a vector searched front to back. Lookups and removals
  act on the first entry for a handle.
- `HWND_constainer` hands out increasing integer ids for window handles.

Modules:

- `Int32`: C++ `int` semantics used by the code. These are the range, the
  `(uint32_t)` cast, truncating `/`, and `<< 16` / `>> 16`.
- `Raster`: the colour type, the surface class, and row-major index facts.
- `Pixel`: `drawPixel`, and `PlotAll`, the effect of a sequence of pixel
  writes.
- `Line`: `drawLine`. `Points` gives the plotted points in closed form, and
  four loop methods mirror the four loops of the source.
- `Rect`: `draw_filled_rect`, its strip arithmetic, and the filled-rectangle
  specification `Filled`.
- `Assoc`: first-match search (`std::find_if`), lookup and erase over a
  sequence of pairs.
- `Window`: the `Arguments` and `HandleContainer` (`HWND_constainer`) classes.

## Model

All source paths are under `ray_tracer/ray_tracer/guiAlexandrov/`.

| member | source | states |
|---|---|---|
| Int32.ToUnsigned | ray_tracer/ray_tracer/guiAlexandrov/draw.cpp:6-6 | `(uint32_t)v` of a 32-bit `v` lies in `[0, 2^32)`: a non-negative `v` is unchanged and a negative one becomes `v + 2^32` |
| Int32.Div | ray_tracer/ray_tracer/guiAlexandrov/draw.cpp:23-23 | C++ `/` on `int` truncates toward zero: the quotient's magnitude is the quotient of the magnitudes, and a non-zero quotient is negative exactly when the operands' signs differ |
| Int32.Sar16 | ray_tracer/ray_tracer/guiAlexandrov/draw.cpp:29-29 | `j >> 16` is an arithmetic shift: the result `r` satisfies `r * 2^16 <= j < (r + 1) * 2^16` |
| Int32.Shl16 | ray_tracer/ray_tracer/guiAlexandrov/draw.cpp:28-28 | `v << 16` has its low 16 bits zero and shifts back to `v` |
| Int32.UnsignedBelow | ray_tracer/ray_tracer/guiAlexandrov/draw.cpp:6-6 | `(uint32_t)v < bound` holds exactly when `0 <= v < bound`, so the cast clips negative coordinates too |
| Int32.DivRemainder | ray_tracer/ray_tracer/guiAlexandrov/draw.cpp:23-23 | C++ `/` leaves a remainder smaller than the divisor in magnitude, which is zero or has the dividend's sign |
| Int32.Sar16Of | ray_tracer/ray_tracer/guiAlexandrov/draw.cpp:28-29 | `((c << 16) + r) >> 16 == c` for a fraction `0 <= r < 2^16`, which covers the start value `0x8000 + (x << 16)` |
| Int32.Sar16Close | ray_tracer/ray_tracer/guiAlexandrov/draw.cpp:28-30 | accumulator values at most 1.0 apart shift to integers at most 1 apart |
| Raster.Canvas.constructor | ray_tracer/ray_tracer/guiAlexandrov/canvas.cpp:45-52 | a surface of `width * height` cells, the count the indexing check admits; its initial contents are a parameter |
| Raster.Coordinates | ray_tracer/ray_tracer/guiAlexandrov/canvas.cpp:62-66 | every cell admitted by the indexing check is the cell of the in-bounds pixel `(k % width, k / width)` |
| Raster.CellOf | ray_tracer/ray_tracer/guiAlexandrov/draw.cpp:7-7 | cell `y * width + x` of an in-bounds pixel belongs to that pixel and no other |
| Pixel.PutPixel | ray_tracer/ray_tracer/guiAlexandrov/draw.cpp:4-8 | an in-bounds pixel's own cell takes the colour, all other cells are unchanged, and an off-grid pixel changes nothing |
| Pixel.DrawPixel | ray_tracer/ray_tracer/guiAlexandrov/draw.cpp:4-8 | the unsigned-cast clip followed by the write leaves the surface as `PutPixel` describes |
| Pixel.PlotAll | ray_tracer/ray_tracer/guiAlexandrov/draw.cpp:25-54 | the cells after `drawPixel` on each point of a sequence, in order, keep the surface size; `PlotAllSnoc` and `PlotAllCell` state which cells change |
| Pixel.PlotAllSnoc | ray_tracer/ray_tracer/guiAlexandrov/draw.cpp:29-30 | plotting one more point is one more `drawPixel` on the result so far |
| Pixel.PlotAllPrefix | ray_tracer/ray_tracer/guiAlexandrov/draw.cpp:28-30 | plotting the first `k + 1` points of a line is plotting the first `k` and then one `drawPixel` of point `k`, which is what each loop iteration does |
| Pixel.PlotAllCell | ray_tracer/ray_tracer/guiAlexandrov/draw.cpp:25-54 | after a run of `drawPixel` calls, exactly the cells of in-bounds points hold the colour and every other cell is unchanged, so nothing is written outside the surface |
| Line.Prepare | ray_tracer/ray_tracer/guiAlexandrov/draw.cpp:12-23 | the locals `drawLine` computes: y is the major axis exactly when its extent is strictly larger, `abs(shortLen) <= abs(longLen)` after the swap, and `decInc` is 0 on a zero-length line |
| Line.Acc | ray_tracer/ray_tracer/guiAlexandrov/draw.cpp:28-30 | the accumulator `j` at the k-th point; it starts at `0x8000 + (minor << 16)`, which shifts back to the minor start coordinate |
| Line.PrepareBounds | ray_tracer/ray_tracer/guiAlexandrov/draw.cpp:12-23 | y is the major axis exactly when its extent is strictly larger (ties go to x); `longLen` and `shortLen` are the matching deltas; `abs(longLen)` is the larger extent; `abs(shortLen) <= abs(longLen)`; `shortLen << 16` fits 32 bits; `abs(decInc) <= 65536`; `decInc == 0` when `longLen == 0` |
| Line.DecIncBound | ray_tracer/ray_tracer/guiAlexandrov/draw.cpp:22-23 | `(shortLen << 16) / longLen` is at most 65536 in magnitude when `abs(shortLen) <= abs(longLen)` |
| Line.AccNext | ray_tracer/ray_tracer/guiAlexandrov/draw.cpp:30-30 | each point advances the accumulator by one `decInc`, added when stepping up and subtracted when stepping down |
| Line.MinorBetween | ray_tracer/ray_tracer/guiAlexandrov/draw.cpp:28-31 | the minor coordinate of every point lies between the minor coordinates of the two endpoints |
| Line.AccInRange | ray_tracer/ray_tracer/guiAlexandrov/draw.cpp:28-31 | the accumulator `j` stays within 32 bits, including after the increment that follows the last point |
| Line.Point | ray_tracer/ray_tracer/guiAlexandrov/draw.cpp:25-54 | every plotted point lies in the box spanned by the two endpoints |
| Line.Points | ray_tracer/ray_tracer/guiAlexandrov/draw.cpp:25-54 | the line has `max(abs(dx), abs(dy)) + 1` points, starts at `(x, y)`, ends at `(x2, y2)`, and stays inside the endpoints' box |
| Line.FirstPoint | ray_tracer/ray_tracer/guiAlexandrov/draw.cpp:28-29 | the first plotted point is the start point |
| Line.LastPoint | ray_tracer/ray_tracer/guiAlexandrov/draw.cpp:25-54 | the last plotted point is the end point: the truncation error of `decInc` is absorbed by the half-pixel offset |
| Line.Connected | ray_tracer/ray_tracer/guiAlexandrov/draw.cpp:25-54 | consecutive points are 8-neighbours: the major coordinate moves by exactly one towards the end point, the minor one by at most one |
| Line.LongLineMissesEnd | ray_tracer/ray_tracer/guiAlexandrov/draw.cpp:42-47 | `drawLine(-43000, 0, 691, 2)` keeps every intermediate within 32 bits, yet with `decInc == 2` its 43691st step lands the minor coordinate on 1, so the last point is `(691, 1)` and not the end point |
| Line.ZeroLength | ray_tracer/ray_tracer/guiAlexandrov/draw.cpp:50-54 | a line whose two ends coincide plots exactly one pixel, at that point |
| Line.StepFacts | ray_tracer/ray_tracer/guiAlexandrov/draw.cpp:25-54 | point `k` is `(j >> 16, major)` or `(major, j >> 16)` for the current accumulator, both coordinates fit 32 bits, and the next accumulator fits too |
| Line.StepYUp | ray_tracer/ray_tracer/guiAlexandrov/draw.cpp:26-33 | the `++y` loop plots exactly `Points`, in order |
| Line.StepYDown | ray_tracer/ray_tracer/guiAlexandrov/draw.cpp:34-39 | the `--y` loop plots exactly `Points`, in order |
| Line.StepXUp | ray_tracer/ray_tracer/guiAlexandrov/draw.cpp:42-48 | the `++x` loop plots exactly `Points`, in order |
| Line.StepXDown | ray_tracer/ray_tracer/guiAlexandrov/draw.cpp:50-54 | the `--x` loop plots exactly `Points`, in order |
| Line.DrawLine | ray_tracer/ray_tracer/guiAlexandrov/draw.cpp:10-55 | `drawLine` leaves the surface as `PlotAll` of `Points`: each point through `drawPixel`, in order |
| Rect.Filled | ray_tracer/ray_tracer/guiAlexandrov/draw.cpp:77-87 | the filled-rectangle specification keeps the surface size |
| Rect.FilledPixel | ray_tracer/ray_tracer/guiAlexandrov/draw.cpp:77-87 | after a fill, an in-bounds pixel inside the rectangle holds the colour and every other pixel keeps its colour |
| Rect.FilledEmpty | ray_tracer/ray_tracer/guiAlexandrov/draw.cpp:83-84 | an empty rectangle (non-positive width or height) changes nothing |
| Rect.ExtendRun | ray_tracer/ray_tracer/guiAlexandrov/draw.cpp:84-85 | drawing pixel `(x, y)` extends a filled run `[fromX, x)` of row `y` by one pixel |
| Rect.ExtendRows | ray_tracer/ray_tracer/guiAlexandrov/draw.cpp:83-85 | one more filled row extends the filled block by that row |
| Rect.ExtendStrips | ray_tracer/ray_tracer/guiAlexandrov/draw.cpp:77-87 | filling two adjacent strips fills their union |
| Rect.StripFrom | ray_tracer/ray_tracer/guiAlexandrov/draw.cpp:79-80 | the strip edge `x0 + i * width / n` (truncating): the first strip starts at `x0` and the last one ends at `x0 + width` |
| Rect.ScaledQuotients | ray_tracer/ray_tracer/guiAlexandrov/draw.cpp:79-80 | for `width >= 0`, `i * width / n` grows with `i` from 0 to `width` |
| Rect.StripsOrdered | ray_tracer/ray_tracer/guiAlexandrov/draw.cpp:79-80 | strip edges are monotone from `x0` to `x0 + width`; for a negative width every strip is empty |
| Rect.StripsDisjoint | ray_tracer/ray_tracer/guiAlexandrov/draw.cpp:79-80 | no column lies in two strips |
| Rect.StripsCover | ray_tracer/ray_tracer/guiAlexandrov/draw.cpp:79-80 | for `width >= 0`, every column of `[x0, x0 + width)` lies in some strip |
| Rect.StripAfter | ray_tracer/ray_tracer/guiAlexandrov/draw.cpp:79-80 | a column at or after the start of strip `lo` and before the end of the last strip lies in some strip from `lo` on |
| Rect.FillStrip | ray_tracer/ray_tracer/guiAlexandrov/draw.cpp:82-86 | one worker's nested loops fill exactly the in-bounds pixels of its strip over rows `[y0, y0 + height)` |
| Rect.DrawFilledRect | ray_tracer/ray_tracer/guiAlexandrov/draw.cpp:67-91 | the strips together fill exactly the in-bounds pixels of `[x0, x0 + width) x [y0, y0 + height)`; every other cell is unchanged |
| Assoc.Find | ray_tracer/ray_tracer/guiAlexandrov/window.cpp:24-24 | `std::find_if` yields the first position holding the key, or the end when no entry holds it |
| Assoc.FindAt | ray_tracer/ray_tracer/guiAlexandrov/window.cpp:24-24 | a position preceded only by other keys and holding the key is the one the search returns |
| Assoc.Lookup | ray_tracer/ray_tracer/guiAlexandrov/window.cpp:22-26 | the value of the first entry with the key, or the default when there is none |
| Assoc.EraseFirst | ray_tracer/ray_tracer/guiAlexandrov/window.cpp:28-33 | erase shortens the list by one when the key is present and leaves it unchanged when it is absent |
| Assoc.CutShape | ray_tracer/ray_tracer/guiAlexandrov/window.cpp:32-32 | `vector::erase` at a position keeps the entries before it and shifts those after it down by one |
| Assoc.CutMultiset | ray_tracer/ray_tracer/guiAlexandrov/window.cpp:32-32 | `vector::erase` at a position removes exactly one occurrence of that entry |
| Assoc.EraseFirstShape | ray_tracer/ray_tracer/guiAlexandrov/window.cpp:28-33 | `remove` cuts out exactly the first entry for the key and keeps the order of the rest |
| Assoc.EraseFirstMultiset | ray_tracer/ray_tracer/guiAlexandrov/window.cpp:28-33 | `remove` drops one occurrence of the erased entry and no other |
| Assoc.LookupAppend | ray_tracer/ray_tracer/guiAlexandrov/window.cpp:17-26 | after `add`, a lookup returns an older entry for the key if one exists, else the new value if the key matches, else the default |
| Assoc.LookupEraseOther | ray_tracer/ray_tracer/guiAlexandrov/window.cpp:22-33 | erasing one key leaves the lookup of every other key unchanged |
| Assoc.EraseFirstAppend | ray_tracer/ray_tracer/guiAlexandrov/window.cpp:17-33 | removing a key that was absent before and has just been added gives back the previous list |
| Assoc.EraseFirstUnique | ray_tracer/ray_tracer/guiAlexandrov/window.cpp:49-55 | with unique keys, erasing a key removes it entirely and keeps the keys unique |
| Window.Arguments.constructor | ray_tracer/ray_tracer/guiAlexandrov/window.cpp:13-15 | a new registry is empty |
| Window.Arguments.Add | ray_tracer/ray_tracer/guiAlexandrov/window.cpp:17-20 | `add` appends the entry at the end. `get` of that handle then returns the new args unless the handle already had an entry. Every other handle's `get` is unchanged |
| Window.Arguments.Get | ray_tracer/ray_tracer/guiAlexandrov/window.cpp:22-26 | `get` returns the args of the first entry for the handle, or `{NULL, NULL}` when none has it; the buffer is only read |
| Window.Arguments.Remove | ray_tracer/ray_tracer/guiAlexandrov/window.cpp:28-33 | `remove` erases only the first entry for the handle, keeping the order of the rest. It does nothing when the handle is absent. Every other handle's `get` is unchanged |
| Window.IdsBelowCount | ray_tracer/ray_tracer/guiAlexandrov/window.cpp:40-47 | strictly increasing ids below `gen_id` number at most `gen_id` |
| Window.IdsUnique | ray_tracer/ray_tracer/guiAlexandrov/window.cpp:43-47 | ids issued in increasing order are unique |
| Window.AddFacts | ray_tracer/ray_tracer/guiAlexandrov/window.cpp:43-47 | storing a handle under `gen_id` keeps the ids increasing and below the advanced generator. The new id was absent before and now yields the handle. Every other id yields what it did |
| Window.RemoveFacts | ray_tracer/ray_tracer/guiAlexandrov/window.cpp:49-55 | erasing a present id keeps the ids increasing. That id then yields nothing, every other id yields what it did, and one entry fewer remains |
| Window.HandleContainer.constructor | ray_tracer/ray_tracer/guiAlexandrov/window.cpp:40-41 | a new table is empty and `gen_id` is 0 |
| Window.HandleContainer.At | ray_tracer/ray_tracer/guiAlexandrov/window.cpp:57-65 | `operator[]` returns the handle stored under the id, or `NULL` when the id is absent; the table is only read |
| Window.HandleContainer.Size | ray_tracer/ray_tracer/guiAlexandrov/window.cpp:67-67 | `size()` is the number of stored entries, which never exceeds the number of ids issued |
| Window.HandleContainer.Add | ray_tracer/ray_tracer/guiAlexandrov/window.cpp:43-47 | `add` stores the handle under the old `gen_id`, returns that id and increments `gen_id`. The id is above every id stored so far, so it is never reused. `operator[]` on it yields the handle, every other id is unchanged, and `size()` grows by one |
| Window.HandleContainer.Remove | ray_tracer/ray_tracer/guiAlexandrov/window.cpp:49-55 | for a present id, `remove` erases exactly that entry and removes the first `arguments` entry for its handle. `operator[]` on the id then yields `NULL`, every other id keeps its handle, and `size()` shrinks by one |

## Left out

- The Win32 calls `DestroyWindow` and `GetClientRect` and the `BITMAPINFO` header are external. `HandleContainer.Remove` does not model the window's destruction.
- `HWND_constainer::remove` uses the global `arguments` registry. Here it is an explicit parameter of `HandleContainer.Remove`.
- `HWND` and `void*` are opaque values with a null value. Pointer identity and the objects they point to are not modelled.
- The thread pool of `draw_filled_rect` is not modelled. That covers `workers.add_task`, the futures, and the join over all `MAX_THREADS` slots (`draw.cpp:89-90`). The strips are filled one after another. In the source they are filled concurrently, and their cells are disjoint (`Rect.StripsDisjoint`).
- Float scaling is not modelled. `fdraw_line` and the float-to-int conversions at the top of `draw_filled_rect` (`draw.cpp:57-64`, `69-73`) are left out. `Rect.DrawFilledRect` takes integer `x0`, `y0`, `width`, `height` and the worker count `n > 0` directly.
- The `Image` overloads of the three drawing routines (`draw.cpp:97-184`) are textual duplicates of the `Canvas` ones. They are modelled once.
- `Canvas::resize` leaves the new cells uninitialised (`new Color[size]` with a defaulted `Color()` constructor). `Raster.Canvas.constructor` takes their contents as the parameter `initial`, and every drawing contract is stated relative to whatever the cells held before.
- `Canvas::resize` allocates `whole_size * sizeof(unsigned int)` colours, four times the cells it uses. The model holds exactly `whole_size` cells, which is all that the indexing check admits.
- `Color`'s arithmetic operators and the ray tracer are not modelled.
- Line.DrawLine: requires both endpoints within `[-2^14, 2^14)` (`Line.EndpointsFit`). That bound is sufficient for every 32-bit intermediate (`x << 16`, `shortLen << 16` and the accumulator, including its last unused increment) to fit, but it is not necessary: only the minor start coordinate and `shortLen` are shifted. The source also accepts some calls outside the bound, but its defined domain has several irregular edges, for example `abs(INT_MIN)` at `draw.cpp:15` when a delta is `INT_MIN`. The model does not describe calls outside the bound.
- Line.Points: the end-point property `ps[|ps| - 1] == (x2, y2)` relies on the bound above, which keeps `abs(longLen) <= 2^15`. With more than 32768 steps the truncation error of `decInc` can exceed the `0x8000` offset, and the source then misses the end point although nothing overflows. `Line.LongLineMissesEnd` exhibits `drawLine(-43000, 0, 691, 2)`, whose last point is `(691, 1)`.
- Line.DrawLine: a line whose major end coordinate is `INT_MAX` (stepping up) or `INT_MIN` (stepping down) is not modelled. The loop test `x <= longLen` (or `y <= longLen`, `>=` when stepping down) at `draw.cpp:28`, `35`, `44` and `51` then never fails, and the `++`/`--` overflows, so the source does not terminate. An example is `drawLine(s, 0, 0, INT_MAX, 0)`. `Line.EndpointsFit` keeps the end coordinates far from both limits, which is why every loop of the model terminates.
- Rect.DrawFilledRect: describes the fill for any worker count `n > 0`. The source returns normally only when `workers.size == MAX_THREADS` (2, `main.cpp:2`). The join at `draw.cpp:89-90` calls `get()` on all `MAX_THREADS` futures, so with fewer workers it calls `get()` on a future that was never assigned. With more workers, `res[i] = …` at `draw.cpp:82` writes past the end of `res`. The join and these failures are not modelled.
- Rect.DrawFilledRect: requires `x0 + width`, `y0 + height` and `n * width` to fit 32 bits. The source computes these in `int`, and an overflow is undefined behaviour.
- Window.HandleContainer.Add: `gen_id` is an unbounded integer. The source's 32-bit `int` would overflow after 2^31 additions.
- Window.HandleContainer.Size: `size()` converts `handles.size()` to `int`. The model returns the length itself.
- `<< 16` on a negative value is modelled as multiplication by 65536, and `>> 16` as floor division by 65536 (an arithmetic shift). That is what the target compilers do.
