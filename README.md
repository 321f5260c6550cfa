# Sticker Sketchpad: drawing-command history

A Dafny model of the drawing core of "Brian's Sticker Sketchpad" (`src/main.ts`).
The page keeps three pieces of module-level state:
- `strokes`: the committed strokes, in drawing order.
- `redoStack`: the undone strokes, the most recently undone on top.
- `isPainting`: the pointer-drag flag.

Each stroke is a command object holding an ordered list of points. It starts
with one point and grows while the pointer is dragged. Three buttons change the
lists: undo, redo and clear. Four canvas mouse handlers change them too:
mousedown, mousemove, mouseup and mouseout. After most changes a
`drawing-changed` event makes the canvas clear itself and replay every
committed stroke.

The project has four modules:

- `Sketch` (sketch.dfy) treats the state as a value. `Pad` holds the point lists
  of the strokes, the point lists of the redo stack, and the flag. There is one
  function per handler, plus the laws that relate them: undo/redo inverse,
  conservation, clear idempotence, redo invalidation.
- `Canvas` (canvas.dfy) gives the redraw as an abstract trace of Canvas 2D calls
  (`FillRect`, `BeginPath`, `LineTo`, `StrokePath`), with lemmas on the order
  and shape of that trace.
- `Session` (session.dfy) puts the handlers into one step function over events.
  It also says what each handler draws and proves laws over whole runs of
  events. The main one: the canvas always shows the replay of the committed
  strokes.
- `App` (sketchpad.dfy) is the imperative model:
  - class `Stroke` holds a `points` field, the `createStroke` constructor, and the `Drag` and `Display` methods.
  - class `Sketchpad` holds the three fields, with one method per handler and the `drawing-changed` listener (`Redraw`).
  - Strokes are objects, as in the source. The same stroke object moves between `strokes` and `redoStack`, and `Drag` mutates it in place.
  - `Valid()` says that no stroke object appears twice in the two lists.
  - `Model()` reads the heap as a `Sketch.Pad`.
  - Each handler method states its exact new fields and proves `Model() == Sketch.X(old(Model()))`. Its returned trace equals `Session.Output`.

Drawing notifications are modelled as synchronous calls. A handler that
dispatches `drawing-changed` returns the trace of the redraw it causes. The
clear handler calls `clearCanvas()` directly and dispatches nothing, so it
returns a single full-canvas fill. `Session.StepKeepsCanvasCurrent` shows that
this fill is the same as the redraw of no strokes.

Behaviour of the code worth noting:
- The clear button does not dispatch `drawing-changed`. It also leaves `isPainting` as it was.
- Undo and redo on an empty stack do nothing and draw nothing.
- Nothing stops an undo (for example by keyboard) while the pointer is still down. The next move then extends the stroke committed before the undone one (`Sketch.MoveAfterUndoWhilePainting`). So the points of a stroke are not fixed once its pointer-up has happened.
- There are no tools, stickers, colours, tool preview or export in this code.

## Model

| member | source | states |
|---|---|---|
| Sketch.Undo | src/main.ts:83-89 | with strokes present, the old strokes are the new ones plus the last stroke, and the redo stack gains that same stroke on top; with none, nothing changes; the total count of strokes and the flag are kept |
| Sketch.Redo | src/main.ts:72-78 | with something to redo, the top of the redo stack is removed and appended to the strokes; with an empty redo stack nothing changes; total count and flag kept |
| Sketch.Clear | src/main.ts:94-98 | no stroke is left in either list; the drag flag is untouched |
| Sketch.MouseDown | src/main.ts:110-115 | painting is on, the redo stack is empty, the earlier strokes are a prefix and the one new last stroke is exactly the point (x, y) |
| Sketch.MouseMove | src/main.ts:116-121 | while painting with a stroke present: only the last stroke changes, by gaining (x, y) at its end, the redo stack is kept; when not painting or with no strokes the state is unchanged |
| Sketch.Release | src/main.ts:122-123 | mouseup and mouseout turn painting off and leave both lists as they are |
| Sketch.UndoThenRedo | src/main.ts:72-89 | on a nonempty stroke list, redo after undo restores strokes and redo stack element for element |
| Sketch.RedoThenUndo | src/main.ts:72-89 | on a nonempty redo stack, undo after redo restores the state |
| Sketch.UndoConservesStrokes | src/main.ts:83-89 | undo keeps the multiset of all strokes (committed plus undone) |
| Sketch.RedoConservesStrokes | src/main.ts:72-78 | redo keeps the multiset of all strokes |
| Sketch.ClearIdempotent | src/main.ts:94-98 | clearing twice gives the state clearing once gives |
| Sketch.MouseDownInvalidatesRedo | src/main.ts:110-115 | a redo right after a pointer-down changes nothing |
| Sketch.MoveAfterReleaseIsNoOp | src/main.ts:116-123 | after mouseup or mouseout a move changes nothing |
| Sketch.MoveAfterUndoWhilePainting | src/main.ts:116-121 | undo while the drag flag is set, then a move, extends the stroke below the undone one |
| Canvas.ClearCanvas | src/main.ts:19-21 | clearCanvas is a single fill of the whole 256 by 256 canvas |
| Canvas.DisplayOps | src/main.ts:48-54 | a stroke's display starts with a begin-path and makes two more calls per point |
| Canvas.Render | src/main.ts:63-66 | the drawing-changed redraw starts with the full-canvas fill and has one call per stroke plus two per point after it |
| Canvas.Segments | src/main.ts:50-53 | one stroke's per-point calls are two per point |
| Canvas.SegmentAt | src/main.ts:48-54 | the k-th point of a stroke is drawn by a line-to at position 2k followed by a stroke call |
| Canvas.Replay | src/main.ts:65 | the trace has one call per stroke plus two per point |
| Canvas.ReplayAppend | src/main.ts:65 | replaying two stroke lists one after the other equals replaying them joined |
| Canvas.ReplayOrder | src/main.ts:63-66 | stroke i is drawn after every earlier stroke and before every later one |
| Canvas.RenderExtendLast | src/main.ts:48-66 | the redraw after a point is added to the last stroke is the previous redraw plus exactly one line-to and one stroke call |
| Session.Step | src/main.ts:72-123 | each event runs its own handler: mousedown, mousemove, mouseup and mouseout, and the undo, redo and clear buttons; mouseup and mouseout act alike |
| Session.Output | src/main.ts:72-123 | a handler draws nothing exactly on mouseup, on mouseout, on a move while not painting, and on undo or redo with an empty list; every other event draws (the drawing-changed redraw at lines 76, 87, 114 and 119, the bare fill for clear at line 95) |
| Session.OutputStartsWithClear | src/main.ts:19-21 | every nonempty drawing a handler makes starts with the full-canvas fill |
| Session.StepKeepsCanvasCurrent | src/main.ts:62-123 | if the canvas showed the redraw of the strokes before an event, it shows the redraw of the new strokes after it |
| Session.RunKeepsCanvasCurrent | src/main.ts:62-123 | the same over every run of events |
| Session.CanvasShowsStrokes | src/main.ts:19-24 | starting from the page-load clear, after any run of events the canvas shows the redraw of the committed strokes |
| Session.RedoStaysEmpty | src/main.ts:110-115 | with an empty redo stack, no run of events without an undo makes it nonempty |
| Session.RedoAfterDownIsNoOp | src/main.ts:72-78 | after a pointer-down and any undo-free run, redo is a no-op |
| Session.RunConservesStrokeCount | src/main.ts:72-89 | runs without pointer-down or clear keep the count of committed plus undone strokes |
| Session.DragExtendsLastStroke | src/main.ts:116-121 | while painting, a run of moves appends its points in order to the last stroke and changes nothing else |
| Session.ReleasedStaysFinal | src/main.ts:116-123 | once painting has stopped, moves, ups and leaves change nothing |
| Session.OnlyLastStrokeChanges | src/main.ts:72-123 | no event changes any stroke below the last one that it keeps |
| Session.UndoRedoClearScenario | src/main.ts:72-98 | strokes [(1,1),(2,2)] and [(5,5)]: undo leaves [A] with [B] to redo, redo gives [A, B] with nothing to redo, clear gives two empty lists |
| Session.LeaveFinalizesScenario | src/main.ts:110-123 | down (10,10), move (20,20), leave, move (30,30): the stroke is [(10,10),(20,20)] and painting is off |
| App.Stroke.constructor | src/main.ts:42-47 | a new stroke's points are exactly [(x, y)] |
| App.Stroke.Drag | src/main.ts:55-57 | the points grow by one, the earlier points are unchanged and keep their order, and the new point is last |
| App.Stroke.Display | src/main.ts:48-54 | the calls made are a begin-path and a line-to plus stroke per point, in insertion order |
| App.Sketchpad.constructor | src/main.ts:37 | the page starts with no strokes, an empty redo stack and painting off |
| App.Sketchpad.GetLastStroke | src/main.ts:38-40 | null exactly when there are no strokes, otherwise the last stroke |
| App.Sketchpad.Redraw | src/main.ts:63-66 | the calls made are the canvas fill followed by each stroke's display in strokes order, a function of the strokes' points alone |
| App.Sketchpad.MoveTopToStrokes | src/main.ts:73-75 | the top object of a nonempty redo stack is popped and pushed onto the strokes; no object ends up in two places, and the model changes as Sketch.Redo |
| App.Sketchpad.Redo | src/main.ts:72-78 | the same stroke object moves from the top of the redo stack to the end of the strokes (or nothing happens); the model changes as Sketch.Redo; a redraw happens exactly when something moved |
| App.Sketchpad.MoveLastToRedo | src/main.ts:84-86 | the last object of a nonempty strokes list is popped and pushed onto the redo stack; no object ends up in two places, and the model changes as Sketch.Undo |
| App.Sketchpad.Undo | src/main.ts:83-89 | the same stroke object moves from the end of the strokes to the top of the redo stack (or nothing happens); the model changes as Sketch.Undo; a redraw happens exactly when something moved |
| App.Sketchpad.Clear | src/main.ts:94-98 | both lists are empty, the flag is kept, and the drawing made is the full-canvas fill only |
| App.Sketchpad.PushNewStroke | src/main.ts:111-113 | painting is on, a fresh one-point stroke object is appended after the kept strokes, and the redo stack is emptied; the model changes as Sketch.MouseDown |
| App.Sketchpad.MouseDown | src/main.ts:110-115 | a fresh one-point stroke is appended, the earlier strokes are kept, the redo stack is emptied, painting is on, and the canvas is redrawn |
| App.Sketchpad.DragLast | src/main.ts:118 | only the last stroke object changes, gaining (x, y) at its end; every other stroke's points and both lists are kept |
| App.Sketchpad.MouseMove | src/main.ts:116-121 | only the last stroke object may change: while painting it gains (x, y); the lists and flag are kept; a redraw happens exactly while painting |
| App.Sketchpad.MouseUp | src/main.ts:122 | painting is off, both lists are unchanged, and nothing is drawn, as Session.Output says for Up |
| App.Sketchpad.MouseOut | src/main.ts:123 | painting is off, both lists are unchanged, and nothing is drawn, as Session.Output says for Out |
| App.UndoThenRedoRestores | src/main.ts:72-89 | undo then redo leaves the very same stroke objects in both lists, in the same order, with the flag unchanged |

## Left out

- Page construction: the title, heading, buttons, the controls `div` and the `appendChild` calls. These are DOM plumbing and hold no logic.
- Getting the canvas context and the exception thrown when there is none. This is a host call; the model assumes a context exists.
- Pixels. Fills, lines and strokes are kept only as an abstract trace of calls. The fill style (white) and stroke style (`#792de6`) are set once and never change, so the trace leaves them out.
- The `Event`/`dispatchEvent`/`addEventListener` bus. A dispatch is modelled as a synchronous redraw whose trace the handler returns, and registration is not modelled.
- The stylesheet import.
- Coordinates are `int`. The source copies `offsetX`/`offsetY`, which are JavaScript numbers, and never computes with them.
