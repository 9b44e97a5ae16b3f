# pygame demos: a verified model

A model of the logic of a collection of small pygame demos, and proofs about it.
The two main demos are the visibility-graph pathfinder and the point quadtree.
The smaller ones are the battleship game, the DHT22 temperature logger, the multi-line text entry, the keypad calculator, the colour picker, the word-wrapping text box and the resizable window template.
Drawing, fonts, event polling, hardware and randomness are parameters or are left out; what each module reads from them is stated under "Left out".

Modules, one per demo plus three shared ones:

- `Wrappers` (wrappers.dfy): `Option` and `Result`.
- `Seqs` (seqs.dfy): sequences without repeats, and the order-keeping filter that list comprehensions and "kill in a loop" perform.
- `Rects` (rects.dfy): integer points and pygame `Rect`s. `collidepoint` is the half-open test and `colliderect` a positive-area overlap.
- `Lines` (lines.dfy): the `Line` helper of pathfinding.py. Segment/segment and segment/rectangle intersection in exact rational arithmetic.
- `Graphs` (graphs.dfy): successor lists, walks and simple paths. It holds the invariant of a breadth-first search, the breadth-first dequeue order (unique for a graph and a start, with each node's parent its first lister in that order) and the level-order enumeration of simple paths that `find_paths`' queue performs.
- `Pathfinding` (pathfinding.py): the `Game` class with its nodes, walls and mouse rules. It also covers `Node.find_neighbors`, `breadth_first_search` and `find_paths`. Nodes are ids handed out in creation order, and a killed node keeps its id and its last neighbour list.
- `Quadtrees` (quadtrees.py): the capacity-bounded point quadtree. It covers insert with subdivision, the range query and the per-frame rebuild.
- `Battleships` (battleships.py):
  - the state chain and placing the player's fleet with the mouse;
  - placing the enemy fleet at random;
  - the enemy's seek and return moves;
  - counting hits and sinking ships.
  The game is played on grid cells; pixel rectangles are not modelled.
- `Dht22` (DHT22_with_oled.py): the `Button` edge detector, the task list the main loop ticks, and the rules of the two buttons.
- `EnterText` (enter_text.py): the line editor and the cursor timer.
- `Calculator` (calculator.py): the arithmetic helpers, the press rules of `Button.update`, `place_button` and `get_result`. `eval` is a parameter.
- `Numerals` and `Colors` (color_picker.py):
  - `constrain` and `rgb_to_hex`, with the `#RRGGBB` form of section 5.2 of CSS Color Module Level 4;
  - the sliders, the text fields and `ColorPicker.update`.
- `Textbox` (textbox_demo.py): the greedy word wrap of `render_text`. The font's width measure is a parameter.
- `ScreenResize` (template_game_screen_resize.py): the letterbox size computation and the window flag toggles.

Where the source updates objects in place, the model is a class whose methods are proved against functions of the old state. Pure logic is modelled as functions and lemmas.

## Model

| member | source | states |
|---|---|---|
| Rects.TruncHalf | quadtrees.py:75-78 | `int(n / 2)` truncates toward zero: twice the result is within one of n, and it is n // 2 for n >= 0 |
| Rects.CenteredAt | textbox_demo.py:71 | setting `rect.center` keeps the size and puts the centre, read back as `(x + w // 2, y + h // 2)`, at the point for every size |
| Rects.DisjointRectsSeparatePoints | quadtrees.py:109-110 | a point inside a boundary that the query rectangle does not overlap is outside the query rectangle |
| Rects.CollideRectSymmetric | quadtrees.py:109 | `colliderect` does not depend on the order of the rectangles |
| Lines.SidesOf | pathfinding.py:416-422 | four sides, each starting where the previous one ends, closing the rectangle |
| Lines.IntersectsLineIff | pathfinding.py:394-413 | the float test `0 <= num / den <= 1` for both parameters is decided exactly by integer comparisons |
| Lines.IntersectsLineSymmetric | pathfinding.py:394-413 | swapping the two segments does not change the answer |
| Lines.IntersectsLineMeaning | pathfinding.py:394-413 | a reported intersection is exactly a non-zero denominator plus a point the two segments share |
| Lines.ReportedMeansShared | pathfinding.py:407-413 | the parameters uA and uB of a reported intersection name a point on both segments |
| Lines.SharedPointParameters | pathfinding.py:407-413 | every common point of non-parallel segments is found at uA, uB in [0, 1], so it is reported |
| Lines.CollinearOverlapNotReported | pathfinding.py:402-404 | two overlapping collinear segments share points yet are never reported |
| Lines.InsideSegmentNotReported | pathfinding.py:425-431 | a segment strictly inside a rectangle crosses none of its sides |
| Lines.IntersectsLineReversed | pathfinding.py:394-413 | reversing the first segment does not change the answer |
| Lines.IntersectsRectReversed | pathfinding.py:425-431 | a ray from A to B crosses a rectangle exactly when the ray from B to A does |
| Textbox.Split | textbox_demo.py:92 | `str.split(' ')` gives at least one piece and no piece holds a space |
| Textbox.JoinSplit | textbox_demo.py:92 | joining the pieces with single spaces gives the text back |
| Textbox.SplitJoin | textbox_demo.py:92 | splitting words joined with single spaces gives the words back |
| Textbox.WrapCount | textbox_demo.py:93-121 | each word adds at most two lines, and once the last word is met there is at least one line |
| Textbox.LinesCount | textbox_demo.py:87-121 | every text renders to at least one line and at most two per word |
| Textbox.WideFirstWord | textbox_demo.py:107-112 | a first word too wide for the box is preceded by an empty line |
| Textbox.WrapKeepsText | textbox_demo.py:93-121 | when no earlier word equals the last word, the lines spell the pending text and the words with their spaces |
| Textbox.LinesKeepText | textbox_demo.py:87-121 | when the last word is not repeated, the rendered lines spell the text |
| Textbox.RepeatedLastWord | textbox_demo.py:99 | with the last word repeated, "a a" renders as the lines "a" and "a", which do not spell the text |
| Textbox.WrapByPositionKeepsText | textbox_demo.py:93-121 | a layout that takes the last word by its position keeps every text, repeats included |
| Textbox.WrapAgreesByPosition | textbox_demo.py:99 | that layout and the source's agree whenever the last word is not repeated |
| Textbox.Textbox.constructor | textbox_demo.py:64-85 | the text is stored and there are no lines yet |
| Textbox.RenderedKeepsText | textbox_demo.py:87-121 | with the last word taken by position, the lines of every text spell the text |
| Textbox.Textbox.RenderText | textbox_demo.py:87-121 | the loop leaves exactly the lines of the greedy word wrap with the last word taken by its position, and they spell the text |
| Calculator.ArithmeticInverses | calculator.py:19-29 | subtract undoes add, multiply undoes divide, and dividing by zero fails |
| Calculator.AddAppend | calculator.py:19-20 | `sum` over a concatenation adds the sums of the parts |
| Calculator.NonDigitNeedsDigits | calculator.py:170-175 | a non-digit press fails with ValueError exactly when the display it reads has no digits, which is always the case just after a solved equation |
| Calculator.OperandAfterOperator | calculator.py:173-174 | the digits read from "op " plus typed digits are those digits |
| Calculator.TypeDigits | calculator.py:170-171 | typing digits appends them to the display and changes nothing else |
| Calculator.TwoOperands | calculator.py:158-190 | typing a, an operator, b and '=' from a cleared calculator hands eval " a op b", shows its result, records both numbers and marks the equation solved |
| Calculator.SecondOperand | calculator.py:158-190 | the same run once the first operand is on the display |
| Calculator.TypeThenEquals | calculator.py:170-181 | typing the second operand and '=' evaluates the cache plus the display |
| Calculator.PressAllCons | calculator.py:158-190 | a run of presses is its first press, then the rest on its result unless it failed |
| Calculator.OperatorStep | calculator.py:173-190 | an operator press moves the display into the cache, records the number and shows "op " |
| Calculator.EqualsStep | calculator.py:177-181 | '=' evaluates the cache plus the display and marks the equation solved |
| Calculator.PressAllAppend | calculator.py:158-190 | two runs of presses compose, stopping at the first failure |
| Calculator.OperationsMembers | calculator.py:91-93 | get_result keeps exactly the cache characters that are neither spaces nor digits |
| Calculator.Registered | calculator.py:158-163 | one verdict per frame of a held button |
| Calculator.FirstRegisteredLate | calculator.py:159-163 | the first registered frame comes once the timer has passed the delay |
| Calculator.RegisteredApart | calculator.py:159-163 | two registered presses of a button are more than 10 frames apart |
| Calculator.ButtonsApart | calculator.py:83-88 | buttons on different rows, or on columns that do not meet, never overlap |
| Calculator.Button.Place | calculator.py:154-155 | the top-left corner moves and the size stays |
| Calculator.Button.Update | calculator.py:158-190 | the timer resets on a registered press and counts up otherwise; the calculator's state is exactly one press's effect, or unchanged |
| Calculator.Calculator.PlaceButton | calculator.py:83-88 | the button moves to its grid cell and is appended to the list |
| Calculator.Button.constructor | calculator.py:137-145 | the button keeps its label, gets a rectangle of its size at the origin and a zero timer |
| Calculator.Calculator.constructor | calculator.py:41-55 | an empty display and cache, no numbers, not solved, and no buttons yet |
| Quadtrees.QuadrantWithin | quadtrees.py:72-85 | every child rectangle lies inside its parent's boundary |
| Quadtrees.EvenQuadrantsCover | quadtrees.py:72-85 | with even sides the four children tile the boundary |
| Quadtrees.OddWidthLeavesStrip | quadtrees.py:75-85 | with an odd width the truncated halves leave the last column in no child |
| Quadtrees.Empty | quadtrees.py:62-69 | a new node is valid and holds nothing |
| Quadtrees.Subdivide | quadtrees.py:72-87 | the node becomes divided and valid, with its own sprites and contents unchanged |
| Quadtrees.Insert | quadtrees.py:90-102 | the answer is whether the sprite is taken; the contents grow by it exactly then; a point outside is refused with the tree unchanged; a node with room appends it |
| Quadtrees.SubdivideAccepts | quadtrees.py:98-99 | dividing a full node does not change which points it takes |
| Quadtrees.InsertIntoChildren | quadtrees.py:101-102 | the short-circuit `or` stores the sprite in at most one child, and does so exactly when some child takes it |
| Quadtrees.Offer | quadtrees.py:101-102 | a child is offered the sprite only if no earlier child took it |
| Quadtrees.AcceptsOfDivided | quadtrees.py:101-102 | a full, divided node takes a point of its boundary exactly when one of its children does |
| Quadtrees.ChildrenNarrower | quadtrees.py:75-85 | children of a node that holds a point are narrower, so insert terminates |
| Quadtrees.Query | quadtrees.py:105-122 | the found list grows by exactly the stored sprites inside the rectangle, in visiting order |
| Quadtrees.QueryRect | quadtrees.py:105-107 | a query with no list returns exactly the stored sprites inside the rectangle |
| Quadtrees.AppendWithin | quadtrees.py:112-114 | the loop appends the node's own sprites inside the rectangle |
| Quadtrees.MissedQueryEmpty | quadtrees.py:109-110 | a rectangle that misses the boundary holds no stored sprite |
| Quadtrees.ContentsInBoundary | quadtrees.py:91-95 | every stored sprite lies inside the root's boundary |
| Quadtrees.BuildTree | quadtrees.py:170-174 | the per-frame tree is valid, holds only given sprites, and holds all of those in the window when they fit in one node |
| Quadtrees.BuiltTree | quadtrees.py:170-174 | the loop invariant of the rebuild gives BuildTree's promise |
| Quadtrees.InsertKeepsBuilding | quadtrees.py:173-174 | inserting the next sprite keeps that invariant |
| Quadtrees.PointsInTree | quadtrees.py:200 | the whole-window query counts every stored sprite |
| Graphs.BfsInit | pathfinding.py:186-189 | the start alone, with no parent, at distance 0, is a valid search state |
| Graphs.BfsDiscover | pathfinding.py:193-196 | queueing an undiscovered successor of the head with the head as parent keeps the search state |
| Graphs.BfsFinishHead | pathfinding.py:191-196 | once all of the head's successors are discovered, dequeuing it keeps the search state |
| Graphs.BfsComplete | pathfinding.py:191-196 | with an empty frontier every node reachable from the start has been discovered |
| Graphs.DiscoveredIsReachable | pathfinding.py:188-196 | a finished search discovers exactly the nodes reachable from the start |
| Graphs.PathToDiscovered | pathfinding.py:198-204 | following came_from back from a discovered node gives a path from the start of its breadth-first distance |
| Graphs.VisitSuccessors | pathfinding.py:192-196 | one dequeue step keeps the search state; came_from gains exactly the parents Discover gives, in candidate order, and the queue loses its head and gains exactly the nodes Queued lists, behind the old frontier |
| Graphs.VisitOne | pathfinding.py:194-196 | one candidate, if undiscovered, is queued with the head as its parent |
| Graphs.DiscoverStep | pathfinding.py:193-196 | one more visited candidate extends came_from and the queue as Discover and Queued give |
| Graphs.FirstLister | pathfinding.py:191-193 | the first position in a dequeue order whose successor list holds v, or the length of the order when none does |
| Graphs.IndexOf | pathfinding.py:193 | the first position of a node in a successor list |
| Graphs.OrderInit | pathfinding.py:186-189 | the start alone is a dequeue order, with came_from holding only the start |
| Graphs.OrderVisitOne | pathfinding.py:193-196 | visiting one candidate appends it to the order exactly when it is undiscovered, with the head as its first lister and parent |
| Graphs.OrderStep | pathfinding.py:191-196 | one dequeue keeps the order state: the nodes Queued lists are appended with Discover's parents, which are their first listers |
| Graphs.OrderAfterVisit | pathfinding.py:191-196 | after VisitSuccessors the frontier is still the tail of the order past the dequeued nodes |
| Graphs.OrderDone | pathfinding.py:191-196 | when every node of the order has been dequeued, the order is a breadth-first order and each parent is the first lister of its child |
| Graphs.BfsOrderUnique | pathfinding.py:191-196 | a graph and a start determine the breadth-first order: two of them are equal |
| Graphs.TreePath | pathfinding.py:197-205 | a path that follows came_from, where parents are first listers, has each node's first lister as its predecessor |
| Graphs.ChildrenWithSound | pathfinding.py:220-224 | each queued extension is the path plus one candidate not already on it |
| Graphs.ChildrenWithComplete | pathfinding.py:220-224 | every candidate not on the path gives a queued extension |
| Graphs.SortByLength | pathfinding.py:225 | `sorted(paths, key=len)` is sorted by length and a permutation of its input |
| Graphs.InsertByLength | pathfinding.py:225 | one insertion step of the stable sort keeps the order and adds exactly the path |
| Graphs.LevelSound | pathfinding.py:214-224 | every path of length k+1 the queue produces is a simple walk from the start |
| Graphs.LevelComplete | pathfinding.py:214-224 | every simple walk from the start of that length is produced |
| Graphs.LastLevelEmpty | pathfinding.py:214-224 | no simple path is longer than the number of nodes, so the queue runs dry |
| Graphs.OrderSorted | pathfinding.py:214-224 | the queue hands out paths by nondecreasing length |
| Graphs.OrderMembers | pathfinding.py:214-224 | the paths dequeued are exactly the simple paths from the start |
| Graphs.OrderIsFixpoint | pathfinding.py:212-224 | the dequeue order is the start path followed by the children of every dequeued path |
| Graphs.EndingAtMembers | pathfinding.py:216-218 | the kept paths are exactly the dequeued ones whose last node is the goal |
| Graphs.SortSortedIsIdentity | pathfinding.py:225 | the stable sort leaves an already sorted list unchanged |
| Graphs.AllPathsCorrect | pathfinding.py:208-225 | find_paths returns exactly the simple paths from start to goal, sorted by length, each once when no neighbour list repeats a node, and nothing when the goal is unreachable |
| Graphs.AllPathsUnsorted | pathfinding.py:225 | the final sort changes nothing |
| Graphs.AllPathsMembers | pathfinding.py:208-225 | the kept paths are exactly the simple paths from start to goal |
| Graphs.UpToNoDup | pathfinding.py:220-224 | with duplicate-free neighbour lists the queue never holds a path twice |
| Pathfinding.NodeRect | pathfinding.py:322-325 | a node's rect is 20 by 20, centred on its position, and contains it |
| Pathfinding.VisibilityGraph | pathfinding.py:334-351 | every node gets a neighbour list |
| Pathfinding.VisibleFromMeaning | pathfinding.py:334-351 | b is a neighbour of a exactly when b is another live node and the ray a-b meets no wall and no third node's rect; a is never its own neighbour and no neighbour is listed twice |
| Pathfinding.BlockedMeaning | pathfinding.py:340-348 | a ray is blocked exactly when it crosses some wall or the rect of some live node other than its ends |
| Pathfinding.BlockedSymmetric | pathfinding.py:340-348 | the ray a-b is blocked exactly when the ray b-a is |
| Pathfinding.VisibilitySymmetric | pathfinding.py:334-351 | visibility between live nodes is mutual |
| Pathfinding.HitsAnyMeaning | pathfinding.py:342-344 | the wall loop sets `intersects` exactly when some rect is crossed |
| Pathfinding.HitsThirdNodeWitness | pathfinding.py:345-348 | a crossed third-node rect belongs to a node other than either end |
| Pathfinding.ClearOfWallMembers | pathfinding.py:371-374 | a new wall kills exactly the nodes whose rects it overlaps |
| Pathfinding.ClearOfWallKeeps | pathfinding.py:371-374 | the survivors are live nodes, each once |
| Pathfinding.NotUnderMouseMembers | pathfinding.py:135-139 | a right click kills exactly the nodes under the mouse |
| Pathfinding.NotUnderMouseKeeps | pathfinding.py:135-139 | the survivors are live nodes, each once, none under the mouse |
| Pathfinding.WallsNotUnderMembers | pathfinding.py:377-381 | a right click removes exactly the walls under the mouse |
| Pathfinding.WallFromDragNormalises | pathfinding.py:113-129 | a wall is placed exactly when both sides of the drag exceed 2, and then its corner is the top-left of the drag with the absolute sizes |
| Pathfinding.WallFromDragSymmetric | pathfinding.py:113-129 | dragging from A to B places the same wall as dragging from B to A |
| Pathfinding.DraggedWall | pathfinding.py:113-130 | at most one wall, only on a middle release, with both sides above 2 |
| Pathfinding.RayBlocked | pathfinding.py:340-348 | the two loops compute exactly whether the ray is blocked |
| Pathfinding.RayHitsWalls | pathfinding.py:341-344 | the wall loop computes whether any wall is crossed |
| Pathfinding.RayHitsNodes | pathfinding.py:345-348 | the node loop adds whether a third node's rect is crossed |
| Pathfinding.SeenList | pathfinding.py:334-351 | find_neighbors builds exactly the visible nodes, in group order |
| Pathfinding.ClearList | pathfinding.py:372-374 | the kill loop keeps exactly the nodes clear of the wall |
| Pathfinding.UnderMouseList | pathfinding.py:136-139 | the kill loop keeps exactly the nodes not under the mouse |
| Pathfinding.Explore | pathfinding.py:186-196 | the exploration ends with came_from holding exactly the reachable nodes, each with a parent on a shortest path, and each dequeued node's list recomputed; the dequeue order is the breadth-first order, and each parent is the first dequeued node whose list holds the child |
| Pathfinding.ExploreStep | pathfinding.py:191-196 | one dequeue keeps the exploration state and the order state, and makes progress |
| Pathfinding.ExploreLoop | pathfinding.py:191-196 | the while loop dequeues until the queue is empty, keeping the exploration state and the order state |
| Pathfinding.ExploreDone | pathfinding.py:191-196 | once the queue is empty, came_from is the breadth-first tree, each dequeued node has a fresh list, the dequeue order is the breadth-first order, and each parent is its child's first lister |
| Pathfinding.Search | pathfinding.py:184-205 | breadth_first_search succeeds exactly when the goal is reachable, and then returns a shortest path whose every node has as predecessor its first lister in the breadth-first order; otherwise it fails with KeyError; reached nodes get fresh neighbour lists and the others keep theirs |
| Pathfinding.RefreshLists | pathfinding.py:193 | storing the recomputed lists changes exactly the reached nodes' lists |
| Pathfinding.WalkBack | pathfinding.py:197-205 | walking came_from back from the goal succeeds exactly when the goal was discovered, and gives a shortest path that follows came_from |
| Pathfinding.ReverseBackWalk | pathfinding.py:198-204 | the parent chain, reversed, is a walk |
| Pathfinding.Game.constructor | pathfinding.py:37-62 | start and finish nodes at the middle row, 40 pixels from each side, with their neighbours computed; no walls; the drag start at (0, 0) |
| Pathfinding.Game.AddNode | pathfinding.py:318-327 | a fresh node at p joins the group with an empty neighbour list; nothing else changes |
| Pathfinding.Game.FindNeighbors | pathfinding.py:334-351 | exactly the node's list is replaced by the nodes it sees, and that list is returned |
| Pathfinding.Game.RebuildNeighbors | pathfinding.py:106-107 | every live node's list becomes what it sees; dead nodes keep theirs |
| Pathfinding.Game.UpdateWalls | pathfinding.py:377-381 | on a right click exactly the walls under the mouse go |
| Pathfinding.Game.PlaceWall | pathfinding.py:361-374 | the wall is appended and the nodes it overlaps are killed |
| Pathfinding.Game.RemoveNodesAt | pathfinding.py:135-139 | exactly the nodes under the mouse are killed |
| Pathfinding.Game.LeftClick | pathfinding.py:102-107 | a new node at the mouse, then every list recomputed |
| Pathfinding.Game.EndDrag | pathfinding.py:113-133 | the dragged wall, if any, is placed, the drag ends, and the overlapped nodes die |
| Pathfinding.Game.MiddleRelease | pathfinding.py:113-133 | a release with no drag start fails with AttributeError and changes nothing; otherwise the wall is placed and every list recomputed |
| Pathfinding.Game.RightClick | pathfinding.py:135-141 | the nodes under the mouse die and every list is recomputed |
| Pathfinding.Game.Update | pathfinding.py:98-141 | one frame: a left press adds a node at the mouse, a middle press starts a drag, a middle release places the wall or fails with AttributeError, a right press removes what is under the mouse; the node group becomes FrameSurvivors of the old nodes (plus the new one), positions change only by the new node, and the lists are consistent afterwards whenever something changed |
| Pathfinding.Game.HandlePresses | pathfinding.py:100-111 | the walls' own update, then the left and middle presses; without a left press the nodes, positions and lists stay as they were |
| Pathfinding.Game.HandleReleaseAndRight | pathfinding.py:113-141 | the middle release, then the right press: the wall the drag makes is added, and the node group becomes the old nodes clear of that wall and, on a right press, not under the mouse |
| Pathfinding.Game.EmptyGroups | pathfinding.py:80-83 | the node and wall groups are emptied |
| Pathfinding.Game.AddEndpoints | pathfinding.py:84-86 | two fresh nodes, start and finish, at their fixed positions |
| Pathfinding.Game.Restart | pathfinding.py:77-88 | the R key leaves only the two endpoints, no walls, and consistent lists |
| Pathfinding.Game.BreadthFirstSearch | pathfinding.py:184-205 | as Search, on the game's current scene and lists: a shortest path in the tree of the breadth-first order, or KeyError |
| Pathfinding.Game.FindPaths | pathfinding.py:208-225 | every simple path from start to goal over the stored lists, each once, sorted by length |
| Pathfinding.EnumeratePaths | pathfinding.py:208-225 | the queue loop returns the dequeued paths that end at the goal, sorted |
| Pathfinding.DequeuePath | pathfinding.py:215-224 | one dequeue keeps the loop invariant |
| Pathfinding.QueueChildren | pathfinding.py:220-224 | the inner loop queues exactly the simple one-node extensions |
| EnterText.Initial | enter_text.py:20-25 | one empty line, the first, being edited |
| EnterText.PressAsTextBuffer | enter_text.py:34-66 | on the last line the editor is a text buffer: backspace removes the last character of a non-empty line, return adds no character, a key appends its text |
| EnterText.PressKeepsLastLine | enter_text.py:38-66 | every key keeps the edited line the last one, except backspace on the single empty line, which empties the list |
| EnterText.BrokenStaysBroken | enter_text.py:38-66 | once the edited index is past the lines, only return succeeds and the index stays past them |
| EnterText.PressKeepsCoherent | enter_text.py:38-66 | no key breaks the relation between the edited index and the number of lines |
| EnterText.PressKeepsLinesShort | enter_text.py:53-66 | with one character per key no line exceeds 51 characters |
| EnterText.RunKeepsLinesShort | enter_text.py:34-66 | a frame's events keep that bound, however the frame ends |
| EnterText.RunWithoutBackspaceSucceeds | enter_text.py:34-66 | without backspace a frame never raises IndexError and the edited line stays the last one |
| EnterText.Blink | enter_text.py:83-87 | the cursor toggles exactly when the accumulated time reaches 0.5 s, and the timer then restarts at 0; from a non-negative time it stays in [0, 0.5) |
| EnterText.Editor.constructor | enter_text.py:20-30 | one empty line being edited, timer 0, cursor shown |
| EnterText.Editor.KeyDown | enter_text.py:36-66 | the lines change in place exactly as one key press does; IndexError exactly where the press fails, leaving the lines unchanged |
| EnterText.Editor.InputToText | enter_text.py:34-66 | the frame's events in order, stopping at the first IndexError |
| EnterText.Editor.Update | enter_text.py:80-87 | the frame's events, then the cursor blink unless an event failed |
| ScreenResize.FittedSizeFits | template_game_screen_resize.py:114-131 | stretching fills the window; fitting fails exactly on a zero window height; a fitted screen fits the window and meets one of its sides |
| ScreenResize.FittedSizeKeepsRatio | template_game_screen_resize.py:118-129 | the fitted screen keeps the game's 256:240 ratio up to the truncation of one side |
| ScreenResize.ScreenRectInside | template_game_screen_resize.py:135-136 | a centred screen no larger than the window is blitted inside it |
| ScreenResize.InitialWindow | template_game_screen_resize.py:27-37 | the window starts resizable, not fullscreen and not stretched |
| ScreenResize.ToggleTwice | template_game_screen_resize.py:84-94 | S, F and R each change the window, and pressing one twice restores it; F leaves RESIZABLE alone and R leaves FULLSCREEN alone |
| ScreenResize.TogglesCommute | template_game_screen_resize.py:84-94 | the order of the toggles within a frame does not matter |
| ScreenResize.HandleEventsAppend | template_game_screen_resize.py:77-99 | the events of two frames are handled as the first, then the second |
| ScreenResize.Game.constructor | template_game_screen_resize.py:24-37 | the fields hold the initial window |
| ScreenResize.Game.Events | template_game_screen_resize.py:77-99 | the fields change exactly as handling the frame's events does |
| ScreenResize.Game.Handle | template_game_screen_resize.py:78-99 | one event changes the fields exactly as the event loop's body does |
| ScreenResize.Game.Draw | template_game_screen_resize.py:111-136 | the blit rect is the fitted screen centred in the window, inside it, and draw fails with ZeroDivisionError exactly on a zero-height window when not stretched |
| Numerals.Show | color_picker.py:74 | `str()` of a component is non-empty decimal digits with no leading zero |
| Numerals.DecimalShow | color_picker.py:73-74 | `int()` reads back what `str()` writes |
| Colors.Constrain | color_picker.py:8-9 | the result never falls below low; for low <= high it lies in [low, high], is n when n is in range and the nearer bound otherwise |
| Colors.Hex | color_picker.py:13 | hexadecimal digits with no leading zero |
| Colors.Hex2 | color_picker.py:13 | `{:02x}` writes only hexadecimal digits |
| Colors.RgbToHex | color_picker.py:12-13 | '#' followed by hexadecimal digits |
| Colors.ParseHexOfHex | color_picker.py:13 | the hexadecimal digits read back as the number |
| Colors.Hex2OfComponent | color_picker.py:13 | a component 0..255 takes exactly two digits that read back as it |
| Colors.RgbToHexRoundTrip | color_picker.py:12-13 | a colour's hex string has 7 characters and each pair reads back as its component |
| Colors.Hex2OfPair | color_picker.py:13 | every pair of hexadecimal digits is the two-digit form of a component |
| Colors.RgbToHexOnto | color_picker.py:12-13 | every '#' plus six hexadecimal digits is the hex string of some colour |
| Colors.Level | color_picker.py:53 | `int(slider.value * 255)` lies in 0..255, 0 at the left end of the track and 255 at the right end |
| Colors.KnobFor | color_picker.py:201-206 | the setter puts the knob on the track, at its ends for 0 and 255 |
| Colors.TypeKey | color_picker.py:66-71 | a field holding digits still holds digits after a key |
| Colors.TypeKeys | color_picker.py:65-71 | the same for a whole queue |
| Colors.TypeKeysFails | color_picker.py:67 | the key loop raises ValueError exactly when some key code has no character |
| Colors.TypeDigitThenBackspace | color_picker.py:68-71 | a digit followed by backspace leaves the text as it was |
| Colors.SliderStep | color_picker.py:52-55 | one slider step keeps the picker well formed |
| Colors.SliderPass | color_picker.py:52-55 | the slider loop keeps the picker well formed |
| Colors.OnlyHighlighted | color_picker.py:61-63 | every other field loses its highlight; texts are unchanged |
| Colors.FieldStep | color_picker.py:57-78 | one field step that does not fail keeps the picker well formed |
| Colors.FieldTaken | color_picker.py:72-76 | taking a field's text keeps the picker well formed |
| Colors.FieldPass | color_picker.py:57-78 | the field loop, when it does not fail, keeps the picker well formed |
| Colors.PickerUpdate | color_picker.py:49-78 | an update that does not fail keeps components in 0..255, knobs on their tracks and digits in the fields |
| Colors.FirstHighlighted | color_picker.py:57-63 | the index of the first highlighted field, or 3 when there is none |
| Colors.FieldPassFacts | color_picker.py:57-78 | the field loop fails exactly when a highlighted field is reached and the queue holds a bad key |
| Colors.HighlightExclusive | color_picker.py:57-63 | after an update exactly the first field still highlighted after the slider loop keeps its highlight |
| Colors.FieldsShowColor | color_picker.py:72-78 | after an update each field shows its component in decimal, unless it is highlighted and empty |
| Colors.SliderPassHeld | color_picker.py:52-55 | the slider loop unhighlights the fields of held sliders and changes no text and no other highlight |
| Colors.HeldSliderUnhighlights | color_picker.py:54-55 | a held slider's field is never highlighted after an update |
| Colors.UpdateFails | color_picker.py:57-73 | an update fails exactly when some field is highlighted after the slider loop and the queue holds a bad key |
| Colors.ToggledClosedForm | color_picker.py:236-241 | n clicks flip the highlight n times, and the text is cleared once a click highlights the field |
| Colors.TextField.Update | color_picker.py:233-246 | with the mouse on the field each click toggles its highlight and clears the text when it becomes highlighted; otherwise nothing changes |
| Colors.Slider.Value | color_picker.py:194-198 | a knob on its track gives a value in [0, 1] |
| Colors.Slider.Update | color_picker.py:138-154 | the knob is held while the button stays down once grabbed within 40 pixels, follows the mouse while held, and is clamped to the track |
| Colors.Slider.SetValue | color_picker.py:201-206 | the knob moves to the position of the component |
| Colors.ColorPicker.NewSliders | color_picker.py:29-33 | three distinct new sliders, knobs at the left, not held |
| Colors.ColorPicker.NewFields | color_picker.py:39-46 | three distinct new fields showing "255", not highlighted |
| Colors.ColorPicker.Update | color_picker.py:49-78 | the objects change exactly as PickerUpdate says, and fail exactly when it does |
| Colors.ColorPicker.SliderToColor | color_picker.py:52-55 | one turn of the slider loop |
| Colors.ColorPicker.FieldToColor | color_picker.py:57-78 | one turn of the field loop |
| Colors.ColorPicker.UnhighlightOthers | color_picker.py:61-63 | the other fields lose their highlight |
| Colors.ColorPicker.TakeKeys | color_picker.py:65-76 | the field takes the queue's keys, then its value |
| Colors.ColorPicker.TypeInto | color_picker.py:65-71 | the key loop leaves the text TypeKeys gives, failing exactly when it does |
| Colors.FieldPassErrStays | color_picker.py:57-78 | once the field loop fails, later fields do not undo it |
| Colors.TextField.constructor | color_picker.py:210-230 | the field shows its default text and is not highlighted |
| Colors.Slider.constructor | color_picker.py:117-127 | the knob starts at the left end of the track and is not held |
| Colors.ColorPicker.constructor | color_picker.py:17-46 | colour (0, 0, 0), three fields showing "255", three sliders at the left |
| Dht22.Sample | DHT22_with_oled.py:55-67 | an inactive button ignores the pin; an active one takes the pin's level as pressed and remembered level, and counts held time up by dt while pressed and back to zero on release |
| Dht22.SamplesActive | DHT22_with_oled.py:55-67 | over a run of readings an active button queues exactly the rising and falling edges of the readings, after the events it already had, and ends with the last level and the time held since the last press |
| Dht22.EdgesAlternate | DHT22_with_oled.py:59-66 | presses and releases alternate, starting with a press unless the pin was already down, and the last event tells the final level |
| Dht22.FreshButtonAlternates | DHT22_with_oled.py:41-48 | a new button's events are the edges of its readings and start with a press |
| Dht22.DisabledStaysStill | DHT22_with_oled.py:50-57 | once disabled, no reading changes the button |
| Dht22.Button.constructor | DHT22_with_oled.py:41-48 | the button is released, never pressed before, holds no events and is active |
| Dht22.Button.Disable | DHT22_with_oled.py:50-53 | the button becomes inactive and released with no held time; its events and remembered level stay |
| Dht22.Button.Update | DHT22_with_oled.py:55-67 | the new button state is the one Sample gives for the reading |
| Dht22.Button.GetEvents | DHT22_with_oled.py:69-72 | returns the queued events in order and leaves the queue empty |
| Dht22.Perform | DHT22_with_oled.py:260-279 | a performed task keeps the task list and never clears the stop event; shutdown sets the stop event and requests the system shutdown, the reset clears the armed flag of button 2 |
| Dht22.Schedule | DHT22_with_oled.py:138-140 | a task with a zero timer, the given delay and action is appended; nothing else changes |
| Dht22.TickTask | DHT22_with_oled.py:248-255 | advancing one task keeps the number of tasks, the stop event and the error count |
| Dht22.TickTasks | DHT22_with_oled.py:248-255 | the task loop keeps the number of tasks, the stop event and the error count |
| Dht22.TickTasksEffect | DHT22_with_oled.py:248-255 | after the task loop every task keeps its delay and action; a task that fired is marked as run, any other has its timer advanced by the running delay |
| Dht22.RunTaskStaysDone | DHT22_with_oled.py:250-255 | a task that has run does not fire again and the loop leaves the logger as it was |
| Dht22.TaskTimer | DHT22_with_oled.py:248-255 | a task that has counted k running delays fires on the next tick exactly when k+1 running delays reach its delay, and otherwise counts k+1 |
| Dht22.ReadInterval | DHT22_with_oled.py:80 | the read interval is at least three seconds, and is the requested one when that is at least three |
| Dht22.Button1Events | DHT22_with_oled.py:209-214 | button 1's events change nothing but whether the display is on |
| Dht22.Button1Toggles | DHT22_with_oled.py:210-214 | the display ends on exactly when the events held an even number of releases from a display that was on, and off after an odd number |
| Dht22.Button2Events | DHT22_with_oled.py:226-246 | button 2's events only append tasks, keep the stop event and the error count and leave the display alone |
| Dht22.TwoPressConfirmation | DHT22_with_oled.py:228-246 | a first release arms the flag and schedules its reset in two seconds without stopping; a second release while armed stops; the reset disarms |
| Dht22.Button2Confirms | DHT22_with_oled.py:226-246 | one press and release in an iteration does not stop the logger, two do |
| Dht22.StopIsFinal | DHT22_with_oled.py:176-255 | no iteration clears the stop event or the shutdown request or changes the error count |
| Dht22.StrikesShutDown | DHT22_with_oled.py:202-204 | with ten or more sensor errors the next iteration stops the logger and requests the system shutdown |
| Dht22.HoldSchedulesShutdown | DHT22_with_oled.py:216-219 | holding button 1 past five seconds disables it and appends a shutdown task with a five-second delay, already advanced by one running delay |
| Dht22.TasksKept | DHT22_with_oled.py:206-255 | no iteration removes a task or changes its delay or action |
| Dht22.RunStops | DHT22_with_oled.py:176 | once the stop event is set the remaining readings change nothing |
| Dht22.Logger.constructor | DHT22_with_oled.py:76-136 | the read interval is clamped, two distinct fresh buttons on pins 14 and 15, no tasks, not stopped, unarmed, the display on, no errors |
| Dht22.Logger.SensorError | DHT22_with_oled.py:159-162 | a timeout or a missing sensor adds one strike |
| Dht22.Logger.ScheduleTask | DHT22_with_oled.py:138-140 | the logger's new state is the one Schedule gives |
| Dht22.Logger.RunTask | DHT22_with_oled.py:260-279 | the logger's new state is the one Perform gives |
| Dht22.Logger.AdvanceTasks | DHT22_with_oled.py:248-255 | the loop over the task list leaves the state TickTasks gives over all tasks |
| Dht22.Logger.ToggleDisplay | DHT22_with_oled.py:210-214 | the loop over button 1's events leaves the state Button1Events gives |
| Dht22.Logger.ConfirmStop | DHT22_with_oled.py:227-246 | the loop over button 2's events leaves the state Button2Events gives |
| Dht22.Logger.ServeButton1 | DHT22_with_oled.py:206-224 | logger and button 1 end as HandleButton1 gives |
| Dht22.Logger.ServeButton2 | DHT22_with_oled.py:206-246 | logger and button 2 end as HandleButton2 gives |
| Dht22.Logger.Iterate | DHT22_with_oled.py:176-255 | one iteration leaves logger and buttons as Step gives |
| Dht22.Logger.Mainloop | DHT22_with_oled.py:171-258 | the loop leaves logger and buttons as Run gives for the readings, stopping at the stop event |
| Battleships.Flip | battleships.py:524-536 | rotating always changes the orientation |
| Battleships.FlipTwice | battleships.py:524-536 | two flips give the orientation back |
| Battleships.ShipCells | battleships.py:250-256 | a ship's cells are size cells from its top-left corner, along x when horizontal and along y when vertical |
| Battleships.ShipCellsMeaning | battleships.py:250-256 | a cell is one of the ship's cells exactly when the ship covers it, and no cell is listed twice |
| Battleships.ShipInGrid | battleships.py:113-121 | all of a ship's cells lie on the 10 by 10 grid exactly when its corner does and its far end stays within the grid |
| Battleships.Rotate | battleships.py:524-536 | rotate changes the orientation and keeps the ship's position, size and whether it floats |
| Battleships.RotateTwice | battleships.py:524-536 | rotating twice gives the ship back |
| Battleships.CountHits | battleships.py:539-558 | the hit count is the number of markers on the ship's cells; the ship sinks, reporting its corner, orientation and size, exactly when the count reaches its size, and otherwise stays as it was |
| Battleships.HitsAreMarkedCells | battleships.py:540-544 | with every cell marked at most once, the hits are the number of distinct marked cells of the ship |
| Battleships.SinksIffAllMarked | battleships.py:546 | with every cell marked at most once, a ship sinks exactly when every one of its cells is marked |
| Battleships.Next | battleships.py:418-421 | switching states always moves to another state, the one the current state names as next |
| Battleships.ChainCycles | battleships.py:335-337 | preparation, combat and the end screen follow each other in a cycle of three |
| Battleships.RandInt | battleships.py:87-95 | a draw for randint(lo, hi) lies between lo and hi inclusive |
| Battleships.RandIntOnto | battleships.py:87-95 | every value between lo and hi can be drawn |
| Battleships.EnemyNeverOnLastLine | battleships.py:86-95 | as written, an enemy ship never reaches the last column when horizontal or the last row when vertical, although such a position is on the grid |
| Battleships.EnemyTry | battleships.py:79-96 | with the corrected bound `randint(0, 10 - size)` of Findings row 1, a random try places a floating ship of the given size |
| Battleships.EnemyTryOnGrid | battleships.py:86-95 | with the corrected bound every try lies on the grid |
| Battleships.EnemyTryOnto | battleships.py:86-95 | with the corrected bound every position that fits on the grid can be drawn |
| Battleships.PlaceShip | battleships.py:80-103 | with the corrected bound of Findings row 1, a placed enemy ship floats, lies on the grid, overlaps no other ship, and no other ship changes |
| Battleships.PlaceFleet | battleships.py:79-103 | placing the fleet keeps every ship's size |
| Battleships.PlaceFleetDeploys | battleships.py:71-103 | once every ship is placed, all lie on the grid without overlapping |
| Battleships.SnapFits | battleships.py:112-121 | the snapped ship lies on the grid, and it sits in the cell under the mouse whenever the ship fits there |
| Battleships.RotateAll | battleships.py:129-131 | rotating the waiting ships keeps the fleet's length |
| Battleships.RotateAllMeaning | battleships.py:129-131 | exactly the ships still to place are rotated, each once |
| Battleships.MovingUnplacedKeeps | battleships.py:112-121 | moving ships that are not placed yet keeps the preparation valid |
| Battleships.PlacingKeeps | battleships.py:132-138 | placing the first waiting ship where it is on the grid and overlaps no other keeps the preparation valid |
| Battleships.PrepUpdateKeeps | battleships.py:106-144 | every frame of the preparation keeps placed ships on the grid and apart, and every ship listed once |
| Battleships.Seek | battleships.py:284-292 | seeking at random shoots at a grid cell not guessed before and records it as the only new guess |
| Battleships.Neighbour | battleships.py:297-305 | return_ship tries a cell next to the last hit |
| Battleships.NeighbourOnto | battleships.py:300-305 | every cell next to the last hit can be tried |
| Battleships.CornerHasNoTarget | battleships.py:306-307 | as written, no neighbour of the corner passes the test |
| Battleships.CornerNeverMoves | battleships.py:277-317 | as written, once the last hit is in the corner the enemy never shoots again, whatever the draws |
| Battleships.ReturnAsWrittenFacts | battleships.py:294-317 | as written, a cell the enemy shoots at passes the strict test against the guesses it started from, lies next to the last hit, and is recorded |
| Battleships.EnemyShot | battleships.py:277-292 | enemy_move with the corrected test and safety net of Findings rows 2 and 3; with no outstanding hits the enemy seeks at random |
| Battleships.ReturnToShip | battleships.py:294-317 | with the corrected test and safety net of Findings rows 2 and 3, a shot returning to the ship lands next to the last hit |
| Battleships.ReturnToShipFacts | battleships.py:294-317 | returning to the ship shoots at a grid cell not guessed before and records it as the only new guess; with no target it records nothing |
| Battleships.EnemyShotFacts | battleships.py:277-317 | the enemy shoots at a grid cell not guessed before and records it as the only new guess; in return_ship mode there is a last hit and the shot lands next to it |
| Battleships.CornerMoves | battleships.py:306-307 | with the corrected test, a hit in the corner is followed up next to it |
| Battleships.StuckFallsBack | battleships.py:311-316 | when no neighbour of the last hit can be shot, the safety net falls back to seeking at random after 1000 tries |
| Battleships.ClearSunkMeaning | battleships.py:257-261 | the outstanding hits keep exactly the cells off the sunk ship, still without repeats |
| Battleships.SinkAll | battleships.py:234-237 | counting hits keeps the number of ships |
| Battleships.SinkAllMeaning | battleships.py:234-240 | exactly the ships whose hits reach their size sink, the others stay; the sunk ship reported is the last one in the fleet to sink, and none is reported when none sinks |
| Battleships.SinkFleet | battleships.py:234-237 | the loop over the fleet computes SinkAll |
| Battleships.SinkingKeepsCells | battleships.py:554 | sinking ships leaves every ship's cells where they were |
| Battleships.MarkKeeps | battleships.py:221-230 | the enemy's marker on a fresh grid cell keeps the battle valid |
| Battleships.ResolveKeeps | battleships.py:232-271 | counting hits, clearing the sunk ship and ending the game keep the battle valid |
| Battleships.TurnKeeps | battleships.py:198-271 | a shot at a cell the player has not shot before keeps the battle valid: each guess marked once, on the grid, and every outstanding hit a guess on one of the player's ships |
| Battleships.InitialFleet | battleships.py:48-54 | the player's fleet has five ships |
| Battleships.InitialPrepValid | battleships.py:43-54 | a new preparation is valid |
| Battleships.Game.constructor | battleships.py:381-404 | the game starts in the preparation with no shots and is valid |
| Battleships.Game.Start | battleships.py:381-404 | fresh states, fleets and grids, and the game is valid |
| Battleships.Game.SwitchStates | battleships.py:418-421 | the game moves to the next state exactly when the current one is done |
| Battleships.Game.RotateWaiting | battleships.py:129-131 | the ships still to place are rotated as RotateAll gives |
| Battleships.Game.PlaceWithMouse | battleships.py:112-138 | the preparation changes as PrepUpdate gives |
| Battleships.Game.CheckShipsPlaced | battleships.py:63-68 | once no ship is waiting and the draws suffice, the enemy fleet is placed, with the corrected bound of Findings row 1, on the grid without overlaps and the preparation is done; otherwise nothing changes |
| Battleships.Game.PreparationUpdate | battleships.py:106-144 | a preparation frame keeps the game valid and in the preparation; the fleet changes as PrepUpdate gives, and not at all on a click on DONE, which lies below the grid; the DONE click places the enemy fleet and ends the preparation exactly as CheckShipsPlaced does |
| Battleships.Game.SeekLoop | battleships.py:284-292 | the loop computes Seek |
| Battleships.Game.EnemyMove | battleships.py:277-317 | the loop computes EnemyShot, the enemy move as corrected in Findings rows 2 and 3 |
| Battleships.Game.SunkCoords | battleships.py:250-256 | the loop lists the sunk ship's cells |
| Battleships.Game.MarkEnemyShot | battleships.py:221-230 | the battle changes as Mark gives |
| Battleships.Game.KeepOffShip | battleships.py:259-261 | the comprehension keeps the outstanding hits off the sunk ship |
| Battleships.Game.ResolveTurn | battleships.py:232-271 | the battle changes as Resolve gives |
| Battleships.Game.CombatUpdate | battleships.py:186-271 | a click on a radar cell not shot before plays the turn PlayerTurn gives, with the enemy move corrected as in Findings rows 2 and 3; anything else changes nothing |
| Battleships.Game.RestartGame | battleships.py:361-363 | the game starts over |
| Battleships.Game.Frame | battleships.py:429-431 | a frame keeps the game valid and moves at most two states along the chain; after the switch, the preparation changes as PreparationUpdate gives, the combat plays the turn PlayerTurn gives or nothing, and the end screen restarts the game on a click on RESTART GAME and otherwise changes nothing; enemy placement and moves are the corrected ones of Findings rows 1 to 3 |
| Battleships.Game.Run | battleships.py:424-432 | every frame of the game keeps it valid |
| Battleships.StartedIsValid | battleships.py:381-404 | a freshly started game is valid |
| Battleships.EnemyFleet | battleships.py:72-78 | the enemy fleet has five ships, each of a size that fits the grid |
| Battleships.PlaceEnemyShips | battleships.py:71-103 | the loop computes PlaceFleet, with the corrected bound of Findings row 1 |
| Battleships.PlaceOne | battleships.py:80-103 | the loop computes PlaceShip, with the corrected bound of Findings row 1 |

## Left out

- Drawing, fonts, surfaces, captions, `pg.display` and the `draw*` methods of every demo are not modelled. Where a rule depends on a font, the font's width measure is a parameter (`Textbox`). Mouse positions, button presses, key codes and frame times come in as parameters.
- Randomness (`random.choice`, `random.randint`) is modelled as a supplied stream of naturals. When the stream runs out, the operation reports `None` or stops, where the source would keep drawing.
- Clocks are modelled as the elapsed time passed in (`dt`). Floating-point quantities (timers, delays, line parameters, slider positions) are exact reals or integers, so rounding is not modelled.
- pathfinding.py: `Mob` (its steering, `arrive`, `limit`, `remap`) and the `choice(paths[:2])` that hands a path to a mob are not part of this model. The M key, which spawns a mob, and the F key, which discards the result of `find_paths`, are left out with it. Node positions are integer pixels.
- quadtrees.py: `Circle` movement and collision are not part of this model. The sprites are their integer centre pixels. The quadtree is a value (`datatype Quadtree`), and insert returns the new tree, so the sharing of child objects between nodes is not modelled.
- Quadtrees.BuildTree: completeness is stated only when the sprites in the window fit in the root. With more sprites, an odd-width node can refuse an in-window point (OddWidthLeavesStrip), so no stronger completeness holds.
- Calculator.Calculator.constructor: the buttons `init_buttons` places are not listed. PlaceButton and ButtonsApart state the placement rule they follow. Python's `eval` of the cache string is a function parameter.
- color_picker.py: the float `Slider.value` is modelled through its effect on a component (`Level`, `KnobFor`) with integer knob positions. The `Game` loop around the picker is not part of this model.
- enter_text.py: the file written when the window closes is not part of this model.
- DHT22_with_oled.py: the following are not part of this model:
  - GPIO setup and reads (the pin level is an input of each iteration);
  - the OLED and I2C output;
  - the CSV log and the deque of readings;
  - the sensor thread `read_dht22`, apart from its count of errors (Logger.SensorError);
  - `GPIO.cleanup` and the `sudo shutdown` call.
  The stop event is a flag, and threading is not modelled.
- Dht22.Logger.Mainloop: the `should_stop.wait(running_delay)` pause is not modelled. Each reading carries the time since the previous iteration.
- battleships.py: pixel rectangles, sprites and groups are replaced by grid cells and ship records. The X markers are the cells they mark. The sunken-ship radar overlay and the DONE and RESTART buttons' drawing are left out; clicks on the buttons are predicates on the mouse position.
- Battleships.EnemyTry, Battleships.PlaceShip, Battleships.PlaceOne, Battleships.PlaceEnemyShips, Battleships.Game.CheckShipsPlaced, Battleships.EnemyShot, Battleships.ReturnToShip, Battleships.Game.EnemyMove, Battleships.Game.CombatUpdate, Battleships.Game.Frame: the playable game uses the corrected behaviour of Findings rows 1 to 3 (the `10 - size` bound, the on-grid test, the fall back to seeking), not the code as written. The as-written versions are Battleships.EnemyTryAsWritten, Battleships.MoveAsWritten and Battleships.ReturnAsWritten, and the Findings rows state what they do.
- Textbox.Textbox.RenderText: takes the last word by its position (Findings row 4), not by its value as the code is written. The as-written layout is Textbox.Lines.
- Battleships.Game.Run: the game loop ends when the inputs run out instead of on the window's close event. Its contract is the validity every frame keeps.
- Quitting through the window's close button (`pg.QUIT`) is not modelled in any demo except ScreenResize, where `Event.Quit` stops the loop as Escape does.

## Findings

| source | as written | input that shows it | evidently intended | confidence | as-written member | corrected member |
|---|---|---|---|---|---|---|
| battleships.py:86-95 | an enemy ship's start column (horizontal) or row (vertical) is drawn from `randint(0, 9 - size)` | a size-2 horizontal ship at column 8, covering columns 8 and 9, is never drawn, although the player may place one there | `randint(0, 10 - size)`, the same bound as the player's placement | high; not executed | Battleships.EnemyNeverOnLastLine | Battleships.EnemyTryOnto |
| battleships.py:306-307 | return_ship accepts a neighbour only when `0 < x < 9 and 0 < y < 9` | a hit at (0, 0): none of its neighbours passes; no cell in row or column 0 or 9 is ever a return target | every unguessed neighbour on the grid, `0 <= x <= 9 and 0 <= y <= 9` | high; not executed | Battleships.CornerHasNoTarget | Battleships.CornerMoves |
| battleships.py:277-317 | after 1000 failed tries the safety net sets seek_random and calls `enemy_move`, which sets return_ship again because the hits are still outstanding | the last hit at (0, 0): every call fails 1000 times and calls itself again, until Python's recursion limit | fall back to one random seek | high; not executed | Battleships.CornerNeverMoves | Battleships.StuckFallsBack |
| textbox_demo.py:99 | a word is taken for the last word when it equals `words[-1]` | "a a" where everything fits: the first "a" already ends a line, giving the lines "a" and "a" | the last word by its position in the list | high; not executed | Textbox.RepeatedLastWord | Textbox.RenderedKeepsText |
