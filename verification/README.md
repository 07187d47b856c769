# Verified models of the windowing layer and the build generators

A Dafny model of the parts of this repository whose correctness is hardest to see by reading:
the platform-independent windowing layer under `glfw/` and the table and parser generators at the
top level. Each component is modelled with the branches, constants and error results of its code,
and its central promises are proved for every input, run or interleaving.

`dafny verify dfyconfig.toml` checks the whole project.

Code that updates state in place is written as classes and methods; each is proved against a
specification function, and the promises are lemmas about that function or about whole runs of it.
Code that computes values is written as functions.

| files | component |
|---|---|
| `DecorationFrame`, `BufferProtocol`, `BufferOwnership`, `BufferPainting`, `DecorationBuffers` | the client/compositor protocol for the buffers behind Wayland window decorations: where the edges go, its steps on values, what every run of them guarantees of ownership, of size and of painting, and the object that follows it |
| `ShadowMask`, `ShadowTile`, `EdgeRenderer` | the separable blur, the shadow tile made with it, the edges painted from the tile, and the layout of the shared mapping |
| `CodepointRanges`, `MarkTables`, `WidthSwitch` | the Unicode generator's ranges, mark tables and width switch |
| `NameTrie`, `NameReader`, `NameTables` | the generated word index and the C reader that queries it |
| `CommandParser`, `CommandGrammar`, `CommandFaults` | the generated control-code parser, the grammar it accepts, a printer it undoes, and the faults it reports |
| `TimerTable`, `TimerQueue` | the event loop's timers: the set of timers, and the sorted array that holds it |
| `KeyQueue`, `HeldKeys` | the keyboard's queue of held keys, and the sixteen-slot table that holds it |
| `MappingFields`, `GamepadMappings`, `Gamepads` | gamepad mapping lines, the mapping table, and the joysticks that point into it |
| `Utf8` | UTF-8 encoding and the truncating string copy |
| `ErrorList` | per-thread error records under a mutex |
| `ExtensionString`, `ParallelRun`, `VideoModes` | token search, the parallel command runner, video mode choice |
| `Options`, `Sorting` | the option type; a sort of which only "some sorted permutation" is used |

What the proofs settled about promises that do not hold without a condition:

- A step paints a buffer that the compositor still holds if and only if it redraws the title bar, because
  of a changed focus or a changed title, without replacing the buffers while the back buffer's destroy
  flag is clear (`PaintsHeldIff`, and for whole runs `RunPaintsHeldIff`). Two title changes, or a focus
  moved away and back, are enough (`TitleChangesPaintHeld`, `FocusChangesPaintHeld`).
- The generated name lookup finds every named codepoint except the smallest, whose mark is the 0 that
  stands for "no name" (`NameFoundIffNotLeast`).
- Mark tables round-trip exactly when the marks are fewer than 65536 (`MarksRoundTripIffTheyFit`).
- The C and Go width functions agree exactly when every printable ASCII codepoint classifies to 1
  (`CAndGoAgreeIffAsciiIsNarrow`).
- The extension search also accepts a name that ends a token directly after another hit of itself
  (`SearchIffTokenOrChained`, `DoubledNameIsMistaken`).
- A key is reported as repeating exactly when it is queued and its latest event is a press
  (`RepeatIffHeld`); being queued is not enough (`PressAfterRepeat`).
- The key queue holds exactly the keys that are down, at every moment, if and only if at no moment more
  than sixteen are (`QueueIsExactIff`); with seventeen down the release of the first is swallowed
  (`SeventeenKeysLoseOne`).
- The release of a held key reaches its callback as long as no more than sixteen keys are down at any moment
  (`DeliveredFromHistory`); in general it does exactly if the key is still queued (`ReleaseDeliveredIffQueued`).
- A gamepad mapping line for another platform is refused if and only if the library's own platform name is no
  prefix of the line's (`OtherPlatforms`).
- A printed command parses back if and only if the first field's key is not a semicolon, which would end
  the list of fields before it began (`PrintThenParse`).
- A due timer's callback runs even if its timer was removed meanwhile, which happens if and only if a
  callback that ran before it in the same dispatch removed that timer or all (`RunsAfterRemovalIff`).
- The node indices of the word index fit their 24 bits if and only if the words have at most 2^24
  prefixes (`Search`); n words of at most l letters have at most 1 + n * l (`FewPrefixes`).

## Model

| member | source | states |
|---|---|---|
| BufferOwnership.RunIsLegal | glfw/wl_client_side_decorations.c:105-136 | in every run of client calls and compositor releases, at every position of the history: no buffer is destroyed twice, attached or painted after its destruction, or used before it exists, and a buffer once attached is destroyed directly after its own release event |
| BufferOwnership.RunLeaksNothing | glfw/wl_client_side_decorations.c:334-345 | once the window is gone and every attached buffer has been released, every buffer ever created has been destroyed |
| BufferPainting.EnsureSettles | glfw/wl_client_side_decorations.c:366-433 | after any run, an update or a title change on a decorated window leaves all four edges in their places around the window, each showing an attached live buffer that was created for the window's size and scale and last drawn for its focus state, whether or not anything was due; the decorations are then built for the window as it is, nothing is due, and repeating the update changes nothing |
| BufferPainting.StepRight | glfw/wl_client_side_decorations.c:366-380 | every step keeps that whatever an update would find current is on the screen, in place, of the size and drawn for the focus state it was built for: the early return is justified |
| BufferPainting.StepSized | glfw/wl_client_side_decorations.c:366-433 | every step keeps the buffers in use those that were created for the size and scale the decorations were built for |
| DecorationFrame.EdgesFrameTheWindow | glfw/wl_client_side_decorations.c:283-404 | at every size and scale the four edges, by their positions and buffer sizes, show each point around the window exactly once and no point of the window: a border of 12 on three sides and 36 on top |
| BufferProtocol.LegalHistory | glfw/wl_client_side_decorations.c:105-136 | a history whose every step was legal when taken obeys the rules stated over positions of the history |
| BufferOwnership.StepKeeps | glfw/wl_client_side_decorations.c:334-433 | every client call and every release event keeps the ownership invariant: a pair owns exactly its buffers never attached |
| BufferOwnership.FreeBuffersDestroys | glfw/wl_client_side_decorations.c:334-345 | freeing destroys exactly the current buffers that were never attached, and no other |
| BufferOwnership.DamageKeeps | glfw/wl_client_side_decorations.c:360-364 | attaching one of an edge's buffers to its surface makes exactly that buffer attached and keeps everything ready |
| BufferOwnership.UpdateTitleKeeps | glfw/wl_client_side_decorations.c:211-215 | redrawing the title swaps front and back of a ready state without touching ownership |
| BufferOwnership.ReleaseKeeps | glfw/wl_client_side_decorations.c:113-118 | a release event destroys the buffer and keeps the invariant, whether or not the window still holds it |
| BufferPainting.PaintsHeldIff | glfw/wl_client_side_decorations.c:366-433 | from every reachable state, any step adds a drawing into a buffer attached before and not released before if and only if it is an update or title step on a decorated window with no rebuild due and the focus changed, or a title step with no update due and a title surface, and the back buffer's destroy flag is clear |
| BufferPainting.RunPaintsHeldIff | glfw/wl_client_side_decorations.c:366-433 | the history of a whole run holds such a drawing if and only if one of its steps met that condition in the state it was taken from |
| BufferPainting.StepDraws | glfw/wl_client_side_decorations.c:211-215 | every step keeps the title's front drawn for the focus state the decorations were built for, and the other edges' fronts drawn as focused and their backs as faded |
| BufferPainting.TitleChangesPaintHeld | glfw/wl_client_side_decorations.c:425-433 | showing a window and changing its title twice, with no release in between: the second change draws into a held buffer |
| BufferPainting.FocusChangesPaintHeld | glfw/wl_client_side_decorations.c:366-415 | showing a window and moving the focus away and back at the same size: the last update draws into a held buffer |
| DecorationBuffers.Decorations.FreeCsdBuffers | glfw/wl_client_side_decorations.c:334-345 | the in-place loop over the edges takes the specified free step |
| DecorationBuffers.Decorations.AllocBufferPair | glfw/wl_client_side_decorations.c:122-136 | the edge gets two distinct buffers that did not exist before, of the edge's size, alive, never attached and both owned; no older buffer's status changes and every request so far stays legal |
| DecorationBuffers.Decorations.CreateShmBuffers | glfw/wl_client_side_decorations.c:283-320 | allocates the four pairs in order and paints the buffers the renderers draw |
| DecorationBuffers.Decorations.DamageCsd | glfw/wl_client_side_decorations.c:360-364 | exactly this buffer becomes attached and this edge shows it; nothing is destroyed, and the ownership invariant holds with all buffers alive |
| DecorationBuffers.Decorations.EnsureCsdResources | glfw/wl_client_side_decorations.c:366-415 | keeps the invariant; on a decorated window all edges are then in place, showing attached live buffers created for its size and scale and drawn for its focus state, the decorations are built for it as it is and nothing is due, also if nothing was; it redraws exactly if they were not built for it, not mapped, without surfaces or short of a buffer, else nothing changes; no buffer ever attached is destroyed |
| DecorationBuffers.Decorations.ChangeCsdTitle | glfw/wl_client_side_decorations.c:425-433 | keeps the invariant; on a decorated window all edges are then as after an update; if nothing was due, the title bar shows its former back buffer and the other edges what they did |
| DecorationBuffers.Decorations.BufferReleaseEvent | glfw/wl_client_side_decorations.c:105-118 | for every legal release: exactly this buffer becomes destroyed, no pair changes, a rebuild is requested exactly if the buffer is a current one, and the invariant is kept |
| DecorationBuffers.Decorations.FreeAllCsdResources | glfw/wl_client_side_decorations.c:417-423 | afterwards every buffer never attached is destroyed and no attached one is destroyed that was not before; no surface, buffer pair or mapping is left; the invariant is kept |
| DecorationBuffers.Decorations.Perform | glfw/wl_client_side_decorations.c:105-433 | after any interleaving of calls and release events the object's history is legal at every position, and once the window is gone and all attached buffers are released every created one is destroyed |
| ShadowMask.BuildBlurKernel | glfw/wl_client_side_decorations.c:30-41 | the kernel becomes positive with total 1, and any two of its weights are to each other as the exponentials of the negative squared distances from half its size, over sigma |
| ShadowMask.KernelMirrors | glfw/wl_client_side_decorations.c:30-41 | weight i equals weight n - i: the kernel mirrors itself about half its size, so its first weight has no partner |
| ShadowMask.BlurMask | glfw/wl_client_side_decorations.c:43-75 | the two passes together replace the image by its direct zero-padded two-dimensional convolution with the product kernel, for every width, height and kernel size |
| ShadowMask.BlurRows | glfw/wl_client_side_decorations.c:49-59 | the first pass writes the row blur of every pixel |
| ShadowMask.BlurColumns | glfw/wl_client_side_decorations.c:61-74 | the second pass writes the column blur of every pixel |
| ShadowMask.TwoPassesConvolve | glfw/wl_client_side_decorations.c:43-75 | an image that is the column blur of a row blur is the two-dimensional convolution of the original |
| ShadowMask.Separable | glfw/wl_client_side_decorations.c:43-75 | tap by tap, the column sum of row blurs is the double sum with the product kernel |
| ShadowMask.BlurStaysInRange | glfw/wl_client_side_decorations.c:30-75 | blurring values in [0, a] gives values in [0, a] |
| ShadowTile.CreateShadowMask | glfw/wl_client_side_decorations.c:77-87 | the mask is the blur of the inset rectangle |
| ShadowTile.ConvolutionOfRectangle | glfw/wl_client_side_decorations.c:77-87 | the blur of a rectangle is the product of the kernel's shares on its two sides |
| ShadowTile.CreateShadowTile | glfw/wl_client_side_decorations.c:149-163 | every word of the seven-margin tile holds only alpha, the value in 255ths, rounded down and at most 178, that the blur of a rectangle of opacity 0.7 has at that pixel, for the kernel of 2 * margin + 1 taps and spread 32 * margin |
| ShadowTile.OpacityFits | glfw/wl_client_side_decorations.c:158-160 | the mask stays within [0, 0.7] and its 8-bit alpha within [0, 178], so the byte cast loses nothing |
| ShadowTile.MiddleIsUniform | glfw/wl_client_side_decorations.c:149-163 | in the middle three segments the tile is constant along each axis |
| EdgeRenderer.RenderEdges | glfw/wl_client_side_decorations.c:217-280 | for all widths and heights, every pixel of the left, right and bottom fronts comes from the stated tile row and column, and every back pixel holds only alpha, half of that of its front rounded down |
| EdgeRenderer.SideBackIsHalf | glfw/wl_client_side_decorations.c:276-278 | with fronts drawn from a shadow tile, a back pixel of a side holds half the alpha, rounded down, of the tile at the row and column of its front: at most 89, and nothing exactly where that is 0 or 1 |
| EdgeRenderer.BottomBackIsHalf | glfw/wl_client_side_decorations.c:276-278 | the same for every back pixel of the bottom edge |
| EdgeRenderer.RenderBottomRow | glfw/wl_client_side_decorations.c:224-240 | one bottom row shows left corner, repeated middle and right corner by a closed column formula, and nothing outside the row is written |
| EdgeRenderer.DrawMiddle | glfw/wl_client_side_decorations.c:266-274 | with the corners drawn, the side loop leaves every row showing its tile row |
| EdgeRenderer.AllRowsPainted | glfw/wl_client_side_decorations.c:242-274 | the three side loops together leave no row unpainted, whatever the height |
| EdgeRenderer.SidesCovered | glfw/wl_client_side_decorations.c:242-274 | every side row shows a row inside the tile |
| EdgeRenderer.WideBottomFormula | glfw/wl_client_side_decorations.c:227-239 | from six margins on, the column is the corner's, the repeated middle's or the corner's counted from the right end |
| EdgeRenderer.NarrowBottomFormula | glfw/wl_client_side_decorations.c:222-240 | below six margins the right corner is drawn over the left one, from the left end if there are at most three margins |
| EdgeRenderer.TallSideFormula | glfw/wl_client_side_decorations.c:242-274 | from five margins on, a side row is the upper corner's, the repeated middle's or, counted from the lower end, the lower corner's, after which the bottom edge goes on with the next tile row |
| EdgeRenderer.ShortSideFormula | glfw/wl_client_side_decorations.c:242-274 | below five margins the lower corner is drawn over the upper one, from the top if there are at most two margins |
| EdgeRenderer.BottomIsSeamless | glfw/wl_client_side_decorations.c:222-240 | on a bottom edge of any width, two pixels of one row at least two margins from the ends have the same colour |
| EdgeRenderer.SideIsSeamless | glfw/wl_client_side_decorations.c:242-274 | on a side of any height, two pixels of one column between two margins from the top and one from the bottom have the same colour |
| EdgeRenderer.AllocPairs | glfw/wl_client_side_decorations.c:95-136 | the sub-buffers of all pairs touch end to end and their total is the mapping's size |
| EdgeRenderer.MappingIsTiled | glfw/wl_client_side_decorations.c:283-313 | every byte of the mapping lies in exactly one sub-buffer, and no sub-buffer reaches beyond it |
| EdgeRenderer.PixelBytes | glfw/wl_client_side_decorations.c:95-103 | a buffer is scaled in both directions and is exactly its rows of four bytes a pixel; a pixel's bytes lie inside it, at four times its row-major index |
| CodepointRanges.GetRangesMaximal | gen-wcwidth.py:264-272 | the yielded labels are the ascending maximal runs of the items: canonical, separated by gaps, covering exactly the set |
| CodepointRanges.MaximalRunsUnique | gen-wcwidth.py:264-272 | a set has one maximal-run decomposition, so iteration order cannot show in the output |
| MarkTables.SwitchInvertsTable | gen-wcwidth.py:357-369 | on an ascending table the emitted range switch is the inverse of indexing, and 0 off the table |
| MarkTables.MarksRoundTrip | gen-wcwidth.py:419-427 | mark and codepoint functions are mutually inverse on marks; non-marks and numbers beyond the table give 0 |
| MarkTables.MarksRoundTripIffTheyFit | gen-wcwidth.py:419-427 | the round trip holds of every mark if and only if there are fewer than 65536 marks |
| MarkTables.NameFoundIffNotLeast | gen-wcwidth.py:447-469 | the name lookup answers exactly for named codepoints above the smallest, with the recorded name |
| WidthSwitch.AddAll | gen-wcwidth.py:551-578 | block k carries the maximal runs of class k minus all earlier classes |
| WidthSwitch.CaseLabelsDisjoint | gen-wcwidth.py:551-578 | no two case labels of the whole switch share a codepoint |
| WidthSwitch.SwitchIsPriorityWidth | gen-wcwidth.py:560-578 | the switch gives every codepoint the width of the first class that contains it, else 1 |
| WidthSwitch.GoSwitchSame | gen-wcwidth.py:275-283 | enumerating the codepoints of each span for Go changes no result |
| WidthSwitch.CAndGoAgreeIffAsciiIsNarrow | gen-wcwidth.py:580-589 | the C form with its ASCII fast path agrees with the Go form everywhere if and only if printable ASCII classifies to 1 |
| NameTrie.Builder.AddLetter | gen-wcwidth.py:510-514 | returns the node that spells one letter more; if there was one nothing changes, else exactly that child is added, and the trie stays well formed |
| NameTrie.Builder.AddWord | gen-wcwidth.py:522-527 | the recorded words become the old ones plus this word with its offset |
| NameTrie.AddChild | gen-wcwidth.py:510-514 | adding a missing child keeps paths distinct, prefix-closed and matched by edges both ways |
| NameTrie.Serialize | gen-wcwidth.py:531-537 | every node's children are packed, count first, at its offset; leaves point to the shared 0 |
| NameTrie.WriteGroups | gen-wcwidth.py:481-487 | every distinct group is found at its offset, count first, with exactly its marks |
| NameReader.FindChild | welly/unicode_input/unicode_names.c:54-61 | the scan of the packed children finds the child for a byte exactly when the node has one |
| NameReader.Walk | welly/unicode_input/unicode_names.c:48-63 | reaches the node that spells the query; gives up only if no node spells an extension of it |
| NameReader.ProcessNode | welly/unicode_input/unicode_names.c:34-44 | collects exactly the codepoints recorded at or below the node |
| NameReader.CodepointsForWord | welly/unicode_input/unicode_names.c:46-69 | the answer is exactly what is recorded at nodes that extend the query |
| NameTables.GenNames | gen-wcwidth.py:446-544 | the generated tables index the word map, and are readable whenever node indices fit 24 bits |
| NameTables.LookUp | gen-wcwidth.py:522-527 | building the tables and walking to one string: the node there holds a match if and only if the string is a word, and that match decodes to exactly the word's codepoints, whenever the words have at most 2^24 prefixes |
| NameTables.QueryIsPrefixSearch | welly/unicode_input/unicode_names.c:46-69 | a codepoint is in the answer if and only if some word that starts with the query records it |
| NameTables.Search | welly/unicode_input/unicode_names.c:46-69 | building the index and querying it answers every query with the union over the words that start with it, if node indices fit 24 bits; they fit if and only if the words have at most 2^24 prefixes |
| NameTables.NodesArePrefixes | gen-wcwidth.py:518-532 | the trie has exactly one node for each prefix of a word, and the root |
| NameTables.FewPrefixes | gen-wcwidth.py:518-532 | n words of at most l letters have at most 1 + n * l prefixes |
| CommandParser.Parse | gen-apc-parsers.py:125-238 | the loop over `pos`, `state`, `key` and the fields computes the machine's outcome, terminating on every input |
| CommandParser.ReadUInt | gen-apc-parsers.py:173-180 | takes the longest run of at most ten digits and refuses none and values above 2^32 - 1 |
| CommandParser.NumberMoves | gen-apc-parsers.py:172-203 | after a number the machine goes on with the value read, or reports the error |
| CommandGrammar.AcceptsExactlyTheGrammar | gen-apc-parsers.py:125-238 | for every keymap and every input, the callback is invoked if and only if the input is a sentence of the grammar |
| CommandGrammar.CommandAccepted | gen-apc-parsers.py:125-238 | a sentence invokes the callback with the fields its items give and its decoded payload |
| CommandGrammar.Derivation | gen-apc-parsers.py:142-221 | from an accepted input a valid list of items and a tail are recovered whose text is that input |
| CommandFaults.ReportsExactlyTheFault | gen-apc-parsers.py:125-238 | for every keymap, input and error, the error is reported if and only if the input is a list of valid items followed by the fault that the error names: an unknown key, no equals sign, no value, an unknown flag, no digits, a number too large, no separator, or an undecodable payload |
| CommandFaults.FaultDerivation | gen-apc-parsers.py:142-230 | from a rejected input the valid items before its fault and the fault are recovered, and their text is that input |
| CommandGrammar.LastItemWins | gen-apc-parsers.py:163-203 | with distinct attributes a field holds the value of the last item for its key |
| CommandGrammar.IntValueWraps | gen-apc-parsers.py:183-186 | the value of an `int` lies in 32 bits and differs from its signed digits by nothing or by 2^32 |
| CommandGrammar.PrintThenParse | gen-apc-parsers.py:125-238 | parsing a printed command gives back its fields, for all uint32 and int32 values and allowed flags, and its payload if and only if it has no field or its first key is not a semicolon |
| TimerQueue.EventLoop.UpdateTimers | glfw/backend_utils.c:94-97 | the array is sorted by deadline and holds the same timers |
| TimerQueue.EventLoop.AddTimer | glfw/backend_utils.c:99-116 | adds exactly one timer, under an id never used before, with this interval, due one interval from now or, disabled, at no time; order is restored; when full it returns 0 and changes nothing |
| TimerQueue.EventLoop.RemoveTimer | glfw/backend_utils.c:54-66 | removes exactly the timer with the id; order is kept |
| TimerQueue.EventLoop.ToggleTimer | glfw/backend_utils.c:131-143 | the timer with the id becomes due one interval from now, or at no time; every other timer is unchanged and order is kept |
| TimerQueue.EventLoop.ChangeTimerInterval | glfw/backend_utils.c:145-153 | the timer with the id gets the interval and keeps its deadline; every other timer is unchanged |
| TimerQueue.EventLoop.RemoveAllTimers | glfw/backend_utils.c:123-129 | empties the table and leaves the id counter |
| TimerQueue.EventLoop.PrepareForPoll | glfw/backend_utils.c:156-165 | never sleeps past the deadline of an enabled timer, is 0 when one is due, never exceeds a non-negative timeout, and is negative only when no timer is enabled |
| TimerQueue.EventLoop.DispatchTimers | glfw/backend_utils.c:193-216 | runs exactly the timers due on entry, once each, in deadline order, whatever the callbacks add, remove or toggle; the array is in order again |
| TimerQueue.EventLoop.Snapshot | glfw/backend_utils.c:197-206 | the dispatch list is every due timer in deadline order, and the due ones are re-armed |
| TimerQueue.OneShots | glfw/backend_utils.c:208-213 | a dispatched one-shot timer is gone afterwards, whatever the callbacks did |
| TimerQueue.RunsAfterRemovalIff | glfw/backend_utils.c:207-213 | when a callback runs, its timer is gone if and only if a callback that ran earlier in the dispatch removed that timer or all timers |
| TimerQueue.NextDeadline | glfw/backend_utils.c:199-206 | a repeating timer that fired and that no callback touched is next due one interval after the dispatch |
| TimerTable.AddedRunsIff | glfw/backend_utils.c:99-116 | a timer just added is run by a dispatch if and only if it is enabled and its interval has passed |
| TimerTable.ToggledRunsIff | glfw/backend_utils.c:131-143 | a timer just toggled is run by a dispatch if and only if it was enabled and its interval has passed since |
| TimerTable.RunsIff | glfw/backend_utils.c:193-206 | a dispatch runs a timer if and only if its deadline has come |
| TimerTable.CallsInOrder | glfw/backend_utils.c:207-213 | the calls of a callback take effect in the order in which it makes them |
| TimerTable.GoneStaysGone | glfw/backend_utils.c:86-143 | ids are not reused: no calls bring a removed timer's id back |
| TimerTable.UntouchedTimerIsKept | glfw/backend_utils.c:193-216 | a timer that no callback mentions and that is not a dispatched one-shot survives unchanged |
| KeyQueue.QueueIsHistory | glfw/input.c:276-352 | after any history the queue holds distinct known keys, at most sixteen, each with the latest event of its key, a press or repeat |
| KeyQueue.ReleaseCarriesItsPress | glfw/input.c:322-335 | a delivered release is for a key that is down and carries the key values of its latest event, a press or a repeat (possibly one with no press before it) that no release has followed |
| KeyQueue.ReleaseDeliveredIffQueued | glfw/input.c:322-335 | a release of a known key is delivered if and only if the key is queued |
| KeyQueue.OthersPassThrough | glfw/input.c:306-352 | an event of an unknown key is delivered as it came and leaves the queue alone; a repeat event is delivered as it came |
| KeyQueue.DeliveredFromHistory | glfw/input.c:306-352 | while at no moment more than sixteen keys are down, what is delivered follows from the latest event of the key alone: a release is swallowed exactly if the key is not down and else carries that event's values, a press directly after a press is a repeat, and anything else is delivered as it came |
| KeyQueue.RepeatIffHeld | glfw/input.c:337-344 | a press is reported as a repeat if and only if its key is queued and its latest event is a press; otherwise it is reported as it came |
| KeyQueue.PressAfterRepeat | glfw/input.c:337-344 | after a press and a repeat event of a key, a further press is reported as a press although the key is queued |
| KeyQueue.QueueIsExactIff | glfw/input.c:276-352 | the queue holds exactly the keys that are down at every moment of a history if and only if at no moment more than sixteen are down |
| KeyQueue.SeventeenKeysLoseOne | glfw/input.c:279-291 | after seventeen presses the release of the first key is not delivered although the key is down |
| KeyQueue.QueueInHoldOrder | glfw/input.c:279-297 | while at no moment more than sixteen keys are down, the queue is in the order in which the holds began |
| KeyQueue.EvictedIsHeldLongest | glfw/input.c:283-291 | the first time a seventeenth key goes down (never more than sixteen were before), the key it pushes out is, of all keys down, the one whose hold began first |
| HeldKeys.KeyTable.InputKeyboard | glfw/input.c:306-352 | the slots, moved in place, refine one step of the queue, and the callback gets what the queue delivers: nothing exactly for a release of a known key that is not queued; another release carries the queued values |
| HeldKeys.KeyTable.MakeRoom | glfw/input.c:279-291 | the first free slot, or the last one after evicting the oldest key |
| HeldKeys.KeyTable.Clear | glfw/input.c:292-297 | the released key leaves and the slots after it close up, so used slots stay a prefix |
| HeldKeys.KeyTable.InputAll | glfw/input.c:306-352 | every stream of events is delivered as the queue of its history says, and as its history alone says while never more than sixteen keys are down |
| MappingFields.ParseFields | glfw/input.c:186-259 | the cursor loop computes the reader's result on every text |
| MappingFields.FieldsRoundTrip | glfw/input.c:136-259 | reading the printed fields gives back all twenty-one elements, for every mapping that fields can make |
| MappingFields.OtherPlatforms | glfw/input.c:247-252 | a library for platform p reads a line printed for platform q, with every element, if and only if p is a prefix of q; otherwise it refuses the line |
| MappingFields.UnknownFieldSkipped | glfw/input.c:192-259 | a field that no entry names is skipped with all commas after it |
| MappingFields.TableIsUnambiguous | glfw/input.c:140-164 | no two entries of the field table share a name or an element |
| MappingFields.FieldIsFound | glfw/input.c:192-196 | the search stops at a field's own entry, although names are prefixes of one another |
| MappingFields.PrintedNumber | glfw/input.c:226-233 | the number reader gives back a printed number and stops after its digits |
| MappingFields.SpacedNumber | glfw/input.c:226-233 | white space and a sign may come before a number; one too large reads as 2^64 - 1 and a minus sign takes it from 2^64 |
| MappingFields.NoNumber | glfw/input.c:226-233 | without a digit behind the white space and the sign the number is 0 and nothing is read |
| MappingFields.HatReadsNumbers | glfw/input.c:226-231 | a hat is read from two numbers of any size with any character but a digit between them |
| MappingFields.HatIndexBits | glfw/input.c:230 | each bit of a hat element's index is that of the direction, or in the upper half that of the hat or of the direction |
| MappingFields.ButtonWraps | glfw/input.c:233 | a sign before a button means nothing and only the low eight bits of its number are kept |
| MappingFields.ReadFieldsTransform | glfw/input.c:235-245 | no text makes an axis element with any other transform than a whole or half axis has |
| GamepadMappings.LineRoundTrip | glfw/input.c:132-269 | parsing the printed line of a mapping gives back its GUID, name and every element |
| GamepadMappings.PrintedLineIsAccepted | glfw/input.c:1333-1372 | an update with that line accepts exactly that mapping |
| GamepadMappings.LinesApart | glfw/input.c:1333-1372 | a text is cut into lines at every carriage return and line feed, and their mappings are added in order |
| GamepadMappings.LineGives | glfw/input.c:1333-1348 | a line gives a mapping if and only if it starts with a hexadecimal digit, is shorter than 1024 and parses |
| GamepadMappings.ParsedAxesTransform | glfw/input.c:235-245 | every axis element of a parsed mapping is that of its named part of the axis, inverted or not |
| GamepadMappings.AxisFillsRange | glfw/input.c:235-245 | the element's transform carries exactly the named part of the axis onto [-1, 1], end to end |
| GamepadMappings.AxisIsStretched | glfw/input.c:1508-1512 | the clamped transform stretches the named part of the axis to [-1, 1]: ends to ends, middle to middle, and beyond an end it stays there |
| GamepadMappings.ButtonOnAxis | glfw/input.c:1478-1493 | a button on an axis is down exactly when the axis is at least half way into the named part, inverted or not |
| GamepadMappings.ButtonValueShows | glfw/input.c:1474-1503 | a button shows its physical button, a hat by whether one of the named directions is down, an axis by whether it is half way, and nothing if unused |
| GamepadMappings.AxisValueShows | glfw/input.c:1505-1524 | an axis shows its stretched physical axis, -1 or 1 for a button or hat released or down, and 0 if unused |
| GamepadMappings.LastMappingWins | glfw/input.c:1349-1362 | the table is a finite map with one entry for each lower-case GUID, in which the last accepted mapping wins |
| Gamepads.Library.FindMapping | glfw/input.c:65-76 | the first entry with the GUID, or none |
| Gamepads.Library.FindValidMapping | glfw/input.c:95-128 | the entry for the joystick's GUID if the joystick has every input the entry names, else none |
| Gamepads.Library.Parse | glfw/input.c:132-269 | a line gives a mapping if and only if it is a GUID of 32 characters, a name of at most 127 and readable fields, separated by commas; the mapping has the GUID in lower case, that name, those fields' elements and only proper axis transforms |
| Gamepads.Library.ReadLines | glfw/input.c:1333-1372 | the table becomes the old one with every accepted line's mapping inserted in order |
| Gamepads.Library.UpdateGamepadMappings | glfw/input.c:1324-1382 | after an update every connected joystick's mapping is none or the live entry for its GUID with all elements valid |
| Gamepads.Library.AllocJoystick | glfw/input.c:458-490 | takes the first free slot, or none if all are taken, with nothing moved or pressed, and validates its mapping; other slots are unchanged |
| Gamepads.Library.InputJoystickHat | glfw/input.c:439-449 | the hat's value is stored and its four buttons say which directions it points to; nothing else changes |
| Gamepads.Library.GetGamepadState | glfw/input.c:1443-1527 | succeeds exactly when the table has an entry for the GUID and the joystick has every input it names; then each button is the physical button, hat direction or half-way axis that its element names, and each axis the stretched axis or the -1 or 1 of a button or hat; every index used is in range and every axis lies in [-1, 1] |
| Gamepads.Library.PerformAll | glfw/input.c:1324-1382 | after any run of updates, connections and readings the table maps each GUID to the last mapping accepted for it and no mapping pointer dangles |
| Utf8.EncodeUtf8 | glfw/input.c:503-528 | writes the encoding at the start of the buffer, returns its length and leaves the rest |
| Utf8.DecodeAllEncodeAll | glfw/input.c:503-528 | decoding the concatenated encodings gives back the text |
| Utf8.EncodingIsInjective | glfw/input.c:503-528 | two texts with the same bytes are the same text |
| Utf8.SelfSynchronising | glfw/input.c:503-528 | a byte starts a code point if and only if it is not a continuation byte |
| Utf8.Utf8Strndup | glfw/backend_utils.c:340-353 | a fresh NUL-terminated copy of the bytes before the cut, or null for null |
| Utf8.CutIsLongestPrefix | glfw/backend_utils.c:340-353 | cutting the encoding of a text without NUL keeps the encoding of the longest prefix of code points that fits |
| Utf8.FitsIsLongest | glfw/backend_utils.c:340-353 | a prefix fits in the limit if and only if it is no longer than the one kept |
| ErrorList.ListHoldsEachThreadOnce | glfw/init.c:182-194 | in every interleaving the list is a chain of distinct records, holding exactly the records of the threads but the main one that have finished their push, and no two threads share a record |
| ErrorList.AnswersAreTheCallersOwn | glfw/init.c:321-343 | in every interleaving each answer is the calling thread's latest error with its description, and no error if it was fetched since |
| ErrorList.CallsReturnAsMade | glfw/init.c:182-203 | in every interleaving each thread's calls return once, in the order it made them, an error recorded with the code and description it was raised with, and at most the last is still under way |
| ErrorList.StepKeeps | glfw/init.c:182-203 | every single read or write by any thread keeps ownership, mutual exclusion, the chain and the reports |
| ErrorList.MutexStep | glfw/init.c:189-192 | the lock is held exactly by the thread in the critical section, which has seen the current head |
| ErrorList.EveryAccessMovesOn | glfw/init.c:182-203 | in every interleaving each access of a thread in a call moves it on unless it waits for a held mutex, so that no record it uses is ever missing; and the holder of a mutex can always move |
| ErrorList.DrainList | glfw/init.c:102-107 | draining frees exactly the listed records, each once |
| ExtensionString.StringInExtensionString | glfw/context.c:405-429 | the pointer loop computes the search and terminates on every list |
| ExtensionString.TokenIsFound | glfw/context.c:419-425 | skipping to the end of a failed hit loses no token |
| ExtensionString.SearchIffTokenOrChained | glfw/context.c:405-429 | the search succeeds exactly on tokens and on hits that end a token directly after another hit |
| ExtensionString.SearchFindsWholeTokens | glfw/context.c:405-429 | for a name that never occurs immediately after itself, the search succeeds if and only if the name is a token |
| ExtensionString.DoubledNameIsMistaken | glfw/context.c:419 | a list in which a doubled name is found although it is not a token |
| ParallelRun.Scheduler.Run | setup.py:573-619 | for every order of child exits the log is legal and each success with a hook calls it once; the children are those the exits used so far leave, and it waits only while it has one; it is done exactly when none is left, at the latest after as many exits of its own children as there are commands, and then all commands have succeeded or the first failed one is rerun last |
| ParallelRun.Scheduler.Reaped | setup.py:583-595 | a known child leaves the table, its result and hook are noted, and an earlier failure is kept; an unknown child is ignored |
| ParallelRun.Scheduler.Fill | setup.py:600-611 | adds nothing to the log but the starts of the next commands in order, until there is no room or none is left |
| ParallelRun.KnownExitsCount | setup.py:582-611 | at every point the commands started are the children still known and one for each exit of a known child |
| ParallelRun.RoomIsNeverExceeded | setup.py:599-614 | at no point of a legal log do more commands run than the limit |
| ParallelRun.StartsInOrder | setup.py:578-611 | commands start in list order, each at most once |
| ParallelRun.NoStartAfterFailure | setup.py:599 | no command starts after a failure is recorded |
| ParallelRun.ReapedAtMostOnce | setup.py:587-590 | no command is reaped twice |
| ParallelRun.FirstFailureIsKept | setup.py:591-593 | the command kept as failed is the first one reaped with a failure |
| ParallelRun.RerunIsFirstFailure | setup.py:616-619 | a command is rerun only when none runs any more, and it is the one that failed first |
| ParallelRun.FailedIffBadExit | setup.py:583-595 | a failure is kept if and only if some result reported one of a child known when it came |
| ParallelRun.FailedIsFirstBad | setup.py:591-593 | the command kept is that of the first such result |
| VideoModes.ComparisonIsTotalPreorder | glfw/monitor.c:42-65 | the comparison is antisymmetric in sign and transitive |
| VideoModes.ComparisonOrders | glfw/monitor.c:42-65 | a mode comes first that has fewer bits of colour, then a smaller area, then a smaller width, then a lower rate |
| VideoModes.TiesAreEqualModes | glfw/monitor.c:42-65 | modes of positive width tie if and only if they agree in depth, both dimensions and rate |
| VideoModes.Monitor.RefreshVideoModes | glfw/monitor.c:69-88 | the stored list is a permutation of what the platform reports in that order; a stored list is kept |
| VideoModes.Monitor.ChooseVideoMode | glfw/monitor.c:216-264 | a mode is chosen whenever one exists: the first of those with the least total difference in the colour depths asked for, then the least squared distance in size, then the rate least off, or the highest if none is asked for |
| VideoModes.CloserMeansBetter | glfw/monitor.c:229-259 | the comparison of differences is that order of preference, for every two modes and every wish |
| VideoModes.FirstClosestIsUnique | glfw/monitor.c:229-263 | at most one position is the earliest closest |
| VideoModes.DontCarePrefersHighestRate | glfw/monitor.c:247-250 | with no preferred rate the choice has the highest rate among the modes that tie in colour and size |
| VideoModes.ExactMatchIsChosen | glfw/monitor.c:229-263 | a mode that meets the wish in full is chosen |
| VideoModes.DistanceFits | glfw/monitor.c:233-250 | no difference overflows 32 bits for field values below 0x8000 |

## Left out

- VideoModes.Monitor.ChooseVideoMode: field values are below 0x8000, so that the C products and sums stay within 32 bits.
- TimerQueue.EventLoop.PrepareForPoll: clock readings lie before the largest representable time and sums of times do not wrap at 64 bits.
- TimerQueue.EventLoop.DispatchTimers: a callback is the list of timer calls it makes; it does not re-enter dispatch, and the free functions of callback data are not called.
- HeldKeys.KeyTable.InputKeyboard: sticky keys are off; modifier masking and the text of an event are not modelled.
- BufferOwnership.RunIsLegal: allocation and mapping succeed, and a destroyed buffer's address is not given to a later one.
- ShadowMask.BlurMask: arithmetic is over the reals and `exp` is any positive function; float rounding is not modelled.
- NameTables.GenNames: word letters fit a byte.
- NameTables.Search: nothing is promised when the node indices do not fit the 24 bits they are packed into; the generator does not check that they do.
- CommandParser.Parse: the diagnostic report and its formatting are not modelled; base64 decoding is a parameter, and a payload too long for its buffer is one it refuses.
- Gamepads.Library.Parse: the platform hook that rewrites GUIDs is the empty one of Linux; a hat value that the line ends in the middle of stops there instead of reading the bytes behind it.
- Gamepads.Library.GetGamepadState: polling the platform driver is the sequence of input calls that precede the query; axis arithmetic is over the reals.
- ErrorList.AnswersAreTheCallersOwn: the library is initialised throughout, the error callback is not called, and a description is read at the moment it is returned.
- ParallelRun.Scheduler.Run: progress output is not modelled; a new child's pid differs from those of running children.
- Sorting.QSort: stands for the C library's sort; only that its result is some sorted permutation is used.
- The title bar's pixels: its fill loop's end pointer is computed from the already advanced output pointer, and its left shadow segment assumes a minimum width.
- The watch table of `glfw/backend_utils.c` and event dispatch: it would add easy members, and callbacks that change watches see shifted poll results.
- The compilation database of `setup.py`, and the joystick, input-method, OpenGL, Vulkan and D-Bus back ends: mostly foreign calls.
- Cursor and window lists: plain linked-list insertion and removal.
- Downloading and parsing the Unicode data: the resulting sets are arbitrary inputs here.
