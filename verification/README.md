# pyaseba in Dafny

pyaseba is a client for robots that speak the Aseba protocol, and a simulator of such robots. This project models the
parts of it that keep state across messages, and proves what every run of them does:

- **Discovery.** A client learns of a node in fragments, interleaved with everything else on the connection.
  `Discovery` says what any signal does to the entry of one node and proves reassembly, notification and timeout
  properties of all lists of signals. `DescriptionManager` holds the objects with the source's fields, proved against
  it, and the theorem that every node of a manager behaves as if it were alone.
- **The variable cache.** `Layout` and `FlatMemory` say how named variables lie in an array of cells. `VariableCache`
  is the node object of the Python client, whose dictionaries share lists (`ValueLists`); `CacheSync` says when its
  values agree with the remote memory, over all runs of updates, reads, writes, events, syncs and scripts loaded;
  `ChangedAreas` says what areas changed in place do to shared lists. `BulkRead` is the answer that arrives in pieces.
- **Mirroring.** `AsebaCode` gives the generated handlers their meaning (int16 cells, as in `Int16Cells`, and truncating
  division). `Mirroring` is the generator; `MirroringRuns` and `MirroringPayloads` prove what any run of the generated
  program emits, and that calls reach the node they are meant for.
- **The simulated node.** `NetworkNode` allocates variables, numbers events and dispatches functions.
- **The prox-comm recorder.** `ProxComm` refines a trace with lost events and a counter that wraps.
- **Waiting, queueing, connecting.** `Waiter` and `MessageQueue` are machines whose steps are the regions a mutex
  protects; `NodesWaiter`, `Selection` and `Streams` are the waiter for nodes and the numbering of connections.
- **Codecs.** `Framing` (messages on a byte stream) and `Targets` (names of connections).
- **EndToEnd** joins the parts: a client that has heard a description knows the node's own addresses, reads and writes
  exactly the node's variables, and neither mirrored events nor updates of changed areas leave its cache wrong.

Where a class changes state in place, its methods are proved to make exactly the step of a specification function, and
the theorems are about all runs of that function. What such a function does is also said without it, in terms of what
has happened in the run: when a node is connected, dropped, known or ignored; which messages a read takes; when an item
is released; which value a program sees; which dictionaries share a list; which names and variables a script has. Where
the code does not meet the obvious statement, there is a lemma
with an input that shows it, and one that says exactly when the statement holds.

`dafny verify dfyconfig.toml` checks the whole project.

## Conventions

- Time is a natural number handed to the steps, and need not increase from step to step. Differences of times are
  unsigned in the source, whose class for times is not part of this model: one that would be negative exceeds every
  timeout. Regions protected by a mutex are atomic; a notification is atomic with the change of state it reports,
  although the source reports after unlocking.
- The two-level maps of the source (target, then id) are one map from pairs.
- The compiler and the virtual machine of Aseba, its message classes and `TargetDescription::getVariablesMap` are not
  part of this model. The table of variables is taken to hold the prefix sums of the sizes in declaration order, a later
  variable replacing an earlier one of the same name.
- The Python bindings convert to int16 or raise. Where an int that does not fit can reach one, the model refuses the
  operation, as the source does: nothing is sent, and of a sync nothing after that value.
- Iteration over a Python set or a C++ map is an arbitrary choice of the next element, except where the order matters
  (`get_node` goes through the targets in ascending order).
- Where documentation and code disagree, the model follows the code: the description of the parameter `cached` of
  `Node.set` (pyaseba/client/node/node.py:620-627) has it the wrong way round; a cached value is not forwarded at once.

## Model

| member | source | states |
|---|---|---|
| Layout.ComputeVariablesSize | src/client/utils_client.h:14-21 | the loop adds up the sizes of a table, in whatever order |
| Layout.BuildIndex | src/client/description_manager.h:61-65 | the rebuilt index has, for every address of the table, a variable that the table puts there, and nothing else |
| Layout.TableIsPrefixSums | src/client/description_manager.h:58-59 | with distinct names, the entry of the k-th variable is the sum of the sizes before it, and its size |
| Layout.TableSizeTotal | src/client/description_manager.h:59-60 | with distinct names, the size computed from the table is the size of the whole array: the table tiles it |
| Layout.CellOwner | src/client/description_manager.h:61-65 | every cell below the total size belongs to a variable |
| Layout.DisjointVariables | src/network/node.h:127-128 | different variables share no cell |
| Layout.IndexIsExact | src/client/description_manager.h:84-92 | with distinct names and positive sizes, the rebuilt index holds exactly the declared variables at their offsets |
| Discovery.AssembleStep | src/client/description_manager.h:49-83 | updating a node with one more fragment in place gives the same node as assembling it again from all fragments |
| Discovery.CompleteIsFinal | src/client/description_manager.h:54-83 | a fragment for a complete node changes nothing |
| Discovery.Reassembly | src/client/description_manager.h:321-383 | for every list of signals, a known node is what its header and the fragments received since it was admitted describe; a connected node is complete |
| Discovery.ReassemblyBySlot | src/client/description_manager.h:49-83 | slot by slot: the first c variables, events and functions are the first c fragments of their kind, the others blank; complete exactly when all three kinds are full |
| Discovery.CompleteNeverReverts | src/client/description_manager.h:357-364 | after completion, only the end of its lifetime changes what a node has been told; it stays complete |
| Discovery.TrailTellsConnection | src/client/description_manager.h:347-382 | in every reachable state the flag `connected` is what the notifications so far say |
| Discovery.ConnectedOnlyWhenUnannounced | src/client/description_manager.h:357-382 | `node_connected` is only called for a node not announced as connected |
| Discovery.NotificationsAlternate | src/client/description_manager.h:166-196 | between two `node_connected` for a node there is a `node_disconnected`, or a disconnect or reset that was to be silent |
| Discovery.DisconnectionIsMatched | src/client/description_manager.h:296-313 | a disconnection reported by a timeout, a closed stream or a reset belongs to an earlier `node_connected` not yet followed by another |
| Discovery.DisconnectedMatchedIff | src/client/description_manager.h:347-354 | the report of a Disconnected message belongs to an earlier `node_connected` exactly if the node is connected at that moment |
| Discovery.UnmatchedDisconnection | src/client/description_manager.h:347-354 | a run in which it is not |
| Discovery.PingLeavesRecent | src/client/description_manager.h:301-306 | after a ping with the timeout on, a connected node of version 5 or more is still connected exactly if its last message is recent enough and not later than the time the ping has taken |
| Discovery.MessageConnectsIff | src/client/description_manager.h:355-382 | in every run: after a message to a node that is known then, other than a refused description or Disconnected, the node is connected exactly if the fragments of all three kinds reach the numbers of its header; `description_received` is called exactly if it is this message that makes them, `node_connected` exactly if the node was not connected before and is then |
| Discovery.PingDropsIff | src/client/description_manager.h:297-313 | in every run: a ping drops and reports a node exactly if it is connected, the timeout is on, its version is 5 or more, and its last message is too old, or later than the time the ping has taken; otherwise the entry stays as it is and nothing is said |
| Discovery.ConnectionEndsIff | src/client/description_manager.h:166-196 | in every run: a connection ends exactly with a Disconnected message, a closed stream, a reset, or a ping that finds the node silent; exactly which of them are reported, a Disconnected message for every known node |
| Discovery.QueriedIff | src/client/description_manager.h:327-336 | in every run: the client sends a query about a node exactly if a NodePresent comes from it while it is neither known nor ignored, and queries are on |
| Discovery.IgnoredIff | src/client/description_manager.h:337-341 | in every run: a node is ignored exactly if one of its descriptions has been refused since the last reset |
| Discovery.KnownIff | src/client/description_manager.h:343-354 | in every run: a node is known exactly if a description of it has been admitted while it was not ignored, and its entry has not been ended since |
| DescriptionManager.ClientNode.constructor | src/client/description_manager.h:25-32 | a node starts with blank slots of the declared numbers, complete only if nothing is declared, and with empty tables |
| DescriptionManager.ClientNode.UpdateVariable | src/client/description_manager.h:54-69 | stores the next variable, and rebuilds the tables when it was the last; nothing when full |
| DescriptionManager.ClientNode.UpdateEvent | src/client/description_manager.h:70-76 | stores the next event; the first description of a name wins |
| DescriptionManager.ClientNode.UpdateFunction | src/client/description_manager.h:77-83 | stores the next function; the last description of a name wins |
| DescriptionManager.ClientNode.Handle | src/client/description_manager.h:355-382 | what a message other than Disconnected does to a known node, and what is reported |
| DescriptionManager.ClientNode.UpdateTable | src/client/description_manager.h:84-92 | a loaded script replaces the table; size and index follow it |
| DescriptionManager.ClientNode.UpdateUserEvents | src/client/description_manager.h:94-102 | a loaded script replaces both tables of user events |
| DescriptionManager.ClientNode.GetEventName | src/client/description_manager.h:104-110 | the name at this position of the list of user events loaded last; the empty one beyond its end, or if the name occurs again later |
| DescriptionManager.ClientNode.GetEventIndex | src/client/description_manager.h:112-117 | -1 exactly if the list of user events loaded last does not have the name, otherwise its last position there |
| DescriptionManager.EventNumbers | src/client/description_manager.h:94-102 | a name has the number i exactly if it is the i-th and not repeated later |
| DescriptionManager.ClientNode.TablesAreExact | src/client/description_manager.h:58-102 | of a description with distinct variables that have cells, the index kept holds exactly these variables at their places and the size kept is the sum of their sizes; an event of the script has the value that its name has last |
| DescriptionManager.Projection | src/client/description_manager.h:321-383 | an event changes a node's entry as the node's own signal does, and not at all when it is about others |
| DescriptionManager.EveryNodeRunsAlone | src/client/description_manager.h:138-384 | for every interleaving over all nodes and connections, every node behaves, and is reported, as if it were alone with its own signals |
| DescriptionManager.Manager.ProcessMessage | src/client/description_manager.h:321-383 | the whole state and the notices about every node after one message |
| DescriptionManager.Manager.PingNetwork | src/client/description_manager.h:287-319 | silent nodes are dropped and reported once each; descriptions are asked for exactly if no connected node is left |
| DescriptionManager.Manager.Disconnect | src/client/description_manager.h:183-196 | the nodes of a closed connection are kept but not connected; those that were are reported if asked |
| DescriptionManager.Manager.ResetAll | src/client/description_manager.h:166-181 | all nodes and all refusals are forgotten; connected nodes are reported if asked |
| DescriptionManager.Manager.Replay | src/client/description_manager.h:138-384 | a manager that has lived through any events is, node by node, what the specification of single nodes says, with the same notices |
| DescriptionManager.Manager.GetNode | src/client/description_manager.h:213-229 | the node on the least admissible connection where it is complete and as connected as asked; null exactly if there is none |
| DescriptionManager.Manager.HasNode | src/client/description_manager.h:198-211 | asks only the least admissible connection that has the id |
| DescriptionManager.HasNodeMisses | src/client/description_manager.h:198-211 | two connections with the same id for which has_node and get_node disagree |
| DescriptionManager.HasNodeIffGetNode | src/client/description_manager.h:198-229 | has_node and get_node agree on an id, whatever is included, excluded and asked for, exactly if a complete node with it is preceded only by complete ones that are as connected as it is |
| DescriptionManager.Manager.GetNodeIds | src/client/description_manager.h:231-247 | exactly the ids on offer, by connection, without empty entries |
| FlatMemory.WriteVariable | pyaseba/client/node/node.py:709-710 | writing part of one cached list is writing its cells of the flat memory, and no others |
| FlatMemory.SliceOfFlat | pyaseba/client/node/node.py:709-710 | reading a cached list is reading its interval of the flat memory |
| FlatMemory.LosesNothingIff | pyaseba/client/node/node.py:699-700 | leaving the loop at the first area beyond the end loses nothing, for any memory and values, exactly if after such an area none has a cell within the memory |
| FlatMemory.AscendingLosesNothing | pyaseba/client/node/node.py:699-700 | so it does for ascending areas |
| FlatMemory.DescendingLosesAnArea | pyaseba/client/node/node.py:699-700 | out of order, an area within the memory is lost |
| VariableCache.Node.SetChanges | pyaseba/client/node/node.py:691-717 | the lists become, in place, what storing the areas reached makes of them, whichever of them the dictionaries share and however long they are; an exception is raised exactly if a variable touched has no list or there is no variable at all, and otherwise the names are those touched, in order; if all lists have full length the cache afterwards is the flat memory overwritten by these areas, clipped at the end, for current and previous values; all loops terminate |
| VariableCache.Node.SetChange | pyaseba/client/node/node.py:701-716 | one area is stored from the variable that owns its first cell on, variable after variable, up to an exception |
| VariableCache.Node.AssignSlices | pyaseba/client/node/node.py:711-712 | the slice is assigned in place to the current list and then to the previous one, twice if they are one list; a pending list that is one of them changes with it |
| VariableCache.Node.Descend | pyaseba/client/node/node.py:702-706 | the walk downwards ends at the start of the variable that owns the cell, and fails exactly if there is no variable |
| ChangedAreas.StoreOverwrites | pyaseba/client/node/node.py:701-716 | in lists of full length, shared or not, storing variable after variable overwrites the flat memory, clipped at its end, for current and previous values |
| ChangedAreas.ReportedAreTouched | pyaseba/client/node/node.py:709 | the names reported are those of the variables the area overlaps, in layout order |
| ChangedAreas.StoreAllReports | pyaseba/client/node/node.py:699-717 | an exception is raised exactly if a variable touched has no current or no previous list, or there is no variable at all; otherwise the names reported are those touched; which lists are shared does not change |
| ChangedAreas.StoreIsFoundIff | pyaseba/client/node/node.py:711-712 | for lists of any length, the values of an area are afterwards at their places in the current lists exactly if the list of the variable it begins in reaches as far as its first cell or, if that list is the previous one, too, falls short of it by no more cells than the area has in this variable |
| ChangedAreas.FoundAfterUnansweredReadIff | pyaseba/client/node/node.py:769-776 | after an unanswered read, which leaves one empty list in both dictionaries, the values of an area that begins in this variable are stored at their places exactly if the area has at least as many cells in the variable as lie before it |
| ChangedAreas.UnansweredReadStoresTwice | pyaseba/client/node/node.py:711-712 | one empty list in both dictionaries: [1, 2, 3] from the second of four cells on gives [1, 1, 2, 3], and [9] for the third gives [9, 9] |
| ChangedAreas.PendingSurvivesIff | pyaseba/client/node/node.py:711 | a pending value that is the current list, too, is overwritten with it; it survives an area exactly if the area has no other value for one of its cells |
| ChangedAreas.CachedWriteSurvivesIff | pyaseba/client/node/node.py:614-644 | a cached assignment is still pending, as it was assigned, after an area that arrives before the next sync exactly if the area agrees with it |
| ChangedAreas.StoreAllOverwrites | pyaseba/client/node/node.py:699-717 | the same as StoreOverwrites for a list of areas, with the names |
| ChangedAreas.TiesRun | pyaseba/client/node/node.py:614-779 | in every run, two dictionaries that share a list have one value for the name, and no list is shared by all three |
| ChangedAreas.SharedIff | pyaseba/client/node/node.py:614-779 | in every run, two of the dictionaries share the list of a variable exactly if a read, an assignment or a sync that was broken off has given it one list in both, and nothing has given it another in one of them since |
| VariableCache.Node.constructor | pyaseba/client/node/node.py:318-326 | a node that has been connected has an empty list for every declared variable, and nothing remembered or pending |
| VariableCache.Node.Describe | pyaseba/client/node/node.py:318-326 | connecting again or loading a script gives every variable of the new description an empty list of its own; remembered and pending values stay |
| VariableCache.Node.Update | pyaseba/client/node/node.py:736-746 | all values replace both dictionaries, which then share their lists; without an answer nothing changes |
| VariableCache.Node.Get | pyaseba/client/node/node.py:748-779 | a cached value is returned if asked for and known; otherwise the answer, or the empty list, becomes the current and the previous list and is returned |
| VariableCache.Node.Set | pyaseba/client/node/node.py:614-644 | directly: written to the node and current, or refused if not all int16, with nothing changed; cached: one list becomes pending and current |
| VariableCache.Node.AssignProperty | pyaseba/client/node/node.py:35-39 | the setter makes one list pending and current |
| VariableCache.Node.EventCallback | pyaseba/client/node/node.py:425-429 | values read from an event replace current and previous ones of the names already cached |
| VariableCache.Node.Sync | pyaseba/client/node/node.py:646-661 | goes through the sync variables once each, up to a value that is refused; a copy is sent, the pending list is remembered |
| VariableCache.Node.Replay | pyaseba/client/node/node.py:614-779 | a node object after any operations has the values that the specification of runs says, and shares the lists that it says |
| CacheSync.ReadAfterWrite | pyaseba/client/node/node.py:627-632 | a written value is read back as far as the variable goes, then what was there before; no other variable notices a write that stays inside |
| CacheSync.ChangesNoOtherIff | pyaseba/client/node/node.py:627-632 | in every memory no other variable changes exactly if the value is no longer than the variable, or the variable is the last one |
| CacheSync.LongValueSpills | pyaseba/client/node/node.py:627-632 | one cell too many, and the next variable changes |
| CacheSync.SyncEffect | pyaseba/client/node/node.py:653-660 | whatever the order: a pending sync variable that differs from the value remembered and can be sent is written and remembered, all else stays |
| CacheSync.CoherentRun | pyaseba/client/node/node.py:614-779 | every run, from connecting on, of updates, reads, cached and direct writes, events, syncs, scripts loaded and foreign changes of other variables: the remembered value of an owned variable is the remote one, unless it has been written directly since, or loading a script has given the name another value; after a request without an answer it is the empty list |
| CacheSync.RememberedIsRemote | pyaseba/client/node/node.py:614-779 | without direct writes, with every request answered and no remembered name given another value by a script, every remembered value of an owned variable is the remote one |
| CacheSync.SyncDelivers | pyaseba/client/node/node.py:646-661 | after any such run, sync leaves every pending variable it gets to with its value on the node, unless its remembered value is in doubt, and changes no other; nothing stays pending if no value is refused, otherwise everything |
| CacheSync.SyncDeliversIff | pyaseba/client/node/node.py:653-658 | in any state, if nothing is refused, a pending value arrives exactly unless it equals a remembered value that is out of date |
| CacheSync.SyncRaisesIff | pyaseba/client/node/node.py:646-661 | sync raises, and keeps all pending values, exactly if one of its variables has a pending value that is not the one remembered and that the bindings refuse |
| CacheSync.LastShownIsSeen | pyaseba/client/node/node.py:614-779 | a program sees the value shown last, by its own write, a read, an update, an event or a description, through any later operations that show no other one, syncs and changes of the node among them |
| CacheSync.DirectWriteLosesCachedWrite | pyaseba/client/node/node.py:627-644 | a direct write, then a cached write of the old value, then sync: the cached write is lost |
| BulkRead.Reader.Update | src/client/awaited.h:294-312 | one message from the target is stored cell by cell; complete exactly when every cell has been received, and then each name has its slice of the last values |
| BulkRead.Reader.Run | src/client/awaited.h:276-313 | over any messages: complete at the first one with which all cells are covered, with the last value received for each cell |
| BulkRead.CompleteIff | src/client/awaited.h:303 | in a memory that is not empty, some message completes the read exactly if all cells are covered |
| BulkRead.DescriptionTiles | src/client/awaited.h:289-292 | the table of a description tiles the array that is allocated for it |
| BulkRead.StillMemoryIsRead | src/client/client.h:682-694 | a memory that does not change meanwhile is read as it is, whatever the order and overlaps of the messages |
| BulkRead.TakenIs | src/client/awaited.h:295-296 | a read of a node takes the messages of that node, all of them and in order; a read of any node takes every message |
| BulkRead.CompletesIff | src/client/awaited.h:294-303 | a message completes the read exactly if it is one of the node's own and these, up to it, have every cell |
| BulkRead.OthersMakeNoDifference | src/client/awaited.h:294-312 | whatever other nodes send, a read of a node shows what it would show if its node's messages were the only ones |
| BulkRead.TargetIsRead | src/client/awaited.h:294-312 | if the node's own messages carry a memory that does not change, the read shows exactly that memory as soon as they have every cell, and nothing before, whatever other nodes send |
| ProxComm.Recorder.UpdateProxCounter | pyaseba/client/thymio/thymio.py:135-138 | the counter moves forward by the difference modulo 65535 |
| ProxComm.UnwrapIsLeast | pyaseba/client/thymio/thymio.py:135-138 | the new counter is the least value not below the old one that agrees with the sample modulo 65535 |
| ProxComm.Recorder.AppendToProxCommBuffer | pyaseba/client/thymio/thymio.py:140-149 | a message joins its group, or begins it and displays the one before |
| ProxComm.Recorder.UpdateProxCommBuffer | pyaseba/client/thymio/thymio.py:151-157 | a prox event displays its group and forgets all messages kept |
| ProxComm.Recorder.SetRecording | pyaseba/client/thymio/thymio.py:128-133 | switching off forgets the messages but not the counter |
| ProxComm.Recorder.Record | pyaseba/client/thymio/thymio.py:159-169 | a recorder after any events is what the specification says |
| ProxComm.AtMostOneKey | pyaseba/client/thymio/thymio.py:140-157 | after any events, messages are kept only for the current counter |
| ProxComm.TagFallsBehind | pyaseba/client/thymio/thymio.py:136 | the int16 counter has period 65536: with every wrap the client's count falls behind by one |
| ProxComm.UnwrapFollows | pyaseba/client/thymio/thymio.py:135-138 | from one group to a later one the count follows exactly if less than a full turn lies between |
| ProxComm.LossKeepsOrder | pyaseba/client/thymio/thymio.py:159-169 | whatever events are lost, what is received of an ordered stream is ordered |
| ProxComm.RecorderRefines | pyaseba/client/thymio/thymio.py:135-169 | whatever has been lost: counter, messages kept and messages displayed are those of the trace received |
| ProxComm.DelimiterDisplays | pyaseba/client/thymio/thymio.py:151-157 | a prox event that arrives displays exactly the messages received of its group, except across a wrap |
| ProxComm.NextGroupDisplays | pyaseba/client/thymio/thymio.py:143-147 | if a prox event is lost, the first message of the next group displays the group |
| ProxComm.NothingMergesBeforeWrap | pyaseba/client/thymio/thymio.py:136 | before the first wrap no groups are ever merged |
| ProxComm.WrapMergesGroups | pyaseba/client/thymio/thymio.py:136 | across a wrap two groups share a count: if the prox event between them is lost they are displayed as one |
| Mirroring.Generator.constructor | pyaseba/client/node/mirroring.py:62-95 | the books after all events and functions of a configuration, in order, with the definitions and initialisations; the names of id and buffer are those at addresses 0 and 2 |
| Mirroring.Generator.AddEvent | pyaseba/client/node/mirroring.py:114-169 | adds the handler and the entries of the event; an unknown variable is refused before anything has changed |
| Mirroring.Generator.AddFunction | pyaseba/client/node/mirroring.py:97-112 | adds the guarded call and the entries of the function |
| Mirroring.IsAtIff | pyaseba/client/node/mirroring.py:76-80 | in a description with distinct names, the name found for the place of a variable is that of the variable: the id is the first one, the buffer the one that begins in the third cell |
| Mirroring.Generator.CallEvent | pyaseba/client/node/node.py:596-612 | a call sends the id as an int16, then the arguments, exactly if the function is exposed and all of them are int16; otherwise nothing, or it is refused |
| Mirroring.Generator.ReadVariables | pyaseba/client/node/mirroring.py:171-177 | walks through the payload piece by piece; nothing for an unknown event |
| Int16Cells.WrapAdd | pyaseba/client/node/mirroring.py:150 | wrapping every partial sum is wrapping the sum |
| Int16Cells.WrapAllIsExact | src/client/python.cpp:1618-1632 | storing a list as int16 keeps it exactly if all of it is int16, which is what the bindings accept |
| AsebaCode.ExecAllFrame | pyaseba/client/node/mirroring.py:136-162 | code keeps the sizes of all variables and the values of those it does not write, and emits only its own events |
| MirroringRuns.ProgramIsWellMade | pyaseba/client/node/mirroring.py:81-95 | every generated handler writes only its private variables and emits only its own event |
| MirroringRuns.DispatchProgram | pyaseba/client/node/mirroring.py:114-169 | the handler found for a mirrored event is the one generated for it |
| MirroringRuns.InitsInitialise | pyaseba/client/node/mirroring.py:88-95 | the lines before the handlers set all counters and window buffers to zero |
| MirroringRuns.WindowedRun | pyaseba/client/node/mirroring.py:144-162 | after any run, of any events: one emission per full window, of its averages; the samples since then are accumulated |
| MirroringRuns.WindowedMirroring | pyaseba/client/node/mirroring.py:144-162 | after kW + r events: k emissions, the j-th of the truncated averages of samples jW to jW + W - 1; the window counter is r, the payload holds the sums of the last r samples |
| MirroringRuns.AverageIsExactIff | pyaseba/client/node/mirroring.py:150-156 | an emitted average is the truncated average exactly if the sum of the window fits into an int16 |
| MirroringRuns.SmallSamplesFit | pyaseba/client/node/mirroring.py:150 | the sum of samples is bounded by their number times a bound of each |
| MirroringRuns.ExactWindowedMirroring | pyaseba/client/node/mirroring.py:144-162 | if every sampled cell times the window is within 32767, emission j is the exact truncated average of samples jW to jW + W - 1 |
| MirroringRuns.HugeWindowNeverEmits | pyaseba/client/node/mirroring.py:152-153 | a window that no int16 can count never emits |
| MirroringPayloads.PlainMirroring | pyaseba/client/node/mirroring.py:136-143 | without a window every event emits its sample at once; without variables it emits nothing, not even the counter |
| MirroringPayloads.SampleIs | pyaseba/client/node/mirroring.py:119-131 | a sample is the values of the variables asked for, then that of the counter, if one is wanted: of the event's own, or of the one named |
| MirroringPayloads.OwnCounterCounts | pyaseba/client/node/mirroring.py:126-131 | the own counter has counted the events, and the i-th sample ends with i, as int16 |
| MirroringPayloads.SizedRun | pyaseba/client/node/mirroring.py:119-121 | in every run the node's variables keep the sizes that the payload is read with |
| MirroringPayloads.EventRoundTrip | pyaseba/client/node/mirroring.py:114-177 | reading the concatenation of the values of a moment gives every variable asked for its value, and no other |
| MirroringPayloads.RunRoundTrip | pyaseba/client/node/mirroring.py:114-177 | reading the i-th payload emitted in any run gives every variable asked for its value when the event happened for the i-th time |
| MirroringPayloads.DeclaredSizeIff | pyaseba/client/node/mirroring.py:120-135 | without a window, the declared size is the size emitted exactly if there is no counter, or there are variables and the counter has one cell |
| MirroringPayloads.WindowedSizeIsDeclared | pyaseba/client/node/mirroring.py:120-135 | with a window, every emission of every run has the declared size |
| MirroringPayloads.SlicesTile | pyaseba/client/node/mirroring.py:100-103 | the slices of the buffer begin where the one before ends, and add up to the sizes |
| MirroringPayloads.CallMarshalling | pyaseba/client/node/mirroring.py:104-109 | the function is called with exactly the segments of the arguments, if the first value is the node's id; otherwise nothing happens |
| MirroringPayloads.Int16Iff | pyaseba/client/node/utils.py:5-8 | int16 is the int16 of the same bits exactly if the id is not 32768 |
| MirroringPayloads.GuardIff | pyaseba/client/node/mirroring.py:106 | the guard passes on the addressed node and no other; for id 32768 on none |
| MirroringPayloads.CallArrives | pyaseba/client/node/node.py:603-612 | from call to the native function: it is called with the arguments passed exactly on the addressed node, if all arguments are int16 and the id is not 32768; the declared size is that of the arguments, one less than the payload |
| MirroringPayloads.NamesLeadBack | pyaseba/client/node/mirroring.py:111-169 | the name looked up for a local event is the one its handler emits, and leads back to it; there is one exactly for the events mirrored and for the functions exposed |
| MirroringPayloads.DefinedIff | pyaseba/client/node/mirroring.py:88-96 | the script defines exactly the variables that the handlers of the mirrored events have to themselves, with the size they need, and one for its loops |
| NetworkNode.Node.constructor | src/network/node.h:65-92 | nothing allocated yet, the default variables published, cell 0 holds the id |
| NetworkNode.Node.Init | src/network/node.h:98-107 | lays out the published variables one after the other, once |
| NetworkNode.Node.AddVariable | src/network/node.h:116-130 | allocates and publishes, or refuses a known name or one that does not fit |
| NetworkNode.Node.GetVariable | src/network/node.h:141-150 | the cells of a variable; nothing for an unknown one |
| NetworkNode.Node.GetVariables | src/network/node.h:132-139 | the cells of all variables |
| NetworkNode.Node.SetVariable | src/network/node.h:152-160 | copies the value as int16, as far as it fits; nothing for an unknown variable |
| NetworkNode.Node.AddEvent | src/network/node.h:162-170 | numbers and publishes an event, once |
| NetworkNode.Node.AddFunction | src/network/node.h:193-209 | publishes a function with its sizes, unless there is one of that name |
| NetworkNode.Node.CallFunction | src/network/node.h:238-248 | a standard function, an extra one, or none |
| NetworkNode.Node.CallExtraFunction | src/network/python.cpp:69-108 | the method is given the cells of its arguments, and its results are written back from the last argument backwards; an answer that is not all int16 is refused as a whole |
| NetworkNode.Node.GetDescription | src/network/description.h:67-85 | the description is made once, and is that for good |
| NetworkNode.Node.Reset | src/network/node.h:254-257 | all cells zero, except the id |
| NetworkNode.AdditionsKeepAgreement | src/network/node.h:116-130 | whatever is added, accepted or refused: addresses stay the prefix sums of the published sizes within 1024 cells, and nothing moves |
| NetworkNode.AdditionIsPublishedIff | src/network/node.h:116-130 | after any additions, one more variable is published exactly if its name is new and the cells left are enough |
| NetworkNode.InitAgreesIff | src/network/node.h:98-107 | init makes the addresses agree exactly if nothing was added before it, or there are no default variables and those added have no cells |
| NetworkNode.MappedIff | src/network/description.h:136-140 | the other table of the description is right for a variable exactly if it is a default one or has no cells: it stores the end |
| NetworkNode.ClientAgrees | src/network/description.h:67-85 | what a client makes of any beginning of the description are the node's own addresses |
| NetworkNode.SetThenGet | src/network/node.h:141-160 | set, then get: the value as far as it fits, then the old rest; no other variable changes |
| NetworkNode.ResultsReachArguments | src/network/python.cpp:98-107 | a cell is written by the first argument it belongs to among those with a result, and result i goes to the i-th argument from the end; other cells stay |
| NetworkNode.InputsAre | src/network/python.cpp:77-86 | the method is called with as many arguments as it takes, if there are so many, and the i-th is the cells at the i-th address |
| NetworkNode.ConvertedIff | src/network/python.cpp:88-97 | an answer is converted to the results that it stands for, a tuple to all of them, a list to one, a number to one cell, anything else to none, exactly if all numbers are int16 |
| NetworkNode.VariablesFit | src/network/python.cpp:78-84 | arguments that are variables of the node lie within its memory |
| NetworkNode.EventsAreNumbered | src/network/node.h:162-170 | the event numbered k is the k-th published one, whatever has been added, twice or not |
| NetworkNode.EventsArePublished | src/network/node.h:162-170 | the events published are exactly those added, each where its name comes first |
| NetworkNode.FunctionsArePublished | src/network/node.h:193-209 | the functions called and published are the standard ones, then exactly those added, each as it was added first |
| NetworkNode.DispatchIsAligned | src/network/node.h:238-248 | an id calls the function published under that id, whatever has been added, twice or not |
| Waiter.Awaited.TestForCheck | src/client/awaited.h:74-77 | the unlocked test of check |
| Waiter.Awaited.BodyOfCheck | src/client/awaited.h:78-93 | the locked body of check: value, flag, and the callback unless late |
| Waiter.Awaited.BodyOfCancel | src/client/awaited.h:98-104 | the locked body of cancel |
| Waiter.Awaited.WakeFromWait | src/client/awaited.h:112-115 | wait returns what the flag says on waking, and raises it |
| Waiter.Awaited.Replay | src/client/awaited.h:48-160 | a waiter after any interleaving of its threads is what the specification says, with at most one last callback |
| Waiter.SafeRun | src/client/awaited.h:48-160 | what holds in every state of every interleaving, as long as the collection's mutex keeps checks and cancellations apart |
| Waiter.CallbackAtMostOnce | src/client/awaited.h:81-88 | in every interleaving, a callback for complete values is called at most once, and one for partial values is told at most once that it has the last, and nothing after that |
| Waiter.CompletionIsFinal | src/client/awaited.h:74-104 | once a check has completed the waiter or it has been cancelled, neither value nor calls change |
| Waiter.WaitTrueIsComplete | src/client/awaited.h:106-116 | wait returns true only after a check has completed the waiter or it has been cancelled |
| Waiter.NoLateCalls | src/client/awaited.h:82-87 | no callback after the deadline, and only by the body of a check, with its value |
| Waiter.CheckTakesEffect | src/client/awaited.h:74-93 | whatever other threads do between its test and its body, a check leaves the value and the flag of its message, and the callback hears of it exactly if it is not late and the value is the last one, or partial ones are wanted |
| Waiter.CancelTakesEffect | src/client/awaited.h:95-104 | whatever other threads do between its test and its body, a cancellation leaves the flag up, no deadline, and value and calls as they were |
| Waiter.WaitReturns | src/client/awaited.h:106-116 | whatever other threads do: wait returns true if the flag is up when it looks, false if instead the deadline has come, and otherwise goes on sleeping |
| Waiter.FlagTakenBack | src/client/awaited.h:80 | the flag is taken back in exactly one case: by a check that had tested it before the timeout |
| Waiter.RacingCheck | src/client/awaited.h:80 | such a run |
| Waiter.UnserialisedCallsTwice | src/client/awaited.h:129-134 | without the collection's mutex the callback can be called twice |
| NodesWaiter.AwaitedNodes.Update | src/client/awaited.h:260-271 | an admissible pair is added, and complete means that there are enough different ones |
| NodesWaiter.AwaitedNodes.Run | src/client/awaited.h:241-272 | over any connections: complete at the first admissible one with which there are enough different pairs |
| NodesWaiter.WaitNodes | src/client/client.h:1043-1070 | returns at once, with the callback, exactly if the nodes connected already are as many as wanted |
| NodesWaiter.TooManyNeedOneMore | src/client/client.h:1062 | more nodes than wanted are noticed only with one more admissible connection |
| NodesWaiter.GatheredIs | src/client/awaited.h:260-265 | the pairs gathered are the initial ones and those of all connections to one of the targets, if there are any, from one of the candidates, if there are any |
| NodesWaiter.CandidatesConnectedIff | src/client/client.h:1051-1062 | on one connection, without a number: there are as many nodes as wanted exactly if all candidates are connected |
| NodesWaiter.NumberConnectedIff | src/client/client.h:1054-1062 | with a number, exactly if that many of the candidates are, or of all nodes without candidates |
| MessageQueue.Queue.PutItem | src/client/queue.h:72-80 | appends an item, or refuses it when full |
| MessageQueue.Queue.TakeNoWait | src/client/queue.h:62-70 | takes the first item, if there is one |
| MessageQueue.Queue.SetPaused | src/client/queue.h:34 | pauses or resumes, without a step |
| MessageQueue.Queue.StepOnce | src/client/queue.h:36-43 | pauses, and lets one item through |
| MessageQueue.Queue.GetItem | src/client/queue.h:45-60 | takes the first item if there is one; otherwise waits, or gives up after a stop |
| MessageQueue.Queue.StopThread | src/client/queue.h:111-119 | forgets the items, raises the flag, and wakes a paused thread |
| MessageQueue.Queue.ProcessOne | src/client/queue.h:91-99 | one item, uninterrupted: delivered, unless the queue is paused and no step has been asked for |
| MessageQueue.Queue.Replay | src/client/queue.h:10-125 | a queue after any interleaving is what the specification says: got, then queued, is the log, within the maximum |
| MessageQueue.Conservation | src/client/queue.h:45-86 | in every run, what has been got and then what is queued is exactly what was accepted and not cleared, in order; the queue never exceeds its maximum |
| MessageQueue.DeliveredInOrder | src/client/queue.h:88-101 | with the processing thread as only consumer: delivered, in hand and queued together are the whole log; nothing is lost, overtaken or delivered twice |
| MessageQueue.NothingIsLost | src/client/queue.h:72-80 | without clear and stop the log is all accepted puts |
| MessageQueue.SteppingBound | src/client/queue.h:93-98 | while paused stays set, at most one item is delivered per call of next, besides a step asked for before and an item already past the pause |
| MessageQueue.NextsCoalesce | src/client/queue.h:36-43 | calls of next before the thread gets to the gate count as one |
| MessageQueue.ResumingDoesNotRelease | src/client/queue.h:93-97 | an item waiting at the gate is released by next only, not by resuming |
| MessageQueue.NextReleases | src/client/queue.h:93-99 | an item at the gate is delivered after one call of next, whatever other threads do before the thread passes the gate and before it calls back |
| MessageQueue.NextLeavesPaused | src/client/queue.h:36-43 | one call of next lets exactly this item through: the queue is paused afterwards, with no step left |
| MessageQueue.QueueIsWorkedOff | src/client/queue.h:88-101 | n turns of the processing thread deliver the first n items in order; of a paused queue, with one call of next for each |
| MessageQueue.GetWaits | src/client/queue.h:45-60 | a thread that finds the queue empty waits as long as nothing is put and the queue is not stopped |
| MessageQueue.StopEndsThreadIff | src/client/queue.h:88-119 | after a stop the thread comes to its end, with the item in hand delivered and nothing queued, exactly if it had begun before the stop; one that begins later runs on |
| MessageQueue.PausedIff | src/client/queue.h:34-43 | in every run: the queue is paused exactly if something has paused it, a call of next among it, and nothing has resumed it since |
| MessageQueue.RunningIff | src/client/queue.h:88-115 | in every run: the queue is not stopped exactly if it has been started, or its thread has begun, after the last stop |
| Streams.StreamsManager.AddStream | src/client/streams_manager.h:28-43 | a target that has been connected before gets its index again, a new one the next |
| Streams.StreamsManager.RemoveStream | src/client/streams_manager.h:45-51 | the stream and the entry of its index are removed |
| Streams.StreamsManager.GetAll | src/client/streams_manager.h:53-63 | exactly the streams whose index is admissible |
| Streams.StreamsManager.GetIndices | src/client/streams_manager.h:65-75 | exactly the admissible indices of open streams |
| Streams.StreamsManager.Get | src/client/streams_manager.h:77-87 | the stream of an index, or any for a negative one |
| Streams.StreamsManager.GetIndex | src/client/streams_manager.h:105-111 | the index of an open stream, and 0 for any other |
| Streams.SoundRun | src/client/streams_manager.h:28-51 | in every run indices are positive, below the next one, never shared by two targets, and a stream an index leads to has that index |
| Streams.IndexIsStable | src/client/streams_manager.h:33-40 | a target that is connected again regains its index |
| Streams.OpenIff | src/client/streams_manager.h:28-51 | in every run: a stream is open exactly if it has been added and not removed since |
| Streams.TargetIsKnownIff | src/client/streams_manager.h:32-39 | the targets in order of their first connection are exactly those of the streams added |
| Streams.TargetsAreNumbered | src/client/streams_manager.h:31-39 | in every run: the k-th target to be connected first has the index k, counted from one |
| Streams.FullInverseIff | src/client/streams_manager.h:28-51 | in every state of a run the two maps are inverse to each other, exactly if there never are two open streams to one target |
| Streams.SecondStreamHidesFirst | src/client/streams_manager.h:45-51 | with two of them, removing one hides the other |
| Streams.RefilterIff | src/client/client.h:581-588 | selecting again by the indices selected selects the same streams exactly if there are some, or no stream is open |
| Streams.IndicesSelected | src/client/streams_manager.h:65-75 | the indices selected are those included, or all open ones if none is, without those excluded |
| Selection.SelectedIs | src/client/utils_client.h:8-12 | of any connections, those included are selected, or all if none is, without those excluded |
| Framing.SerializeTo | src/client/aseba_dashel.h:47-68 | writes a frame, or refuses a message whose truncated size is too large |
| Framing.ReceiveFrom | src/client/aseba_dashel.h:9-45 | reads one frame; of one that is too large only the header |
| Framing.SendBufferTo | src/network/network.cpp:15-27 | writes the buffer behind its length and the node's id |
| Framing.Network.AddNode | src/network/network.h:95-102 | a node is known under its id, in place of any other |
| Framing.Network.RemoveNode | src/network/network.h:104-113 | a node is forgotten |
| Framing.Network.ConnectionCreated | src/network/network.h:163-184 | the first client is served, others are to be closed |
| Framing.Network.ConnectionClosed | src/network/network.h:186-204 | the client served is forgotten when its stream closes, and a stream to be closed is no longer to be closed |
| Framing.Network.IncomingData | src/network/network.h:206-268 | reads one message of the client's stream, and of no other, and hands it to the node it is for, or to all |
| Framing.ReceiveIff | src/client/aseba_dashel.h:15-37 | a frame is received as the message, and nothing else is consumed, exactly if the payload is within the maximum; what happens to longer ones |
| Framing.SerializeAll | src/client/aseba_dashel.h:50-68 | a client that serializes a list of messages writes the frames of those that are not refused, and nothing else |
| Framing.StreamRoundTripIff | src/client/aseba_dashel.h:9-68 | what the client writes is read message for message, by a client and by the network, exactly if all payloads are within the maximum |
| Framing.NetworkReadsAccepted | src/client/aseba_dashel.h:50-68 | if no payload is too long for a header, the network reads exactly the messages within the maximum, in order |
| Framing.SendBufferIsFrame | src/network/network.cpp:21-26 | what a node sends is framed as the client frames it |
| Framing.NetworkStreamRoundTripIff | src/network/network.cpp:15-32 | messages from nodes are read by the client message for message exactly if all payloads are within the maximum |
| Framing.OversizedDesynchronises | src/client/aseba_dashel.h:20-23 | an oversized frame makes the client read a message nobody sent, and lose the next |
| Framing.Drain | src/network/network.h:239-268 | over a stream of messages, every node is handed exactly those for it, in order |
| Framing.CommandIsHanded | src/network/network.h:239-268 | one message more on a stream: a command is handed to the node that its first two bytes name and to no other, any other message to all |
| Targets.CompleteTarget | src/client/client.h:482-505 | the loop appends all parameters, with the separators that are missing |
| Targets.RoundTripIff | pyaseba/client/targets.py:41-55 | completing a protocol and reading the parameters gives them back exactly if none contains a delimiter |
| Targets.ReadIsClean | pyaseba/client/targets.py:34-55 | parameters that have been read never contain a delimiter |
| Targets.CompletedTargetIff | src/client/client.h:495-501 | completing a target overrides its parameters exactly if they contain an equals sign or there are none; otherwise all of them become unreadable |
| Targets.CompletedTwice | src/client/client.h:482-505 | completing twice: protocol preserved, the second parameters override the first |
| Targets.CompatibleIsSymmetric | pyaseba/client/targets.py:58-73 | compatibility is reflexive and symmetric |
| Targets.CompatibleIsNotTransitive | pyaseba/client/targets.py:58-73 | it is not transitive |
| Targets.CompatibleTargets | pyaseba/client/targets.py:58-73 | two targets are compatible exactly if they have the same protocol and agree on the parameters they share |
| Targets.CompatibleIff | pyaseba/client/targets.py:58-73 | a target is compatible with a completion of it exactly if the completion changes no parameter |
| EndToEnd.ClientKnowsAddresses | src/network/node.h:98-130 | a client that has heard a description has the node's own address for each variable of it, however many are added later |
| EndToEnd.ClientReadsAndWrites | src/client/client.h:627-694 | what the client reads and writes by name is what the node has, and would have written, under that name |
| EndToEnd.ChangedAreasSuffice | pyaseba/client/node/node.py:719-735 | the areas changed, in ascending order, bring a cache that was right before up to date, as reading all variables again would |
| EndToEnd.MirroredEventIsFaithful | pyaseba/client/node/node.py:421-429 | the values read from a mirrored event are those of the node at that moment, as the coherence of the cache asks |

## Left out

- DescriptionManager.Manager.ProcessMessage: the order of notices about different nodes is left open, and a notice is
  atomic with its cause; the counters, vectors and flags of a `ClientNode` are one record.
- DescriptionManager.ClientNode.UpdateVariable: variables without cells may share an entry of the index; which of them
  it keeps is left open.
- DescriptionManager.Manager.GetNode: the pointer returned is not followed after the lock has been released.
- VariableCache.Node.SetChanges: it speaks of variables with at least one cell.
- VariableCache.Node.AssignProperty: the list assigned is a new one. What happens to a list that the caller keeps and
  changes, or assigns to two properties, is left out; so is a caller that changes a list that `get` has returned.
- VariableCache.Node.Sync: which order the set of sync variables is gone through is left open; the proofs hold for all.
- Layout.BuildIndex: which of several variables without cells keeps an address is left open, as above.
- VariableCache.Node.Get: a value is a list; the unwrapping of a list of one is left out. A reply is taken to be the
  answer to this request, although the client accepts any message of the right type from the node.
- CacheSync.CoherentRun: writes are taken to have arrived when they have been sent.
- Mirroring.Generator.AddEvent: preamble and epilog are arbitrary code. What they do to the node's own variables is
  covered, since those may have any values whenever an event happens; they must not use the private variables of handlers.
- Mirroring.Generator.constructor: the exception raised for an unknown variable ends the construction, so configurations
  with one are excluded here; AddEvent says what happens to the object. The selection of functions by regular expression
  is left out.
- MirroringRuns.WindowedMirroring: the names of the variables that handlers define are taken to be different, as the
  compiler demands.
- NetworkNode.Node.SetVariable: places beyond the memory, which a late init can produce, are excluded.
- NetworkNode.Node.CallExtraFunction: results that are converted but shorter than their argument, which the source reads
  beyond their end, are excluded; a function that takes more inputs than it declares arguments is simply given those there are.
- NetworkNode.EventsAreNumbered: the numbers wrap at 65536, as in the source.
- BulkRead.Reader.Update: messages that reach beyond the variables are excluded, which the source writes out of bounds.
- Waiter.Awaited.BodyOfCheck: what a message makes of the value is any value; locks are not objects. The lifetime of a
  waiter that is removed from the collection while somebody still waits for it is left out.
- MessageQueue.Queue.StopThread: joining the thread is left out; `MessageQueue.StopEndsThreadIff` says when the thread
  to be joined comes to its end.
- Streams.StreamsManager.Get: get_target_name, which locks the same mutex twice, is left out.
- Framing.Network.IncomingData: a command shorter than the id it should begin with is excluded. What a node does with a
  message is left out.
- Framing.Network.AddNode: that the node is initialised, and the table from virtual machines to nodes, are left out; the
  former is `NetworkNode.Node.Init`.
- Framing.Network.RemoveNode: the entry of the table from virtual machines to nodes is left out.
- Targets.CompleteTarget: the empty target with parameters, whose last character the source reads, is excluded.
- Sockets, serial ports, Zeroconf, logging, the Python bindings, shells, the asynchronous client and the Thymio's radio
  settings.
- Running scripts: only the tables that loading one changes are modelled.
- The reactions of the client to changed areas when it is built without Mobsya's Aseba, and the asynchronous node,
  which does not keep previous values.
