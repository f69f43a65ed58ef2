# Containers, events and handles of OpenNI: a Dafny model

This project models the header-only data structures of OpenNI and the ownership protocol of its C++
handles, and proves what they promise over all inputs and over whole runs:

- the linked lists `XnListT` and `XnList`, as rings of heap nodes that refine a sequence;
- the chained hash tables `XnHashT` and `XnHash`, as arrays of heap lists that refine a finite map, with
  iterators that hop between the lists, forwards and backwards;
- the events `XnEventInterfaceT` and `XnEvent`, whose handlers may register and unregister while the
  event is being raised;
- the growable array `XnArray` and the bit set `XnBitSet`, with the bit arithmetic on real 32-bit words;
- the smart handles `NodeWrapper` and `Context`, over the reference counts and the shutdown callbacks of
  the C library;
- `XnAlgorithms::BubbleSort`.

Code that works in place is imperative here too. Each class method is proved against a function of the
old state (for example `Hashes.XnHashT.Set` against `Tables.Put`), and the properties are lemmas about
those functions.

## How the parts fit together

| files | content |
|---|---|
| `Sequences.dfy`, `Flatten.dfy`, `Status.dfy` | sequences, concatenations of bins, status codes |
| `Rings.dfy`, `ListT.dfy`, `List.dfy` | circular doubly linked nodes; the two list classes; the node pool |
| `Tables.dfy` | a hash table as a value: bins of pairs, the map they stand for, histories of operations |
| `HashT.dfy`, `Hash.dfy`, `DefaultKeys.dfy` | the two hash classes and their iterators; the default key manager |
| `Subscriptions.dfy`, `EventT.dfy` | an event as a value, against a plain list of subscribers; the event class |
| `Words.dfy`, `Arrays.dfy` | 32-bit words as numbers and as bits; the array |
| `BitSets.dfy`, `BitSetRuns.dfy` | the bit set; what runs leave in it and whether its size covers that |
| `References.dfy`, `Shutdowns.dfy` | the library's counts, with nodes that need nodes; the loop of a forced shutdown |
| `Ownership.dfy`, `CppWrapper.dfy` | who owns what, against ownership without counts; the library and the handle classes |
| `Algorithms.dfy` | sorting |

Allocation can fail, so every operation that allocates takes flags that say which of its allocations
would succeed, and its contract covers each combination.

## What the proofs show about the code

- `XnDefaultKeyManagerT::Compare` truncates a machine word to 32 bits. On a 64-bit platform keys that
  agree in the lower 32 bits are the same key: `DefaultKeys.DifferentKeysCanBeSame` states that this
  happens just when the machine word is wider than 32 bits, and `DefaultKeys.StoredUnderLowerBits` what
  a table then does.
- The smear in `XnArray::Reserve` gives the least power of two exactly for requests up to 2^31; for all
  larger ones it gives 0 (`Arrays.RoundUp`).
- The size of a bit set covers every index in it, all through a run, if and only if each call of the run
  fits (`BitSetRuns.CoveredWhileCallsFit`). Every call does but these: setting the index 2^32 - 1, 2^27 or
  more dwords, and fewer than 4 or at least 2^29 bytes; the last two fit just when what the size leaves out
  is clear. `BitSetRuns.ShortBytesDoNotFit` and `BitSetRuns.ManyWordsDoNotFit` are inputs that do not.
- `XnBitSet::SetDataBytes` always reads at least four bytes and ignores an incomplete word at the end,
  while the size counts the length that was given.
- The documentation of `XnBitSet::SetSize` (Include/XnBitSet.h:38) promises that size in bits, and that all
  bits are cleared. The code does neither, as `BitSetRuns.SetSizeIsNotAsPromised` shows on two sets. The first
  promise is kept if and only if the size was that already (`BitSetRuns.SizeIsAsPromised`), the second if and
  only if the dwords that are kept were clear already (`BitSetRuns.ClearedAsPromised`).
- In `XnHash`, `--` undoes `++` exactly when there is a next entry: `--` of the end position stays there
  (`PooledHashes.XnHash.NextAndPrevious`).
- `XnAlgorithms::BubbleSort` also swaps elements of which none is before the other, so it is not stable: equal
  elements alone come out in the opposite order (`Algorithms.EqualsAreReversed`).
- `XnListT::operator=` clears the target before it reads the source, so assigning a list to itself
  empties it (`Lists.XnListT.Assign`).
- `SetData` of a bit set that finds no memory leaves no words but the old size (`BitSets.Step`).
- The documentation of `XnArray::SetSize` with a fill value (Include/XnArray.h:163-164) promises to
  initialise all elements; the code fills only the added ones. So the promise is kept if and only if the
  elements that are kept have the fill value already (`Arrays.ResizedIsFilled`, with a failing array in
  `Arrays.ResizedIsNotFilled`).
- `SetHandle` releases what the wrapper held before it adds a reference to the new handle. A node that is
  destroyed releases the nodes it needs, so the release can destroy the very handle that was passed, although
  it existed (`Ownership.NeededGoesToo`). The handle survives if and only if it is alive without the wrapper:
  owned by a caller or another wrapper, directly or through nodes that they own
  (`Ownership.SafeIfAliveWithout`). A caller's own reference is enough, and so is another wrapper that holds
  it, so `TakeOwnership`, copies and assignments are always safe (`Ownership.OwnedElsewhereIsSafe`,
  `Ownership.HeldByOther`).
- The temporary context reference that `SetHandle` takes changes nothing in the end
  (`Ownership.DetachMeanwhile`, `Ownership.AttachMeanwhile`).
- A forced shutdown destroys the nodes one by one, and each gives up its reference to the context. The
  context survives to raise its shutdown event if and only if it had more references than nodes
  (`Shutdowns.ContextSurvives`); otherwise the last node destroys it while wrappers are still registered
  (`Ownership.ShutdownTooEarly`). In the owners' terms, a caller or a `Context` wrapper must own the context
  (`Ownership.CanShutDownIfOwned`); the runs of `Ownership.RunIsMeaning` shut down only then.

## Model

| member | source | states |
|---|---|---|
| Rings.LinkAfter | Include/XnListT.h:550-555 | the four assignments turn a ring of n nodes into the ring with the new node at the right place, and its values likewise |
| Rings.Unlink | Include/XnListT.h:456-458 | the two assignments leave the ring without exactly that node; the node itself keeps its links |
| Rings.LongerRing | Include/XnListT.h:541-560 | next and previous stay mutually inverse over distinct nodes when one is linked in |
| Rings.ShorterRing | Include/XnListT.h:446-466 | the same when one is bypassed |
| Lists.XnListT.constructor | Include/XnListT.h:568-573 | an empty list is a valid ring of the anchor alone |
| Lists.XnListT.Begin | Include/XnListT.h:285-288 | the first value's node, or the end position of an empty list |
| Lists.XnListT.ReverseBegin | Include/XnListT.h:317-320 | the last value's node |
| Lists.XnListT.InsertAfter | Include/XnListT.h:541-560 | inserts at the index of the given node and nowhere else, with the size; a failed allocation changes nothing |
| Lists.XnListT.AddFirst | Include/XnListT.h:391-394 | the value comes before all others |
| Lists.XnListT.AddLast | Include/XnListT.h:403-406 | the value comes after all others |
| Lists.XnListT.AddAfter | Include/XnListT.h:355-363 | inserts behind the position; the end position is refused |
| Lists.XnListT.AddBefore | Include/XnListT.h:374-382 | inserts in front of the position; the end position is refused |
| Lists.XnListT.Find | Include/XnListT.h:415-424 | the first node with the value; the end position exactly when there is none |
| Lists.XnListT.Remove | Include/XnListT.h:446-466 | exactly the given node goes; the end position is refused and changes nothing |
| Lists.XnListT.RemoveValue | Include/XnListT.h:475-486 | the first occurrence goes; no match exactly when the value is absent |
| Lists.XnListT.Clear | Include/XnListT.h:491-497 | only the anchor is left |
| Lists.XnListT.IsEmpty | Include/XnListT.h:502-505 | the stored size is zero exactly for the empty sequence |
| Lists.XnListT.Size | Include/XnListT.h:510-513 | the stored size is the length of the sequence |
| Lists.XnListT.Assign | Include/XnListT.h:262-275 | the source's values in order, whatever the target held; an assignment to itself empties the list |
| Lists.XnListT.CopyTo | Include/XnListT.h:521-530 | the array receives the sequence in order and is otherwise unchanged |
| Lists.XnListT.Apart | Include/XnListT.h:541-560 | two valid lists have no node in common |
| PooledLists.XnList.constructor | Include/XnList.h:505-518 | the base node is one node from the pool |
| PooledLists.XnList.Add | Include/XnList.h:526-542 | refines insertion; one more node in use exactly when it succeeds |
| PooledLists.XnList.AddFirst | Include/XnList.h:249-252 | the value comes before all others; conservation as for Add |
| PooledLists.XnList.AddLast | Include/XnList.h:261-264 | the value comes after all others; conservation as for Add |
| PooledLists.XnList.AddAfter | Include/XnList.h:275-283 | inserts behind the position; the end position is refused |
| PooledLists.XnList.AddBefore | Include/XnList.h:293-301 | inserts in front of the position; the end position is refused |
| PooledLists.XnList.Remove | Include/XnList.h:373-395 | exactly the given node goes, back to the pool |
| PooledLists.XnList.Find | Include/XnList.h:311-326 | the first node with the value; the end position exactly when there is none |
| PooledLists.XnList.Clear | Include/XnList.h:401-407 | every node but the base goes back to the pool |
| PooledLists.XnList.Size | Include/XnList.h:420-427 | counting the nodes terminates with the length |
| Tables.PutLookup | Include/XnHashT.h:382-411 | after Set the key has the value, and every key that does not compare equal has what it had |
| Tables.PutEntries | Include/XnHashT.h:396-411 | Set replaces one entry's value in place, keeping the stored key, or adds one entry at the end of the key's bin |
| Tables.DeleteLookup | Include/XnHashT.h:607-618 | after Remove the key has no value and every other key has what it had |
| Tables.DropEntries | Include/XnHashT.h:592-605 | removing by iterator takes exactly that entry out of the iteration order |
| Tables.WithoutEntryIsDelete | Include/XnHashT.h:592-605 | removing by iterator is removing the key of the entry it is at |
| Tables.EntriesOrder | Include/XnHashT.h:112-136 | two entries in iteration order have unequal keys and do not descend in bins |
| Tables.EntriesAreTheMap | Include/XnHashT.h:112-136 | iteration goes by ascending bin, shows every key once, and shows a pair exactly when Lookup finds it |
| Tables.EntriesCountKeys | Include/XnHashT.h:642-649 | the number of entries is the cardinality of the map |
| Tables.EmptiedIsEmpty | Include/XnHashT.h:623-629 | a table with all bins emptied has no entry and no key |
| Tables.SameEntriesSameMap | Include/XnHashT.h:317-330 | tables with the same iteration sequence are the same map, whatever empty bins they have |
| Tables.RunIsHistory | Include/XnHashT.h:382-411 | over every run of Set with any memory, operator[], Remove by key and by iterator, and Clear: all bin invariants hold, a bin exists just when one was created, and each key has what the last operation that concerned it and succeeded gave it |
| Tables.SameKeySameLookup | Include/XnHashT.h:652-672 | keys that compare equal are looked up alike |
| Tables.SetStatus | Include/XnHashT.h:382-411 | Set succeeds if and only if the key is there or all that is missing can be allocated; it fails with no other status than a failed allocation |
| Hashes.XnHashT.constructor | Include/XnHashT.h:674-679 | no bin but the sentinel, disjoint ownership, the empty map |
| Hashes.XnHashT.FindInBin | Include/XnHashT.h:657-668 | the node of the first pair with an equal key, or the end position |
| Hashes.XnHashT.Set | Include/XnHashT.h:382-411 | refines Tables.Step; a failure leaves the map, and at most an empty new bin; m_nMinBin, the sentinel and the ownership of all bins are kept |
| Hashes.XnHashT.Begin | Include/XnHashT.h:347-350 | position 0 of the iteration order, from the cached minimum bin |
| Hashes.XnHashT.End | Include/XnHashT.h:363-366 | the position after all entries |
| Hashes.XnHashT.Find | Include/XnHashT.h:420-432 | the place of the key's entry in iteration order, or the end |
| Hashes.XnHashT.Get | Include/XnHashT.h:491-503 | the map's value, or no match |
| Hashes.XnHashT.IsEmpty | Include/XnHashT.h:634-637 | exactly for the empty map |
| Hashes.XnHashT.Size | Include/XnHashT.h:642-649 | the traversal terminates and counts each entry once |
| Hashes.XnHashT.Remove | Include/XnHashT.h:592-605 | removes the entry at the iterator and no other; the end position is refused |
| Hashes.XnHashT.RemoveKey | Include/XnHashT.h:607-618 | refines Tables.Delete; no match exactly when the key is absent |
| Hashes.XnHashT.Clear | Include/XnHashT.h:623-629 | terminates with every bin empty but still there |
| Hashes.XnHashT.Index | Include/XnHashT.h:576-590 | the value of the key, which is added with the default value when it is missing |
| Hashes.XnHashT.Assign | Include/XnHashT.h:317-330 | the same entries in the same order in a different table, whatever bins it had; the source is unchanged and stays apart |
| Hashes.HashIterator.constructor | Include/XnHashT.h:95-104 | a position off an entry moves on to the next entry at once |
| Hashes.HashIterator.Next | Include/XnHashT.h:112-136 | from the p-th entry to the p + 1-st, over any run of missing and empty bins |
| Hashes.HashIterator.NextBin | Include/XnHashT.h:123-133 | the loop over the bins ends at the next entry, or at the sentinel bin |
| Hashes.HashIterator.Shows | Include/XnHashT.h:199-202 | a position shows the entry of its number; it equals End() exactly behind the last one |
| Hashes.HashIterator.Equals | Include/XnHashT.h:199-202 | comparing with End() is true exactly behind the last entry |
| DefaultKeys.CompareIsZero | Include/XnHashT.h:67-70 | the default comparison gives zero exactly for keys that agree modulo 2^32 |
| DefaultKeys.CompareIsDifference | Include/XnHashT.h:67-70 | the result of the default comparison is the difference of the keys modulo 2^32, as a signed number |
| DefaultKeys.DefaultIsSound | Include/XnHashT.h:62-70 | the default manager compares by an equivalence, and equal keys have equal hashes |
| DefaultKeys.DifferentKeysCanBeSame | Include/XnHashT.h:67-70 | two different keys can compare equal if and only if a machine word is wider than 32 bits |
| DefaultKeys.StoredUnderLowerBits | Include/XnHashT.h:382-411 | with the default manager, Set is seen by exactly the keys with the same lower 32 bits |
| DefaultKeys.BinIsLowByte | Include/XnHashT.h:62-65 | a table with the default manager keeps every pair in the bin of its key's lowest byte |
| DefaultKeys.IteratedByLowByte | Include/XnHashT.h:112-136 | so it is iterated in ascending order of the keys' lowest bytes |
| PooledHashes.XnHash.constructor | Include/XnHash.h:671-688 | the empty hash uses one node, the base of the last bin's list |
| PooledHashes.XnHash.Previous | Include/XnHash.h:117-137 | back from the p-th entry to the p - 1-st over all missing and empty bins; from the first entry, and from the end, to the end |
| PooledHashes.XnHash.BackFromFirst | Include/XnHash.h:124-131 | `--` of begin() is end() |
| PooledHashes.XnHash.LastValid | Include/XnHash.h:121-135 | the backward loops terminate at the entry before, over all missing and empty bins, or at the end when there is none |
| PooledHashes.XnHash.PreviousExisting | Include/XnHash.h:124-133 | the inner loop ends at the next bin before that exists, or finds that nothing is before |
| PooledHashes.XnHash.PreviousPlace | Include/XnHash.h:119 | one step back on the bin's own list comes to the entry before, or to the base of the bin |
| PooledHashes.XnHash.FirstValid | Include/XnHash.h:209-222 | the constructor's loops end at a position at rest with the same place, over any run of missing and empty bins; a position at rest stays |
| PooledHashes.XnHash.NextExisting | Include/XnHash.h:217-220 | the inner loop, which has no bound, ends at the next bin that exists, at the latest at the sentinel |
| PooledHashes.XnHash.OffAnchor | Include/XnHash.h:213-214 | the loop's condition is false exactly at positions at rest: on an entry, or at the sentinel's base |
| PooledHashes.XnHash.NewIterator | Include/XnHash.h:209-222 | an iterator at the place given, on the next entry if there is none at it |
| PooledHashes.XnHash.Increment | Include/XnHash.h:88-102 | from the p-th entry to the p + 1-st, over any run of missing and empty bins; the end position stays |
| PooledHashes.XnHash.NextAndPrevious | Include/XnHash.h:88-137 | `--` brings `++` back to the same bin and node if and only if there was a next entry |
| PooledHashes.XnHash.Begin | Include/XnHash.h:614-617 | position 0 of the iteration order |
| PooledHashes.XnHash.AtEnd | Include/XnHash.h:154-157 | an iterator equals end() exactly behind the last entry |
| PooledHashes.XnHash.IsEmpty | Include/XnHash.h:554-557 | exactly for the empty map |
| PooledHashes.XnHash.Size | Include/XnHash.h:562-569 | the traversal by `++` terminates and counts each entry once |
| PooledHashes.XnHash.PlaceIsUnique | Include/XnHash.h:154-157 | an iterator's place in the order determines its bin and node |
| PooledHashes.XnHash.NextOfBoth | Include/XnHash.h:704-705 | the list's iterator and the hash's iterator stay on the same node up to the end of the bin |
| PooledHashes.XnHash.Find | Include/XnHash.h:699-713 | the lockstep search finds the key's entry exactly when the map has the key |
| PooledHashes.XnHash.AllocateEntry | Include/XnHash.h:402-431 | takes three nodes or none: whichever is missing, those before it are given back |
| PooledHashes.XnHash.Set | Include/XnHash.h:374-434 | refines Tables.Put; a failure at any node leaves the map; the nodes in use follow the table in every case |
| PooledHashes.XnHash.Remove | Include/XnHash.h:514-537 | removes the entry at the iterator and gives its three nodes back |
| PooledHashes.XnHash.RemoveKey | Include/XnHash.h:466-481 | gives the old value and refines Tables.Delete; no match exactly when the key is absent |
| PooledHashes.XnHash.Get | Include/XnHash.h:443-456 | the map's value, or no match |
| PooledHashes.XnHash.Clear | Include/XnHash.h:543-549 | every entry goes and all its nodes are given back; the bins and their nodes stay |
| PooledHashes.NodesAfterPut | Include/XnHash.h:402-434 | a new entry is three nodes more, a replaced value none |
| PooledHashes.NodesAfterCreated | Include/XnHash.h:390-400 | a new bin is one node more |
| PooledHashes.NodesAfterDropped | Include/XnHash.h:514-537 | a removed entry is three nodes less |
| Subscriptions.MadeKeeps | Include/XnEventT.h:68-117 | Register extends the subscribers by the new handle, Unregister takes exactly the given one away; no object is lost or deleted twice |
| Subscriptions.RegisterIs | Include/XnEventT.h:68-94 | a registration that finds a handler and memory puts the new object behind the subscribers; another changes none, and deletes an object that it could not list |
| Subscriptions.UnregisterIs | Include/XnEventT.h:96-117 | an unregistration that succeeds takes exactly that one out of the subscribers and leaves the others in order |
| Subscriptions.AppliedKeeps | Include/XnEventT.h:169-189 | applying the changes leaves the subscribers what they were and makes them the active list |
| Subscriptions.ClearedFreesAll | Include/XnEventT.h:152-167 | after Clear nobody subscribes and every object ever allocated has been deleted exactly once |
| Subscriptions.RaiseCallsSubscribers | Include/XnEvent.h:183-233 | a raise calls exactly the subscribers at its start, once each and in order, up to the first that fails; its status is returned, and all pending changes are in effect afterwards |
| Subscriptions.RaiseFromCalls | Include/XnEvent.h:224-230 | the loop calls the active handlers in order up to the first that fails, each once |
| Subscriptions.RaiseFromReturns | Include/XnEvent.h:183-191 | a failing handler's status is what the raise returns |
| Subscriptions.LastFromSubscribers | Include/XnEventT.h:266-272 | when the handlers have acted, the subscribers are those at the start with every change that a handler asked for |
| Subscriptions.FailingIsFirst | Include/XnEvent.h:183-191 | the raise ends at the first handler that fails, in an event that stops, and at the end of the list in another |
| Subscriptions.CalledAreAlive | Include/XnEvent.h:224-230 | in the whole of a raise, whatever the handlers before it have done, a handler has not been deleted when it is called |
| Subscriptions.WhenCalledGoesOn | Include/XnEvent.h:224-230 | the state in which a handler is called is the one from which the raise goes on |
| Subscriptions.MadeAllLast | Include/XnEventT.h:68-117 | a handler's calls are made one after the other |
| Subscriptions.WhenCalledNext | Include/XnEvent.h:224-230 | what happens between two handlers are the calls of the first one's own reply |
| Subscriptions.RaiseLeaves | Include/XnEvent.h:221-232 | a raise leaves what the handlers that were called have done, with the list changes applied |
| Subscriptions.ChangesInTurn | Include/XnEvent.h:224-230 | what a handler asks for is what its own reply's calls ask for, before those of the next |
| Subscriptions.FirstFailureIsReturned | Include/XnEvent.h:183-191 | in an event that stops, the first reply with a failure gives the status, and its handler is the last one called |
| Subscriptions.NoFailureCallsAll | Include/XnEvent.h:221-232 | without a failure, or in an event that does not stop, all subscribers are called and the status is success |
| Subscriptions.RunIsPlain | Include/XnEventT.h:68-202 | over every run the three lists stand for a plain list on which every change takes effect at once, and every object is in one list or deleted, once |
| Events.RemoveCallback | Include/XnEventT.h:191-202 | takes out the first occurrence; says whether there was one |
| Events.XnEventT.Register | Include/XnEventT.h:68-94 | refines Subscriptions.Made with each of its failure paths; a failed list node deletes the callback; a handle is given out only on success |
| Events.XnEventT.Unregister | Include/XnEventT.h:96-117 | refines Subscriptions.Made: a pending registration is dropped at once, another is put off |
| Events.XnEventT.ApplyListChanges | Include/XnEventT.h:169-189 | refines Subscriptions.Applied: additions first, then removals |
| Events.XnEventT.Clear | Include/XnEventT.h:152-167 | refines Subscriptions.Cleared |
| Events.XnEventT.Raise | Include/XnEventT.h:261-274 | refines Subscriptions.RaiseEvent for handlers that make any calls, in both kinds of event |
| Words.SmearFills | Include/XnArray.h:113-117 | five shifts with or fill every bit below the highest one, and no other |
| Words.FilledPower | Include/XnArray.h:111-118 | a filled word is one less than the least power of two above the original |
| Arrays.LeastPow2IsLeast | Include/XnArray.h:111-118 | the rounded capacity is a power of two, is enough, and no smaller power of two is |
| Arrays.RoundUp | Include/XnArray.h:111-118 | the least power of two if and only if the request is between 1 and 2^31, and otherwise 0 |
| Arrays.XnArray.constructor | Include/XnArray.h:45-48 | empty, with the capacity given |
| Arrays.XnArray.Reserve | Include/XnArray.h:107-138 | the capacity is the least power of two that is enough, every element keeps its place; a failure changes nothing; there is room if and only if the request is at most 2^31 or there was room |
| Arrays.XnArray.SetMinSize | Include/XnArray.h:177-186 | grows to the size asked for and keeps the elements; never shrinks |
| Arrays.XnArray.SetMinSizeFilled | Include/XnArray.h:191-205 | the same, and every added element is the fill value |
| Arrays.XnArray.SetSize | Include/XnArray.h:154-161 | has the size asked for and keeps the elements below it |
| Arrays.XnArray.SetSizeFilled | Include/XnArray.h:165-172 | the first elements kept as they were, and the fill value in every one that is added |
| Arrays.ResizedAt | Include/XnArray.h:165-172 | an element that is kept is as it was, and one that is added is the fill value |
| Arrays.ResizedIsFilled | Include/XnArray.h:163-164 | all elements have the fill value, as documented, if and only if those that are kept have it already |
| Arrays.ResizedIsNotFilled | Include/XnArray.h:163-172 | an array of one element for which the documentation's promise fails |
| Arrays.XnArray.Set | Include/XnArray.h:217-223 | the element at the index, growing if needed; all others keep their values |
| Arrays.XnArray.SetFilled | Include/XnArray.h:226-232 | the same with the gap filled: stale memory never shows |
| Arrays.StoredAt | Include/XnArray.h:226-232 | the value at the index, the fill value in the gap, every other element as it was |
| Arrays.XnArray.AddLast | Include/XnArray.h:235-238 | one element more at the end; its cost is that of Arrays.Pushed |
| Arrays.XnArray.AddLastRange | Include/XnArray.h:241-252 | all values in order at the end; a missing buffer is refused |
| Arrays.XnArray.SetData | Include/XnArray.h:81-91 | exactly the buffer's values; a failure leaves the array empty |
| Arrays.XnArray.CopyFrom | Include/XnArray.h:70-91 | exactly the other array's values, in a buffer of its own; copying to itself changes nothing |
| Arrays.WriteAfterCopy | Include/XnArray.h:70-91 | after a copy, a write to either array leaves the other as it was |
| Arrays.AmortisedCopies | Include/XnArray.h:107-138 | any n additions to an empty array of any base size copy at most 2n elements |
| Arrays.AddEach | Include/XnArray.h:235-238 | adding n values one by one to an empty array leaves exactly these, and copies at most 2n elements |
| BitSets.WithIndexIs | Include/XnBitSet.h:45-56 | Set changes the membership of its index and of no other; gaps are clear |
| BitSets.WordsAgree | Include/XnBitSet.h:59-67 | index i is bit 31 - i mod 32 of dword i / 32, and is not in the set when there is no such dword |
| BitSets.BytesAgree | Include/XnBitSet.h:78-91 | after packing, index i is bit 7 - i mod 8 of byte i / 8, and nothing beyond the last whole dword is in the set |
| BitSets.Grown | Include/XnBitSet.h:54 | the size after Set is one more than the index when that is larger, but for the index 2^32 - 1, which leaves it |
| BitSets.IndexIsNumber | Include/XnBitSet.h:47 | the shift of an index by 5 is the division by 32, and that by 3 the division by 8 |
| BitSets.WordMaskIsRemainder | Include/XnBitSet.h:48 | the five low bits of an index are its remainder by 32 |
| BitSets.MaskIsRemainder | Include/XnBitSet.h:48 | the three low bits of an index are its remainder by 8 |
| BitSets.XnBitSet.Set | Include/XnBitSet.h:45-56 | refines BitSets.Step: the index's bit in the dwords of the array, and the wrapping size; a failure changes nothing |
| BitSets.XnBitSet.IsSet | Include/XnBitSet.h:59-67 | exactly membership |
| BitSets.XnBitSet.SetSize | Include/XnBitSet.h:39-42 | as many dwords as asked for, new ones clear; the size in bits stays |
| BitSets.XnBitSet.SetData | Include/XnBitSet.h:70-76 | exactly the dwords given, and 32 bits for each modulo 2^32; a failure has cleared the dwords |
| BitSets.XnBitSet.SetDataBytes | Include/XnBitSet.h:78-91 | one dword for every four bytes given, and at least one, made of the bytes most significant first; 8 bits for each byte given modulo 2^32 |
| BitSets.XnBitSet.Clear | Include/XnBitSet.h:117-121 | no dwords, size 0 |
| BitSetRuns.RunIsExpected | Include/XnBitSet.h:39-121 | over every run of Set, SetSize, SetData, SetDataBytes and Clear, with or without memory, each index is in the set just when the last call that decides it put it there: stale dwords never come back |
| BitSetRuns.WordsAreDigits | Include/XnBitSet.h:59-67 | index n is in the set just when the binary digit 31 - n mod 32 of dword n / 32 is 1 |
| BitSetRuns.BytesAreDigits | Include/XnBitSet.h:78-91 | after SetDataBytes of at least four bytes, index n is in the set just when it is in the first 4 (length / 4) bytes and digit 7 - n mod 8 of byte n / 8 is 1 |
| BitSetRuns.SetBounded | Include/XnBitSet.h:54 | Set keeps every set bit below the size if and only if it clears a bit or the index is not 2^32 - 1 |
| BitSetRuns.WordsBelow | Include/XnBitSet.h:70-76 | the dwords given are below a size of 32 n bits if and only if those from the n-th on are clear |
| BitSetRuns.BytesBelow | Include/XnBitSet.h:78-91 | the bytes read are below a size of 8 m bits if and only if those from the m-th on are clear |
| BitSetRuns.StepBounded | Include/XnBitSet.h:39-121 | a call keeps every set bit below the size if and only if it fits |
| BitSetRuns.CoveredWhileCallsFit | Include/XnBitSet.h:39-121 | every set bit is below the size all through a run if and only if every call of the run fits |
| BitSetRuns.ShortBytesDoNotFit | Include/XnBitSet.h:78-91 | three bytes after which bit 31 is set and the size is 24 |
| BitSetRuns.ManyWordsDoNotFit | Include/XnBitSet.h:70-76 | 2^27 dwords are counted as no bits, and fit just when all are clear |
| BitSetRuns.SizeIsAsPromised | Include/XnBitSet.h:38-42 | SetSize gives the size in bits asked for, as documented, if and only if the size was that already |
| BitSetRuns.ClearedAsPromised | Include/XnBitSet.h:38-42 | SetSize leaves all bits clear, as documented, if and only if every dword that is kept was clear already |
| BitSetRuns.SetSizeIsNotAsPromised | Include/XnBitSet.h:38-42 | a new set whose size stays 0, and a set in which index 0 stays |
| Algorithms.Pass | Include/XnAlgorithms.h:53-66 | one pass, with its swaps, and whether there was one |
| Algorithms.BubbleSort | Include/XnAlgorithms.h:42-70 | a permutation for any comparer, in at most count passes; sorted for a strict comparer; exactly the result of the passes; the bound never underflows and nothing outside the count changes |
| Algorithms.PassSorts | Include/XnAlgorithms.h:53-69 | with a strict comparer a pass brings one more element to its place, and one that swaps nothing has found all in order |
| Algorithms.EqualsAreReversed | Include/XnAlgorithms.h:55-62 | elements of which none is before another come out in the opposite order |
| Algorithms.SortedIsUnique | Include/XnAlgorithms.h:42-70 | by a total order there is only one sorted permutation |
| References.Drop | Source/OpenNI/XnOpenNI.cpp:1985-2028 | releasing a reference keeps the books and takes exactly one from the owners other than nodes, whatever is destroyed with it |
| References.Gone | Source/OpenNI/XnOpenNI.cpp:1897-1963 | destroying a node gives up its references to what it needs and to its context, and changes nobody else's |
| References.DropAll | Source/OpenNI/XnOpenNI.cpp:1938-1945 | the references of a list are given up one after the other, each owed until then |
| References.DropLosesOnly | Source/OpenNI/XnOpenNI.cpp:1938-1945 | however far a release cascades, only nodes of the same context go |
| References.WithNodeIsKept | Source/OpenNI/XnOpenNI.cpp:1782-1813 | a new node takes over the references to what it needs, and takes one to its context |
| Shutdowns.UsesAreChildren | Source/OpenNI/XnOpenNI.cpp:1622-1628 | the references that nodes have to a context are as many as its nodes |
| Shutdowns.SomeUnneeded | Source/OpenNI/XnOpenNI.cpp:455-467 | as long as the context has nodes the inner loop finds one that no other needs, so the loop ends |
| Shutdowns.DestroyedKeeps | Source/OpenNI/XnOpenNI.cpp:455-467 | the loop never changes a reference that is not one of its nodes', whatever nodes it picks |
| Shutdowns.ContextSurvives | Source/OpenNI/XnOpenNI.cpp:455-474 | after the loop the context still exists, to raise its event, if and only if it had more references than nodes |
| Shutdowns.DestroyedIsElsewhere | Source/OpenNI/XnOpenNI.cpp:455-467 | whatever nodes the loop picks first, the result is the same: the books of all other contexts as they were |
| Ownership.Count | Source/OpenNI/XnOpenNI.cpp:1965-1978 | a count is the number of owners, callers, wrappers and nodes, and never zero |
| Ownership.RaisedIsGood | Source/OpenNI/XnOpenNI.cpp:399-406 | adding a reference keeps all counts, names and registrations right |
| Ownership.ReleasedIsGood | Source/OpenNI/XnOpenNI.cpp:1985-2028 | a release keeps all counts and registrations right, also when it cascades |
| Ownership.NewNodeIsGood | Source/OpenNI/XnOpenNI.cpp:1782-1813 | so does the creation of a node with the nodes that it needs |
| Ownership.AttachedIsGood | Include/XnCppWrapper.h:1743-1757 | registering for shutdown makes the reference the wrapper's own |
| Ownership.DetachedIsGood | Include/XnCppWrapper.h:1734-1740 | unregistering leaves the wrapper's reference to be released |
| Ownership.DetachMeanwhile | Include/XnCppWrapper.h:1736-1738 | the context reference taken while unregistering changes nothing in the end |
| Ownership.AttachMeanwhile | Include/XnCppWrapper.h:1749-1754 | the context reference taken while registering changes nothing in the end |
| Ownership.ExistsIfAlive | Source/OpenNI/XnOpenNI.cpp:1965-2028 | what exists is exactly what callers and wrappers own, directly or through nodes that need it |
| Ownership.SafeIfAliveWithout | Include/XnCppWrapper.h:1725-1758 | the handle given to SetHandle survives the release of what the wrapper held if and only if it is alive without the wrapper |
| Ownership.OwnedElsewhereIsSafe | Include/XnCppWrapper.h:1760-1768 | so it does when a caller or another wrapper owns it, as in TakeOwnership |
| Ownership.HeldByOther | Include/XnCppWrapper.h:1647-1651 | so copies and assignments never use what is gone |
| Ownership.NeededGoesToo | Include/XnCppWrapper.h:1725-1758 | a good state in which the handle exists and SetHandle's release destroys it |
| Ownership.CountsAreDetermined | Source/OpenNI/XnOpenNI.cpp:1965-2028 | the counts follow from who owns what |
| Ownership.SetHandleIs | Include/XnCppWrapper.h:1725-1758 | SetHandle makes the wrapper hold the new handle and destroys exactly the nodes that nothing reaches then |
| Ownership.SetToSame | Include/XnCppWrapper.h:1727-1731 | setting the handle that is held already changes nothing, even when the wrapper is the only owner |
| Ownership.ContextCountsStay | Include/XnCppWrapper.h:1725-1758 | a node wrapper's SetHandle takes from a context that stays one reference for each of its nodes that is destroyed, and no other |
| Ownership.TakeOwnershipIs | Include/XnCppWrapper.h:1760-1768 | TakeOwnership uses up exactly one caller's reference, also when the wrapper holds the node already |
| Ownership.DestroyIs | Include/XnCppWrapper.h:1653-1656 | a destructor gives up exactly what the wrapper held |
| Ownership.ReleaseIs | Source/OpenNI/XnOpenNI.cpp:1985-2028 | a release destroys exactly the nodes that nothing reaches then |
| Ownership.ShutIsGood | Source/OpenNI/XnOpenNI.cpp:445-487 | a forced shutdown keeps every invariant for all that is left |
| Ownership.CanShutDownIfOwned | Source/OpenNI/XnOpenNI.cpp:455-474 | a context has more references than nodes if and only if a caller or a wrapper of it owns it |
| Ownership.ShutdownIsLoop | Source/OpenNI/XnOpenNI.cpp:455-474 | what the loop leaves, in whatever order, are the counts of the state after the shutdown; it gets there if and only if the context has more references than nodes |
| Ownership.ShutdownTooEarly | Source/OpenNI/XnOpenNI.cpp:455-474 | a good state in which the loop destroys the context before its event, with a wrapper still registered |
| Ownership.RegisteredAreHolders | Include/XnCppWrapper.h:1725-1758 | the wrappers called back by a context's shutdown are exactly those that hold it or a node of it |
| Ownership.ShutdownEmpties | Include/XnCppWrapper.h:1779-1783 | a forced shutdown empties exactly the wrappers registered with the context |
| Ownership.OneRegistration | Include/XnCppWrapper.h:1751-1752 | a wrapper that holds something has exactly one registration, at the context of what it holds, and another has none |
| Ownership.RegisteredExists | Source/OpenNI/XnOpenNI.cpp:408-422 | callbacks are registered only with contexts that exist, so none is left when one is destroyed |
| Ownership.RunIsMeaning | Include/XnCppWrapper.h:1637-1768 | over every run with any number of wrappers, counting references keeps exactly what is reached: it equals ownership without counts, where nodes that nothing reaches vanish; a forced shutdown is part of a run when somebody owns the context itself |
| Wrappers.Library.AddRef | Source/OpenNI/XnOpenNI.cpp:1965-1978 | refines Ownership.AddRef |
| Wrappers.Library.ReleaseContext | Source/OpenNI/XnOpenNI.cpp:408-422 | refines Ownership.Release for contexts; one that is destroyed has no callback left |
| Wrappers.Library.DestroyContext | Source/OpenNI/XnOpenNI.cpp:445-487 | a context destroyed at its last reference has no node left |
| Wrappers.Library.ReleaseNode | Source/OpenNI/XnOpenNI.cpp:1985-2028 | refines Ownership.Release for nodes |
| Wrappers.Library.DestroyNode | Source/OpenNI/XnOpenNI.cpp:1897-1963 | refines References.Gone: the node goes, then its references to what it needs, one by one and recursively, then the one to its context |
| Wrappers.Library.DropNeeded | Source/OpenNI/XnOpenNI.cpp:1938-1945 | refines References.DropAll, in the order of the list |
| Wrappers.Library.CreateContext | Source/OpenNI/XnOpenNI.cpp:141-154 | a new context has one reference, the caller's |
| Wrappers.Library.CreateNode | Source/OpenNI/XnOpenNI.cpp:1782-1813 | a new node has one reference, the caller's, keeps those taken to the nodes it needs, and takes one to its context |
| Wrappers.Library.GetRefContext | Source/OpenNI/XnOpenNI.cpp:2219-2231 | the node's context, with a reference more |
| Wrappers.Library.Register | Source/OpenNI/XnOpenNI.cpp:501-507 | a callback that nobody else has at the context; the wrapper owns its reference from then on |
| Wrappers.Library.Unregister | Source/OpenNI/XnOpenNI.cpp:509-523 | exactly that callback goes |
| Wrappers.Library.IsNeeded | Source/OpenNI/XnOpenNI.cpp:425-443 | whether some node needs the given one |
| Wrappers.Library.FindUnneeded | Source/OpenNI/XnOpenNI.cpp:459-466 | the inner loop terminates at a node that no other needs |
| Wrappers.Library.DestroyNodes | Source/OpenNI/XnOpenNI.cpp:455-467 | all nodes of the context go and no other; everything else is as it was, and the context still exists |
| Wrappers.Library.RaiseShutdown | Include/XnCppWrapper.h:1779-1783 | every wrapper registered with the context holds nothing afterwards |
| Wrappers.Library.ForceDestroy | Source/OpenNI/XnOpenNI.cpp:445-487 | refines Ownership.Shutdown, in the order of the code: nodes, callbacks, context |
| Wrappers.Library.ForceShutdown | Source/OpenNI/XnOpenNI.cpp:496-499 | the same; every wrapper's own fields still agree with what the library has noted of it, called back or not, and none holds anything that belonged to the context |
| Wrappers.NodeWrapper.SetHandle | Include/XnCppWrapper.h:1725-1758 | refines Ownership.SetHandle for every handle that survives the release, which is exactly when the code is safe |
| Wrappers.NodeWrapper.TakeOwnership | Include/XnCppWrapper.h:1760-1768 | refines Ownership.TakeOwnership; the caller's reference makes it safe |
| Wrappers.NodeWrapper.constructor | Include/XnCppWrapper.h:1637-1640 | a new wrapper that holds the handle |
| Wrappers.NodeWrapper.Copy | Include/XnCppWrapper.h:1642-1645 | a new wrapper that holds what the other one holds |
| Wrappers.NodeWrapper.Assign | Include/XnCppWrapper.h:1647-1651 | holds what the other one holds, also when it is the same wrapper |
| Wrappers.NodeWrapper.Destroy | Include/XnCppWrapper.h:1653-1656 | refines Ownership.Destroy |
| Wrappers.ContextWrapper.SetHandle | Include/XnCppWrapper.h:9488-9521 | refines Ownership.SetHandle for contexts |
| Wrappers.ContextWrapper.TakeOwnership | Include/XnCppWrapper.h:9523-9531 | refines Ownership.TakeOwnership for contexts |
| Wrappers.ContextWrapper.constructor | Include/XnCppWrapper.h:8664-8667 | a new wrapper that holds the context |
| Wrappers.ContextWrapper.Copy | Include/XnCppWrapper.h:8675-8678 | a new wrapper that holds what the other one holds |
| Wrappers.ContextWrapper.Assign | Include/XnCppWrapper.h:8688-8692 | holds what the other one holds |
| Wrappers.ContextWrapper.Destroy | Include/XnCppWrapper.h:8683-8686 | refines Ownership.Destroy |

## Left out

- Locks: the events and the node pool are used by one thread at a time; the lock of an event is held for a whole raise and can be taken again by the same thread, so only nested calls interleave.
- Events: nested Raise and Clear from a handler, and copying an event (which shares callback objects); `Events.XnEventT` holds its three lists as sequences, because `Lists.XnListT` is proved to refine them.
- Events.XnEventT.ApplyListChanges: takes it that the list nodes it needs can be allocated; the code ignores a failure there.
- Addresses: callback objects are named in the order of their allocation, so an address that is used again counts as a new name.
- Hashes.XnHashT.Assign: assignment of a table to itself, which empties it.
- `XnHashT::ConstIterator::operator--`, which on entering an earlier bin lands on its first entry; backward iteration is proved for `XnHash`.
- PooledHashes.XnHash.Set: its bins are the lists of `Lists.XnListT`, which are the same rings as those of `XnList`, and an entry's key node and value node are a pair in its list node; the pool counts all three. The allocation of a new bin's base node does not fail, as the code takes for granted.
- `XnHash`: the destructor on a non-empty hash, SetHashFunction and SetCompareFunction, and the typed classes that macros declare.
- PooledLists.NodePool: the pool is the number of nodes in use; its free list, its growth and its start-up are not modelled.
- Element counts are unbounded numbers; the wrap-around of 32-bit counts is modelled for capacities, bit indices and bit set sizes only.
- Arrays.XnArray.Reserve: requests above 2^31 of an array with elements, for which the code allocates nothing and then copies the elements into it; the other operations of the array leave out the sizes for which `CanHold` is false in the same way, where the code goes on to write outside the buffer or to count elements it has no room for.
- `XnArray::SetData` from the array's own buffer, and `XnBitSet::Reserve`.
- BitSets.XnBitSet.SetDataBytes: buffers shorter than four bytes, which the code reads past their end.
- Ownership: what handlers of node destruction events do; reference counts above 2^32; `xnAddNeededNode` and `xnRemoveNeededNode`, so what a node needs is fixed when it is created, and nodes are named in the order of their creation.
- Ownership.ShutIsGood: references that callers still have to what a forced shutdown destroyed are void, as the documentation of the function says.
- `Context`: its deprecated ways, in which releasing shuts down; capabilities, generators and node information, which only forward to the C library.
- Wrappers.Library.ForceShutdown: contexts that have only as many references as nodes, which the code goes on using after the last node has destroyed them; the condition is exact by `Shutdowns.ContextSurvives`.
- Wrappers.Library.Register: registering does not fail, as the code asserts; the event behind it is that of `Events.XnEventT`, reduced here to which callbacks are registered.
- Stacks and queues, strings, files, logging, licensing, enumeration and all module interfaces.
